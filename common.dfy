/** Shared value types: optional values, results, the JSON-like values that the
    ledger's dictionaries hold, and the configuration constants. */
module Common {

  datatype Option<+T> = None | Some(value: T)

  /** A result that is either a value or an error; usable with `:-`. */
  datatype Result<+T, +E> = Ok(value: T) | Err(error: E) {
    predicate IsFailure() { Err? }

    function PropagateFailure<U>(): Result<U, E>
      requires Err?
    {
      Err(error)
    }

    function Extract(): T
      requires Ok?
    {
      value
    }
  }

  /** Why decoding a dictionary failed: a key that is absent (Python's KeyError)
      or present with a value of the wrong kind. */
  datatype DecodeError = MissingKey(key: string) | WrongType(key: string)

  /** A JSON value as it appears in a serialised transaction, block or chain. */
  datatype Value =
    | Null
    | Bool(b: bool)
    | Int(i: int)
    | Num(x: real)
    | Str(s: string)
    | Obj(fields: map<string, Value>)

  type Dict = map<string, Value>

  /** Python truthiness of a JSON value (`if value:`). */
  predicate Truthy(v: Value) {
    match v
    case Null => false
    case Bool(b) => b
    case Int(i) => i != 0
    case Num(x) => x != 0.0
    case Str(s) => s != ""
    case Obj(m) => m != map[]
  }

  /** `d[key]` read as a string. */
  function StrField(d: Dict, key: string): (r: Result<string, DecodeError>)
    ensures r.Ok? <==> key in d && d[key].Str?
    ensures r.Ok? ==> d[key] == Str(r.value)
  {
    if key !in d then Err(MissingKey(key))
    else if d[key].Str? then Ok(d[key].s)
    else Err(WrongType(key))
  }

  /** `d[key]` read as an integer. */
  function IntField(d: Dict, key: string): (r: Result<int, DecodeError>)
    ensures r.Ok? <==> key in d && d[key].Int?
    ensures r.Ok? ==> d[key] == Int(r.value)
  {
    if key !in d then Err(MissingKey(key))
    else if d[key].Int? then Ok(d[key].i)
    else Err(WrongType(key))
  }

  /** `d[key]` read as a number; JSON integers are numbers too. */
  function NumField(d: Dict, key: string): (r: Result<real, DecodeError>)
    ensures r.Ok? <==> key in d && (d[key].Num? || d[key].Int?)
    ensures r.Ok? && d[key].Num? ==> r.value == d[key].x
    ensures r.Ok? && d[key].Int? ==> r.value == d[key].i as real
  {
    if key !in d then Err(MissingKey(key))
    else if d[key].Num? then Ok(d[key].x)
    else if d[key].Int? then Ok(d[key].i as real)
    else Err(WrongType(key))
  }

  /** Python's `timestamp or datetime.now().timestamp()`: a missing or zero
      timestamp is replaced by the clock reading `now`. */
  function OrNow(timestamp: Option<real>, now: real): real {
    if timestamp.Some? && timestamp.value != 0.0 then timestamp.value else now
  }

  function Min(a: int, b: int): int { if a < b then a else b }

  function Digit(n: nat): char
    requires n < 10
  {
    "0123456789"[n]
  }

  function Decimal(n: nat): string
  {
    if n < 10 then [Digit(n)] else Decimal(n / 10) + [Digit(n % 10)]
  }

  /** Python's `str(i)` for an integer. */
  function IntToString(i: int): string
  {
    if i < 0 then "-" + Decimal(-i) else Decimal(i)
  }
}

/** The constants of config.py that the core uses. */
module Config {
  const DIFFICULTY: nat := 4
  const MINING_REWARD: real := 10.0
  const INITIAL_BALANCE: real := 100.0
  const MAX_PEERS: nat := 8
}
