/** A block of the ledger (core/block.py): at most one transaction, a link to the
    previous block, a nonce for proof of work and the stored hash. */
module Blocks {
  import opened Common
  import Transactions

  type Transaction = Transactions.Transaction

  /** Every field of a block except its stored hash: what the digest is computed over. */
  datatype HashInput = HashInput(
    index: int, transaction: Option<Transaction>, previousHash: string,
    timestamp: real, nonce: int, miner: Option<string>)

  /** The SHA-256 hex digest of the sorted-key JSON of a HashInput, left
      uninterpreted: every operation that hashes takes the digest as a parameter. */
  type Digest = HashInput -> string

  datatype Block = Block(
    index: int, transaction: Option<Transaction>, previousHash: string,
    timestamp: real, nonce: int, miner: Option<string>, hash: string)
  {
    function Fields(): HashInput {
      HashInput(index, transaction, previousHash, timestamp, nonce, miner)
    }
  }

  /** `calculate_hash`: the digest of every field but the stored hash. */
  function CalculateHash(H: Digest, b: Block): (r: string)
    ensures r == H(HashInput(b.index, b.transaction, b.previousHash, b.timestamp, b.nonce, b.miner))
  {
    H(b.Fields())
  }

  /** The hash the block would have with nonce `n` and its other fields unchanged. */
  function HashWithNonce(H: Digest, b: Block, n: int): string {
    H(b.Fields().(nonce := n))
  }

  /** The first `d` characters of `h` are all '0' (`h[:d] == '0' * d`). */
  predicate MeetsTarget(h: string, d: nat) {
    d <= |h| && forall i :: 0 <= i < d ==> h[i] == '0'
  }

  function Zeros(d: nat): (z: string)
    ensures |z| == d && forall i :: 0 <= i < d ==> z[i] == '0'
  {
    if d == 0 then "" else Zeros(d - 1) + "0"
  }

  /** MeetsTarget is Python's slice comparison `h[:d] == '0' * d`, in which the
      slice is cut short when `h` has fewer than `d` characters. */
  lemma MeetsTargetIsSliceTest(h: string, d: nat)
    ensures MeetsTarget(h, d) <==> h[..Min(d, |h|)] == Zeros(d)
  {
    if MeetsTarget(h, d) {
      assert h[..d] == Zeros(d);
    }
  }

  /** Every hash meets difficulty 0, and meeting a difficulty means meeting every lower one. */
  lemma MeetsTargetMonotone(h: string, d: nat, e: nat)
    requires e <= d && MeetsTarget(h, d)
    ensures MeetsTarget(h, e) && MeetsTarget(h, 0)
  {
  }

  /** The hash depends only on the fields other than the stored hash. */
  lemma HashIgnoresStoredHash(H: Digest, b: Block, h: string)
    ensures CalculateHash(H, b.(hash := h)) == CalculateHash(H, b)
  {
  }

  /** The constructor: a missing or zero timestamp becomes `now`, and the stored
      hash is computed from the other fields. */
  function New(H: Digest, index: int, transaction: Option<Transaction>, previousHash: string,
               timestamp: Option<real>, nonce: int, miner: Option<string>, now: real): (b: Block)
    ensures b.index == index && b.transaction == transaction && b.previousHash == previousHash
    ensures b.nonce == nonce && b.miner == miner
    ensures timestamp.Some? && timestamp.value != 0.0 ==> b.timestamp == timestamp.value
    ensures timestamp.None? || timestamp.value == 0.0 ==> b.timestamp == now
    ensures b.hash == CalculateHash(H, b)
  {
    var fields := HashInput(index, transaction, previousHash, OrNow(timestamp, now), nonce, miner);
    Block(index, transaction, previousHash, OrNow(timestamp, now), nonce, miner, H(fields))
  }

  /** `mine_block(d)` ends: its stored hash already meets the target, or some
      larger nonce gives a hash that does. SHA-256 promises nothing of the kind;
      the source's loop simply runs until it finds one. */
  ghost predicate Mineable(H: Digest, b: Block, d: nat) {
    MeetsTarget(b.hash, d) || exists n :: n > b.nonce && MeetsTarget(HashWithNonce(H, b, n), d)
  }

  /** `mine_block(d)`: while the stored hash misses the target, increment the
      nonce and recompute the hash. Only the nonce and the hash change; the nonce
      found is the least one above the starting nonce that meets the target. */
  method MineBlock(H: Digest, b: Block, d: nat) returns (m: Block)
    requires Mineable(H, b, d)
    ensures m == b.(nonce := m.nonce, hash := m.hash)
    ensures m.nonce >= b.nonce && MeetsTarget(m.hash, d)
    ensures MeetsTarget(b.hash, d) ==> m == b
    ensures !MeetsTarget(b.hash, d) ==> m.nonce > b.nonce && m.hash == CalculateHash(H, m)
    ensures forall n :: b.nonce < n < m.nonce ==> !MeetsTarget(HashWithNonce(H, b, n), d)
    ensures b.hash == CalculateHash(H, b) ==> m.hash == CalculateHash(H, m)
  {
    ghost var bound := b.nonce;
    if !MeetsTarget(b.hash, d) {
      bound :| bound > b.nonce && MeetsTarget(HashWithNonce(H, b, bound), d);
    }
    m := b;
    while !MeetsTarget(m.hash, d)
      invariant m == b.(nonce := m.nonce, hash := m.hash)
      invariant b.nonce <= m.nonce <= bound
      invariant m.nonce == b.nonce ==> m.hash == b.hash
      invariant m.nonce > b.nonce ==> m.hash == HashWithNonce(H, b, m.nonce)
      invariant bound == b.nonce ==> MeetsTarget(b.hash, d)
      invariant bound > b.nonce ==> MeetsTarget(HashWithNonce(H, b, bound), d)
      invariant forall n :: b.nonce < n < m.nonce ==> !MeetsTarget(HashWithNonce(H, b, n), d)
      decreases bound - m.nonce
    {
      m := m.(nonce := m.nonce + 1);
      m := m.(hash := CalculateHash(H, m));
    }
  }

  /** The seven keys of a serialised block. */
  const BlockKeys: set<string> := {"index", "transaction", "previous_hash", "timestamp", "nonce", "hash", "miner"}

  function ToDict(b: Block): (d: Dict)
    ensures d.Keys == BlockKeys
    ensures d["transaction"] == if b.transaction.Some? then Obj(Transactions.ToDict(b.transaction.value)) else Null
  {
    map["index" := Int(b.index),
        "transaction" := (if b.transaction.Some? then Obj(Transactions.ToDict(b.transaction.value)) else Null),
        "previous_hash" := Str(b.previousHash),
        "timestamp" := Num(b.timestamp),
        "nonce" := Int(b.nonce),
        "hash" := Str(b.hash),
        "miner" := (if b.miner.Some? then Str(b.miner.value) else Null)]
  }

  /** The `transaction` entry: absent or falsy means no transaction. */
  function TransactionField(d: Dict, now: real): (r: Result<Option<Transaction>, DecodeError>)
    ensures ("transaction" !in d || !Truthy(d["transaction"])) ==> r == Ok(None)
  {
    if "transaction" !in d || !Truthy(d["transaction"]) then Ok(None)
    else match d["transaction"]
      case Obj(m) =>
        var t :- Transactions.FromDict(m, now);
        Ok(Some(t))
      case _ => Err(WrongType("transaction"))
  }

  /** The `miner` entry, read with `data.get`: absent or null means no miner. */
  function MinerField(d: Dict): (r: Result<Option<string>, DecodeError>)
    ensures ("miner" !in d || d["miner"] == Null) ==> r == Ok(None)
  {
    if "miner" !in d || d["miner"] == Null then Ok(None)
    else if d["miner"].Str? then Ok(Some(d["miner"].s))
    else Err(WrongType("miner"))
  }

  /** The static `from_dict`: builds the block through the constructor (so a zero
      timestamp becomes `now`) and then overwrites the recomputed hash with the
      stored one, without checking that the two agree. */
  function FromDict(d: Dict, now: real): (r: Result<Block, DecodeError>)
    ensures r.Ok? ==> "hash" in d && d["hash"] == Str(r.value.hash)
    ensures r.Ok? ==> "index" in d && d["index"] == Int(r.value.index)
    ensures r.Ok? ==> "nonce" in d && d["nonce"] == Int(r.value.nonce)
    ensures r.Ok? ==> "previous_hash" in d && d["previous_hash"] == Str(r.value.previousHash)
    ensures r.Ok? && ("transaction" !in d || !Truthy(d["transaction"])) ==> r.value.transaction == None
    ensures r.Ok? && ("miner" !in d || d["miner"] == Null) ==> r.value.miner == None
  {
    var transaction :- TransactionField(d, now);
    var index :- IntField(d, "index");
    var previousHash :- StrField(d, "previous_hash");
    var timestamp :- NumField(d, "timestamp");
    var nonce :- IntField(d, "nonce");
    var miner :- MinerField(d);
    // the constructor's recomputed hash is overwritten by the stored one
    var hash :- StrField(d, "hash");
    Ok(Block(index, transaction, previousHash, OrNow(Some(timestamp), now), nonce, miner, hash))
  }

  /** Both timestamps are non-zero, so decoding keeps them. */
  predicate Stamped(b: Block) {
    b.timestamp != 0.0 && (b.transaction.Some? ==> b.transaction.value.timestamp != 0.0)
  }

  /** Decoding an encoded block gives back every field, the stored hash included,
      whether or not that hash matches the other fields. */
  lemma RoundTrip(b: Block, now: real)
    requires Stamped(b)
    ensures FromDict(ToDict(b), now) == Ok(b)
  {
    var d := ToDict(b);
    if b.transaction.Some? {
      var m := Transactions.ToDict(b.transaction.value);
      assert "sender" in m;
      Transactions.RoundTrip(b.transaction.value, now);
      assert TransactionField(d, now) == Ok(b.transaction);
    }
  }
}
