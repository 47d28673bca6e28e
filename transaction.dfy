/** A transfer of coins from one account to another (core/transaction.py). */
module Transactions {
  import opened Common

  datatype Transaction = Transaction(sender: string, receiver: string, amount: real, timestamp: real)

  /** The four keys of a serialised transaction. */
  const TxKeys: set<string> := {"sender", "receiver", "amount", "timestamp"}

  /** The constructor. It validates nothing; a missing or zero timestamp (Python's
      `timestamp or datetime.now().timestamp()`) is replaced by the clock reading `now`. */
  function New(sender: string, receiver: string, amount: real, timestamp: Option<real>, now: real): (t: Transaction)
    ensures t.sender == sender && t.receiver == receiver && t.amount == amount
    ensures timestamp.Some? && timestamp.value != 0.0 ==> t.timestamp == timestamp.value
    ensures timestamp.None? || timestamp.value == 0.0 ==> t.timestamp == now
  {
    Transaction(sender, receiver, amount, OrNow(timestamp, now))
  }

  function ToDict(t: Transaction): (d: Dict)
    ensures d.Keys == TxKeys
  {
    map["sender" := Str(t.sender), "receiver" := Str(t.receiver),
        "amount" := Num(t.amount), "timestamp" := Num(t.timestamp)]
  }

  /** The static `from_dict`: reads the four keys in order and passes them to the
      constructor, so a zero timestamp is replaced by `now` here too. */
  function FromDict(d: Dict, now: real): (r: Result<Transaction, DecodeError>)
    ensures r.Ok? <==> StrField(d, "sender").Ok? && StrField(d, "receiver").Ok?
                       && NumField(d, "amount").Ok? && NumField(d, "timestamp").Ok?
    ensures r.Ok? ==> d["sender"] == Str(r.value.sender) && d["receiver"] == Str(r.value.receiver)
    ensures r.Ok? ==> r.value.amount == NumField(d, "amount").value
    ensures r.Ok? && NumField(d, "timestamp").value != 0.0 ==> r.value.timestamp == NumField(d, "timestamp").value
    ensures r.Ok? && NumField(d, "timestamp").value == 0.0 ==> r.value.timestamp == now
  {
    var sender :- StrField(d, "sender");
    var receiver :- StrField(d, "receiver");
    var amount :- NumField(d, "amount");
    var timestamp :- NumField(d, "timestamp");
    Ok(New(sender, receiver, amount, Some(timestamp), now))
  }

  /** Decoding an encoded transaction gives it back, except that a zero timestamp
      is replaced by the clock reading. */
  lemma RoundTrip(t: Transaction, now: real)
    ensures FromDict(ToDict(t), now) == Ok(if t.timestamp != 0.0 then t else t.(timestamp := now))
  {
  }
}
