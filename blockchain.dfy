/** The chain of blocks and the pool of pending transactions (core/blockchain.py). */
module Chain {
  import opened Common
  import opened Config
  import Transactions
  import opened Blocks

  type Transaction = Transactions.Transaction

  /** Senders whose transactions bypass the balance check. */
  predicate IsMint(sender: string) {
    sender == "System" || sender == "Genesis"
  }

  /** What one transaction does to the balance of `a`: the sender loses the
      amount and the receiver gains it (both, when they are the same account). */
  function Delta(t: Transaction, a: string): real {
    (if t.receiver == a then t.amount else 0.0) - (if t.sender == a then t.amount else 0.0)
  }

  function BlockDelta(b: Block, a: string): real {
    if b.transaction.Some? then Delta(b.transaction.value, a) else 0.0
  }

  /** Confirmed balance: the sum over the transactions held in chain blocks. */
  function Balance(c: seq<Block>, a: string): real {
    if c == [] then 0.0 else Balance(c[..|c| - 1], a) + BlockDelta(c[|c| - 1], a)
  }

  /** Pending balance: the same sum over the pending pool. */
  function PendingBalance(p: seq<Transaction>, a: string): real {
    if p == [] then 0.0 else PendingBalance(p[..|p| - 1], a) + Delta(p[|p| - 1], a)
  }

  lemma BalanceAppend(c: seq<Block>, b: Block, a: string)
    ensures Balance(c + [b], a) == Balance(c, a) + BlockDelta(b, a)
  {
    assert (c + [b])[..|c|] == c;
  }

  lemma PendingAppend(p: seq<Transaction>, t: Transaction, a: string)
    ensures PendingBalance(p + [t], a) == PendingBalance(p, a) + Delta(t, a)
  {
    assert (p + [t])[..|p|] == p;
  }

  /** Taking the first transaction off the pool removes exactly its share. */
  lemma {:induction false} PendingFirst(p: seq<Transaction>, a: string)
    requires p != []
    ensures PendingBalance(p, a) == Delta(p[0], a) + PendingBalance(p[1..], a)
  {
    if |p| > 1 {
      var init := p[..|p| - 1];
      PendingFirst(init, a);
      assert init[1..] == p[1..][..|p[1..]| - 1];
    } else {
      assert p[1..] == [];
    }
  }

  /** The admission rule of `add_transaction`: mint transactions always pass;
      any other needs confirmed plus pending balance of at least the amount. */
  predicate Admissible(c: seq<Block>, p: seq<Transaction>, t: Transaction) {
    IsMint(t.sender) || Balance(c, t.sender) + PendingBalance(p, t.sender) >= t.amount
  }

  /** The double-spend guard: once one transfer is pending, a second transfer by
      the same sender is refused when the two together exceed what the sender
      had available, whichever of the two came first. */
  lemma DoubleSpendRefused(c: seq<Block>, p: seq<Transaction>, t1: Transaction, t2: Transaction)
    requires t1.sender == t2.sender && !IsMint(t1.sender) && t1.receiver != t1.sender
    requires t1.amount + t2.amount > Balance(c, t1.sender) + PendingBalance(p, t1.sender)
    ensures !Admissible(c, p + [t1], t2)
  {
    PendingAppend(p, t1, t1.sender);
  }

  /** Available balance (confirmed plus pending) of `a`. */
  function Available(c: seq<Block>, p: seq<Transaction>, a: string): real {
    Balance(c, a) + PendingBalance(p, a)
  }

  /** With non-negative amounts, admitting a transaction never drives any
      non-mint account's available balance below zero. */
  lemma GuardKeepsAvailableNonNegative(c: seq<Block>, p: seq<Transaction>, t: Transaction, a: string)
    requires t.amount >= 0.0 && Admissible(c, p, t)
    requires !IsMint(a) && Available(c, p, a) >= 0.0
    ensures Available(c, p + [t], a) >= 0.0
  {
    PendingAppend(p, t, a);
  }

  /** Amounts are not validated: a negative transfer passes the guard and
      lowers the receiver's available balance without the receiver's part. */
  lemma NegativeAmountDrainsReceiver(g: Block)
    requires g.transaction == Some(Transactions.Transaction("System", "Alice", 100.0, 1.0))
    ensures var t := Transactions.Transaction("Alice", "Bob", -10.0, 2.0);
            Admissible([g], [], t) && Available([g], [t], "Bob") == -10.0
  {
    var t := Transactions.Transaction("Alice", "Bob", -10.0, 2.0);
    assert [g][..0] == [] && [] + [t] == [t];
    assert Balance([g], "Bob") == 0.0;
    assert Balance([g], "Alice") == 100.0;
    PendingAppend([], t, "Bob");
    assert PendingBalance([t], "Bob") == -10.0;
  }

  /** Mining moves the first pending transaction into a block: confirmed plus
      pending balance of every account is unchanged by that move, and the
      reward, when there is one, adds its amount for the miner only. */
  lemma MiningConservesAvailable(c: seq<Block>, p: seq<Transaction>, b: Block, reward: seq<Transaction>, a: string)
    requires p != [] && b.transaction == Some(p[0]) && |reward| <= 1
    ensures Available(c + [b], p[1..] + reward, a)
            == Available(c, p, a) + (if reward == [] then 0.0 else Delta(reward[0], a))
  {
    BalanceAppend(c, b, a);
    PendingFirst(p, a);
    if reward != [] {
      assert reward == [reward[0]];
      PendingAppend(p[1..], reward[0], a);
    } else {
      assert p[1..] + reward == p[1..];
    }
  }

  /** The owner of a chain, when it has one: `if self.owner_address:` treats the
      empty string as no owner. */
  predicate HasOwner(owner: Option<string>) {
    owner.Some? && owner.value != ""
  }

  function GenesisTransaction(owner: Option<string>, now: real): Transaction {
    if HasOwner(owner) then Transactions.New("System", owner.value, INITIAL_BALANCE, Some(now), now)
    else Transactions.New("Genesis", "System", 0.0, Some(now), now)
  }

  /** The genesis block before mining: index 0, previous hash "0", no miner. */
  function GenesisBlock(H: Digest, owner: Option<string>, now: real): Block {
    Blocks.New(H, 0, Some(GenesisTransaction(owner, now)), "0", Some(now), 0, None, now)
  }

  /** The genesis endowment: the owner holds INITIAL_BALANCE (unless the owner
      is the "System" account itself, which both pays and receives it), and
      every other ordinary account holds nothing. */
  lemma GenesisBalance(g: Block, owner: Option<string>, now: real, a: string)
    requires g.transaction == Some(GenesisTransaction(owner, now))
    ensures HasOwner(owner) && owner.value != "System" ==> Balance([g], owner.value) == INITIAL_BALANCE
    ensures !IsMint(a) && !(HasOwner(owner) && a == owner.value) ==> Balance([g], a) == 0.0
  {
    assert [g][..0] == [];
  }

  /** The mining-reward scenario of the balance tests: Alice, owner of the
      genesis endowment, pays Bob 50; once that block is mined Bob holds 50
      confirmed and the pending reward of 10, and 60 once the reward is mined. */
  lemma MiningRewardScenario(g: Block, b1: Block, b2: Block, t: Transaction, now: real, later: real)
    requires g.transaction == Some(GenesisTransaction(Some("Alice"), now))
    requires t == Transactions.New("Alice", "Bob", 50.0, None, now)
    requires b1.transaction == Some(t) && b2.transaction == Some(Reward("Bob", later))
    ensures Admissible([g], [], t)
    ensures Balance([g, b1], "Alice") == 50.0 && Balance([g, b1], "Bob") == 50.0
    ensures PendingBalance([Reward("Bob", later)], "Bob") == MINING_REWARD
    ensures Balance([g, b1, b2], "Bob") == 60.0
  {
    assert [g][..0] == [];
    BalanceAppend([], g, "Alice");
    BalanceAppend([], g, "Bob");
    assert [] + [g] == [g];
    assert Balance([g], "Alice") == 100.0 && Balance([g], "Bob") == 0.0;
    BalanceAppend([g], b1, "Alice");
    BalanceAppend([g], b1, "Bob");
    assert [g] + [b1] == [g, b1];
    BalanceAppend([g, b1], b2, "Bob");
    assert [g, b1] + [b2] == [g, b1, b2];
    assert [Reward("Bob", later)][..0] == [];
  }

  /** The block that mining the pending transaction `t` starts from. */
  function NextBlock(H: Digest, c: seq<Block>, t: Transaction, now: real): Block
    requires c != []
  {
    Blocks.New(H, |c|, Some(t), c[|c| - 1].hash, None, 0, None, now)
  }

  /** The reward paid to the miner of a non-mint transaction. */
  function Reward(miner: string, now: real): Transaction {
    Transactions.New("System", miner, MINING_REWARD, None, now)
  }

  /** The three checks of `is_chain_valid` for block `i`. */
  predicate ValidAt(H: Digest, c: seq<Block>, i: int, d: nat)
    requires 1 <= i < |c|
  {
    c[i].hash == CalculateHash(H, c[i]) && c[i].previousHash == c[i - 1].hash && MeetsTarget(c[i].hash, d)
  }

  /** `is_chain_valid`: every block after the first passes the three checks;
      the genesis block is not examined at all. */
  predicate ChainValid(H: Digest, c: seq<Block>, d: nat) {
    forall i :: 1 <= i < |c| ==> ValidAt(H, c, i, d)
  }

  lemma GenesisOnlyChainIsValid(H: Digest, g: Block, d: nat)
    ensures ChainValid(H, [g], d)
  {
  }

  /** Appending a block that links to the tip and carries a correct hash that
      meets the target keeps a valid chain valid. */
  lemma ValidAppend(H: Digest, c: seq<Block>, b: Block, d: nat)
    requires ChainValid(H, c, d) && c != []
    requires b.previousHash == c[|c| - 1].hash && b.hash == CalculateHash(H, b) && MeetsTarget(b.hash, d)
    ensures ChainValid(H, c + [b], d)
  {
    var c' := c + [b];
    forall i | 1 <= i < |c'|
      ensures ValidAt(H, c', i, d)
    {
      if i < |c| {
        assert ValidAt(H, c, i, d);
      }
    }
  }

  /** `to_list`: every block as a dictionary. */
  function ToList(c: seq<Block>): (data: seq<Dict>)
    ensures |data| == |c| && forall i :: 0 <= i < |c| ==> data[i] == Blocks.ToDict(c[i])
  {
    seq(|c|, i requires 0 <= i < |c| => Blocks.ToDict(c[i]))
  }

  /** `[Block.from_dict(b) for b in data]`: decodes every block, failing at the
      first one that does not decode. */
  function DecodeChain(data: seq<Dict>, now: real): (r: Result<seq<Block>, DecodeError>)
    ensures r.Ok? <==> forall i :: 0 <= i < |data| ==> Blocks.FromDict(data[i], now).Ok?
    ensures r.Ok? ==> |r.value| == |data|
                      && forall i :: 0 <= i < |data| ==> Blocks.FromDict(data[i], now) == Ok(r.value[i])
    ensures r.Err? ==> exists i :: 0 <= i < |data| && Blocks.FromDict(data[i], now) == Err(r.error)
                                   && forall j :: 0 <= j < i ==> Blocks.FromDict(data[j], now).Ok?
  {
    if data == [] then Ok([])
    else
      var b :- Blocks.FromDict(data[0], now);
      var rest :- DecodeChain(data[1..], now);
      assert forall i :: 1 <= i < |data| ==> data[i] == data[1..][i - 1];
      Ok([b] + rest)
  }

  predicate AllStamped(c: seq<Block>) {
    forall i :: 0 <= i < |c| ==> Stamped(c[i])
  }

  /** Saving a chain with `to_list` and loading it back gives the same blocks,
      stored hashes included, and hence the same confirmed balances. */
  lemma ListRoundTrip(c: seq<Block>, now: real, a: string)
    requires AllStamped(c)
    ensures DecodeChain(ToList(c), now) == Ok(c)
    ensures Balance(DecodeChain(ToList(c), now).value, a) == Balance(c, a)
  {
    var data := ToList(c);
    forall i | 0 <= i < |c|
      ensures Blocks.FromDict(data[i], now) == Ok(c[i])
    {
      Blocks.RoundTrip(c[i], now);
    }
    var r := DecodeChain(data, now);
    assert r.Ok?;
    assert forall i :: 0 <= i < |c| ==> r.value[i] == c[i];
    assert r.value == c;
  }

  datatype Admission = Admitted | InsufficientBalance(confirmed: real, pending: real, required: real)

  datatype MineOutcome =
    | NothingToMine      // the pool was empty: None is returned
    | NoLatestBlock      // the chain was empty: the tip's hash cannot be read
    | Mined(block: Block)

  class Blockchain {
    const digest: Digest
    const difficulty: nat := DIFFICULTY
    const ownerAddress: Option<string>
    var chain: seq<Block>
    var pending: seq<Transaction>

    /** The constructor with `create_genesis_block`: one mined genesis block. */
    constructor (H: Digest, owner: Option<string>, now: real)
      requires Mineable(H, GenesisBlock(H, owner, now), DIFFICULTY)
      ensures digest == H && ownerAddress == owner
      ensures pending == [] && |chain| == 1
      ensures chain[0] == GenesisBlock(H, owner, now).(nonce := chain[0].nonce, hash := chain[0].hash)
      ensures chain[0].index == 0 && chain[0].previousHash == "0"
      ensures chain[0].transaction == Some(GenesisTransaction(owner, now))
      ensures chain[0].hash == CalculateHash(H, chain[0]) && MeetsTarget(chain[0].hash, DIFFICULTY)
      ensures chain[0].nonce >= 0
      ensures MeetsTarget(GenesisBlock(H, owner, now).hash, DIFFICULTY) ==> chain[0] == GenesisBlock(H, owner, now)
      ensures forall n :: 0 < n < chain[0].nonce ==>
                !MeetsTarget(HashWithNonce(H, GenesisBlock(H, owner, now), n), DIFFICULTY)
      ensures ChainValid(H, chain, DIFFICULTY)
    {
      digest := H;
      ownerAddress := owner;
      pending := [];
      var g := MineBlock(H, GenesisBlock(H, owner, now), DIFFICULTY);
      chain := [g];
    }

    /** The state `from_list` builds: the given blocks and an empty pool. */
    constructor Loaded(H: Digest, blocks: seq<Block>, owner: Option<string>)
      ensures digest == H && ownerAddress == owner && chain == blocks && pending == []
    {
      digest := H;
      ownerAddress := owner;
      chain := blocks;
      pending := [];
    }

    /** `from_list`: decodes the blocks one by one without creating a genesis
        block; a block that does not decode raises, and no chain is produced. */
    static method FromList(H: Digest, data: seq<Dict>, owner: Option<string>, now: real)
      returns (r: Result<Blockchain, DecodeError>)
      ensures r.Ok? <==> DecodeChain(data, now).Ok?
      ensures r.Err? ==> DecodeChain(data, now) == Err(r.error)
      ensures r.Ok? ==> fresh(r.value) && r.value.digest == H && r.value.ownerAddress == owner
      ensures r.Ok? ==> r.value.chain == DecodeChain(data, now).value && r.value.pending == []
    {
      var blocks: seq<Block> := [];
      for i := 0 to |data|
        invariant |blocks| == i
        invariant forall j :: 0 <= j < i ==> Blocks.FromDict(data[j], now) == Ok(blocks[j])
      {
        var b := Blocks.FromDict(data[i], now);
        if b.Err? {
          return Err(b.error);
        }
        blocks := blocks + [b.value];
      }
      var bc := new Blockchain.Loaded(H, blocks, owner);
      r := Ok(bc);
    }

    /** `get_latest_block`. */
    function LatestBlock(): (r: Option<Block>)
      reads this
      ensures r.None? <==> chain == []
      ensures r.Some? ==> r.value == chain[|chain| - 1]
    {
      if chain == [] then None else Some(chain[|chain| - 1])
    }

    /** `get_balance`: the accumulator loop over the chain. */
    method GetBalance(a: string) returns (balance: real)
      ensures balance == Balance(chain, a)
    {
      balance := 0.0;
      for i := 0 to |chain|
        invariant balance == Balance(chain[..i], a)
      {
        var b := chain[i];
        if b.transaction.Some? {
          if b.transaction.value.sender == a {
            balance := balance - b.transaction.value.amount;
          }
          if b.transaction.value.receiver == a {
            balance := balance + b.transaction.value.amount;
          }
        }
        assert chain[..i + 1] == chain[..i] + [b];
        BalanceAppend(chain[..i], b, a);
      }
      assert chain[..|chain|] == chain;
    }

    /** `get_pending_balance`: the accumulator loop over the pool. */
    method GetPendingBalance(a: string) returns (balance: real)
      ensures balance == PendingBalance(pending, a)
    {
      balance := 0.0;
      for i := 0 to |pending|
        invariant balance == PendingBalance(pending[..i], a)
      {
        var t := pending[i];
        if t.sender == a {
          balance := balance - t.amount;
        }
        if t.receiver == a {
          balance := balance + t.amount;
        }
        assert pending[..i + 1] == pending[..i] + [t];
        PendingAppend(pending[..i], t, a);
      }
      assert pending[..|pending|] == pending;
    }

    /** `get_total_balance`: (confirmed, pending, confirmed + pending). */
    method GetTotalBalance(a: string) returns (confirmed: real, pendingBalance: real, total: real)
      ensures confirmed == Balance(chain, a) && pendingBalance == PendingBalance(pending, a)
      ensures total == Available(chain, pending, a)
    {
      confirmed := GetBalance(a);
      pendingBalance := GetPendingBalance(a);
      total := confirmed + pendingBalance;
    }

    /** `add_transaction`: appends an admissible transaction to the pool and
        refuses any other, leaving the pool as it was. */
    method AddTransaction(t: Transaction) returns (r: Admission)
      modifies this`pending
      ensures r.Admitted? <==> Admissible(chain, old(pending), t)
      ensures pending == if r.Admitted? then old(pending) + [t] else old(pending)
      ensures r.InsufficientBalance? ==>
                r.confirmed == Balance(chain, t.sender) && r.pending == PendingBalance(old(pending), t.sender)
                && r.required == t.amount
    {
      if IsMint(t.sender) {
        pending := pending + [t];
        return Admitted;
      }
      var confirmed := GetBalance(t.sender);
      var pend := GetPendingBalance(t.sender);
      if confirmed + pend < t.amount {
        return InsufficientBalance(confirmed, pend, t.amount);
      }
      pending := pending + [t];
      r := Admitted;
    }

    /** `mine_pending_transactions`: pops the first pending transaction, mines
        one block holding it on top of the tip, and queues a reward for the miner
        unless the mined transaction was itself a mint. */
    method MinePendingTransactions(miner: string, now: real) returns (r: MineOutcome)
      requires pending != [] && chain != [] ==> Mineable(digest, NextBlock(digest, chain, pending[0], now), difficulty)
      modifies this`chain, this`pending
      ensures old(pending) == [] ==> r == NothingToMine && chain == old(chain) && pending == old(pending)
      ensures old(pending) != [] && old(chain) == [] ==> r == NoLatestBlock && chain == [] && pending == old(pending)[1..]
      ensures old(pending) != [] && old(chain) != [] ==>
                && r.Mined?
                && r.block == NextBlock(digest, old(chain), old(pending)[0], now).(nonce := r.block.nonce, hash := r.block.hash)
                && chain == old(chain) + [r.block]
                && r.block.hash == CalculateHash(digest, r.block) && MeetsTarget(r.block.hash, difficulty)
                && r.block.nonce >= 0
                && (MeetsTarget(NextBlock(digest, old(chain), old(pending)[0], now).hash, difficulty) ==>
                      r.block == NextBlock(digest, old(chain), old(pending)[0], now))
                && (forall n :: 0 < n < r.block.nonce ==>
                      !MeetsTarget(HashWithNonce(digest, NextBlock(digest, old(chain), old(pending)[0], now), n), difficulty))
                && pending == old(pending)[1..] + (if IsMint(old(pending)[0].sender) then [] else [Reward(miner, now)])
      ensures old(ChainValid(digest, chain, difficulty)) ==> ChainValid(digest, chain, difficulty)
    {
      if pending == [] {
        return NothingToMine;
      }
      var t := pending[0];
      pending := pending[1..];
      if chain == [] {
        return NoLatestBlock;
      }
      var b := MineBlock(digest, NextBlock(digest, chain, t, now), difficulty);
      if ChainValid(digest, chain, difficulty) {
        ValidAppend(digest, chain, b, difficulty);
      }
      chain := chain + [b];
      if !IsMint(t.sender) {
        pending := pending + [Reward(miner, now)];
      }
      r := Mined(b);
    }

    /** `is_chain_valid`: the loop from index 1 with an early return. */
    method IsChainValid() returns (valid: bool)
      ensures valid == ChainValid(digest, chain, difficulty)
    {
      var i := 1;
      while i < |chain|
        invariant 1 <= i
        invariant forall j :: 1 <= j < i && j < |chain| ==> ValidAt(digest, chain, j, difficulty)
      {
        var current := chain[i];
        var previous := chain[i - 1];
        if current.hash != CalculateHash(digest, current) {
          assert !ValidAt(digest, chain, i, difficulty);
          return false;
        }
        if current.previousHash != previous.hash {
          assert !ValidAt(digest, chain, i, difficulty);
          return false;
        }
        if !MeetsTarget(current.hash, difficulty) {
          assert !ValidAt(digest, chain, i, difficulty);
          return false;
        }
        i := i + 1;
      }
      valid := true;
    }

    /** `replace_chain`: installs the candidate only when it is strictly longer
        and, decoded into a scratch chain, passes `is_chain_valid`; the pool is
        never touched. A candidate block that does not decode raises. */
    method ReplaceChain(candidate: seq<Dict>, now: real) returns (r: Result<bool, DecodeError>)
      modifies this`chain
      ensures |candidate| <= |old(chain)| ==> r == Ok(false)
      ensures |candidate| > |old(chain)| ==> (r.Err? <==> DecodeChain(candidate, now).Err?)
      ensures r.Err? ==> DecodeChain(candidate, now) == Err(r.error)
      ensures r == Ok(true) <==>
                |candidate| > |old(chain)| && DecodeChain(candidate, now).Ok?
                && ChainValid(digest, DecodeChain(candidate, now).value, difficulty)
      ensures r == Ok(true) ==> chain == DecodeChain(candidate, now).value
      ensures r != Ok(true) ==> chain == old(chain)
    {
      if |candidate| <= |chain| {
        return Ok(false);
      }
      var decoded := DecodeChain(candidate, now);
      if decoded.Err? {
        return Err(decoded.error);
      }
      var scratch := new Blockchain.Loaded(digest, decoded.value, None);
      var ok := scratch.IsChainValid();
      if !ok {
        return Ok(false);
      }
      chain := scratch.chain;
      r := Ok(true);
    }
  }
}
