/** A node of the peer-to-peer network (network/node.py): its bounded peer
    registry, the state changes made by its inbound handlers and the
    longest-chain consensus of `resolve_conflicts`. */
module Nodes {
  import opened Common
  import opened Config
  import Transactions
  import opened Blocks
  import Chain
  import Directory

  /** One registry entry, in insertion order: a peer's node id and its URL. */
  datatype Peer = Peer(id: string, url: string)

  predicate Has(peers: seq<Peer>, id: string) {
    exists i :: 0 <= i < |peers| && peers[i].id == id
  }

  /** The ids are the keys of a dictionary. */
  predicate DistinctIds(peers: seq<Peer>) {
    forall i, j :: 0 <= i < j < |peers| ==> peers[i].id != peers[j].id
  }

  /** The registry invariant: distinct ids, at most MAX_PEERS of them, and never
      the node's own id. */
  predicate WellFormed(peers: seq<Peer>, self: string) {
    DistinctIds(peers) && |peers| <= MAX_PEERS && !Has(peers, self)
  }

  /** `add_peer`: whether it reports success, and the registry afterwards. The
      node's own id is refused, a known id is reported as present without
      touching its URL, and a new id is refused once the registry is full. */
  function AddPeerTo(peers: seq<Peer>, self: string, id: string, url: string): (r: (bool, seq<Peer>))
    ensures r.0 <==> id != self && (Has(peers, id) || |peers| < MAX_PEERS)
    ensures !r.0 || Has(peers, id) ==> r.1 == peers
    ensures r.0 && !Has(peers, id) ==> r.1 == peers + [Peer(id, url)]
    ensures r.0 ==> Has(r.1, id)
    ensures WellFormed(peers, self) ==> WellFormed(r.1, self)
  {
    if id == self then (false, peers)
    else if Has(peers, id) then (true, peers)
    else if |peers| >= MAX_PEERS then (false, peers)
    else
      var r := peers + [Peer(id, url)];
      assert r[|peers|].id == id;
      (true, r)
  }

  lemma HasSnoc(peers: seq<Peer>, p: Peer)
    ensures forall x :: Has(peers + [p], x) <==> Has(peers, x) || p.id == x
  {
    forall x | Has(peers + [p], x)
      ensures Has(peers, x) || p.id == x
    {
      var i :| 0 <= i < |peers + [p]| && (peers + [p])[i].id == x;
      if i < |peers| {
        assert peers[i].id == x;
      }
    }
    forall x | Has(peers, x)
      ensures Has(peers + [p], x)
    {
      var i :| 0 <= i < |peers| && peers[i].id == x;
      assert (peers + [p])[i].id == x;
    }
    assert (peers + [p])[|peers|].id == p.id;
  }

  /** The registry without the peers whose id is in `ids`, order kept. */
  function Without(peers: seq<Peer>, ids: set<string>): (r: seq<Peer>)
    ensures forall p :: p in r <==> p in peers && p.id !in ids
    ensures forall x :: Has(r, x) <==> Has(peers, x) && x !in ids
    ensures |r| <= |peers|
    ensures DistinctIds(peers) ==> DistinctIds(r)
    ensures (forall i :: 0 <= i < |peers| ==> peers[i].id !in ids) ==> r == peers
  {
    if peers == [] then []
    else
      var init := peers[..|peers| - 1];
      var p := peers[|peers| - 1];
      assert peers == init + [p];
      var rest := Without(init, ids);
      WithoutStepHas(init, p, ids, rest);
      WithoutStepDistinct(init, p, ids, rest);
      WithoutStepIdentity(init, p, ids, rest);
      if p.id in ids then rest else rest + [p]
  }

  // The recursive step of Without, one postcondition at a time.

  lemma WithoutStepHas(init: seq<Peer>, p: Peer, ids: set<string>, rest: seq<Peer>)
    requires forall x :: Has(rest, x) <==> Has(init, x) && x !in ids
    ensures forall x :: Has(if p.id in ids then rest else rest + [p], x) <==> Has(init + [p], x) && x !in ids
  {
    HasSnoc(init, p);
    HasSnoc(rest, p);
  }

  lemma WithoutStepDistinct(init: seq<Peer>, p: Peer, ids: set<string>, rest: seq<Peer>)
    requires forall x :: Has(rest, x) ==> Has(init, x)
    requires DistinctIds(init) ==> DistinctIds(rest)
    ensures DistinctIds(init + [p]) ==> DistinctIds(if p.id in ids then rest else rest + [p])
  {
    var q := init + [p];
    if DistinctIds(q) {
      assert forall i :: 0 <= i < |init| ==> q[i] == init[i];
      assert q[|init|] == p;
      assert DistinctIds(init);
      assert !Has(init, p.id);
      var r := rest + [p];
      assert forall i :: 0 <= i < |rest| ==> r[i] == rest[i];
    }
  }

  lemma WithoutStepIdentity(init: seq<Peer>, p: Peer, ids: set<string>, rest: seq<Peer>)
    requires (forall i :: 0 <= i < |init| ==> init[i].id !in ids) ==> rest == init
    ensures (forall i :: 0 <= i < |init + [p]| ==> (init + [p])[i].id !in ids)
            ==> (if p.id in ids then rest else rest + [p]) == init + [p]
  {
    var q := init + [p];
    assert forall i :: 0 <= i < |init| ==> q[i] == init[i];
    assert q[|init|] == p;
  }

  /** `remove_peer`: with distinct ids, exactly one entry goes when the id is
      present and nothing changes when it is not. */
  lemma {:induction false} RemoveCount(peers: seq<Peer>, id: string)
    requires DistinctIds(peers)
    ensures Has(peers, id) ==> |Without(peers, {id})| == |peers| - 1
    ensures !Has(peers, id) ==> Without(peers, {id}) == peers
  {
    if peers != [] {
      var init := peers[..|peers| - 1];
      var p := peers[|peers| - 1];
      assert peers == init + [p];
      RemoveCount(init, id);
      if p.id == id {
        assert !Has(init, id);
      }
    }
  }

  lemma {:induction false} WithoutTwice(peers: seq<Peer>, s: set<string>, t: set<string>)
    ensures Without(Without(peers, s), t) == Without(peers, s + t)
  {
    if peers != [] {
      var init := peers[..|peers| - 1];
      WithoutTwice(init, s, t);
      var w := Without(init, s);
      var p := peers[|peers| - 1];
      if p.id !in s {
        assert (w + [p])[..|w|] == w;
      }
    }
  }

  /** Two removal sets that agree on the registry's ids remove the same peers. */
  lemma {:induction false} WithoutAgrees(peers: seq<Peer>, s: set<string>, t: set<string>)
    requires forall i :: 0 <= i < |peers| ==> (peers[i].id in s <==> peers[i].id in t)
    ensures Without(peers, s) == Without(peers, t)
  {
    if peers != [] {
      WithoutAgrees(peers[..|peers| - 1], s, t);
    }
  }

  /** Removing every id of the registry empties it. */
  lemma {:induction false} WithoutAll(peers: seq<Peer>, ids: set<string>)
    requires forall i :: 0 <= i < |peers| ==> peers[i].id in ids
    ensures Without(peers, ids) == []
  {
    if peers != [] {
      WithoutAll(peers[..|peers| - 1], ids);
    }
  }

  /** The peers whose URL the health oracle reports alive, order kept. */
  function Live(peers: seq<Peer>, alive: string -> bool): (r: seq<Peer>)
    ensures forall p :: p in r <==> p in peers && alive(p.url)
  {
    if peers == [] then []
    else
      var p := peers[|peers| - 1];
      assert peers == peers[..|peers| - 1] + [p];
      var rest := Live(peers[..|peers| - 1], alive);
      if alive(p.url) then rest + [p] else rest
  }

  /** The ids of the peers the oracle reports dead, in registry order. */
  function DeadIds(peers: seq<Peer>, alive: string -> bool): (r: seq<string>)
    ensures forall x :: x in r <==> exists i :: 0 <= i < |peers| && peers[i].id == x && !alive(peers[i].url)
    ensures |r| + |Live(peers, alive)| == |peers|
  {
    if peers == [] then []
    else
      var p := peers[|peers| - 1];
      var init := peers[..|peers| - 1];
      assert forall i :: 0 <= i < |init| ==> peers[i] == init[i];
      var rest := DeadIds(init, alive);
      if alive(p.url) then rest else rest + [p.id]
  }

  lemma DeadIdsStep(peers: seq<Peer>, i: nat, alive: string -> bool)
    requires i < |peers|
    ensures DeadIds(peers[..i + 1], alive)
            == DeadIds(peers[..i], alive) + (if alive(peers[i].url) then [] else [peers[i].id])
  {
    assert peers[..i + 1][..i] == peers[..i];
  }

  function Elems(s: seq<string>): set<string> {
    set x | x in s
  }

  lemma ElemsStep(s: seq<string>, j: nat)
    requires j < |s|
    ensures Elems(s[..j + 1]) == Elems(s[..j]) + {s[j]}
  {
    assert s[..j + 1] == s[..j] + [s[j]];
  }

  lemma ElemsCons(s: seq<string>)
    requires s != []
    ensures Elems(s) == {s[0]} + Elems(s[1..])
  {
    assert s == [s[0]] + s[1..];
  }

  /** With distinct ids, deleting the ids of the dead peers leaves exactly the
      live ones. */
  lemma {:induction false} SweepKeepsLive(peers: seq<Peer>, alive: string -> bool)
    requires DistinctIds(peers)
    ensures Without(peers, Elems(DeadIds(peers, alive))) == Live(peers, alive)
  {
    if peers != [] {
      var init := peers[..|peers| - 1];
      var p := peers[|peers| - 1];
      assert peers == init + [p];
      var dead := Elems(DeadIds(peers, alive));
      var deadInit := Elems(DeadIds(init, alive));
      SweepKeepsLive(init, alive);
      forall i | 0 <= i < |init|
        ensures init[i].id in dead <==> init[i].id in deadInit
      {
        if init[i].id in dead {
          var j :| 0 <= j < |peers| && peers[j].id == init[i].id && !alive(peers[j].url);
          assert j == i;
        }
      }
      WithoutAgrees(init, dead, deadInit);
      if p.id in dead {
        var j :| 0 <= j < |peers| && peers[j].id == p.id && !alive(peers[j].url);
        assert j == |peers| - 1;
      }
    }
  }

  /** The ids of a registry, in order. */
  function Ids(peers: seq<Peer>): (r: seq<string>)
    ensures |r| == |peers| && forall i :: 0 <= i < |peers| ==> r[i] == peers[i].id
  {
    seq(|peers|, i requires 0 <= i < |peers| => peers[i].id)
  }

  /** `remove_peer` applied to each id in turn. */
  function RemoveEach(peers: seq<Peer>, ids: seq<string>): seq<Peer>
    decreases |ids|
  {
    if ids == [] then peers else RemoveEach(Without(peers, {ids[0]}), ids[1..])
  }

  /** `add_peer` applied to each candidate in turn. */
  function AddEach(peers: seq<Peer>, self: string, candidates: seq<Peer>): seq<Peer>
    decreases |candidates|
  {
    if candidates == [] then peers
    else AddEach(AddPeerTo(peers, self, candidates[0].id, candidates[0].url).1, self, candidates[1..])
  }

  lemma {:induction false} RemoveEachRemovesAll(peers: seq<Peer>, ids: seq<string>)
    ensures RemoveEach(peers, ids) == Without(peers, Elems(ids))
    decreases |ids|
  {
    if ids == [] {
      assert Elems(ids) == {};
    } else {
      RemoveEachRemovesAll(Without(peers, {ids[0]}), ids[1..]);
      WithoutTwice(peers, {ids[0]}, Elems(ids[1..]));
      ElemsCons(ids);
    }
  }

  /** However many candidates are offered, the registry stays well formed: the
      peer count never exceeds MAX_PEERS. */
  lemma {:induction false} AddEachKeepsWellFormed(peers: seq<Peer>, self: string, candidates: seq<Peer>)
    requires WellFormed(peers, self)
    ensures WellFormed(AddEach(peers, self, candidates), self)
    decreases |candidates|
  {
    if candidates != [] {
      var next := AddPeerTo(peers, self, candidates[0].id, candidates[0].url).1;
      AddEachKeepsWellFormed(next, self, candidates[1..]);
    }
  }

  /** Candidates that are new, distinct, not the node itself and within the
      remaining capacity are all appended, in order. */
  lemma {:induction false} AddEachAppends(peers: seq<Peer>, self: string, candidates: seq<Peer>)
    requires WellFormed(peers, self) && DistinctIds(peers + candidates)
    requires forall i :: 0 <= i < |candidates| ==> candidates[i].id != self
    requires |peers| + |candidates| <= MAX_PEERS
    ensures AddEach(peers, self, candidates) == peers + candidates
    decreases |candidates|
  {
    if candidates != [] {
      var c := candidates[0];
      assert (peers + candidates)[|peers|] == c;
      forall i | 0 <= i < |peers|
        ensures peers[i].id != c.id
      {
        assert (peers + candidates)[i] == peers[i];
      }
      var next := peers + [c];
      assert AddPeerTo(peers, self, c.id, c.url).1 == next;
      assert next + candidates[1..] == peers + candidates;
      AddEachAppends(next, self, candidates[1..]);
    }
  }

  /** Phase 1 of the eclipse attack: removing every listed id empties the registry. */
  lemma RemoveAllPeers(peers: seq<Peer>)
    ensures RemoveEach(peers, Ids(peers)) == []
  {
    RemoveEachRemovesAll(peers, Ids(peers));
    forall i | 0 <= i < |peers|
      ensures peers[i].id in Elems(Ids(peers))
    {
      assert Ids(peers)[i] == peers[i].id;
    }
    WithoutAll(peers, Elems(Ids(peers)));
  }

  /** The eclipse attack (attack/eclipse_attack.py): the target drops every
      original peer, then accepts MAX_PEERS attacker ids; afterwards its
      registry is exactly the attacker's nodes, and no honest node can get in. */
  lemma EclipseAttack(peers: seq<Peer>, self: string, attackers: seq<Peer>, honest: Peer)
    requires WellFormed(peers, self)
    requires |attackers| == MAX_PEERS && DistinctIds(attackers)
    requires forall i :: 0 <= i < |attackers| ==> attackers[i].id != self
    requires !Has(attackers, honest.id)
    ensures RemoveEach(peers, Ids(peers)) == []
    ensures AddEach(RemoveEach(peers, Ids(peers)), self, attackers) == attackers
    ensures AddPeerTo(attackers, self, honest.id, honest.url) == (false, attackers)
  {
    RemoveAllPeers(peers);
    assert [] + attackers == attackers;
    AddEachAppends([], self, attackers);
  }

  /** The `http://host:port` peers that bootstrapping takes from the directory:
      every entry but the node's own, in order. */
  function Candidates(directory: seq<Directory.Entry>, self: string): (r: seq<Peer>)
    ensures forall i :: 0 <= i < |r| ==> r[i].id != self
    ensures forall e :: e in directory && e.nodeId != self ==> Peer(e.nodeId, Directory.Url(e.host, e.port)) in r
    ensures forall p :: p in r ==> exists e :: e in directory && p == Peer(e.nodeId, Directory.Url(e.host, e.port))
  {
    if directory == [] then []
    else
      var e := directory[0];
      var rest := Candidates(directory[1..], self);
      assert forall x :: x in directory <==> x == e || x in directory[1..];
      if e.nodeId != self then [Peer(e.nodeId, Directory.Url(e.host, e.port))] + rest else rest
  }

  /** The approximate identity both duplicate checks use: same sender, receiver
      and amount, and timestamps less than one second apart. */
  predicate SameTransfer(a: Transaction, b: Transaction) {
    a.sender == b.sender && a.receiver == b.receiver && a.amount == b.amount
    && -1.0 < a.timestamp - b.timestamp < 1.0
  }

  predicate AlreadyPending(pool: seq<Transaction>, t: Transaction) {
    exists i :: 0 <= i < |pool| && SameTransfer(pool[i], t)
  }

  /** The pool with every approximate copy of `t` dropped, order kept. */
  function DropSameTransfers(pool: seq<Transaction>, t: Transaction): (r: seq<Transaction>)
    ensures forall x :: x in r <==> x in pool && !SameTransfer(x, t)
    ensures !AlreadyPending(pool, t) ==> r == pool
    ensures |r| <= |pool|
  {
    if pool == [] then []
    else
      var x := pool[|pool| - 1];
      var init := pool[..|pool| - 1];
      assert pool == init + [x];
      var rest := DropSameTransfers(init, t);
      if SameTransfer(x, t) then rest else rest + [x]
  }

  /** The fold of `resolve_conflicts` over the peer replies: a reply replaces
      the current pick only when it is a non-empty chain strictly longer than
      every chain seen so far. */
  function Scan(replies: seq<Option<seq<Dict>>>, maxLength: nat, best: Option<seq<Dict>>): Option<seq<Dict>>
    decreases |replies|
  {
    if replies == [] then best
    else if replies[0].Some? && replies[0].value != [] && |replies[0].value| > maxLength then
      Scan(replies[1..], |replies[0].value|, replies[0])
    else Scan(replies[1..], maxLength, best)
  }

  /** The chain `resolve_conflicts` picks against a local chain of length `n`. */
  function Longest(replies: seq<Option<seq<Dict>>>, n: nat): Option<seq<Dict>> {
    Scan(replies, n, None)
  }

  /** Reply `j` is longer than `n`, at least as long as every reply, and
      strictly longer than every reply before it. */
  predicate FirstLongest(replies: seq<Option<seq<Dict>>>, n: nat, j: int) {
    && 0 <= j < |replies| && replies[j].Some? && |replies[j].value| > n
    && (forall i :: 0 <= i < |replies| && replies[i].Some? ==> |replies[i].value| <= |replies[j].value|)
    && (forall i :: 0 <= i < j && replies[i].Some? ==> |replies[i].value| < |replies[j].value|)
  }

  predicate NoneLonger(replies: seq<Option<seq<Dict>>>, n: nat) {
    forall i :: 0 <= i < |replies| && replies[i].Some? ==> |replies[i].value| <= n
  }

  lemma {:induction false} ScanPicksFirstLongest(replies: seq<Option<seq<Dict>>>, n: nat, best: Option<seq<Dict>>)
    ensures NoneLonger(replies, n) ==> Scan(replies, n, best) == best
    ensures !NoneLonger(replies, n) ==>
              exists j :: FirstLongest(replies, n, j) && Scan(replies, n, best) == replies[j]
    decreases |replies|
  {
    if replies != [] {
      var h := replies[0];
      var tail := replies[1..];
      assert forall i :: 1 <= i < |replies| ==> replies[i] == tail[i - 1];
      if h.Some? && h.value != [] && |h.value| > n {
        ScanPicksFirstLongest(tail, |h.value|, h);
        if NoneLonger(tail, |h.value|) {
          assert FirstLongest(replies, n, 0);
        } else {
          var j :| FirstLongest(tail, |h.value|, j) && Scan(tail, |h.value|, h) == tail[j];
          assert FirstLongest(replies, n, j + 1);
        }
      } else {
        ScanPicksFirstLongest(tail, n, best);
        if !NoneLonger(tail, n) {
          var j :| FirstLongest(tail, n, j) && Scan(tail, n, best) == tail[j];
          assert FirstLongest(replies, n, j + 1);
        } else {
          forall i | 0 <= i < |replies| && replies[i].Some?
            ensures |replies[i].value| <= n
          {
            if i > 0 {
              assert tail[i - 1] == replies[i];
            }
          }
        }
      }
    }
  }

  /** The consensus rule: nothing is picked when no reply is longer than the
      local chain; otherwise the pick is the first of the longest replies. */
  lemma LongestIsFirstLongest(replies: seq<Option<seq<Dict>>>, n: nat)
    ensures Longest(replies, n).None? <==> NoneLonger(replies, n)
    ensures Longest(replies, n).Some? ==>
              exists j :: FirstLongest(replies, n, j) && Longest(replies, n) == replies[j]
  {
    ScanPicksFirstLongest(replies, n, None);
  }

  /** What `request_chain` returns for each peer, in registry order. */
  function Replies(peers: seq<Peer>, fetch: string -> Option<seq<Dict>>): (r: seq<Option<seq<Dict>>>)
    ensures |r| == |peers| && forall i :: 0 <= i < |peers| ==> r[i] == fetch(peers[i].url)
  {
    seq(|peers|, i requires 0 <= i < |peers| => fetch(peers[i].url))
  }

  /** The two checks of the `/block/new` handler: the block links to the tip and
      its stored hash has the difficulty prefix. */
  predicate Accepts(c: seq<Block>, b: Block, d: nat) {
    c != [] && b.previousHash == c[|c| - 1].hash && MeetsTarget(b.hash, d)
  }

  /** The handler does not recompute the hash: a block it accepts onto a valid
      chain keeps the chain valid exactly when its stored hash is its real hash. */
  lemma AcceptedBlockKeepsValidIff(H: Digest, c: seq<Block>, b: Block, d: nat)
    requires Chain.ChainValid(H, c, d) && Accepts(c, b, d)
    ensures Chain.ChainValid(H, c + [b], d) <==> b.hash == CalculateHash(H, b)
  {
    if b.hash == CalculateHash(H, b) {
      Chain.ValidAppend(H, c, b, d);
    } else {
      assert !Chain.ValidAt(H, c + [b], |c|, d);
    }
  }

  /** The gates of the `/chain/replace` handler before decoding: a non-empty
      chain, a non-zero claimed length, and either a claimed length no shorter
      than the local chain or the force flag. */
  predicate PassesReplaceGates(data: seq<Dict>, length: int, force: bool, current: nat) {
    data != [] && length != 0 && !(length < current && !force)
  }

  /** `username or f"Node_{port}"`. */
  function NodeName(port: int, username: Option<string>): (name: string)
    ensures name != ""
    ensures username.Some? && username.value != "" ==> name == username.value
  {
    if username.Some? && username.value != "" then username.value else "Node_" + IntToString(port)
  }

  datatype TxReply =
    | TxAdded
    | TxAlreadyExists
    | TxRefused(reason: Chain.Admission)   // add_transaction raised ValueError
    | TxMalformed(error: DecodeError)

  datatype BlockReply =
    | BlockAdded
    | BadPreviousHash
    | BadProofOfWork
    | NoTip                                 // the local chain is empty
    | BlockMalformed(error: DecodeError)

  datatype ReplaceReply =
    | InvalidChainData
    | CurrentLonger(currentLength: nat, newLength: int)
    | ChainMalformed(error: DecodeError)
    | InvalidGenesis
    | Replaced(oldLength: nat, newLength: int)

  class Node {
    const nodeId: string
    const host: string
    const port: int
    const username: string
    const blockchain: Chain.Blockchain
    var peers: seq<Peer>

    ghost predicate Valid()
      reads this
    {
      WellFormed(peers, nodeId)
    }

    /** The node with its own chain, owned by its username, and no peers. The
        generated id and a free port (used when `port` is 0) are parameters. */
    constructor (H: Digest, nodeId: string, host: string, port: int, freePort: int,
                 username: Option<string>, now: real)
      requires Mineable(H, Chain.GenesisBlock(H, Some(NodeName(if port != 0 then port else freePort, username)), now), DIFFICULTY)
      ensures Valid() && peers == []
      ensures this.nodeId == nodeId && this.host == host
      ensures this.port == (if port != 0 then port else freePort)
      ensures this.username == NodeName(this.port, username)
      ensures fresh(blockchain) && blockchain.ownerAddress == Some(this.username)
      ensures blockchain.pending == [] && |blockchain.chain| == 1
      ensures blockchain.chain[0].transaction == Some(Chain.GenesisTransaction(Some(this.username), now))
      ensures blockchain.digest == H
      ensures blockchain.chain[0] == Chain.GenesisBlock(H, Some(this.username), now).(
                nonce := blockchain.chain[0].nonce, hash := blockchain.chain[0].hash)
      ensures blockchain.chain[0].nonce >= 0
      ensures blockchain.chain[0].index == 0 && blockchain.chain[0].previousHash == "0"
      ensures blockchain.chain[0].hash == CalculateHash(H, blockchain.chain[0])
              && MeetsTarget(blockchain.chain[0].hash, DIFFICULTY)
    {
      this.nodeId := nodeId;
      this.host := host;
      var p := if port != 0 then port else freePort;
      this.port := p;
      var name := NodeName(p, username);
      this.username := name;
      blockchain := new Chain.Blockchain(H, Some(name), now);
      peers := [];
    }

    /** `add_peer`. */
    method AddPeer(id: string, url: string) returns (ok: bool)
      requires Valid()
      modifies this`peers
      ensures Valid()
      ensures (ok, peers) == AddPeerTo(old(peers), nodeId, id, url)
    {
      if id == nodeId {
        return false;
      }
      if Has(peers, id) {
        return true;
      }
      if |peers| >= MAX_PEERS {
        return false;
      }
      peers := peers + [Peer(id, url)];
      ok := true;
    }

    /** `remove_peer`. */
    method RemovePeer(id: string)
      requires Valid()
      modifies this`peers
      ensures Valid()
      ensures peers == Without(old(peers), {id})
    {
      RemoveCount(peers, id);
      if Has(peers, id) {
        peers := Without(peers, {id});
      }
    }

    /** `cleanup_stale_peers`: collects the ids of the peers the health oracle
        reports dead, removes them one by one, and returns how many there were. */
    method CleanupStalePeers(alive: string -> bool) returns (removed: nat)
      requires Valid()
      modifies this`peers
      ensures Valid()
      ensures peers == Live(old(peers), alive)
      ensures removed == |DeadIds(old(peers), alive)| == |old(peers)| - |peers|
    {
      var snapshot := peers;
      var stale: seq<string> := [];
      for i := 0 to |snapshot|
        invariant peers == snapshot
        invariant stale == DeadIds(snapshot[..i], alive)
      {
        DeadIdsStep(snapshot, i, alive);
        if !alive(snapshot[i].url) {
          stale := stale + [snapshot[i].id];
        }
      }
      assert snapshot[..|snapshot|] == snapshot;
      for j := 0 to |stale|
        invariant Valid()
        invariant peers == Without(snapshot, Elems(stale[..j]))
      {
        RemovePeer(stale[j]);
        WithoutTwice(snapshot, Elems(stale[..j]), {stale[j]});
        ElemsStep(stale, j);
      }
      assert stale[..|stale|] == stale;
      SweepKeepsLive(snapshot, alive);
      removed := |stale|;
    }

    /** The body of the `/transaction/new` handler: decode, skip an approximate
        copy of a pending transaction, otherwise hand it to `add_transaction`. */
    method NewTransaction(data: Dict, now: real) returns (r: TxReply)
      modifies blockchain`pending
      ensures var d := Transactions.FromDict(data, now);
              && (d.Err? ==> r == TxMalformed(d.error))
              && (d.Ok? && AlreadyPending(old(blockchain.pending), d.value) ==> r == TxAlreadyExists)
              && (r == TxAdded <==>
                    d.Ok? && !AlreadyPending(old(blockchain.pending), d.value)
                    && Chain.Admissible(blockchain.chain, old(blockchain.pending), d.value))
              && (r == TxAdded ==> blockchain.pending == old(blockchain.pending) + [d.value])
              && (d.Ok? && !AlreadyPending(old(blockchain.pending), d.value)
                  && !Chain.Admissible(blockchain.chain, old(blockchain.pending), d.value)
                  ==> r.TxRefused?)
              && (r.TxRefused? ==> r.reason.InsufficientBalance?)
      ensures r != TxAdded ==> blockchain.pending == old(blockchain.pending)
    {
      var d := Transactions.FromDict(data, now);
      if d.Err? {
        return TxMalformed(d.error);
      }
      var t := d.value;
      var i := 0;
      while i < |blockchain.pending|
        invariant 0 <= i <= |blockchain.pending|
        invariant forall k :: 0 <= k < i ==> !SameTransfer(blockchain.pending[k], t)
      {
        if SameTransfer(blockchain.pending[i], t) {
          return TxAlreadyExists;
        }
        i := i + 1;
      }
      var a := blockchain.AddTransaction(t);
      r := if a.Admitted? then TxAdded else TxRefused(a);
    }

    /** The body of the `/block/new` handler: a decoded block is appended when it
        links to the tip and its stored hash has the difficulty prefix, without
        recomputing the hash or checking the index; the pending copies of its
        transaction are then dropped. */
    method NewBlock(data: Dict, now: real) returns (r: BlockReply)
      modifies blockchain`chain, blockchain`pending
      ensures var d := Blocks.FromDict(data, now);
              && (d.Err? ==> r == BlockMalformed(d.error))
              && (d.Ok? && old(blockchain.chain) == [] ==> r == NoTip)
              && (d.Ok? && old(blockchain.chain) != [] && d.value.previousHash != old(blockchain.chain)[|old(blockchain.chain)| - 1].hash
                  ==> r == BadPreviousHash)
              && (d.Ok? && old(blockchain.chain) != []
                  && d.value.previousHash == old(blockchain.chain)[|old(blockchain.chain)| - 1].hash
                  && !MeetsTarget(d.value.hash, blockchain.difficulty)
                  ==> r == BadProofOfWork)
              && (r == BlockAdded <==> d.Ok? && Accepts(old(blockchain.chain), d.value, blockchain.difficulty))
              && (r == BlockAdded ==>
                    && blockchain.chain == old(blockchain.chain) + [d.value]
                    && blockchain.pending ==
                         if d.value.transaction.Some? then DropSameTransfers(old(blockchain.pending), d.value.transaction.value)
                         else old(blockchain.pending))
      ensures r != BlockAdded ==> blockchain.chain == old(blockchain.chain) && blockchain.pending == old(blockchain.pending)
    {
      var d := Blocks.FromDict(data, now);
      if d.Err? {
        return BlockMalformed(d.error);
      }
      var b := d.value;
      var tip := blockchain.LatestBlock();
      if tip.None? {
        return NoTip;
      }
      if b.previousHash != tip.value.hash {
        return BadPreviousHash;
      }
      if !MeetsTarget(b.hash, blockchain.difficulty) {
        return BadProofOfWork;
      }
      blockchain.chain := blockchain.chain + [b];
      if b.transaction.Some? {
        blockchain.pending := DropSameTransfers(blockchain.pending, b.transaction.value);
      }
      r := BlockAdded;
    }

    /** The body of the `/chain/replace` handler: after its gates it decodes the
        blocks one by one, checks only that the first has index 0, installs the
        chain without validating it and clears the pool. */
    method ReplaceChainRoute(data: seq<Dict>, length: int, force: bool, now: real) returns (r: ReplaceReply)
      modifies blockchain`chain, blockchain`pending
      ensures (data == [] || length == 0) ==> r == InvalidChainData
      ensures data != [] && length != 0 && length < |old(blockchain.chain)| && !force
              ==> r == CurrentLonger(|old(blockchain.chain)|, length)
      ensures PassesReplaceGates(data, length, force, |old(blockchain.chain)|) ==>
                (r.ChainMalformed? <==> Chain.DecodeChain(data, now).Err?)
      ensures r.ChainMalformed? ==> Chain.DecodeChain(data, now) == Err(r.error)
      ensures r.Replaced? <==>
                PassesReplaceGates(data, length, force, |old(blockchain.chain)|)
                && Chain.DecodeChain(data, now).Ok? && Chain.DecodeChain(data, now).value[0].index == 0
      ensures PassesReplaceGates(data, length, force, |old(blockchain.chain)|)
              && Chain.DecodeChain(data, now).Ok? && Chain.DecodeChain(data, now).value[0].index != 0
              ==> r == InvalidGenesis
      ensures r.Replaced? ==>
                && r == Replaced(|old(blockchain.chain)|, length)
                && blockchain.chain == Chain.DecodeChain(data, now).value && blockchain.pending == []
      ensures !r.Replaced? ==> blockchain.chain == old(blockchain.chain) && blockchain.pending == old(blockchain.pending)
    {
      if data == [] || length == 0 {
        return InvalidChainData;
      }
      var current := |blockchain.chain|;
      if length < current && !force {
        return CurrentLonger(current, length);
      }
      var reconstructed: seq<Block> := [];
      for i := 0 to |data|
        invariant |reconstructed| == i
        invariant forall j :: 0 <= j < i ==> Blocks.FromDict(data[j], now) == Ok(reconstructed[j])
      {
        var b := Blocks.FromDict(data[i], now);
        if b.Err? {
          return ChainMalformed(b.error);
        }
        reconstructed := reconstructed + [b.value];
      }
      assert Chain.DecodeChain(data, now).value == reconstructed;
      if reconstructed[0].index != 0 {
        return InvalidGenesis;
      }
      blockchain.chain := reconstructed;
      blockchain.pending := [];
      r := Replaced(current, length);
    }

    /** `resolve_conflicts`: with no peers, first bootstraps the registry from the
        directory through `add_peer`; then asks every peer for its chain (the
        `fetch` oracle, None for a failed request), picks the first-seen
        longest one and hands it to `replace_chain`, whose decoding error
        propagates. The pool is never touched. */
    method ResolveConflicts(directory: seq<Directory.Entry>, fetch: string -> Option<seq<Dict>>, now: real)
      returns (r: Result<bool, DecodeError>)
      requires Valid()
      modifies this`peers, blockchain`chain
      ensures Valid()
      ensures peers == if old(peers) == [] then AddEach([], nodeId, Candidates(directory, nodeId)) else old(peers)
      ensures var pick := Longest(Replies(peers, fetch), |old(blockchain.chain)|);
              && (pick.None? ==> r == Ok(false))
              && (pick.Some? ==> |pick.value| > |old(blockchain.chain)|
                                 && (r.Err? <==> Chain.DecodeChain(pick.value, now).Err?))
              && (r == Ok(true) <==>
                    pick.Some? && Chain.DecodeChain(pick.value, now).Ok?
                    && Chain.ChainValid(blockchain.digest, Chain.DecodeChain(pick.value, now).value, blockchain.difficulty))
              && (r == Ok(true) ==> blockchain.chain == Chain.DecodeChain(pick.value, now).value)
      ensures r != Ok(true) ==> blockchain.chain == old(blockchain.chain)
    {
      if |peers| == 0 {
        var candidates := Candidates(directory, nodeId);
        for j := 0 to |candidates|
          invariant Valid() && blockchain.chain == old(blockchain.chain)
          invariant AddEach(peers, nodeId, candidates[j..]) == AddEach([], nodeId, candidates)
        {
          assert candidates[j..][1..] == candidates[j + 1..];
          var _ := AddPeer(candidates[j].id, candidates[j].url);
        }
        assert candidates[|candidates|..] == [];
      }
      ghost var replies := Replies(peers, fetch);
      var maxLength: nat := |blockchain.chain|;
      var longest: Option<seq<Dict>> := None;
      for i := 0 to |peers|
        invariant Scan(replies[i..], maxLength, longest) == Longest(replies, |old(blockchain.chain)|)
        invariant longest.Some? ==> |longest.value| == maxLength
        invariant maxLength >= |old(blockchain.chain)|
        invariant blockchain.chain == old(blockchain.chain)
      {
        assert replies[i..][1..] == replies[i + 1..];
        var chainData := fetch(peers[i].url);
        if chainData.Some? && chainData.value != [] && |chainData.value| > maxLength {
          maxLength := |chainData.value|;
          longest := chainData;
        }
      }
      assert replies[|peers|..] == [];
      LongestIsFirstLongest(replies, |old(blockchain.chain)|);
      if longest.Some? {
        r := blockchain.ReplaceChain(longest.value, now);
        return;
      }
      r := Ok(false);
    }

    /** The body of the `/resolve` handler: runs the consensus and returns
        whether the chain was replaced together with the chain it now holds. */
    method Resolve(directory: seq<Directory.Entry>, fetch: string -> Option<seq<Dict>>, now: real)
      returns (r: Result<(bool, seq<Dict>), DecodeError>)
      requires Valid()
      modifies this`peers, blockchain`chain
      ensures Valid()
      ensures peers == if old(peers) == [] then AddEach([], nodeId, Candidates(directory, nodeId)) else old(peers)
      ensures var pick := Longest(Replies(peers, fetch), |old(blockchain.chain)|);
              r.Ok? && r.value.0 ==>
                pick.Some? && Chain.DecodeChain(pick.value, now).Ok?
                && blockchain.chain == Chain.DecodeChain(pick.value, now).value
      ensures var pick := Longest(Replies(peers, fetch), |old(blockchain.chain)|);
              && (r.Err? <==> pick.Some? && Chain.DecodeChain(pick.value, now).Err?)
              && (r.Ok? && r.value.0 <==>
                    pick.Some? && Chain.DecodeChain(pick.value, now).Ok?
                    && Chain.ChainValid(blockchain.digest, Chain.DecodeChain(pick.value, now).value, blockchain.difficulty))
      ensures r.Ok? ==> r.value.1 == Chain.ToList(blockchain.chain)
      ensures r.Ok? ==> (r.value.0 <==> |blockchain.chain| > |old(blockchain.chain)|)
      ensures r.Ok? && !r.value.0 ==> blockchain.chain == old(blockchain.chain)
      ensures r.Err? ==> blockchain.chain == old(blockchain.chain)
    {
      var replaced := ResolveConflicts(directory, fetch, now);
      if replaced.Err? {
        return Err(replaced.error);
      }
      r := Ok((replaced.value, Chain.ToList(blockchain.chain)));
    }
  }
}
