/** The shared directory of nodes (network/network_manager.py), held in memory. */
module Directory {
  import opened Common

  datatype Entry = Entry(
    nodeId: string, host: string, port: int, username: string, url: string,
    isActive: Option<bool>)   // None: the key is absent from the stored entry

  function Url(host: string, port: int): string {
    "http://" + host + ":" + IntToString(port)
  }

  /** `node.get('is_active', True)`: a missing flag counts as active. */
  predicate IsActive(e: Entry) {
    e.isActive.None? || e.isActive.value
  }

  function NewEntry(id: string, host: string, port: int, username: string): Entry {
    Entry(id, host, port, username, Url(host, port), Some(true))
  }

  /** An entry that registering `id` with `port` and `username` deletes: another
      node id with the same username or the same port. */
  predicate Superseded(key: string, e: Entry, id: string, port: int, username: string) {
    key != id && (e.username == username || e.port == port)
  }

  function SupersededIds(nodes: map<string, Entry>, id: string, port: int, username: string): set<string> {
    set k | k in nodes && Superseded(k, nodes[k], id, port, username)
  }

  /** No two entries share a username or a port. */
  ghost predicate Unique(nodes: map<string, Entry>) {
    forall a, b :: a in nodes && b in nodes && a != b ==>
      nodes[a].username != nodes[b].username && nodes[a].port != nodes[b].port
  }

  /** Every entry is stored under its own node id. */
  ghost predicate Keyed(nodes: map<string, Entry>) {
    forall k :: k in nodes ==> nodes[k].nodeId == k
  }

  /** The directory after `register_node`: last writer wins. */
  function Registered(nodes: map<string, Entry>, id: string, host: string, port: int, username: string)
    : (r: map<string, Entry>)
    ensures id in r && r[id] == NewEntry(id, host, port, username)
    ensures forall k :: k in r && k != id ==> r[k].username != username && r[k].port != port
    ensures forall k :: k in nodes && k != id && nodes[k].username != username && nodes[k].port != port
                        ==> k in r && r[k] == nodes[k]
    ensures forall k :: k in r && k != id ==> k in nodes && r[k] == nodes[k]
    ensures Unique(nodes) ==> Unique(r)
    ensures Keyed(nodes) ==> Keyed(r)
  {
    (nodes - SupersededIds(nodes, id, port, username))[id := NewEntry(id, host, port, username)]
  }

  /** The eligible pool of `get_random_nodes`: active entries whose node id is not excluded. */
  function Eligible(nodes: map<string, Entry>, exclude: set<string>): set<string> {
    set k | k in nodes && IsActive(nodes[k]) && nodes[k].nodeId !in exclude
  }

  /** Marking an entry changes its flag only, so uniqueness survives. */
  lemma MarkKeepsUnique(nodes: map<string, Entry>, id: string, flag: bool)
    requires id in nodes && Unique(nodes)
    ensures Unique(nodes[id := nodes[id].(isActive := Some(flag))])
  {
  }

  class NetworkManager {
    var nodes: map<string, Entry>

    ghost predicate Valid()
      reads this
    {
      Keyed(nodes)
    }

    /** The directory as loaded from storage. */
    constructor (loaded: map<string, Entry>)
      requires Keyed(loaded)
      ensures Valid() && nodes == loaded
    {
      nodes := loaded;
    }

    /** `register_node`: collects every other entry with the same username or
        port, unregisters them, then writes the new entry. */
    method RegisterNode(id: string, host: string, port: int, username: string)
      requires Valid()
      modifies this
      ensures Valid()
      ensures nodes == Registered(old(nodes), id, host, port, username)
    {
      var toRemove: set<string> := {};
      var unseen := nodes.Keys;
      while unseen != {}
        invariant unseen <= nodes.Keys
        invariant toRemove == set k | k in nodes.Keys - unseen && Superseded(k, nodes[k], id, port, username)
        decreases unseen
      {
        var k :| k in unseen;
        if Superseded(k, nodes[k], id, port, username) {
          toRemove := toRemove + {k};
        }
        unseen := unseen - {k};
      }
      assert toRemove == SupersededIds(nodes, id, port, username);
      var rest := toRemove;
      while rest != {}
        invariant rest <= toRemove
        invariant nodes == old(nodes) - (toRemove - rest)
        decreases rest
      {
        var k :| k in rest;
        UnregisterNode(k);
        rest := rest - {k};
      }
      nodes := nodes[id := NewEntry(id, host, port, username)];
    }

    /** `unregister_node`: deletes the entry if present. */
    method UnregisterNode(id: string)
      requires Valid()
      modifies this
      ensures Valid()
      ensures nodes == old(nodes) - {id}
    {
      if id in nodes {
        nodes := nodes - {id};
      }
    }

    /** `get_node`. */
    function GetNode(id: string): (r: Option<Entry>)
      reads this
      ensures r.Some? <==> id in nodes
      ensures r.Some? ==> r.value == nodes[id]
    {
      if id in nodes then Some(nodes[id]) else None
    }

    /** `get_active_nodes`: the entries whose flag is true or missing. */
    function GetActiveNodes(): (r: map<string, Entry>)
      reads this
      ensures forall k :: k in r <==> k in nodes && IsActive(nodes[k])
      ensures forall k :: k in r ==> r[k] == nodes[k]
    {
      map k | k in nodes && IsActive(nodes[k]) :: nodes[k]
    }

    /** `get_random_nodes`: `min(count, |eligible|)` distinct eligible entries,
        chosen arbitrarily (the source samples at random). A negative count makes
        `random.sample` raise: None. */
    method GetRandomNodes(count: int, exclude: set<string>) returns (r: Option<seq<Entry>>)
      requires Valid()
      ensures r.None? <==> count < 0
      ensures r.Some? ==> |r.value| == Min(count, |Eligible(nodes, exclude)|)
      ensures r.Some? ==> forall i :: 0 <= i < |r.value| ==>
                            r.value[i].nodeId in Eligible(nodes, exclude) && nodes[r.value[i].nodeId] == r.value[i]
      ensures r.Some? ==> forall i, j :: 0 <= i < j < |r.value| ==> r.value[i].nodeId != r.value[j].nodeId
    {
      var pool := Eligible(nodes, exclude);
      var n := Min(count, |pool|);
      if n < 0 {
        return None;
      }
      var chosen: seq<Entry> := [];
      while |chosen| < n
        invariant |chosen| <= n
        invariant pool <= Eligible(nodes, exclude)
        invariant |chosen| + |pool| == |Eligible(nodes, exclude)|
        invariant forall i :: 0 <= i < |chosen| ==>
                    chosen[i].nodeId in Eligible(nodes, exclude) - pool && nodes[chosen[i].nodeId] == chosen[i]
        invariant forall i, j :: 0 <= i < j < |chosen| ==> chosen[i].nodeId != chosen[j].nodeId
        decreases n - |chosen|
      {
        var k :| k in pool;
        chosen := chosen + [nodes[k]];
        pool := pool - {k};
      }
      r := Some(chosen);
    }

    /** `mark_node_inactive`: clears the flag of an existing entry. */
    method MarkNodeInactive(id: string)
      requires Valid()
      modifies this
      ensures Valid()
      ensures id in old(nodes) ==> nodes == old(nodes)[id := old(nodes)[id].(isActive := Some(false))]
      ensures id !in old(nodes) ==> nodes == old(nodes)
    {
      if id in nodes {
        nodes := nodes[id := nodes[id].(isActive := Some(false))];
      }
    }

    /** `mark_node_active`: sets the flag of an existing entry. */
    method MarkNodeActive(id: string)
      requires Valid()
      modifies this
      ensures Valid()
      ensures id in old(nodes) ==> nodes == old(nodes)[id := old(nodes)[id].(isActive := Some(true))]
      ensures id !in old(nodes) ==> nodes == old(nodes)
    {
      if id in nodes {
        nodes := nodes[id := nodes[id].(isActive := Some(true))];
      }
    }

    /** `get_network_size`. */
    function GetNetworkSize(): (n: nat)
      reads this
      ensures n == |nodes.Keys|
    {
      |nodes|
    }
  }
}
