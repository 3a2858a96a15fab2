/**
  The repair pass over the stored global tree: sweep duplicate node ids and
  duplicate connections (first occurrence wins, order kept), re-apply the
  schema defaults to the surviving records, and report how much was removed.
  Only the node list, the connection list and `lastUpdated` change.

  The source keys connections by the string `${from}->${to}`, which two
  different pairs can share; `ArrowKey` models that key and the lemmas at
  the end exhibit the collision. The pass itself keys connections by the
  (from, to) pair.
*/
module Cleanup {
  import opened Wrappers
  import opened Global
  import Dedup

  /** A surviving node as rebuilt by the pass: `children` is not copied, so the schema default applies. */
  function CleanNode(n: GlobalNode): (r: GlobalNode)
    ensures r.id == n.id && r.children == []
    ensures r.(children := n.children) == n
    ensures r.description == n.description && r.prerequisites == n.prerequisites
    ensures r.earnedByCount == n.earnedByCount && r.totalUserCount == n.totalUserCount
  {
    n.(children := [])
  }

  /** `count || 1`: a zero count becomes 1, every other count is kept. */
  function CleanConnection(c: Connection): (r: Connection)
    ensures ConnKey(r) == ConnKey(c)
    ensures r.count >= 1
    ensures c.count > 0 ==> r.count == c.count
  {
    c.(count := if c.count == 0 then 1 else c.count)
  }

  function CleanNodes(ns: seq<GlobalNode>): (r: seq<GlobalNode>)
    ensures |r| == |ns| && forall i | 0 <= i < |ns| :: r[i] == CleanNode(ns[i])
  {
    seq(|ns|, i requires 0 <= i < |ns| => CleanNode(ns[i]))
  }

  function CleanConnections(cs: seq<Connection>): (r: seq<Connection>)
    ensures |r| == |cs| && forall i | 0 <= i < |cs| :: r[i] == CleanConnection(cs[i])
  {
    seq(|cs|, i requires 0 <= i < |cs| => CleanConnection(cs[i]))
  }

  /** The pairs of a connection list. */
  function Pairs(cs: seq<Connection>): set<(string, string)>
  {
    Dedup.KeySet(cs, ConnKey)
  }

  /** The cleaned tree: the swept, defaulted lists; `totalUsers` as stored; a new `lastUpdated`. */
  function CleanTree(t: GlobalTree, now: int): (r: GlobalTree)
    ensures UniqueIds(r.nodes) && Ids(r.nodes) == Ids(t.nodes)
    ensures UniqueConnKeys(r.connections) && Pairs(r.connections) == Pairs(t.connections)
    ensures forall i | 0 <= i < |r.connections| :: r.connections[i].count >= 1
    ensures forall i | 0 <= i < |r.nodes| :: r.nodes[i].children == []
    ensures r.totalUsers == t.totalUsers && r.lastUpdated == now
    ensures Dedup.MappedSweep(r.nodes, t.nodes, NodeId, CleanNode)
    ensures Dedup.MappedSweep(r.connections, t.connections, ConnKey, CleanConnection)
  {
    var ns := Dedup.Dedup(t.nodes, NodeId);
    var cs := Dedup.Dedup(t.connections, ConnKey);
    Dedup.DedupSwept(t.nodes, NodeId);
    Dedup.DedupSwept(t.connections, ConnKey);
    Dedup.DedupDistinct(t.nodes, NodeId);
    Dedup.DedupDistinct(t.connections, ConnKey);
    IdsAsKeySet(t.nodes);
    IdsAsKeySet(ns);
    CleanNodesIds(ns);
    CleanConnectionsPairs(cs);
    GlobalTree(CleanNodes(ns), CleanConnections(cs), t.totalUsers, now)
  }

  lemma CleanNodesIds(ns: seq<GlobalNode>)
    ensures Ids(CleanNodes(ns)) == Ids(ns)
    ensures UniqueIds(ns) ==> UniqueIds(CleanNodes(ns))
    ensures Dedup.Distinct(ns, NodeId) ==> Dedup.Distinct(CleanNodes(ns), NodeId)
  {
    var ms := CleanNodes(ns);
    assert forall i | 0 <= i < |ns| :: ms[i].id == ns[i].id;
    KeepsIdsLookup(ns, ms);
    KeepsIdsLookup(ms, ns);
  }

  lemma CleanConnectionsPairs(cs: seq<Connection>)
    ensures Pairs(CleanConnections(cs)) == Pairs(cs)
    ensures Dedup.Distinct(cs, ConnKey) ==> UniqueConnKeys(CleanConnections(cs))
    ensures Dedup.Distinct(cs, ConnKey) ==> Dedup.Distinct(CleanConnections(cs), ConnKey)
  {
    var ds := CleanConnections(cs);
    assert forall i | 0 <= i < |cs| :: ConnKey(ds[i]) == ConnKey(cs[i]);
    forall k | k in Pairs(cs) ensures k in Pairs(ds) {
      var i :| 0 <= i < |cs| && ConnKey(cs[i]) == k;
      assert ConnKey(ds[i]) == k;
    }
  }

  datatype CleanupStats = CleanupStats(
    originalNodes: nat,
    finalNodes: nat,
    removedNodes: nat,
    originalConnections: nat,
    finalConnections: nat,
    removedConnections: nat)

  /** `NotFound` is the `cleaned: false` reply. */
  datatype CleanupOutcome = NotFound | Cleaned(tree: GlobalTree, stats: CleanupStats)

  /**
    `POST /api/cleanup-global-tree`: the two sweeps with their removal
    counters. Every original record is either kept or counted as removed; one
    node survives per distinct id and one connection per distinct pair.
  */
  method Cleanup(stored: Option<GlobalTree>, now: int) returns (r: CleanupOutcome)
    ensures r.NotFound? <==> stored.None?
    ensures r.Cleaned? ==>
              && r.tree == CleanTree(stored.value, now)
              && r.stats.originalNodes == |stored.value.nodes|
              && r.stats.finalNodes == |r.tree.nodes| == |Ids(stored.value.nodes)|
              && r.stats.removedNodes + r.stats.finalNodes == r.stats.originalNodes
              && r.stats.originalConnections == |stored.value.connections|
              && r.stats.finalConnections == |r.tree.connections| == |Pairs(stored.value.connections)|
              && r.stats.removedConnections + r.stats.finalConnections == r.stats.originalConnections
  {
    if stored.None? {
      return NotFound;
    }
    var t := stored.value;
    var ns, removedNodes := Dedup.DedupLoop(t.nodes, NodeId);
    var cs, removedConns := Dedup.DedupLoop(t.connections, ConnKey);
    Dedup.DedupLength(t.nodes, NodeId);
    Dedup.DedupLength(t.connections, ConnKey);
    IdsAsKeySet(t.nodes);
    var tree := GlobalTree(CleanNodes(ns), CleanConnections(cs), t.totalUsers, now);
    r := Cleaned(tree, CleanupStats(
      |tree.nodes| + removedNodes, |tree.nodes|, removedNodes,
      |tree.connections| + removedConns, |tree.connections|, removedConns));
  }

  /** A second pass removes nothing and changes nothing but the timestamp. */
  lemma CleanTreeIdempotent(t: GlobalTree, now: int, later: int)
    ensures var c := CleanTree(t, now);
            && CleanTree(c, later) == c.(lastUpdated := later)
            && |Dedup.Dedup(c.nodes, NodeId)| == |c.nodes|
            && |Dedup.Dedup(c.connections, ConnKey)| == |c.connections|
  {
    var c := CleanTree(t, now);
    CleanListsStable(t.nodes, t.connections);
    assert c.nodes == CleanNodes(Dedup.Dedup(t.nodes, NodeId));
    assert c.connections == CleanConnections(Dedup.Dedup(t.connections, ConnKey));
  }

  /** The cleaned lists are already swept and already defaulted. */
  lemma CleanListsStable(nodes: seq<GlobalNode>, conns: seq<Connection>)
    ensures var ms := CleanNodes(Dedup.Dedup(nodes, NodeId));
            Dedup.Dedup(ms, NodeId) == ms && CleanNodes(ms) == ms
    ensures var ds := CleanConnections(Dedup.Dedup(conns, ConnKey));
            Dedup.Dedup(ds, ConnKey) == ds && CleanConnections(ds) == ds
  {
    CleanNodesStable(nodes);
    CleanConnectionsStable(conns);
  }

  lemma CleanNodesStable(nodes: seq<GlobalNode>)
    ensures var ms := CleanNodes(Dedup.Dedup(nodes, NodeId));
            Dedup.Dedup(ms, NodeId) == ms && CleanNodes(ms) == ms
  {
    var ns := Dedup.Dedup(nodes, NodeId);
    Dedup.DedupDistinct(nodes, NodeId);
    CleanNodesIds(ns);
    Dedup.DedupOfDistinct(CleanNodes(ns), NodeId);
    assert CleanNodes(CleanNodes(ns)) == CleanNodes(ns);
  }

  lemma CleanConnectionsStable(conns: seq<Connection>)
    ensures var ds := CleanConnections(Dedup.Dedup(conns, ConnKey));
            Dedup.Dedup(ds, ConnKey) == ds && CleanConnections(ds) == ds
  {
    var cs := Dedup.Dedup(conns, ConnKey);
    Dedup.DedupDistinct(conns, ConnKey);
    CleanConnectionsPairs(cs);
    Dedup.DedupOfDistinct(CleanConnections(cs), ConnKey);
    assert CleanConnections(CleanConnections(cs)) == CleanConnections(cs);
  }

  /** The source's connection key, `${from}->${to}`. */
  function ArrowKey(c: Connection): string
  {
    c.from + "->" + c.to
  }

  /** The sweep as written: connections keyed by their arrow string. */
  function CleanConnectionsByArrow(cs: seq<Connection>): (r: seq<Connection>)
    ensures |r| <= |cs|
    ensures Dedup.Distinct(r, ArrowKey)
  {
    Dedup.DedupDistinct(cs, ArrowKey);
    Dedup.DedupNoLonger(cs, ArrowKey);
    var d := Dedup.Dedup(cs, ArrowKey);
    assert forall i | 0 <= i < |d| :: ArrowKey(CleanConnections(d)[i]) == ArrowKey(d[i]);
    CleanConnections(d)
  }

  /**
    Two different pairs share an arrow string when an id contains `->`: the
    sweep as written drops the second connection although its pair is new,
    while the pair-keyed sweep keeps both.
  */
  lemma ArrowKeyCollision()
    ensures var cs := [Connection("a->b", "c", 1), Connection("a", "b->c", 1)];
            && UniqueConnKeys(cs)
            && ArrowKey(cs[0]) == ArrowKey(cs[1])
            && |CleanConnectionsByArrow(cs)| == 1
            && |CleanTree(GlobalTree([], cs, 0, 0), 0).connections| == 2
  {
    var cs := [Connection("a->b", "c", 1), Connection("a", "b->c", 1)];
    assert ArrowKey(cs[0]) == "a->b->c";
    assert ArrowKey(cs[1]) == "a->b->c";
    assert cs[..1] == [cs[0]];
    assert Dedup.KeySet([cs[0]], ArrowKey) == {"a->b->c"} by {
      assert [cs[0]][0] == cs[0];
    }
    assert Dedup.Dedup([cs[0]], ArrowKey) == [cs[0]];
    assert Dedup.Dedup(cs, ArrowKey) == [cs[0]];
    Dedup.DedupOfDistinct(cs, ConnKey);
  }
}
