/**
  The persisted global tree: the aggregated nodes with their two counters,
  the aggregated connections with their popularity count, the number of
  contributing users and the time of the last update. Also the lookups and
  the connection fold that the merge and the rebuild share.
*/
module Global {
  import opened Wrappers
  import opened Individual
  import Dedup

  /** An aggregated skill. Counters are never negative. */
  datatype GlobalNode = GlobalNode(
    id: string,
    name: string,
    category: string,
    description: string,
    prerequisites: seq<string>,
    children: seq<string>,
    earnedByCount: nat,
    totalUserCount: nat)

  /** An aggregated edge with the number of graphs that contributed it. */
  datatype Connection = Connection(from: string, to: string, count: nat)

  /** The singleton document; `lastUpdated` is an opaque clock reading. */
  datatype GlobalTree = GlobalTree(
    nodes: seq<GlobalNode>,
    connections: seq<Connection>,
    totalUsers: nat,
    lastUpdated: int)

  /** The categories the node schema accepts. */
  const SchemaCategories: seq<string> := ["software", "hardware", "soft", "soft-skills"]

  /** A node as the schema would accept it: required strings non-empty, category in the enum. */
  predicate SchemaValidNode(n: GlobalNode)
  {
    n.id != "" && n.name != "" && n.category in SchemaCategories
  }

  /** A connection as the schema would accept it: `from` and `to` are required. */
  predicate SchemaValidConnection(c: Connection)
  {
    c.from != "" && c.to != ""
  }

  /** The tree created when none exists yet. */
  function FreshTree(now: int): GlobalTree
  {
    GlobalTree([], [], 0, now)
  }

  function NodeId(n: GlobalNode): string { n.id }

  function ConnKey(c: Connection): (string, string) { (c.from, c.to) }

  function Ids(ns: seq<GlobalNode>): set<string>
  {
    set i | 0 <= i < |ns| :: ns[i].id
  }

  /** Invariant I1: node ids are unique. */
  predicate UniqueIds(ns: seq<GlobalNode>)
  {
    forall i, j | 0 <= i < j < |ns| :: ns[i].id != ns[j].id
  }

  /** Invariant I2: (from, to) pairs are unique. */
  predicate UniqueConnKeys(cs: seq<Connection>)
  {
    forall i, j | 0 <= i < j < |cs| :: ConnKey(cs[i]) != ConnKey(cs[j])
  }

  /** Invariant I4: no node was earned by more users than have it. */
  predicate CountsConsistent(ns: seq<GlobalNode>)
  {
    forall i | 0 <= i < |ns| :: ns[i].earnedByCount <= ns[i].totalUserCount
  }

  /** Invariant I3: every prerequisite named by a node is a node of the tree. */
  predicate PrereqClosed(ns: seq<GlobalNode>)
  {
    forall i | 0 <= i < |ns| :: forall p | p in ns[i].prerequisites :: p in Ids(ns)
  }

  /** The first index holding id `id` (`nodes.find(n => n.id === id)`), if any. */
  function FindNode(ns: seq<GlobalNode>, id: string): (r: Option<nat>)
    ensures r.None? <==> id !in Ids(ns)
    ensures r.Some? ==>
              && r.value < |ns| && ns[r.value].id == id
              && forall j | 0 <= j < r.value :: ns[j].id != id
    decreases |ns|
  {
    if |ns| == 0 then None
    else if ns[0].id == id then Some(0)
    else
      match FindNode(ns[1..], id)
      case None => None
      case Some(i) => Some(i + 1)
  }

  /** The user count of the node `find` returns for `x`, 0 when there is none. */
  function TotalOf(ns: seq<GlobalNode>, x: string): nat
  {
    match FindNode(ns, x)
    case None => 0
    case Some(i) => ns[i].totalUserCount
  }

  /** The earned count of the node `find` returns for `x`, 0 when there is none. */
  function EarnedOf(ns: seq<GlobalNode>, x: string): nat
  {
    match FindNode(ns, x)
    case None => 0
    case Some(i) => ns[i].earnedByCount
  }

  /** `find` returns the first index carrying the id, and no other. */
  lemma FindNodeIs(ns: seq<GlobalNode>, x: string, k: nat)
    requires k < |ns| && ns[k].id == x
    requires forall j | 0 <= j < k :: ns[j].id != x
    ensures FindNode(ns, x) == Some(k)
  {
    assert x in Ids(ns);
  }

  lemma FindNodeNone(ns: seq<GlobalNode>, x: string)
    requires forall j | 0 <= j < |ns| :: ns[j].id != x
    ensures FindNode(ns, x) == None
  {
  }

  /** Two lists with the same ids position by position have the same first-index lookups. */
  lemma FindNodeSameIds(ns: seq<GlobalNode>, ms: seq<GlobalNode>, x: string)
    requires |ns| == |ms|
    requires forall i | 0 <= i < |ns| :: ns[i].id == ms[i].id
    ensures FindNode(ns, x) == FindNode(ms, x)
  {
    match FindNode(ns, x)
    case None =>
      FindNodeNone(ms, x);
    case Some(k) =>
      FindNodeIs(ms, x, k);
  }

  /** Appending nodes does not change the lookup of an id already present. */
  lemma FindNodeExtend(ns: seq<GlobalNode>, ms: seq<GlobalNode>, x: string)
    requires ns <= ms
    requires x in Ids(ns)
    ensures FindNode(ms, x) == FindNode(ns, x)
  {
    var k := FindNode(ns, x).value;
    assert forall j | 0 <= j <= k :: ms[j] == ns[j];
    FindNodeIs(ms, x, k);
  }

  /** Appending a node with a new id makes it the one `find` returns. */
  lemma FindNodeAppendNew(ns: seq<GlobalNode>, v: GlobalNode)
    requires v.id !in Ids(ns)
    ensures FindNode(ns + [v], v.id) == Some(|ns|)
  {
    var ms := ns + [v];
    assert forall j | 0 <= j < |ns| :: ms[j] == ns[j];
    FindNodeIs(ms, v.id, |ns|);
  }

  /** Appending a node leaves the lookup of every other id as it was. */
  lemma FindNodeAppendOther(ns: seq<GlobalNode>, v: GlobalNode, x: string)
    requires v.id != x
    ensures FindNode(ns + [v], x) == FindNode(ns, x)
  {
    var ms := ns + [v];
    if x in Ids(ns) {
      FindNodeExtend(ns, ms, x);
    } else {
      assert forall j | 0 <= j < |ns| :: ms[j] == ns[j];
      FindNodeNone(ms, x);
    }
  }

  lemma IdsExtend(ns: seq<GlobalNode>, ms: seq<GlobalNode>)
    requires ns <= ms
    ensures Ids(ns) <= Ids(ms)
    ensures Ids(ms) == Ids(ns) + Ids(ms[|ns|..])
  {
    forall y | y in Ids(ms) ensures y in Ids(ns) + Ids(ms[|ns|..]) {
      var i :| 0 <= i < |ms| && ms[i].id == y;
      if i < |ns| {
        assert ns[i] == ms[i];
      } else {
        assert ms[|ns|..][i - |ns|] == ms[i];
      }
    }
    forall y | y in Ids(ns) + Ids(ms[|ns|..]) ensures y in Ids(ms) {
      if y in Ids(ns) {
        var i :| 0 <= i < |ns| && ns[i].id == y;
        assert ms[i] == ns[i];
      } else {
        var i :| 0 <= i < |ms[|ns|..]| && ms[|ns|..][i].id == y;
        assert ms[|ns| + i] == ms[|ns|..][i];
      }
    }
  }

  lemma IdsAsKeySet(ns: seq<GlobalNode>)
    ensures Ids(ns) == Dedup.KeySet(ns, NodeId)
    ensures UniqueIds(ns) <==> Dedup.Distinct(ns, NodeId)
  {
  }

  /** The node `find` returns for `x`, if any. */
  function NodeFor(ns: seq<GlobalNode>, x: string): (r: Option<GlobalNode>)
    ensures r.None? <==> x !in Ids(ns)
    ensures r.Some? ==> r.value.id == x && r.value in ns
  {
    match FindNode(ns, x)
    case None => None
    case Some(k) => Some(ns[k])
  }

  /**
    The first-occurrence sweep by id keeps, for every id, exactly the node
    that `find` returned before the sweep: lookups cannot tell the two apart.
  */
  lemma {:induction false} DedupLookup(ns: seq<GlobalNode>, x: string)
    ensures NodeFor(Dedup.Dedup(ns, NodeId), x) == NodeFor(ns, x)
    ensures TotalOf(Dedup.Dedup(ns, NodeId), x) == TotalOf(ns, x)
    ensures EarnedOf(Dedup.Dedup(ns, NodeId), x) == EarnedOf(ns, x)
    decreases |ns|
  {
    if |ns| > 0 {
      var init := ns[..|ns| - 1];
      var last := ns[|ns| - 1];
      var d0 := Dedup.Dedup(init, NodeId);
      assert ns == init + [last];
      DedupLookup(init, x);
      Dedup.DedupDistinct(init, NodeId);
      IdsAsKeySet(init);
      IdsAsKeySet(d0);
      if x != last.id {
        FindNodeAppendOther(init, last, x);
        FindNodeAppendOther(d0, last, x);
      } else if NodeId(last) in Dedup.KeySet(init, NodeId) {
        FindNodeExtend(init, ns, x);
      } else {
        FindNodeAppendNew(init, last);
        FindNodeAppendNew(d0, last);
      }
    }
  }

  /** `ms` has the ids of `ns` at the same positions, possibly followed by more nodes. */
  predicate KeepsIds(ns: seq<GlobalNode>, ms: seq<GlobalNode>)
  {
    |ns| <= |ms| && forall i | 0 <= i < |ns| :: ms[i].id == ns[i].id
  }

  /**
    Updating nodes in place without touching their ids, and appending new
    nodes, keeps every id and every lookup of an id already present.
  */
  lemma KeepsIdsLookup(ns: seq<GlobalNode>, ms: seq<GlobalNode>)
    requires KeepsIds(ns, ms)
    ensures Ids(ns) <= Ids(ms)
    ensures forall x | x in Ids(ns) :: FindNode(ms, x) == FindNode(ns, x)
  {
    forall x | x in Ids(ns) ensures x in Ids(ms) && FindNode(ms, x) == FindNode(ns, x) {
      var k := FindNode(ns, x).value;
      FindNodeIs(ms, x, k);
    }
  }

  lemma KeepsIdsTrans(ns: seq<GlobalNode>, ms: seq<GlobalNode>, ls: seq<GlobalNode>)
    requires KeepsIds(ns, ms) && KeepsIds(ms, ls)
    ensures KeepsIds(ns, ls)
  {
  }

  /** Replacing one node by a node with the same id keeps the ids, the lookups and uniqueness. */
  lemma UpdateKeepsIds(ns: seq<GlobalNode>, k: nat, v: GlobalNode)
    requires k < |ns| && v.id == ns[k].id
    ensures KeepsIds(ns, ns[k := v]) && KeepsIds(ns[k := v], ns)
    ensures Ids(ns[k := v]) == Ids(ns)
    ensures forall x :: FindNode(ns[k := v], x) == FindNode(ns, x)
    ensures UniqueIds(ns) ==> UniqueIds(ns[k := v])
  {
    KeepsIdsLookup(ns, ns[k := v]);
    KeepsIdsLookup(ns[k := v], ns);
    forall x ensures FindNode(ns[k := v], x) == FindNode(ns, x) {
      FindNodeSameIds(ns[k := v], ns, x);
    }
  }

  /** The first connection with this (from, to) pair, if any. */
  function FindConnection(cs: seq<Connection>, from: string, to: string): (r: Option<nat>)
    ensures r.None? ==> forall j | 0 <= j < |cs| :: ConnKey(cs[j]) != (from, to)
    ensures r.Some? ==>
              && r.value < |cs| && ConnKey(cs[r.value]) == (from, to)
              && forall j | 0 <= j < r.value :: ConnKey(cs[j]) != (from, to)
    decreases |cs|
  {
    if |cs| == 0 then None
    else if cs[0].from == from && cs[0].to == to then Some(0)
    else
      match FindConnection(cs[1..], from, to)
      case None => None
      case Some(i) => Some(i + 1)
  }

  /** The count of the connection `find` returns for (from, to), 0 when there is none. */
  function CountOf(cs: seq<Connection>, from: string, to: string): nat
  {
    match FindConnection(cs, from, to)
    case None => 0
    case Some(i) => cs[i].count
  }

  /** Fold one incoming edge: increment the matching connection or append it with count 1. */
  function AddConnection(cs: seq<Connection>, e: Edge): seq<Connection>
  {
    match FindConnection(cs, e.from, e.to)
    case None => cs + [Connection(e.from, e.to, 1)]
    case Some(i) => cs[i := cs[i].(count := cs[i].count + 1)]
  }

  /** Fold every incoming edge, in order. */
  function FoldConnections(cs: seq<Connection>, es: seq<Edge>): seq<Connection>
    decreases |es|
  {
    if |es| == 0 then cs else FoldConnections(AddConnection(cs, es[0]), es[1..])
  }

  lemma FindConnectionIs(cs: seq<Connection>, from: string, to: string, k: nat)
    requires k < |cs| && ConnKey(cs[k]) == (from, to)
    requires forall j | 0 <= j < k :: ConnKey(cs[j]) != (from, to)
    ensures FindConnection(cs, from, to) == Some(k)
  {
  }

  lemma FindConnectionNone(cs: seq<Connection>, from: string, to: string)
    requires forall j | 0 <= j < |cs| :: ConnKey(cs[j]) != (from, to)
    ensures FindConnection(cs, from, to) == None
  {
  }

  /** Lookups in two lists with the same keys position by position agree. */
  lemma FindConnectionSameKeys(cs: seq<Connection>, ds: seq<Connection>, from: string, to: string)
    requires |cs| == |ds|
    requires forall i | 0 <= i < |cs| :: ConnKey(cs[i]) == ConnKey(ds[i])
    ensures FindConnection(cs, from, to) == FindConnection(ds, from, to)
  {
    match FindConnection(cs, from, to)
    case None =>
      FindConnectionNone(ds, from, to);
    case Some(k) =>
      FindConnectionIs(ds, from, to, k);
  }

  lemma AddConnectionCount(cs: seq<Connection>, e: Edge, from: string, to: string)
    ensures CountOf(AddConnection(cs, e), from, to)
            == CountOf(cs, from, to) + (if e == Edge(from, to) then 1 else 0)
  {
    var r := AddConnection(cs, e);
    match FindConnection(cs, e.from, e.to)
    case None =>
      assert forall j | 0 <= j < |cs| :: r[j] == cs[j];
      match FindConnection(cs, from, to) {
        case None =>
          if e == Edge(from, to) {
            FindConnectionIs(r, from, to, |cs|);
          } else {
            FindConnectionNone(r, from, to);
          }
        case Some(k) =>
          FindConnectionIs(r, from, to, k);
      }
    case Some(i) =>
      FindConnectionSameKeys(cs, r, from, to);
  }

  /**
    Each incoming edge adds exactly 1 to the count of its (from, to) pair:
    after the fold, every pair's count is its old count (0 if absent) plus
    the number of times the pair occurs among the incoming edges.
  */
  lemma {:induction false} FoldConnectionsCount(cs: seq<Connection>, es: seq<Edge>, from: string, to: string)
    ensures CountOf(FoldConnections(cs, es), from, to)
            == CountOf(cs, from, to) + multiset(es)[Edge(from, to)]
    decreases |es|
  {
    if |es| > 0 {
      AddConnectionCount(cs, es[0], from, to);
      FoldConnectionsCount(AddConnection(cs, es[0]), es[1..], from, to);
      assert es == [es[0]] + es[1..];
    }
  }

  lemma AddConnectionUnique(cs: seq<Connection>, e: Edge)
    requires UniqueConnKeys(cs)
    ensures UniqueConnKeys(AddConnection(cs, e))
  {
    var r := AddConnection(cs, e);
    if FindConnection(cs, e.from, e.to).Some? {
      assert forall j | 0 <= j < |cs| :: ConnKey(r[j]) == ConnKey(cs[j]);
    } else {
      forall i, j | 0 <= i < j < |r| ensures ConnKey(r[i]) != ConnKey(r[j]) {
        if j == |cs| {
          assert r[i] == cs[i];
        } else {
          assert r[i] == cs[i] && r[j] == cs[j];
        }
      }
    }
  }

  /** Folding connections never creates a second entry for a (from, to) pair (invariant I2). */
  lemma {:induction false} FoldConnectionsUnique(cs: seq<Connection>, es: seq<Edge>)
    requires UniqueConnKeys(cs)
    ensures UniqueConnKeys(FoldConnections(cs, es))
    decreases |es|
  {
    if |es| > 0 {
      AddConnectionUnique(cs, es[0]);
      FoldConnectionsUnique(AddConnection(cs, es[0]), es[1..]);
    }
  }

  /** The freshly created tree satisfies every structural invariant and counts no user. */
  lemma FreshTreeInvariants(now: int)
    ensures var t := FreshTree(now);
            UniqueIds(t.nodes) && UniqueConnKeys(t.connections) && CountsConsistent(t.nodes)
            && PrereqClosed(t.nodes) && t.totalUsers == 0 && t.lastUpdated == now
  {
  }
}
