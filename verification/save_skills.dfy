/**
  The incremental merge run when a user saves a skill graph: the stored
  tree's nodes are first swept for duplicate ids; then every incoming node,
  earned or not, is folded in (new ids appended, known ids combined:
  counters raised, the longer description kept, prerequisites unioned);
  then every incoming connection is folded in; finally one more user is
  counted. The stored connections are not swept.

  Also the gate that decides whether a re-submitted graph is merged at all.
*/
module SaveSkills {
  import opened Wrappers
  import opened Individual
  import opened Global
  import Dedup

  /** `incoming.filter(p => !existing.includes(p))`: order and repeats of `incoming` are kept. */
  function NewPrereqs(existing: seq<string>, incoming: seq<string>): (r: seq<string>)
    ensures forall p :: p in r <==> p in incoming && p !in existing
    ensures |r| <= |incoming|
    decreases |incoming|
  {
    if |incoming| == 0 then []
    else if incoming[0] in existing then NewPrereqs(existing, incoming[1..])
    else [incoming[0]] + NewPrereqs(existing, incoming[1..])
  }

  /** `[...existing, ...newPrereqs]`. */
  function UnionPrereqs(existing: seq<string>, incoming: seq<string>): (r: seq<string>)
    ensures existing <= r
    ensures forall p :: p in r <==> p in existing || p in incoming
    ensures forall k | |existing| <= k < |r| :: r[k] !in existing
  {
    existing + NewPrereqs(existing, incoming)
  }

  /** Unioning in a list already covered adds nothing; in particular the union is idempotent. */
  lemma UnionPrereqsCovered(existing: seq<string>, incoming: seq<string>)
    requires forall p | p in incoming :: p in existing
    ensures UnionPrereqs(existing, incoming) == existing
  {
    NothingNew(existing, incoming);
    assert existing + [] == existing;
  }

  lemma {:induction false} NothingNew(existing: seq<string>, incoming: seq<string>)
    requires forall p | p in incoming :: p in existing
    ensures NewPrereqs(existing, incoming) == []
    decreases |incoming|
  {
    if |incoming| > 0 {
      assert incoming[0] in incoming;
      NothingNew(existing, incoming[1..]);
    }
  }

  lemma UnionPrereqsIdempotent(existing: seq<string>, incoming: seq<string>)
    ensures UnionPrereqs(UnionPrereqs(existing, incoming), incoming) == UnionPrereqs(existing, incoming)
  {
    UnionPrereqsCovered(UnionPrereqs(existing, incoming), incoming);
  }

  /** The node appended for an unseen id: earned by 1 of 1 user if earned, else 0 of 1. */
  function NewNode(u: UserNode): (r: GlobalNode)
    ensures r.id == u.id && r.totalUserCount == 1
    ensures r.earnedByCount == (if u.earned then 1 else 0)
    ensures r.earnedByCount <= r.totalUserCount
    ensures r.name == u.name && r.category == u.category && r.description == u.description
    ensures r.prerequisites == u.prerequisites && r.children == []
  {
    GlobalNode(u.id, u.name, u.category, u.description, u.prerequisites, [], if u.earned then 1 else 0, 1)
  }

  /**
    Combine an incoming node into the stored node with its id: one more user
    has it, one more earned it if it is earned, a strictly longer
    description wins, prerequisites are unioned with the stored list kept as
    a prefix.
  */
  function MergeNode(g: GlobalNode, u: UserNode): (r: GlobalNode)
    ensures r.id == g.id && r.name == g.name && r.category == g.category
    ensures r.totalUserCount == g.totalUserCount + 1
    ensures r.earnedByCount == g.earnedByCount + (if u.earned then 1 else 0)
    ensures g.earnedByCount <= g.totalUserCount ==> r.earnedByCount <= r.totalUserCount
    ensures r.description == g.description || (r.description == u.description && |u.description| > |g.description|)
    ensures |r.description| >= |g.description| && |r.description| >= |u.description|
    ensures g.prerequisites <= r.prerequisites
    ensures forall p :: p in r.prerequisites <==> p in g.prerequisites || p in u.prerequisites
  {
    g.(totalUserCount := g.totalUserCount + 1,
       earnedByCount := g.earnedByCount + (if u.earned then 1 else 0),
       description := if |u.description| > |g.description| then u.description else g.description,
       prerequisites := UnionPrereqs(g.prerequisites, u.prerequisites))
  }

  /** One iteration of the node loop. */
  function MergeUserNode(ns: seq<GlobalNode>, u: UserNode): (r: seq<GlobalNode>)
    ensures KeepsIds(ns, r)
    ensures Ids(r) == Ids(ns) + {u.id}
    ensures UniqueIds(ns) ==> UniqueIds(r)
    ensures CountsConsistent(ns) ==> CountsConsistent(r)
    ensures u.id !in Ids(ns) ==> r == ns + [NewNode(u)]
    ensures FindNode(ns, u.id).Some? ==>
              var k := FindNode(ns, u.id).value;
              r == ns[k := MergeNode(ns[k], u)]
  {
    match FindNode(ns, u.id)
    case None =>
      IdsExtend(ns, ns + [NewNode(u)]);
      assert (ns + [NewNode(u)])[|ns|..] == [NewNode(u)];
      assert Ids([NewNode(u)]) == {u.id} by { assert [NewNode(u)][0].id == u.id; }
      assert UniqueIds(ns) ==> UniqueIds(ns + [NewNode(u)]) by {
        if UniqueIds(ns) { AppendUnique(ns, NewNode(u)); }
      }
      ns + [NewNode(u)]
    case Some(k) =>
      UpdateKeepsIds(ns, k, MergeNode(ns[k], u));
      ns[k := MergeNode(ns[k], u)]
  }

  lemma AppendUnique(ns: seq<GlobalNode>, v: GlobalNode)
    requires UniqueIds(ns) && v.id !in Ids(ns)
    ensures UniqueIds(ns + [v])
  {
    var ms := ns + [v];
    forall i, j | 0 <= i < j < |ms| ensures ms[i].id != ms[j].id {
      assert ms[i] == ns[i];
      if j < |ns| {
        assert ms[j] == ns[j];
      }
    }
  }

  /** The node loop `for (const userNode of userSkillTree.nodes)`. */
  function MergeNodes(ns: seq<GlobalNode>, us: seq<UserNode>): (r: seq<GlobalNode>)
    ensures KeepsIds(ns, r)
    ensures Ids(r) == Ids(ns) + SourceIds(us)
    ensures UniqueIds(ns) ==> UniqueIds(r)
    ensures CountsConsistent(ns) ==> CountsConsistent(r)
    decreases |us|
  {
    if |us| == 0 then ns
    else
      var m := MergeUserNode(ns, us[0]);
      var r := MergeNodes(m, us[1..]);
      KeepsIdsTrans(ns, m, r);
      SourceIdsCons(us);
      r
  }

  /** One incoming node adds 1 user to its id, and 1 earner if it is earned; other ids are untouched. */
  lemma MergeUserNodeCounts(ns: seq<GlobalNode>, u: UserNode, x: string)
    ensures TotalOf(MergeUserNode(ns, u), x) == TotalOf(ns, x) + (if u.id == x then 1 else 0)
    ensures EarnedOf(MergeUserNode(ns, u), x) == EarnedOf(ns, x) + (if u.id == x && u.earned then 1 else 0)
  {
    match FindNode(ns, u.id)
    case None =>
      if u.id == x {
        FindNodeAppendNew(ns, NewNode(u));
      } else {
        FindNodeAppendOther(ns, NewNode(u), x);
      }
    case Some(k) =>
      UpdateKeepsIds(ns, k, MergeNode(ns[k], u));
  }

  /**
    After the node loop, every id's user count has grown by the number of
    incoming nodes carrying it and its earned count by the number of those
    that are earned (a missing node counting as 0 of 0).
  */
  lemma {:induction false} MergeNodesCounts(ns: seq<GlobalNode>, us: seq<UserNode>, x: string)
    ensures TotalOf(MergeNodes(ns, us), x) == TotalOf(ns, x) + CountId(us, x)
    ensures EarnedOf(MergeNodes(ns, us), x) == EarnedOf(ns, x) + CountEarnedId(us, x)
    decreases |us|
  {
    if |us| > 0 {
      MergeUserNodeCounts(ns, us[0], x);
      MergeNodesCounts(MergeUserNode(ns, us[0]), us[1..], x);
    }
  }

  /**
    `updateGlobalTree`: `stored` is the tree `findOne` returned, if any, and
    `now` the clock reading. The result has unique node ids whatever was
    stored, holds every stored and every incoming id, and counts one more user.
  */
  function UpdateGlobalTree(stored: Option<GlobalTree>, g: SkillGraph, now: int): (r: GlobalTree)
    ensures UniqueIds(r.nodes)
    ensures Ids(r.nodes) == Ids(stored.GetOr(FreshTree(now)).nodes) + SourceIds(g.nodes)
    ensures CountsConsistent(stored.GetOr(FreshTree(now)).nodes) ==> CountsConsistent(r.nodes)
    ensures UniqueConnKeys(stored.GetOr(FreshTree(now)).connections) ==> UniqueConnKeys(r.connections)
    ensures r.totalUsers == stored.GetOr(FreshTree(now)).totalUsers + 1
    ensures r.lastUpdated == now
  {
    var t := stored.GetOr(FreshTree(now));
    var swept := Dedup.Dedup(t.nodes, NodeId);
    Dedup.DedupDistinct(t.nodes, NodeId);
    IdsAsKeySet(t.nodes);
    IdsAsKeySet(swept);
    assert CountsConsistent(t.nodes) ==> CountsConsistent(swept) by {
      SweptConsistent(t.nodes);
    }
    assert UniqueConnKeys(t.connections) ==> UniqueConnKeys(FoldConnections(t.connections, g.connections)) by {
      if UniqueConnKeys(t.connections) { FoldConnectionsUnique(t.connections, g.connections); }
    }
    GlobalTree(MergeNodes(swept, g.nodes), FoldConnections(t.connections, g.connections), t.totalUsers + 1, now)
  }

  lemma SweptConsistent(ns: seq<GlobalNode>)
    ensures CountsConsistent(ns) ==> CountsConsistent(Dedup.Dedup(ns, NodeId))
  {
    Dedup.DedupSubseq(ns, NodeId);
    SubseqMembers(Dedup.Dedup(ns, NodeId), ns);
  }

  /**
    The merge never produces a node the schema would reject on save, as long
    as the stored nodes and every incoming node pass it: merged nodes keep the
    stored id, name and category, and new nodes copy the incoming ones.
  */
  lemma UpdateKeepsSchemaValid(stored: Option<GlobalTree>, g: SkillGraph, now: int)
    requires forall n | n in stored.GetOr(FreshTree(now)).nodes :: SchemaValidNode(n)
    requires forall u | u in g.nodes :: SchemaValidNode(NewNode(u))
    ensures forall n | n in UpdateGlobalTree(stored, g, now).nodes :: SchemaValidNode(n)
  {
    var t := stored.GetOr(FreshTree(now));
    Dedup.DedupSubseq(t.nodes, NodeId);
    SubseqMembers(Dedup.Dedup(t.nodes, NodeId), t.nodes);
    MergeNodesSchemaValid(Dedup.Dedup(t.nodes, NodeId), g.nodes);
  }

  lemma {:induction false} MergeNodesSchemaValid(ns: seq<GlobalNode>, us: seq<UserNode>)
    requires forall n | n in ns :: SchemaValidNode(n)
    requires forall u | u in us :: SchemaValidNode(NewNode(u))
    ensures forall n | n in MergeNodes(ns, us) :: SchemaValidNode(n)
    decreases |us|
  {
    if |us| > 0 {
      var u := us[0];
      var m := MergeUserNode(ns, u);
      assert forall n | n in m :: SchemaValidNode(n) by {
        match FindNode(ns, u.id)
        case None =>
          assert m == ns + [NewNode(u)];
        case Some(k) =>
          assert m == ns[k := MergeNode(ns[k], u)];
          forall n | n in m ensures SchemaValidNode(n) {
            var i :| 0 <= i < |m| && m[i] == n;
            if i != k {
              assert m[i] == ns[i];
            } else {
              assert ns[k] in ns;
            }
          }
      }
      assert forall v | v in us[1..] :: v in us;
      MergeNodesSchemaValid(m, us[1..]);
    }
  }

  lemma {:induction false} SubseqMembers(a: seq<GlobalNode>, b: seq<GlobalNode>)
    requires Dedup.SubseqOf(a, b)
    ensures forall v | v in a :: v in b
    decreases |b|
  {
    if |a| > 0 && |b| > 0 {
      if a[|a| - 1] == b[|b| - 1] && Dedup.SubseqOf(a[..|a| - 1], b[..|b| - 1]) {
        SubseqMembers(a[..|a| - 1], b[..|b| - 1]);
        assert a == a[..|a| - 1] + [a[|a| - 1]];
        assert forall v | v in b[..|b| - 1] :: v in b;
      } else {
        SubseqMembers(a, b[..|b| - 1]);
        assert forall v | v in b[..|b| - 1] :: v in b;
      }
    }
  }

  /**
    The merge's counters: every id's user count is what `find` saw in the
    stored tree plus the incoming nodes carrying it; the earned count
    likewise with the earned incoming nodes.
  */
  lemma UpdateCounts(stored: Option<GlobalTree>, g: SkillGraph, now: int, x: string)
    ensures var before := stored.GetOr(FreshTree(now)).nodes;
            var after := UpdateGlobalTree(stored, g, now).nodes;
            && TotalOf(after, x) == TotalOf(before, x) + CountId(g.nodes, x)
            && EarnedOf(after, x) == EarnedOf(before, x) + CountEarnedId(g.nodes, x)
  {
    var before := stored.GetOr(FreshTree(now)).nodes;
    DedupLookup(before, x);
    MergeNodesCounts(Dedup.Dedup(before, NodeId), g.nodes, x);
  }

  /** Each incoming connection adds 1 to the count of the first stored entry with its pair. */
  lemma UpdateConnectionCounts(stored: Option<GlobalTree>, g: SkillGraph, now: int, from: string, to: string)
    ensures CountOf(UpdateGlobalTree(stored, g, now).connections, from, to)
            == CountOf(stored.GetOr(FreshTree(now)).connections, from, to) + multiset(g.connections)[Edge(from, to)]
  {
    FoldConnectionsCount(stored.GetOr(FreshTree(now)).connections, g.connections, from, to);
  }

  /** Folding connections keeps every stored entry's pair in place. */
  lemma {:induction false} FoldKeepsKeys(cs: seq<Connection>, es: seq<Edge>)
    ensures |cs| <= |FoldConnections(cs, es)|
    ensures forall i | 0 <= i < |cs| :: ConnKey(FoldConnections(cs, es)[i]) == ConnKey(cs[i])
    decreases |es|
  {
    if |es| > 0 {
      var a := AddConnection(cs, es[0]);
      assert |cs| <= |a| && forall i | 0 <= i < |cs| :: ConnKey(a[i]) == ConnKey(cs[i]);
      FoldKeepsKeys(a, es[1..]);
    }
  }

  /** Unlike the node list, the stored connection list is not swept: a duplicated pair stays duplicated. */
  lemma DuplicateConnectionsSurvive(stored: GlobalTree, g: SkillGraph, now: int)
    requires !UniqueConnKeys(stored.connections)
    ensures !UniqueConnKeys(UpdateGlobalTree(Some(stored), g, now).connections)
  {
    var cs := stored.connections;
    var i, j :| 0 <= i < j < |cs| && ConnKey(cs[i]) == ConnKey(cs[j]);
    FoldKeepsKeys(cs, g.connections);
    var r := UpdateGlobalTree(Some(stored), g, now).connections;
    assert ConnKey(r[i]) == ConnKey(r[j]);
  }

  /** What the user record held before the save, as far as the gate looks at it. */
  datatype StoredGraph =
    | NoStoredGraph                // `skills.skillTree` absent or empty
    | StoredUnparseable            // present, but `JSON.parse` throws, or yields `null`
    | StoredGraph(nodeCount: nat)  // parsed; `nodes?.length || 0`

  /** `(n - o) / o >= 0.2` with `n > o`, in integers: for `o == 0` the quotient is +Infinity. */
  predicate Significant(n: nat, o: nat)
  {
    n > o && 5 * (n - o) >= o
  }

  /**
    Whether the save merges into the global tree. `incoming` is the node
    count of the submitted graph (`nodes?.length || 0`), or `None` when no
    graph was submitted.
  */
  function ShouldMerge(stored: StoredGraph, incoming: Option<nat>): (r: bool)
    ensures r <==> incoming.Some? && (stored.NoStoredGraph? || stored.StoredUnparseable?
                                      || Significant(incoming.value, stored.nodeCount))
  {
    var isNew := stored.NoStoredGraph?;
    var should :=
      if !isNew && incoming.Some? then
        match stored
        case StoredUnparseable => true
        case StoredGraph(o) => isNew || Significant(incoming.value, o)
        case NoStoredGraph => isNew
      else isNew;
    incoming.Some? && should
  }

  /** The integer test is the 20% growth threshold computed over the rationals. */
  lemma SignificantIsTwentyPercent(n: nat, o: nat)
    requires o > 0
    ensures Significant(n, o) <==> n > o && (n - o) as real / o as real >= 0.2
  {
    if n > o {
      var q := (n - o) as real / o as real;
      assert q * o as real == (n - o) as real;
      if 5 * (n - o) >= o {
        assert (n - o) as real >= 0.2 * o as real;
      } else {
        assert (n - o) as real < 0.2 * o as real;
      }
    }
  }

  /** Re-submitting a graph with no more nodes than the stored one never merges. */
  lemma NoGrowthNeverMerges(o: nat, n: nat)
    requires n <= o
    ensures !ShouldMerge(StoredGraph(o), Some(n))
  {
  }

  /** More nodes never turn a merge into a skip. */
  lemma GateMonotone(o: nat, n: nat, m: nat)
    requires n <= m && ShouldMerge(StoredGraph(o), Some(n))
    ensures ShouldMerge(StoredGraph(o), Some(m))
  {
  }

  /** The save's effect on the global tree: the merged tree when the gate opens, nothing otherwise. */
  function SaveSkills(stored: StoredGraph, incoming: Option<SkillGraph>, tree: Option<GlobalTree>, now: int): (r: Option<GlobalTree>)
    ensures r.Some? <==> ShouldMerge(stored, if incoming.Some? then Some(|incoming.value.nodes|) else None)
    ensures r.Some? ==> UniqueIds(r.value.nodes) && r.value.totalUsers == tree.GetOr(FreshTree(now)).totalUsers + 1
    ensures r.Some? ==> incoming.Some? && r.value == UpdateGlobalTree(tree, incoming.value, now)
  {
    var count := if incoming.Some? then Some(|incoming.value.nodes|) else None;
    if ShouldMerge(stored, count) then Some(UpdateGlobalTree(tree, incoming.value, now)) else None
  }
}
