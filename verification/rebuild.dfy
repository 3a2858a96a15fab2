/**
  The administrative rebuild: throw the global tree away and fold every
  user's stored graph into a fresh one. For each user only the earned skills
  are counted; each is first given its prerequisite chain, then its counters
  are raised unless the node counts as "new". Connections are folded as the
  merge folds them. Errors (an unparseable graph, a broken chain) are counted
  and skipped.

  Whether a node is "new" is a policy: `AsWritten` is the source's test
  (`earnedByCount == 1 && totalUserCount == 1`), `Corrected` asks whether the
  id was absent before the current user's fold began.
*/
module Rebuild {
  import opened Wrappers
  import opened Individual
  import opened Global
  import opened Chain

  /** What a user's stored `skills.skillTree` turns out to be. */
  datatype UserRecord =
    | NoTree                      // absent or empty: skipped
    | Unparseable                 // the JSON text does not parse: an error
    | NoNodes                     // parses, but has no `nodes`: skipped
    | HasGraph(graph: SkillGraph) // processed, even when its node list is empty

  datatype CountPolicy = AsWritten | Corrected

  /** The tree being rebuilt and the three running counters. */
  datatype Acc = Acc(
    nodes: seq<GlobalNode>,
    connections: seq<Connection>,
    processed: nat,
    skills: nat,
    errors: nat)

  datatype RebuildStats = RebuildStats(
    totalUsers: nat,
    processedUsers: nat,
    totalSkillsProcessed: nat,
    errorsEncountered: nat,
    finalNodes: nat,
    finalConnections: nat)

  /** `NoUsers` is the `success: false` reply given before anything is deleted. */
  datatype RebuildOutcome = NoUsers | Rebuilt(tree: GlobalTree, stats: RebuildStats)

  datatype SkillStep = SkillStep(nodes: seq<GlobalNode>, counted: bool)

  datatype SkillsResult = SkillsResult(nodes: seq<GlobalNode>, skills: nat, errors: nat)

  /** Invariants I1, I2 and I4 together. */
  predicate Healthy(nodes: seq<GlobalNode>, connections: seq<Connection>)
  {
    UniqueIds(nodes) && CountsConsistent(nodes) && UniqueConnKeys(connections)
  }

  /** Whether the node found for an earned skill is left as it is. */
  predicate IsNew(policy: CountPolicy, before: set<string>, n: GlobalNode)
  {
    match policy
    case AsWritten => n.earnedByCount == 1 && n.totalUserCount == 1
    case Corrected => n.id !in before
  }

  /** One more user has the skill and earned it; a strictly longer description replaces the stored one. */
  function CountEarner(n: GlobalNode, u: UserNode): (r: GlobalNode)
    ensures r.id == n.id && r.prerequisites == n.prerequisites
    ensures r.totalUserCount == n.totalUserCount + 1 && r.earnedByCount == n.earnedByCount + 1
    ensures |r.description| >= |n.description| && |r.description| >= |u.description|
  {
    n.(totalUserCount := n.totalUserCount + 1,
       earnedByCount := n.earnedByCount + 1,
       description := if |u.description| > |n.description| then u.description else n.description)
  }

  /**
    One earned skill: resolve its chain; when the chain resolved, raise the
    counters of its node unless the policy calls it new. A skill is counted
    exactly when its chain resolved, which it always does when the skill is
    already in the tree.
  */
  function ProcessSkill(policy: CountPolicy, before: set<string>, src: seq<UserNode>,
                        nodes: seq<GlobalNode>, u: UserNode): (r: SkillStep)
    ensures KeepsIds(nodes, r.nodes)
    ensures UniqueIds(nodes) ==> UniqueIds(r.nodes)
    ensures CountsConsistent(nodes) ==> CountsConsistent(r.nodes)
    ensures r.counted && PrereqClosed(nodes) ==> PrereqClosed(r.nodes)
    ensures r.counted ==> u.id in Ids(r.nodes)
    ensures u.id in Ids(nodes) ==> r.counted
  {
    var c := EnsureChain(u.id, src, nodes, {});
    if c.broken.Some? then
      SkillStep(c.nodes, false)
    else
      var k := FindNode(c.nodes, u.id).value;
      if IsNew(policy, before, c.nodes[k]) then
        assert PrereqClosed(nodes) ==> PrereqClosed(c.nodes) by {
          if PrereqClosed(nodes) { ChainKeepsClosed(u.id, src, nodes); }
        }
        SkillStep(c.nodes, true)
      else
        assert PrereqClosed(nodes) ==> PrereqClosed(c.nodes) by {
          if PrereqClosed(nodes) { ChainKeepsClosed(u.id, src, nodes); }
        }
        CountStep(nodes, c.nodes, k, u);
        SkillStep(c.nodes[k := CountEarner(c.nodes[k], u)], true)
  }

  /** Raising the counters of the chain's node for `u` keeps what the chain kept. */
  lemma CountStep(nodes: seq<GlobalNode>, chained: seq<GlobalNode>, k: nat, u: UserNode)
    requires KeepsIds(nodes, chained) && k < |chained| && chained[k].id == u.id
    ensures var r := chained[k := CountEarner(chained[k], u)];
            && KeepsIds(nodes, r)
            && (UniqueIds(chained) ==> UniqueIds(r))
            && (CountsConsistent(chained) ==> CountsConsistent(r))
            && (PrereqClosed(chained) ==> PrereqClosed(r))
            && u.id in Ids(r)
  {
    var v := CountEarner(chained[k], u);
    var r := chained[k := v];
    UpdateKeepsIds(chained, k, v);
    KeepsIdsTrans(nodes, chained, r);
    if PrereqClosed(chained) {
      UpdateKeepsClosed(chained, k, v);
    }
    assert r[k].id == u.id;
  }

  lemma UpdateKeepsClosed(ns: seq<GlobalNode>, k: nat, v: GlobalNode)
    requires k < |ns| && v.id == ns[k].id && v.prerequisites == ns[k].prerequisites
    requires PrereqClosed(ns)
    ensures PrereqClosed(ns[k := v])
  {
    UpdateKeepsIds(ns, k, v);
  }

  /** The loop over the earned skills: every skill is either counted or an error. */
  function ProcessSkills(policy: CountPolicy, before: set<string>, src: seq<UserNode>,
                         nodes: seq<GlobalNode>, es: seq<UserNode>): (r: SkillsResult)
    ensures r.skills + r.errors == |es|
    ensures KeepsIds(nodes, r.nodes)
    ensures UniqueIds(nodes) ==> UniqueIds(r.nodes)
    ensures CountsConsistent(nodes) ==> CountsConsistent(r.nodes)
    ensures r.errors == 0 && PrereqClosed(nodes) ==> PrereqClosed(r.nodes)
    decreases |es|
  {
    if |es| == 0 then SkillsResult(nodes, 0, 0)
    else
      var s := ProcessSkill(policy, before, src, nodes, es[0]);
      var rest := ProcessSkills(policy, before, src, s.nodes, es[1..]);
      KeepsIdsTrans(nodes, s.nodes, rest.nodes);
      SkillsResult(rest.nodes,
                   rest.skills + (if s.counted then 1 else 0),
                   rest.errors + (if s.counted then 0 else 1))
  }

  /** One user of the list, with the user-level `try`: skipped, an error, or folded in. */
  function ProcessUser(policy: CountPolicy, acc: Acc, rec: UserRecord): (r: Acc)
    ensures Healthy(acc.nodes, acc.connections) ==> Healthy(r.nodes, r.connections)
    ensures KeepsIds(acc.nodes, r.nodes)
    ensures r.processed == acc.processed + (if rec.HasGraph? then 1 else 0)
    ensures r.errors >= acc.errors + (if rec.Unparseable? then 1 else 0)
    ensures r.errors == acc.errors && PrereqClosed(acc.nodes) ==> PrereqClosed(r.nodes)
  {
    match rec
    case NoTree => acc
    case NoNodes => acc
    case Unparseable => acc.(errors := acc.errors + 1)
    case HasGraph(g) =>
      var s := ProcessSkills(policy, Ids(acc.nodes), g.nodes, acc.nodes, EarnedNodes(g.nodes));
      assert UniqueConnKeys(acc.connections) ==> UniqueConnKeys(FoldConnections(acc.connections, g.connections)) by {
        if UniqueConnKeys(acc.connections) { FoldConnectionsUnique(acc.connections, g.connections); }
      }
      Acc(s.nodes, FoldConnections(acc.connections, g.connections),
          acc.processed + 1, acc.skills + s.skills, acc.errors + s.errors)
  }

  /** The number of users whose graph is processed. */
  function GraphCount(users: seq<UserRecord>): nat
    decreases |users|
  {
    if |users| == 0 then 0 else (if users[0].HasGraph? then 1 else 0) + GraphCount(users[1..])
  }

  /** The number of users whose stored graph does not parse. */
  function UnparseableCount(users: seq<UserRecord>): nat
    decreases |users|
  {
    if |users| == 0 then 0 else (if users[0].Unparseable? then 1 else 0) + UnparseableCount(users[1..])
  }

  /** How many times the processed users' graphs list the edge `e`. */
  function EdgeOccurrences(users: seq<UserRecord>, e: Edge): nat
    decreases |users|
  {
    if |users| == 0 then 0
    else (if users[0].HasGraph? then multiset(users[0].graph.connections)[e] else 0)
         + EdgeOccurrences(users[1..], e)
  }

  /** The `for (const user of users)` loop. */
  function FoldUsers(policy: CountPolicy, acc: Acc, users: seq<UserRecord>): (r: Acc)
    ensures Healthy(acc.nodes, acc.connections) ==> Healthy(r.nodes, r.connections)
    ensures KeepsIds(acc.nodes, r.nodes)
    ensures r.processed == acc.processed + GraphCount(users)
    ensures r.errors >= acc.errors + UnparseableCount(users)
    ensures r.errors == acc.errors && PrereqClosed(acc.nodes) ==> PrereqClosed(r.nodes)
    decreases |users|
  {
    if |users| == 0 then acc
    else
      var a := ProcessUser(policy, acc, users[0]);
      var r := FoldUsers(policy, a, users[1..]);
      KeepsIdsTrans(acc.nodes, a.nodes, r.nodes);
      r
  }

  /**
    `POST /api/rebuild-global-tree` over the users the query returns. The
    rebuilt tree satisfies I1, I2 and I4; its `totalUsers` is the number of
    processed users, which can be lower than the user count the stats report;
    when nothing went wrong it also satisfies I3.
  */
  function Rebuild(policy: CountPolicy, users: seq<UserRecord>, now: int): (r: RebuildOutcome)
    ensures r.NoUsers? <==> |users| == 0
    ensures r.Rebuilt? ==>
              && Healthy(r.tree.nodes, r.tree.connections)
              && r.tree.totalUsers == r.stats.processedUsers == GraphCount(users)
              && r.tree.lastUpdated == now
              && r.stats.totalUsers == |users|
              && r.stats.errorsEncountered >= UnparseableCount(users)
              && r.stats.finalNodes == |r.tree.nodes|
              && r.stats.finalConnections == |r.tree.connections|
              && (r.stats.errorsEncountered == 0 ==> PrereqClosed(r.tree.nodes))
  {
    if |users| == 0 then NoUsers
    else
      var a := FoldUsers(policy, Acc([], [], 0, 0, 0), users);
      Rebuilt(GlobalTree(a.nodes, a.connections, a.processed, now),
              RebuildStats(|users|, a.processed, a.skills, a.errors, |a.nodes|, |a.connections|))
  }

  /** Each connection of the rebuilt tree counts the processed graphs' occurrences of its edge. */
  lemma {:induction false} FoldUsersConnections(policy: CountPolicy, acc: Acc, users: seq<UserRecord>, from: string, to: string)
    ensures CountOf(FoldUsers(policy, acc, users).connections, from, to)
            == CountOf(acc.connections, from, to) + EdgeOccurrences(users, Edge(from, to))
    decreases |users|
  {
    if |users| > 0 {
      var a := ProcessUser(policy, acc, users[0]);
      FoldUsersConnections(policy, a, users[1..], from, to);
      if users[0].HasGraph? {
        FoldConnectionsCount(acc.connections, users[0].graph.connections, from, to);
      }
    }
  }

  lemma RebuildConnections(policy: CountPolicy, users: seq<UserRecord>, now: int, from: string, to: string)
    requires |users| > 0
    ensures CountOf(Rebuild(policy, users, now).tree.connections, from, to) == EdgeOccurrences(users, Edge(from, to))
  {
    FoldUsersConnections(policy, Acc([], [], 0, 0, 0), users, from, to);
  }

  /**
    With the corrected policy, one earned skill raises the counters of a
    node that was present before the user's fold by exactly one when it is
    that node's skill, and leaves them alone otherwise.
  */
  lemma SkillCountsExisting(before: set<string>, src: seq<UserNode>, nodes: seq<GlobalNode>, u: UserNode, x: string)
    requires x in before && x in Ids(nodes)
    ensures var r := ProcessSkill(Corrected, before, src, nodes, u).nodes;
            && TotalOf(r, x) == TotalOf(nodes, x) + (if u.id == x then 1 else 0)
            && EarnedOf(r, x) == EarnedOf(nodes, x) + (if u.id == x then 1 else 0)
  {
    var c := EnsureChain(u.id, src, nodes, {});
    LookupExtended(nodes, c.nodes, x);
    if c.broken.None? {
      var k := FindNode(c.nodes, u.id).value;
      if u.id == x || u.id in before {
        LookupAfterCount(c.nodes, k, u, x);
      }
    }
  }

  /** Appending nodes leaves the counters found for an id already present alone. */
  lemma LookupExtended(nodes: seq<GlobalNode>, ms: seq<GlobalNode>, x: string)
    requires nodes <= ms && x in Ids(nodes)
    ensures x in Ids(ms)
    ensures TotalOf(ms, x) == TotalOf(nodes, x) && EarnedOf(ms, x) == EarnedOf(nodes, x)
  {
    IdsExtend(nodes, ms);
    FindNodeExtend(nodes, ms, x);
    var kx := FindNode(nodes, x).value;
    assert ms[kx] == nodes[kx];
  }

  /** Counting `u` at the node `find` returns for its id raises that id's counters and no other's. */
  lemma LookupAfterCount(ms: seq<GlobalNode>, k: nat, u: UserNode, x: string)
    requires FindNode(ms, u.id) == Some(k) && x in Ids(ms)
    ensures var r := ms[k := CountEarner(ms[k], u)];
            && TotalOf(r, x) == TotalOf(ms, x) + (if u.id == x then 1 else 0)
            && EarnedOf(r, x) == EarnedOf(ms, x) + (if u.id == x then 1 else 0)
  {
    var v := CountEarner(ms[k], u);
    UpdateKeepsIds(ms, k, v);
    var kx := FindNode(ms, x).value;
    assert FindNode(ms[k := v], x) == Some(kx);
    assert u.id == x <==> k == kx;
  }

  lemma {:induction false} SkillsCountExisting(before: set<string>, src: seq<UserNode>, nodes: seq<GlobalNode>,
                                               es: seq<UserNode>, x: string)
    requires x in before && x in Ids(nodes)
    ensures var r := ProcessSkills(Corrected, before, src, nodes, es).nodes;
            && TotalOf(r, x) == TotalOf(nodes, x) + CountId(es, x)
            && EarnedOf(r, x) == EarnedOf(nodes, x) + CountId(es, x)
    decreases |es|
  {
    if |es| > 0 {
      var s := ProcessSkill(Corrected, before, src, nodes, es[0]);
      SkillCountsExisting(before, src, nodes, es[0], x);
      KeepsIdsLookup(nodes, s.nodes);
      SkillsCountExisting(before, src, s.nodes, es[1..], x);
    }
  }

  lemma {:induction false} CountIdEarned(us: seq<UserNode>, x: string)
    ensures CountId(EarnedNodes(us), x) == CountEarnedId(us, x)
    decreases |us|
  {
    if |us| > 0 {
      CountIdEarned(us[1..], x);
      if us[0].earned {
        assert ([us[0]] + EarnedNodes(us[1..]))[1..] == EarnedNodes(us[1..]);
      }
    }
  }

  /**
    The intended counting: with the corrected policy, a user's graph raises
    both counters of every skill already in the tree by the number of times
    the user earned it.
  */
  lemma UserCountsExisting(acc: Acc, g: SkillGraph, x: string)
    requires x in Ids(acc.nodes)
    ensures var r := ProcessUser(Corrected, acc, HasGraph(g)).nodes;
            && TotalOf(r, x) == TotalOf(acc.nodes, x) + CountEarnedId(g.nodes, x)
            && EarnedOf(r, x) == EarnedOf(acc.nodes, x) + CountEarnedId(g.nodes, x)
  {
    SkillsCountExisting(Ids(acc.nodes), g.nodes, acc.nodes, EarnedNodes(g.nodes), x);
    CountIdEarned(g.nodes, x);
  }

  /** A lone skill without prerequisites: its chain appends it once, then finds it present. */
  lemma LoneChain(u: UserNode)
    requires u.prerequisites == []
    ensures EnsureChain(u.id, [u], [], {}) == ChainResult([ChainNode(u)], None)
    ensures EnsureChain(u.id, [u], [ChainNode(u)], {}) == ChainResult([ChainNode(u)], None)
    ensures FindNode([ChainNode(u)], u.id) == Some(0)
  {
    var n := ChainNode(u);
    assert FindSource([u], u.id) == Some(u);
    assert Ids([]) == {};
    assert u.id in Ids([n]) by { assert [n][0].id == u.id; }
    assert EnsureAll([], [u], [], {u.id}) == ChainResult([], None);
    assert [] + [n] == [n];
    assert ChainFromSource(u, [u], [], {}) == ChainResult([n], None);
    FindNodeIs([n], u.id, 0);
  }

  /** The first user holding the lone earned skill creates its node at 1 of 1. */
  lemma LoneFirstUser(policy: CountPolicy, u: UserNode)
    requires u.earned && u.prerequisites == []
    ensures ProcessUser(policy, Acc([], [], 0, 0, 0), HasGraph(SkillGraph([u], [])))
            == Acc([ChainNode(u)], [], 1, 1, 0)
  {
    assert Ids([]) == {};
    LoneFirstSkill(policy, u);
    LoneUserStep(policy, Acc([], [], 0, 0, 0), u, ChainNode(u));
  }

  /** The first user's lone skill appends its node and counts as processed. */
  lemma LoneFirstSkill(policy: CountPolicy, u: UserNode)
    requires u.earned && u.prerequisites == []
    ensures ProcessSkill(policy, {}, [u], [], u) == SkillStep([ChainNode(u)], true)
  {
    LoneChain(u);
    assert IsNew(policy, {}, ChainNode(u));
  }

  /** The second user holding it: the source's policy sees a new node, the corrected one counts the user. */
  lemma LoneSecondUser(policy: CountPolicy, u: UserNode)
    requires u.earned && u.prerequisites == []
    ensures ProcessUser(policy, Acc([ChainNode(u)], [], 1, 1, 0), HasGraph(SkillGraph([u], [])))
            == Acc([if policy.AsWritten? then ChainNode(u) else CountEarner(ChainNode(u), u)], [], 2, 2, 0)
  {
    var n := ChainNode(u);
    var m := if policy.AsWritten? then n else CountEarner(n, u);
    assert Ids([n]) == {u.id} by { assert [n][0].id == u.id; }
    LoneSecondSkill(policy, u);
    LoneUserStep(policy, Acc([n], [], 1, 1, 0), u, m);
  }

  /** A user whose graph is the one earned skill `u` and no edge adds one processed user and one skill. */
  lemma LoneUserStep(policy: CountPolicy, acc: Acc, u: UserNode, m: GlobalNode)
    requires u.earned && acc.connections == []
    requires ProcessSkill(policy, Ids(acc.nodes), [u], acc.nodes, u) == SkillStep([m], true)
    ensures ProcessUser(policy, acc, HasGraph(SkillGraph([u], [])))
            == Acc([m], [], acc.processed + 1, acc.skills + 1, acc.errors)
  {
    assert [u][1..] == [];
    assert ProcessSkills(policy, Ids(acc.nodes), [u], [m], []) == SkillsResult([m], 0, 0);
    assert ProcessSkills(policy, Ids(acc.nodes), [u], acc.nodes, [u]) == SkillsResult([m], 1, 0);
    assert EarnedNodes([u]) == [u];
    assert FoldConnections([], []) == [];
  }

  /** The second user's lone skill finds the node present; only the corrected policy counts it. */
  lemma LoneSecondSkill(policy: CountPolicy, u: UserNode)
    requires u.earned && u.prerequisites == []
    ensures ProcessSkill(policy, {u.id}, [u], [ChainNode(u)], u)
            == SkillStep([if policy.AsWritten? then ChainNode(u) else CountEarner(ChainNode(u), u)], true)
  {
    var n := ChainNode(u);
    LoneChain(u);
    if policy.AsWritten? {
      assert IsNew(policy, {u.id}, n);
    } else {
      assert !IsNew(policy, {u.id}, n);
      assert [n][0 := CountEarner(n, u)] == [CountEarner(n, u)];
    }
  }

  /**
    The source's policy undercounts: two users whose graphs hold the same
    single earned skill leave it at 1 of 1, because the node the first user
    created still looks new to the second.
  */
  lemma AsWrittenUndercounts(u: UserNode)
    requires u.earned && u.prerequisites == []
    ensures var users := [HasGraph(SkillGraph([u], [])), HasGraph(SkillGraph([u], []))];
            var r := Rebuild(AsWritten, users, 0);
            && r.tree.totalUsers == 2
            && r.tree.nodes == [ChainNode(u)]
            && r.tree.nodes[0].totalUserCount == 1 && r.tree.nodes[0].earnedByCount == 1
  {
    var users := [HasGraph(SkillGraph([u], [])), HasGraph(SkillGraph([u], []))];
    var a0 := Acc([], [], 0, 0, 0);
    var a1 := Acc([ChainNode(u)], [], 1, 1, 0);
    var a2 := Acc([ChainNode(u)], [], 2, 2, 0);
    LoneFirstUser(AsWritten, u);
    LoneSecondUser(AsWritten, u);
    assert users[1..] == [users[1]] && users[1..][1..] == [];
    assert FoldUsers(AsWritten, a2, []) == a2;
    assert FoldUsers(AsWritten, a1, users[1..]) == a2;
    assert FoldUsers(AsWritten, a0, users) == a2;
  }

  /** With the corrected policy the same two users leave the skill at 2 of 2. */
  lemma CorrectedCountsBoth(u: UserNode)
    requires u.earned && u.prerequisites == []
    ensures var users := [HasGraph(SkillGraph([u], [])), HasGraph(SkillGraph([u], []))];
            var r := Rebuild(Corrected, users, 0);
            && r.tree.totalUsers == 2
            && |r.tree.nodes| == 1
            && r.tree.nodes[0].totalUserCount == 2 && r.tree.nodes[0].earnedByCount == 2
  {
    var users := [HasGraph(SkillGraph([u], [])), HasGraph(SkillGraph([u], []))];
    var a0 := Acc([], [], 0, 0, 0);
    var a1 := Acc([ChainNode(u)], [], 1, 1, 0);
    var a2 := Acc([CountEarner(ChainNode(u), u)], [], 2, 2, 0);
    LoneFirstUser(Corrected, u);
    LoneSecondUser(Corrected, u);
    assert users[1..] == [users[1]] && users[1..][1..] == [];
    assert FoldUsers(Corrected, a2, []) == a2;
    assert FoldUsers(Corrected, a1, users[1..]) == a2;
    assert FoldUsers(Corrected, a0, users) == a2;
  }
}
