/**
  The read path: the stored global tree, swept once more for duplicates, in
  the shape the skill-tree components take for an individual user's skills.
  No node is earned, nothing is available, and each node carries its user
  count. The decorated description (with its rounded mastery percentage) is
  not modelled.
*/
module ReadTree {
  import opened Wrappers
  import opened Individual
  import opened Global
  import Dedup
  import Cleanup

  /** A node as the client receives it. */
  datatype ClientNode = ClientNode(
    id: string,
    name: string,
    category: string,
    earned: bool,
    prerequisites: seq<string>,
    userCount: nat)

  datatype GlobalView = GlobalView(
    earnedSkills: seq<string>,
    availableSkills: seq<string>,
    skillPoints: nat,
    nodes: seq<ClientNode>,
    connections: seq<Edge>,
    totalUsers: nat,
    lastUpdated: int,
    totalNodes: nat,
    totalConnections: nat)

  /** `NoGlobalTree` is the `hasGlobalTree: false` reply. */
  datatype ReadOutcome = NoGlobalTree | HasGlobalTree(view: GlobalView)

  function ToClientNode(n: GlobalNode): (r: ClientNode)
    ensures r.id == n.id && !r.earned && r.userCount == n.totalUserCount
    ensures r.prerequisites == n.prerequisites
  {
    ClientNode(n.id, n.name, n.category, false, n.prerequisites, n.totalUserCount)
  }

  function ToEdge(c: Connection): (r: Edge)
    ensures EdgeKey(r) == ConnKey(c)
  {
    Edge(c.from, c.to)
  }

  function ClientNodes(ns: seq<GlobalNode>): (r: seq<ClientNode>)
    ensures |r| == |ns| && forall i | 0 <= i < |ns| :: r[i] == ToClientNode(ns[i])
  {
    seq(|ns|, i requires 0 <= i < |ns| => ToClientNode(ns[i]))
  }

  function ClientEdges(cs: seq<Connection>): (r: seq<Edge>)
    ensures |r| == |cs| && forall i | 0 <= i < |cs| :: r[i] == ToEdge(cs[i])
  {
    seq(|cs|, i requires 0 <= i < |cs| => ToEdge(cs[i]))
  }

  /** The ids of a client node list. */
  function ClientIds(ns: seq<ClientNode>): set<string>
  {
    set i | 0 <= i < |ns| :: ns[i].id
  }

  /**
    `GET /api/get-global-tree`. A missing or empty tree gives no view.
    Otherwise the view holds one node per distinct stored id, each the first
    stored node with that id, none earned; one edge per distinct stored
    pair; no earned or available skills and no points; and totals that
    match the lists.
  */
  function ReadGlobalTree(stored: Option<GlobalTree>): (r: ReadOutcome)
    ensures r.NoGlobalTree? <==> stored.None? || |stored.value.nodes| == 0
    ensures r.HasGlobalTree? ==>
              var v := r.view;
              && v.earnedSkills == [] && v.availableSkills == [] && v.skillPoints == 0
              && ClientIds(v.nodes) == Ids(stored.value.nodes)
              && v.totalNodes == |v.nodes| == |Ids(stored.value.nodes)|
              && Dedup.Distinct(v.connections, EdgeKey)
              && v.totalConnections == |v.connections|
              && (forall i | 0 <= i < |v.nodes| :: !v.nodes[i].earned)
              && (forall i | 0 <= i < |v.nodes| ::
                    NodeFor(stored.value.nodes, v.nodes[i].id).Some?
                    && v.nodes[i] == ToClientNode(NodeFor(stored.value.nodes, v.nodes[i].id).value))
              && Dedup.MappedSweep(v.nodes, stored.value.nodes, NodeId, ToClientNode)
              && Dedup.MappedSweep(v.connections, stored.value.connections, ConnKey, ToEdge)
              && v.totalUsers == stored.value.totalUsers
  {
    if stored.None? || |stored.value.nodes| == 0 then NoGlobalTree
    else
      var t := stored.value;
      var ns := Dedup.Dedup(t.nodes, NodeId);
      var cs := Dedup.Dedup(t.connections, ConnKey);
      ViewFacts(t.nodes, t.connections);
      Dedup.DedupSwept(t.nodes, NodeId);
      Dedup.DedupSwept(t.connections, ConnKey);
      HasGlobalTree(GlobalView([], [], 0, ClientNodes(ns), ClientEdges(cs), t.totalUsers, t.lastUpdated,
                               |ns|, |cs|))
  }

  lemma ViewFacts(raw: seq<GlobalNode>, conns: seq<Connection>)
    ensures var ns := Dedup.Dedup(raw, NodeId);
            && ClientIds(ClientNodes(ns)) == Ids(raw)
            && |ns| == |Ids(raw)|
            && (forall i | 0 <= i < |ns| :: NodeFor(raw, ns[i].id) == Some(ns[i]))
    ensures Dedup.Distinct(ClientEdges(Dedup.Dedup(conns, ConnKey)), EdgeKey)
  {
    var ns := Dedup.Dedup(raw, NodeId);
    Dedup.DedupDistinct(raw, NodeId);
    Dedup.DedupLength(raw, NodeId);
    IdsAsKeySet(raw);
    IdsAsKeySet(ns);
    var cns := ClientNodes(ns);
    assert forall i | 0 <= i < |ns| :: cns[i].id == ns[i].id;
    assert ClientIds(cns) == Ids(ns) by {
      forall y | y in Ids(ns) ensures y in ClientIds(cns) {
        var i :| 0 <= i < |ns| && ns[i].id == y;
        assert cns[i].id == y;
      }
    }
    forall i | 0 <= i < |ns| ensures NodeFor(raw, ns[i].id) == Some(ns[i]) {
      DedupLookup(raw, ns[i].id);
      FindNodeIs(ns, ns[i].id, i);
    }
    var cs := Dedup.Dedup(conns, ConnKey);
    Dedup.DedupDistinct(conns, ConnKey);
    var es := ClientEdges(cs);
    assert forall i | 0 <= i < |cs| :: EdgeKey(es[i]) == ConnKey(cs[i]);
  }

  /**
    The repair pass is invisible to readers: a cleaned tree yields the same
    client nodes and edges as the tree before cleaning.
  */
  lemma ReadAfterCleanup(t: GlobalTree, now: int)
    requires |t.nodes| > 0
    ensures var before := ReadGlobalTree(Some(t));
            var after := ReadGlobalTree(Some(Cleanup.CleanTree(t, now)));
            && after.HasGlobalTree?
            && after.view == before.view.(lastUpdated := now)
  {
    var c := Cleanup.CleanTree(t, now);
    assert c.nodes == Cleanup.CleanNodes(Dedup.Dedup(t.nodes, NodeId));
    assert c.connections == Cleanup.CleanConnections(Dedup.Dedup(t.connections, ConnKey));
    assert |c.nodes| > 0 by {
      assert t.nodes[0].id in Ids(t.nodes);
    }
    CleanedListsRead(t.nodes, t.connections);
  }

  /** Reading the cleaned lists gives what reading the stored lists gives. */
  lemma CleanedListsRead(nodes: seq<GlobalNode>, conns: seq<Connection>)
    ensures var ms := Cleanup.CleanNodes(Dedup.Dedup(nodes, NodeId));
            var ns := Dedup.Dedup(nodes, NodeId);
            |Dedup.Dedup(ms, NodeId)| == |ns| && ClientNodes(Dedup.Dedup(ms, NodeId)) == ClientNodes(ns)
    ensures var ds := Cleanup.CleanConnections(Dedup.Dedup(conns, ConnKey));
            var cs := Dedup.Dedup(conns, ConnKey);
            |Dedup.Dedup(ds, ConnKey)| == |cs| && ClientEdges(Dedup.Dedup(ds, ConnKey)) == ClientEdges(cs)
  {
    Cleanup.CleanListsStable(nodes, conns);
  }
}
