/**
  One user's skill graph, as the resume analysis returns it and as it is
  stored (as JSON text) on the user record. It comes from a language model,
  so nothing about it is trusted: ids may repeat, prerequisites may name ids
  that are not in the graph, and prerequisite chains may form cycles.
*/
module Individual {
  import opened Wrappers

  /**
    A node of an individual graph. A missing `description` is the empty
    string and a missing `prerequisites` list is the empty list (the source
    treats both alike with `|| ''` and `|| []`); `mastered` is true exactly
    when the node carries `mastered: true`.
  */
  datatype UserNode = UserNode(
    id: string,
    name: string,
    category: string,
    earned: bool,
    mastered: bool,
    prerequisites: seq<string>,
    description: string)

  /** A directed edge: `from` is a prerequisite of `to`. */
  datatype Edge = Edge(from: string, to: string)

  /** A graph whose `connections` field is missing is the graph with no connections. */
  datatype SkillGraph = SkillGraph(nodes: seq<UserNode>, connections: seq<Edge>)

  function UserNodeId(n: UserNode): string { n.id }

  /** Connections are identified by the ordered (from, to) pair. */
  function EdgeKey(e: Edge): (string, string) { (e.from, e.to) }

  /** The ids present in a list of user nodes. */
  function SourceIds(src: seq<UserNode>): set<string>
  {
    set i | 0 <= i < |src| :: src[i].id
  }

  lemma SourceIdsCons(us: seq<UserNode>)
    requires |us| > 0
    ensures SourceIds(us) == {us[0].id} + SourceIds(us[1..])
  {
    forall y | y in SourceIds(us) ensures y in {us[0].id} + SourceIds(us[1..]) {
      var i :| 0 <= i < |us| && us[i].id == y;
      if i > 0 {
        assert us[1..][i - 1] == us[i];
      }
    }
    forall y | y in SourceIds(us[1..]) ensures y in SourceIds(us) {
      var i :| 0 <= i < |us[1..]| && us[1..][i].id == y;
      assert us[i + 1] == us[1..][i];
    }
  }

  /** The index of the first node of `src` with id `id`, if any. */
  function FindSourceIndex(src: seq<UserNode>, id: string): (r: Option<nat>)
    ensures r.None? <==> id !in SourceIds(src)
    ensures r.Some? ==>
              && r.value < |src| && src[r.value].id == id
              && forall j | 0 <= j < r.value :: src[j].id != id
    decreases |src|
  {
    if |src| == 0 then None
    else if src[0].id == id then Some(0)
    else
      match FindSourceIndex(src[1..], id)
      case None => None
      case Some(i) => Some(i + 1)
  }

  /** `src.find(n => n.id === id)`: the first node with that id, if any. */
  function FindSource(src: seq<UserNode>, id: string): (r: Option<UserNode>)
    ensures r.None? <==> id !in SourceIds(src)
    ensures r.Some? ==> r.value.id == id && r.value in src
  {
    match FindSourceIndex(src, id)
    case None => None
    case Some(i) => Some(src[i])
  }

  /** The number of nodes of `us` carrying id `x`. */
  function CountId(us: seq<UserNode>, x: string): nat
    decreases |us|
  {
    if |us| == 0 then 0 else (if us[0].id == x then 1 else 0) + CountId(us[1..], x)
  }

  /** The number of earned nodes of `us` carrying id `x`. */
  function CountEarnedId(us: seq<UserNode>, x: string): nat
    decreases |us|
  {
    if |us| == 0 then 0 else (if us[0].id == x && us[0].earned then 1 else 0) + CountEarnedId(us[1..], x)
  }

  /** `nodes.filter(n => n.earned)`. */
  function EarnedNodes(us: seq<UserNode>): (r: seq<UserNode>)
    ensures forall n | n in r :: n in us && n.earned
    ensures forall n | n in us && n.earned :: n in r
    decreases |us|
  {
    if |us| == 0 then []
    else if us[0].earned then [us[0]] + EarnedNodes(us[1..])
    else EarnedNodes(us[1..])
  }

  /** The positions of `us` holding an earned node. */
  function EarnedPositions(us: seq<UserNode>): set<int>
  {
    set i | 0 <= i < |us| && us[i].earned
  }

  lemma {:induction false} EarnedNodesSnoc(us: seq<UserNode>, x: UserNode)
    ensures EarnedNodes(us + [x]) == EarnedNodes(us) + (if x.earned then [x] else [])
    decreases |us|
  {
    if |us| == 0 {
      assert [x][1..] == [];
    } else {
      assert (us + [x])[1..] == us[1..] + [x];
      EarnedNodesSnoc(us[1..], x);
    }
  }

  /** The filter keeps one node per earned position: its length is the number of earned nodes. */
  lemma {:induction false} EarnedNodesCount(us: seq<UserNode>)
    ensures |EarnedNodes(us)| == |EarnedPositions(us)|
    decreases |us|
  {
    if |us| > 0 {
      var init, x := us[..|us| - 1], us[|us| - 1];
      assert us == init + [x];
      EarnedNodesCount(init);
      EarnedNodesSnoc(init, x);
      EarnedPositionsSnoc(init, x);
    }
  }

  lemma EarnedPositionsSnoc(init: seq<UserNode>, x: UserNode)
    ensures |EarnedPositions(init + [x])| == |EarnedPositions(init)| + (if x.earned then 1 else 0)
  {
    var before, after := EarnedPositions(init), EarnedPositions(init + [x]);
    SnocPositions(init, x);
    if x.earned {
      assert |init| !in before;
      assert after == before + {|init|};
    } else {
      assert after == before;
    }
  }

  lemma SnocPositions(init: seq<UserNode>, x: UserNode)
    ensures forall i | 0 <= i < |init| :: i in EarnedPositions(init + [x]) <==> i in EarnedPositions(init)
    ensures |init| in EarnedPositions(init + [x]) <==> x.earned
    ensures forall i | i in EarnedPositions(init + [x]) :: 0 <= i <= |init|
  {
    var us := init + [x];
    assert forall i | 0 <= i < |init| :: us[i] == init[i];
    assert us[|init|] == x;
  }
}
