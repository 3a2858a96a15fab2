/**
  The prerequisite-chain resolver of the rebuild: before a skill is put in
  the tree being rebuilt, each of its prerequisites (as the user's own graph
  lists them) is put there first, recursively; the three foundation
  categories are synthesised when the user's graph lacks them; any other
  missing id breaks the chain.

  The source mutates the tree in place and throws on a broken chain; here the
  resolver returns the nodes it leaves behind together with the broken id, so
  that the nodes appended before the throw stay visible, as they do in the
  source. Each recursive call receives its own copy of `visited`, which an
  immutable set models directly.
*/
module Chain {
  import opened Wrappers
  import opened Individual
  import opened Global
  import Text

  /** The nodes after a resolution, and the id that broke the chain if one did. */
  datatype ChainResult = ChainResult(nodes: seq<GlobalNode>, broken: Option<string>)

  /** Ids synthesised as category nodes when the user's graph does not contain them. */
  const FoundationIds: seq<string> := ["software", "hardware", "soft-skills"]

  /** `s.replace('-', ' ')`: a string pattern replaces only the first hyphen. */
  function ReplaceFirstHyphen(s: string): string
    decreases |s|
  {
    if |s| == 0 then s
    else if s[0] == '-' then [' '] + s[1..]
    else [s[0]] + ReplaceFirstHyphen(s[1..])
  }

  /** `id.charAt(0).toUpperCase() + id.slice(1).replace('-', ' ')`. */
  function FoundationName(id: string): string
  {
    if |id| == 0 then "" else [Text.UpperChar(id[0])] + ReplaceFirstHyphen(id[1..])
  }

  /** The synthesised category node: outside the schema's category enum, no prerequisites, 0 of 1. */
  function FoundationNode(id: string): GlobalNode
  {
    GlobalNode(id, FoundationName(id), "Category", id + " foundation category", [], [], 0, 1)
  }

  /** The node created for a skill of the user's graph: earned by 1 of 1 user if earned, else 0 of 1. */
  function ChainNode(u: UserNode): GlobalNode
  {
    GlobalNode(
      u.id, u.name, u.category,
      if u.description == "" then u.name + " (prerequisite auto-created)" else u.description,
      u.prerequisites, [],
      if u.earned then 1 else 0, 1)
  }

  /** Every node appended after `before` names only prerequisites present in `after` or still on the path. */
  predicate AppendedClosed(before: seq<GlobalNode>, after: seq<GlobalNode>, visited: set<string>)
    requires |before| <= |after|
  {
    forall k | |before| <= k < |after| ::
      forall p | p in after[k].prerequisites :: p in Ids(after) || p in visited
  }

  /** No node appended after `before` carries an id of `visited`. */
  predicate AppendedOutside(before: seq<GlobalNode>, after: seq<GlobalNode>, visited: set<string>)
    requires |before| <= |after|
  {
    forall k | |before| <= k < |after| :: after[k].id !in visited
  }

  lemma VisitShrinks(s: set<string>, visited: set<string>, id: string)
    requires id in s && id !in visited
    ensures |s - (visited + {id})| < |s - visited|
  {
    assert s - (visited + {id}) == (s - visited) - {id};
    assert id in s - visited;
  }

  /**
    `ensurePrerequisiteChain(id, userSkillTree, globalTree, visited)`.
    Append-only; keeps ids unique and counters consistent; on success `id`
    (unless it is already on the path) is in the tree and every appended
    node's prerequisites are in the tree or on the path; on a broken chain
    `id` itself is never appended, while nodes appended earlier stay.
  */
  function EnsureChain(id: string, src: seq<UserNode>, nodes: seq<GlobalNode>, visited: set<string>): (r: ChainResult)
    decreases |SourceIds(src) - visited|, 0, 0
    ensures nodes <= r.nodes
    ensures AppendedOutside(nodes, r.nodes, visited)
    ensures UniqueIds(nodes) ==> UniqueIds(r.nodes)
    ensures CountsConsistent(nodes) ==> CountsConsistent(r.nodes)
    ensures r.broken.None? ==> AppendedClosed(nodes, r.nodes, visited)
    ensures r.broken.None? && id !in visited ==> id in Ids(r.nodes)
    ensures r.broken.Some? ==> id !in Ids(r.nodes[|nodes|..])
    ensures r.broken.Some? ==> r.broken.value !in SourceIds(src) && r.broken.value !in FoundationIds
    ensures id in visited || id in Ids(nodes) ==> r == ChainResult(nodes, None)
    ensures id !in visited && id !in Ids(nodes) && id !in SourceIds(src) ==>
              r == if id in FoundationIds then ChainResult(nodes + [FoundationNode(id)], None)
                   else ChainResult(nodes, Some(id))
    ensures id !in visited && id !in Ids(nodes) && id in SourceIds(src) && r.broken.None? ==>
              r.nodes[|r.nodes| - 1] == ChainNode(FindSource(src, id).value)
  {
    if id in visited then ChainResult(nodes, None)
    else if id in Ids(nodes) then ChainResult(nodes, None)
    else
      match FindSource(src, id)
      case None =>
        if id in FoundationIds then
          var r := ChainResult(nodes + [FoundationNode(id)], None);
          ChainAppendFacts(nodes, nodes, r.nodes, FoundationNode(id), visited, id);
          r
        else ChainResult(nodes, Some(id))
      case Some(u) => ChainFromSource(u, src, nodes, visited)
  }

  /** The recursive case: resolve the prerequisites of the user's node `u` with `u` on the path, then append it. */
  function ChainFromSource(u: UserNode, src: seq<UserNode>, nodes: seq<GlobalNode>, visited: set<string>): (r: ChainResult)
    requires FindSource(src, u.id) == Some(u)
    requires u.id !in visited && u.id !in Ids(nodes)
    decreases |SourceIds(src) - visited|, 0, -1
    ensures nodes <= r.nodes
    ensures AppendedOutside(nodes, r.nodes, visited)
    ensures UniqueIds(nodes) ==> UniqueIds(r.nodes)
    ensures CountsConsistent(nodes) ==> CountsConsistent(r.nodes)
    ensures r.broken.None? ==> AppendedClosed(nodes, r.nodes, visited)
    ensures r.broken.None? ==> u.id in Ids(r.nodes) && r.nodes[|r.nodes| - 1] == ChainNode(u)
    ensures r.broken.Some? ==> u.id !in Ids(r.nodes[|nodes|..])
    ensures r.broken.Some? ==> r.broken.value !in SourceIds(src) && r.broken.value !in FoundationIds
  {
    var v := visited + {u.id};
    VisitShrinks(SourceIds(src), visited, u.id);
    var pre := EnsureAll(u.prerequisites, src, nodes, v);
    if pre.broken.Some? then
      BrokenKeepsOut(nodes, pre.nodes, visited, u.id);
      pre
    else
      var r := ChainResult(pre.nodes + [ChainNode(u)], None);
      ChainAppendFacts(nodes, pre.nodes, r.nodes, ChainNode(u), visited, u.id);
      r
  }

  /** The bookkeeping behind appending the skill's own node after its prerequisites. */
  lemma ChainAppendFacts(nodes: seq<GlobalNode>, pre: seq<GlobalNode>, after: seq<GlobalNode>,
                         n: GlobalNode, visited: set<string>, id: string)
    requires nodes <= pre && after == pre + [n] && n.id == id
    requires id !in visited && id !in Ids(nodes)
    requires AppendedOutside(nodes, pre, visited + {id})
    requires AppendedClosed(nodes, pre, visited + {id})
    requires forall p | p in n.prerequisites :: p in Ids(pre) || p in visited + {id}
    ensures nodes <= after
    ensures AppendedOutside(nodes, after, visited)
    ensures id !in Ids(pre) && id in Ids(after)
    ensures AppendedClosed(nodes, after, visited)
    ensures UniqueIds(pre) ==> UniqueIds(after)
    ensures CountsConsistent(pre) && n.earnedByCount <= n.totalUserCount ==> CountsConsistent(after)
  {
    IdsExtend(nodes, pre);
    IdsExtend(pre, after);
    assert after[|pre|] == n;
    assert id !in Ids(pre[|nodes|..]);
    forall k | |nodes| <= k < |after|
      ensures forall p | p in after[k].prerequisites :: p in Ids(after) || p in visited
    {
      if k < |pre| {
        assert after[k] == pre[k];
      }
    }
    if UniqueIds(pre) {
      forall i, j | 0 <= i < j < |after| ensures after[i].id != after[j].id {
        if j == |pre| {
          assert after[i] == pre[i];
        } else {
          assert after[i] == pre[i] && after[j] == pre[j];
        }
      }
    }
  }

  /** Nodes appended while `id` was on the path never carry `id`. */
  lemma BrokenKeepsOut(nodes: seq<GlobalNode>, pre: seq<GlobalNode>, visited: set<string>, id: string)
    requires nodes <= pre
    requires AppendedOutside(nodes, pre, visited + {id})
    ensures AppendedOutside(nodes, pre, visited)
    ensures id !in Ids(pre[|nodes|..])
  {
    forall i | 0 <= i < |pre[|nodes|..]| ensures pre[|nodes|..][i].id != id {
      assert pre[|nodes|..][i] == pre[|nodes| + i];
    }
  }

  /** Resolve each prerequisite in list order, each call with the same `visited`; stop at the first broken chain. */
  function EnsureAll(ps: seq<string>, src: seq<UserNode>, nodes: seq<GlobalNode>, visited: set<string>): (r: ChainResult)
    decreases |SourceIds(src) - visited|, 1, |ps|
    ensures nodes <= r.nodes
    ensures AppendedOutside(nodes, r.nodes, visited)
    ensures UniqueIds(nodes) ==> UniqueIds(r.nodes)
    ensures CountsConsistent(nodes) ==> CountsConsistent(r.nodes)
    ensures r.broken.None? ==> AppendedClosed(nodes, r.nodes, visited)
    ensures r.broken.None? ==> forall p | p in ps :: p in Ids(r.nodes) || p in visited
    ensures r.broken.Some? ==> r.broken.value !in SourceIds(src) && r.broken.value !in FoundationIds
  {
    if |ps| == 0 then ChainResult(nodes, None)
    else
      var first := EnsureChain(ps[0], src, nodes, visited);
      if first.broken.Some? then first
      else
        var rest := EnsureAll(ps[1..], src, first.nodes, visited);
        EnsureAllStep(nodes, first.nodes, rest.nodes, visited, rest.broken.None?);
        rest
  }

  lemma EnsureAllStep(nodes: seq<GlobalNode>, mid: seq<GlobalNode>, after: seq<GlobalNode>,
                      visited: set<string>, ok: bool)
    requires nodes <= mid <= after
    requires AppendedOutside(nodes, mid, visited) && AppendedOutside(mid, after, visited)
    requires AppendedClosed(nodes, mid, visited)
    requires ok ==> AppendedClosed(mid, after, visited)
    ensures nodes <= after
    ensures AppendedOutside(nodes, after, visited)
    ensures Ids(mid) <= Ids(after)
    ensures ok ==> AppendedClosed(nodes, after, visited)
  {
    IdsExtend(mid, after);
    forall k | |nodes| <= k < |after| ensures after[k].id !in visited {
      if k < |mid| {
        assert after[k] == mid[k];
      }
    }
    if ok {
      forall k | |nodes| <= k < |after|
        ensures forall p | p in after[k].prerequisites :: p in Ids(after) || p in visited
      {
        if k < |mid| {
          assert after[k] == mid[k];
        }
      }
    }
  }

  /** A synthesised category node would not pass the node schema: its category is outside the enum. */
  lemma FoundationOutsideSchema(id: string)
    ensures !SchemaValidNode(FoundationNode(id))
    ensures FoundationNode(id).prerequisites == []
  {
    assert "Category" !in SchemaCategories;
  }

  /**
    A chain resolved from an empty path over a tree closed under
    prerequisites leaves it closed, unless the chain broke.
  */
  lemma ChainKeepsClosed(id: string, src: seq<UserNode>, nodes: seq<GlobalNode>)
    requires PrereqClosed(nodes)
    requires EnsureChain(id, src, nodes, {}).broken.None?
    ensures PrereqClosed(EnsureChain(id, src, nodes, {}).nodes)
    ensures id in Ids(EnsureChain(id, src, nodes, {}).nodes)
  {
    var after := EnsureChain(id, src, nodes, {}).nodes;
    IdsExtend(nodes, after);
    forall i | 0 <= i < |after|
      ensures forall p | p in after[i].prerequisites :: p in Ids(after)
    {
      if i < |nodes| {
        assert after[i] == nodes[i];
      }
    }
  }

  /**
    A cycle does not loop: when `a` and `b` name each other, resolving `a`
    puts `b` first (its prerequisite `a` is on the path) and then `a`.
  */
  lemma CycleTerminates(ua: UserNode, ub: UserNode)
    requires ua.id != ub.id
    requires ua.prerequisites == [ub.id] && ub.prerequisites == [ua.id]
    ensures EnsureChain(ua.id, [ua, ub], [], {}) == ChainResult([ChainNode(ub), ChainNode(ua)], None)
  {
    var src := [ua, ub];
    var a, b := ua.id, ub.id;
    var nb := [ChainNode(ub)];
    assert FindSource(src, a) == Some(ua);
    assert FindSource(src, b) == Some(ub) by {
      assert src[1].id == b;
      assert b in SourceIds(src);
    }
    assert Ids([]) == {};
    assert {a} + {b} == {a, b} && {} + {a} == {a};
    assert [] + nb == nb;
    assert [a][1..] == [] && [b][1..] == [];
    assert EnsureAll([], src, [], {a, b}) == ChainResult([], None);
    assert EnsureChain(a, src, [], {a, b}) == ChainResult([], None);
    assert EnsureAll([a], src, [], {a, b}) == ChainResult([], None);
    assert EnsureChain(b, src, [], {a}) == ChainResult(nb, None);
    assert EnsureAll([], src, nb, {a}) == ChainResult(nb, None);
    assert EnsureAll([b], src, [], {a}) == ChainResult(nb, None);
  }

  /**
    A broken chain keeps what it appended before the break: resolving `a`
    with prerequisites `[b, x]`, where `x` is unknown, leaves `b` in the tree
    and reports `x`, while `a` itself is not added.
  */
  lemma BrokenChainKeepsPrefix(ua: UserNode, ub: UserNode, x: string)
    requires ua.id != ub.id && x != ua.id && x != ub.id
    requires x !in FoundationIds
    requires ua.prerequisites == [ub.id, x] && ub.prerequisites == []
    ensures EnsureChain(ua.id, [ua, ub], [], {}) == ChainResult([ChainNode(ub)], Some(x))
  {
    var src := [ua, ub];
    var a, b := ua.id, ub.id;
    var nb := [ChainNode(ub)];
    assert FindSource(src, a) == Some(ua);
    assert FindSource(src, b) == Some(ub) by {
      assert src[1].id == b;
      assert b in SourceIds(src);
    }
    assert x !in SourceIds(src);
    assert Ids([]) == {};
    assert x !in Ids(nb) && b in Ids(nb) by { assert nb[0].id == b; }
    assert [b, x][1..] == [x];
    assert {a} + {b} == {a, b} && {} + {a} == {a};
    assert [] + nb == nb;
    assert EnsureAll([], src, [], {a, b}) == ChainResult([], None);
    assert EnsureChain(b, src, [], {a}) == ChainResult(nb, None);
    assert EnsureChain(x, src, nb, {a}) == ChainResult(nb, Some(x));
    assert EnsureAll([x], src, nb, {a}) == ChainResult(nb, Some(x));
    assert EnsureAll([b, x], src, [], {a}) == ChainResult(nb, Some(x));
  }
}
