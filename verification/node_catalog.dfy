/**
  The static skill catalogue and its three lookups: the first node with a
  given name, the nodes of a category, and the nodes a user can start on
  (not yet accomplished, every prerequisite accomplished). The lookups take
  the catalogue as a parameter; `Catalog` is the list the source ships.
*/
module NodeCatalog {
  import opened Wrappers
  import Dedup

  datatype ProgressLevel = Beginner | Intermediate | Advanced | Expert

  /** A catalogue entry; prerequisites are names of other entries. */
  datatype Skill = Skill(
    name: string,
    description: string,
    prerequisites: seq<string>,
    category: string,
    progressLevel: ProgressLevel,
    isAccomplished: bool)

  const Catalog: seq<Skill> := [
    Skill("HTML & CSS", "Fundamentals of web structure and styling", [], "Frontend", Beginner, false),
    Skill("JavaScript", "Core programming concepts and DOM manipulation", ["HTML & CSS"], "Frontend", Intermediate, false),
    Skill("React", "Building user interfaces with React", ["JavaScript"], "Frontend", Advanced, false),
    Skill("Node.js", "Server-side JavaScript runtime", ["JavaScript"], "Backend", Intermediate, false),
    Skill("Database Design", "Fundamentals of database architecture", [], "Backend", Beginner, false),
    Skill("MongoDB", "NoSQL database management", ["Database Design"], "Backend", Intermediate, false),
    Skill("System Architecture", "Designing scalable system architectures", ["Node.js", "MongoDB"], "Backend", Expert, false)
  ]

  /** `findNodeByName`: the first entry carrying `name`, if any. */
  function FindNodeByName(nodes: seq<Skill>, name: string): (r: Option<Skill>)
    ensures r.None? <==> forall i | 0 <= i < |nodes| :: nodes[i].name != name
    ensures r.Some? ==>
              exists i | 0 <= i < |nodes| :: nodes[i] == r.value && r.value.name == name
                                             && forall j | 0 <= j < i :: nodes[j].name != name
    decreases |nodes|
  {
    if |nodes| == 0 then None
    else if nodes[0].name == name then Some(nodes[0])
    else
      var r := FindNodeByName(nodes[1..], name);
      assert forall i | 0 <= i < |nodes[1..]| :: nodes[1..][i] == nodes[i + 1];
      r
  }

  /** The entries satisfying `keep`, in catalogue order (built from the end, like `SubseqOf`). */
  function Filter(nodes: seq<Skill>, keep: Skill -> bool): (r: seq<Skill>)
    ensures forall s :: s in r <==> s in nodes && keep(s)
    decreases |nodes|
  {
    if |nodes| == 0 then []
    else
      var init := nodes[..|nodes| - 1];
      var last := nodes[|nodes| - 1];
      assert nodes == init + [last];
      if keep(last) then Filter(init, keep) + [last] else Filter(init, keep)
  }

  /** A filter keeps the kept entries in their original order. */
  lemma {:induction false} FilterSubseq(nodes: seq<Skill>, keep: Skill -> bool)
    ensures Dedup.SubseqOf(Filter(nodes, keep), nodes)
    decreases |nodes|
  {
    if |nodes| > 0 {
      var init := nodes[..|nodes| - 1];
      var last := nodes[|nodes| - 1];
      FilterSubseq(init, keep);
      var r := Filter(nodes, keep);
      if keep(last) {
        assert r[..|r| - 1] == Filter(init, keep);
      } else {
        Dedup.SubseqDropLast(r, nodes);
      }
    }
  }

  /** `getNodesByCategory`: exactly the entries of that category, in order. */
  function NodesByCategory(nodes: seq<Skill>, category: string): (r: seq<Skill>)
    ensures forall s :: s in r <==> s in nodes && s.category == category
    ensures Dedup.SubseqOf(r, nodes)
  {
    FilterSubseq(nodes, (s: Skill) => s.category == category);
    Filter(nodes, (s: Skill) => s.category == category)
  }

  /** An entry a user can start on: not accomplished, and every prerequisite accomplished. */
  predicate Ready(s: Skill, accomplished: seq<string>)
  {
    !s.isAccomplished && forall p | p in s.prerequisites :: p in accomplished
  }

  /** `getAvailableNodes`: exactly the ready entries, in order. */
  function AvailableNodes(nodes: seq<Skill>, accomplished: seq<string>): (r: seq<Skill>)
    ensures forall s :: s in r <==> s in nodes && Ready(s, accomplished)
    ensures Dedup.SubseqOf(r, nodes)
    ensures forall s | s in nodes && !s.isAccomplished && s.prerequisites == [] :: s in r
  {
    FilterSubseq(nodes, (s: Skill) => Ready(s, accomplished));
    Filter(nodes, (s: Skill) => Ready(s, accomplished))
  }

  /**
    Accomplishing more never hides an entry: the list for a larger
    accomplished set contains the list for a smaller one, in order.
  */
  lemma {:induction false} AvailableMonotone(nodes: seq<Skill>, a: seq<string>, b: seq<string>)
    requires forall x | x in a :: x in b
    ensures Dedup.SubseqOf(AvailableNodes(nodes, a), AvailableNodes(nodes, b))
    decreases |nodes|
  {
    if |nodes| > 0 {
      var init := nodes[..|nodes| - 1];
      var last := nodes[|nodes| - 1];
      AvailableMonotone(init, a, b);
      var ra := AvailableNodes(nodes, a);
      var rb := AvailableNodes(nodes, b);
      assert Filter(init, (s: Skill) => Ready(s, a)) == AvailableNodes(init, a);
      assert Filter(init, (s: Skill) => Ready(s, b)) == AvailableNodes(init, b);
      if Ready(last, a) {
        assert Ready(last, b);
        assert ra[..|ra| - 1] == AvailableNodes(init, a);
        assert rb[..|rb| - 1] == AvailableNodes(init, b);
      } else if Ready(last, b) {
        assert ra == AvailableNodes(init, a);
        assert rb[..|rb| - 1] == AvailableNodes(init, b);
        Dedup.SubseqDropLast(ra, rb);
      }
    }
  }
}
