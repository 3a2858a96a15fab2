/**
  The data side of the skill-tree view: the status each skill is drawn
  with, the nodes placed on the canvas, and the edges (one per prerequisite,
  then six fixed bracket curves). The skill lists are parameters: the view
  spreads `software`, `hardware` and `categories` lists that the shipped
  fixture file does not define, so no particular list is assumed here.
  Positions, styles and the offset arithmetic are left to the renderer.
*/
module TreeView {

  /** The fields of a catalogue skill the view reads; a missing prerequisite list is empty. */
  datatype ViewSkill = ViewSkill(id: string, name: string, category: string, prerequisites: seq<string>)

  datatype Status = Earned | Available | Locked

  /** `getSkillStatus`: earned wins over available; anything else is locked. */
  function SkillStatus(id: string, earned: seq<string>, available: seq<string>): (r: Status)
    ensures r == Earned <==> id in earned
    ensures r == Available <==> id !in earned && id in available
    ensures r == Locked <==> id !in earned && id !in available
  {
    if id in earned then Earned
    else if id in available then Available
    else Locked
  }

  datatype FlowEdge = FlowEdge(id: string, source: string, target: string)

  /** The edge from prerequisite `p` to skill `s`. */
  function PrereqEdge(p: string, s: string): FlowEdge
  {
    FlowEdge("e-" + p + "-" + s, p, s)
  }

  /** One skill's edges: one per prerequisite, in list order. */
  function SkillEdges(s: ViewSkill): (r: seq<FlowEdge>)
    ensures |r| == |s.prerequisites|
    ensures forall i | 0 <= i < |r| :: r[i].source == s.prerequisites[i] && r[i].target == s.id
  {
    seq(|s.prerequisites|, i requires 0 <= i < |s.prerequisites| => PrereqEdge(s.prerequisites[i], s.id))
  }

  /** The number of prerequisite entries over all skills. */
  function PrereqCount(skills: seq<ViewSkill>): nat
    decreases |skills|
  {
    if |skills| == 0 then 0 else |skills[0].prerequisites| + PrereqCount(skills[1..])
  }

  /** `flatMap` of `SkillEdges`. */
  function PrereqEdges(skills: seq<ViewSkill>): (r: seq<FlowEdge>)
    ensures |r| == PrereqCount(skills)
    ensures forall e | e in r :: exists k | 0 <= k < |skills| :: e.target == skills[k].id && e.source in skills[k].prerequisites
    decreases |skills|
  {
    if |skills| == 0 then []
    else
      var head := SkillEdges(skills[0]);
      var rest := PrereqEdges(skills[1..]);
      forall e | e in head + rest
        ensures exists k | 0 <= k < |skills| :: e.target == skills[k].id && e.source in skills[k].prerequisites
      {
        if e in head {
          var i :| 0 <= i < |head| && head[i] == e;
          assert e.source == skills[0].prerequisites[i];
        } else {
          var k :| 0 <= k < |skills[1..]| && e.target == skills[1..][k].id && e.source in skills[1..][k].prerequisites;
          assert skills[1..][k] == skills[k + 1];
        }
      }
      head + rest
  }

  /** Every prerequisite of every skill gets its edge. */
  lemma {:induction false} EveryPrerequisiteDrawn(skills: seq<ViewSkill>, k: nat, i: nat)
    requires k < |skills| && i < |skills[k].prerequisites|
    ensures PrereqEdge(skills[k].prerequisites[i], skills[k].id) in PrereqEdges(skills)
    decreases k
  {
    var head := SkillEdges(skills[0]);
    if k == 0 {
      assert head[i] == PrereqEdge(skills[0].prerequisites[i], skills[0].id);
    } else {
      assert skills[1..][k - 1] == skills[k];
      EveryPrerequisiteDrawn(skills[1..], k - 1, i);
    }
  }

  /** Edges of a concatenation are the concatenation of the edges. */
  lemma {:induction false} PrereqEdgesAppend(a: seq<ViewSkill>, b: seq<ViewSkill>)
    ensures PrereqEdges(a + b) == PrereqEdges(a) + PrereqEdges(b)
    decreases |a|
  {
    if |a| > 0 {
      assert (a + b)[0] == a[0];
      assert (a + b)[1..] == a[1..] + b;
      PrereqEdgesAppend(a[1..], b);
    } else {
      assert a + b == b;
    }
  }

  /** A bracket curve between two fixed nodes. */
  function CurveEdge(source: string, target: string): FlowEdge
  {
    FlowEdge("e-" + source + "-" + target + "-curve", source, target)
  }

  /** The six merged-path curves, in the order they are listed. */
  const CurveEdges: seq<FlowEdge> := [
    CurveEdge("unity-engine", "gamedev"),
    CurveEdge("csharp", "gamedev"),
    CurveEdge("webdev", "software"),
    CurveEdge("gamedev", "software"),
    CurveEdge("kicad", "pcb-design"),
    CurveEdge("pcb-design", "hardware")
  ]

  /** `createEdges` over the three spread lists: the prerequisite edges, then the curves. */
  function CreateEdges(software: seq<ViewSkill>, hardware: seq<ViewSkill>, categories: seq<ViewSkill>): (r: seq<FlowEdge>)
    ensures |r| == PrereqCount(software) + PrereqCount(hardware) + PrereqCount(categories) + 6
    ensures r[|r| - 6..] == CurveEdges
    ensures r[..|r| - 6] == PrereqEdges(software) + PrereqEdges(hardware) + PrereqEdges(categories)
  {
    PrereqEdgesAppend(software, hardware);
    PrereqEdgesAppend(software + hardware, categories);
    var r := PrereqEdges(software + hardware + categories) + CurveEdges;
    assert r[|r| - 6..] == CurveEdges;
    r
  }

  /** The ids that have a canvas position. */
  const PositionKeys: set<string> := {
    "typescript", "reactjs", "webdev",
    "3d-animation", "unity-engine", "gamedev",
    "csharp-oop", "csharp",
    "follow-schematic", "kicad", "pcb-design",
    "software", "hardware"
  }

  /** A skill drawn as a skill node: not a category, and with a position. */
  predicate Placed(s: ViewSkill)
  {
    s.category != "Category" && s.id in PositionKeys
  }

  datatype ViewNode = SkillNode(skill: ViewSkill) | CategoryNode(id: string, caption: string)

  /** The filter and `map` that turns placed skills into skill nodes (the `null`s dropped). */
  function SkillNodes(skills: seq<ViewSkill>): (r: seq<ViewNode>)
    ensures |r| <= |skills|
    ensures forall n | n in r :: n.SkillNode?
    ensures forall s :: SkillNode(s) in r <==> s in skills && Placed(s)
    decreases |skills|
  {
    if |skills| == 0 then []
    else
      var rest := SkillNodes(skills[1..]);
      assert forall s | s in skills[1..] :: s in skills;
      assert skills == [skills[0]] + skills[1..];
      if Placed(skills[0]) then [SkillNode(skills[0])] + rest else rest
  }

  /** The category headings, one per category entry. */
  function CategoryNodes(categories: seq<ViewSkill>): (r: seq<ViewNode>)
    ensures |r| == |categories|
    ensures forall i | 0 <= i < |r| :: r[i] == CategoryNode(categories[i].id, categories[i].name)
  {
    seq(|categories|, i requires 0 <= i < |categories| => CategoryNode(categories[i].id, categories[i].name))
  }

  /** Appending category headings adds no skill node and puts the headings last. */
  lemma HeadingsAreNotSkills(skills: seq<ViewNode>, heads: seq<ViewNode>)
    requires forall n | n in heads :: n.CategoryNode?
    ensures forall s :: SkillNode(s) in skills + heads <==> SkillNode(s) in skills
    ensures forall i | 0 <= i < |heads| :: (skills + heads)[|skills| + i] == heads[i]
  {
  }

  /**
    `createNodes`: the placed skills of all three lists as skill nodes, then
    every category as a heading. A skill whose category is `Category`, or
    whose id has no position, is not drawn as a skill.
  */
  function CreateNodes(software: seq<ViewSkill>, hardware: seq<ViewSkill>, categories: seq<ViewSkill>): (r: seq<ViewNode>)
    ensures |categories| <= |r| <= |software| + |hardware| + 2 * |categories|
    ensures forall s :: SkillNode(s) in r <==> s in software + hardware + categories && Placed(s)
    ensures forall i | 0 <= i < |categories| :: r[|r| - |categories| + i] == CategoryNode(categories[i].id, categories[i].name)
  {
    var skills := SkillNodes(software + hardware + categories);
    var heads := CategoryNodes(categories);
    HeadingsAreNotSkills(skills, heads);
    skills + heads
  }
}
