/**
  The resume-analysis route: the language model's reply is cut down to the
  span from the first `{` to the last `}`, parsed, swept for duplicate nodes
  and connections, checked for an implausible number of mastered skills, and
  split into earned and available ids. Every failure on the way (no API key,
  the model call failing, no brace span, a parse failure, a reply without a
  node list) falls back to a fixed keyword scan of the resume text.

  The model call and `JSON.parse` are inputs: `reply` is the model's text
  (`None` when the call throws) and `parse` stands for `JSON.parse`.
*/
module ResumeRoute {
  import opened Wrappers
  import opened Individual
  import Text
  import Dedup
  import opened Keywords

  /** The parsed reply. A field that is missing or not an array is `None`. */
  datatype RawGraph = RawGraph(nodes: Option<seq<UserNode>>, connections: Option<seq<Edge>>)

  /** The route's answer; `skillTree` is absent on the fallback path. */
  datatype Reply = Reply(lists: SkillLists, skillTree: Option<RawGraph>)

  // ---------------------------------------------------------------------
  // Brace-span extraction
  // ---------------------------------------------------------------------

  /**
    The greedy match of `\{[\s\S]*\}`: from the first `{` to the last `}`,
    both included. There is no match exactly when no `}` follows any `{`.
  */
  function JsonSpan(text: string): (r: Option<string>)
    ensures r.None? <==> forall i, j | 0 <= i < j < |text| :: !(text[i] == '{' && text[j] == '}')
    ensures r.Some? ==>
              && |r.value| >= 2 && r.value[0] == '{' && r.value[|r.value| - 1] == '}'
              && Text.IsSubstring(r.value, text)
  {
    match Text.FirstIndexOf(text, '{')
    case None => None
    case Some(i) =>
      match Text.LastIndexOf(text, '}')
      case None => None
      case Some(j) =>
        if j < i then None
        else
          SliceIsSubstring(text, i, j + 1);
          Some(text[i..j + 1])
  }

  /** A slice of `s` occurs in `s`. */
  lemma {:induction false} SliceIsSubstring(s: string, i: nat, j: nat)
    requires i <= j <= |s|
    ensures Text.IsSubstring(s[i..j], s)
    decreases |s|
  {
    if i == 0 {
      assert s[i..j] <= s;
    } else {
      SliceIsSubstring(s[1..], i - 1, j - 1);
      assert s[1..][i - 1..j - 1] == s[i..j];
    }
  }

  /**
    The span is the brace-delimited block itself whenever no `{` precedes it
    and no `}` follows it, whatever it contains.
  */
  lemma JsonSpanFrame(p: string, b: string, q: string)
    requires '{' !in p && '}' !in q
    requires |b| >= 2 && b[0] == '{' && b[|b| - 1] == '}'
    ensures JsonSpan(p + b + q) == Some(b)
  {
    var t := p + b + q;
    var i := |p|;
    var j := |p| + |b| - 1;
    assert t[i] == '{' && t[j] == '}';
    assert forall k | 0 <= k < i :: t[k] == p[k];
    assert forall k | j < k < |t| :: t[k] == q[k - |p| - |b|];
    assert Text.FirstIndexOf(t, '{') == Some(i);
    assert Text.LastIndexOf(t, '}') == Some(j);
    assert t[i..j + 1] == b;
  }

  // ---------------------------------------------------------------------
  // Duplicate sweeps
  // ---------------------------------------------------------------------

  /** The route's connection key, `${from}->${to}`. */
  function ArrowKey(e: Edge): string
  {
    e.from + "->" + e.to
  }

  /** The node sweep: one node per id, the first, in order. */
  function SweepNodes(xs: seq<UserNode>): (r: seq<UserNode>)
    ensures Dedup.Distinct(r, UserNodeId)
    ensures SourceIds(r) == SourceIds(xs)
    ensures Dedup.SubseqOf(r, xs)
    ensures Dedup.Swept(r, xs, UserNodeId)
  {
    Dedup.DedupSwept(xs, UserNodeId);
    Dedup.DedupDistinct(xs, UserNodeId);
    Dedup.DedupSubseq(xs, UserNodeId);
    SourceIdsAsKeySet(xs);
    SourceIdsAsKeySet(Dedup.Dedup(xs, UserNodeId));
    Dedup.Dedup(xs, UserNodeId)
  }

  /** The connection sweep: one connection per arrow string, the first, in order. */
  function SweepEdges(xs: seq<Edge>): (r: seq<Edge>)
    ensures Dedup.Distinct(r, ArrowKey)
    ensures Dedup.KeySet(r, ArrowKey) == Dedup.KeySet(xs, ArrowKey)
    ensures Dedup.SubseqOf(r, xs)
    ensures Dedup.Swept(r, xs, ArrowKey)
  {
    Dedup.DedupSwept(xs, ArrowKey);
    Dedup.DedupDistinct(xs, ArrowKey);
    Dedup.DedupSubseq(xs, ArrowKey);
    Dedup.Dedup(xs, ArrowKey)
  }

  /** Both sweeps of the parsed reply; a missing list stays missing. */
  function SweepGraph(g: RawGraph): (r: RawGraph)
    ensures r.nodes.Some? <==> g.nodes.Some?
    ensures r.connections.Some? <==> g.connections.Some?
    ensures r.nodes.Some? ==> r.nodes.value == SweepNodes(g.nodes.value)
    ensures r.connections.Some? ==> r.connections.value == SweepEdges(g.connections.value)
  {
    RawGraph(
      if g.nodes.Some? then Some(SweepNodes(g.nodes.value)) else None,
      if g.connections.Some? then Some(SweepEdges(g.connections.value)) else None)
  }

  lemma SourceIdsAsKeySet(us: seq<UserNode>)
    ensures SourceIds(us) == Dedup.KeySet(us, UserNodeId)
  {
  }

  /** Sweeping an already swept reply changes nothing. */
  lemma SweepGraphIdempotent(g: RawGraph)
    ensures SweepGraph(SweepGraph(g)) == SweepGraph(g)
  {
    if g.nodes.Some? {
      Dedup.DedupIdempotent(g.nodes.value, UserNodeId);
    }
    if g.connections.Some? {
      Dedup.DedupIdempotent(g.connections.value, ArrowKey);
    }
  }

  // ---------------------------------------------------------------------
  // The mastered override
  // ---------------------------------------------------------------------

  /** `nodes.filter(n => n.mastered === true).length`. */
  function MasteredCount(ns: seq<UserNode>): (r: nat)
    ensures r <= |ns|
    decreases |ns|
  {
    if |ns| == 0 then 0 else (if ns[0].mastered then 1 else 0) + MasteredCount(ns[1..])
  }

  /** More than 30% of the earned count is mastered: `m > 0.3 * e`, in integers. */
  predicate TooManyMastered(ns: seq<UserNode>)
  {
    10 * MasteredCount(ns) > 3 * |EarnedNodes(ns)|
  }

  /**
    When too many nodes claim mastery, the flag is removed from every node
    past the first two; otherwise the list is kept. Nothing but the flag
    changes.
  */
  function MasteredOverride(ns: seq<UserNode>): (r: seq<UserNode>)
    ensures |r| == |ns|
    ensures forall i | 0 <= i < |ns| :: r[i].(mastered := ns[i].mastered) == ns[i]
    ensures forall i | 0 <= i < |ns| :: r[i].mastered ==> ns[i].mastered
    ensures !TooManyMastered(ns) ==> r == ns
    ensures TooManyMastered(ns) ==> forall i | 0 <= i < |ns| :: r[i].mastered <==> (ns[i].mastered && i <= 1)
  {
    if TooManyMastered(ns) then
      seq(|ns|, i requires 0 <= i < |ns| => if i > 1 then ns[i].(mastered := false) else ns[i])
    else ns
  }

  /** At most the first two nodes keep the flag after the override fires. */
  lemma {:induction false} MasteredCountAtMost(ns: seq<UserNode>, k: nat)
    requires forall i | k <= i < |ns| :: !ns[i].mastered
    ensures MasteredCount(ns) <= k
    decreases |ns|
  {
    if |ns| > 0 && k > 0 {
      assert forall i | k - 1 <= i < |ns[1..]| :: !ns[1..][i].mastered by {
        forall i | k - 1 <= i < |ns[1..]| ensures !ns[1..][i].mastered {
          assert ns[1..][i] == ns[i + 1];
        }
      }
      MasteredCountAtMost(ns[1..], k - 1);
    } else if |ns| > 0 {
      assert forall i | 0 <= i < |ns[1..]| :: !ns[1..][i].mastered by {
        forall i | 0 <= i < |ns[1..]| ensures !ns[1..][i].mastered {
          assert ns[1..][i] == ns[i + 1];
        }
      }
      MasteredCountAtMost(ns[1..], 0);
    }
  }

  /** `EarnedNodes` only looks at `earned`, which the override leaves alone. */
  lemma {:induction false} EarnedNodesIgnoreMastered(ns: seq<UserNode>, ms: seq<UserNode>)
    requires |ms| == |ns|
    requires forall i | 0 <= i < |ns| :: ms[i].(mastered := ns[i].mastered) == ns[i]
    ensures |EarnedNodes(ms)| == |EarnedNodes(ns)|
    decreases |ns|
  {
    if |ns| > 0 {
      assert ms[0].earned == ns[0].earned by {
        assert ms[0].(mastered := ns[0].mastered) == ns[0];
      }
      assert forall i | 0 <= i < |ns[1..]| :: ms[1..][i].(mastered := ns[1..][i].mastered) == ns[1..][i] by {
        forall i | 0 <= i < |ns[1..]| ensures ms[1..][i].(mastered := ns[1..][i].mastered) == ns[1..][i] {
          assert ms[1..][i] == ms[i + 1] && ns[1..][i] == ns[i + 1];
        }
      }
      EarnedNodesIgnoreMastered(ns[1..], ms[1..]);
    }
  }

  /**
    After the override at most two nodes are mastered if it fired, the
    earned count is the same, and a second override changes nothing.
  */
  lemma MasteredOverrideSettles(ns: seq<UserNode>)
    ensures var r := MasteredOverride(ns);
            && (TooManyMastered(ns) ==> MasteredCount(r) <= 2)
            && |EarnedNodes(r)| == |EarnedNodes(ns)|
            && MasteredOverride(r) == r
  {
    var r := MasteredOverride(ns);
    EarnedNodesIgnoreMastered(ns, r);
    if TooManyMastered(ns) {
      MasteredCountAtMost(r, 2);
      var r2 := MasteredOverride(r);
      assert forall i | 0 <= i < |r| :: r2[i] == r[i] by {
        forall i | 0 <= i < |r| ensures r2[i] == r[i] {
          assert r2[i].(mastered := r[i].mastered) == r[i];
        }
      }
    }
  }

  // ---------------------------------------------------------------------
  // The earned/available split
  // ---------------------------------------------------------------------

  /**
    The positions of the nodes whose `earned` flag is `want`, in increasing
    order: each listed position matches, every matching position is listed.
  */
  function MatchIndices(ns: seq<UserNode>, want: bool): (idx: seq<nat>)
    ensures forall i | 0 <= i < |idx| :: idx[i] < |ns| && ns[idx[i]].earned == want
    ensures forall i | 0 <= i < |ns| && ns[i].earned == want :: i in idx
    ensures Dedup.Increasing(idx)
    decreases |ns|
  {
    if |ns| == 0 then []
    else
      var init := ns[..|ns| - 1];
      var rest := MatchIndices(init, want);
      assert forall i | 0 <= i < |init| :: init[i] == ns[i];
      if ns[|ns| - 1].earned == want then rest + [|ns| - 1] else rest
  }

  /** The three facts of `MatchIndices` determine the list of matching positions. */
  lemma MatchIndicesUnique(ns: seq<UserNode>, want: bool, idx: seq<nat>)
    requires forall i | 0 <= i < |idx| :: idx[i] < |ns| && ns[idx[i]].earned == want
    requires forall i | 0 <= i < |ns| && ns[i].earned == want :: i in idx
    requires Dedup.Increasing(idx)
    ensures idx == MatchIndices(ns, want)
  {
    var mi := MatchIndices(ns, want);
    forall x ensures x in idx <==> x in mi {
      if x in idx {
        var i :| 0 <= i < |idx| && idx[i] == x;
      }
      if x in mi {
        var i :| 0 <= i < |mi| && mi[i] == x;
      }
    }
    Dedup.IncreasingBySet(idx, mi);
  }

  /** The ids of the nodes whose `earned` flag is `want`, in node order. */
  function IdsWhere(ns: seq<UserNode>, want: bool): (r: seq<string>)
    ensures forall id :: id in r <==> exists n | n in ns :: n.id == id && n.earned == want
    ensures |r| <= |ns|
    decreases |ns|
  {
    if |ns| == 0 then []
    else
      var rest := IdsWhere(ns[1..], want);
      assert forall n | n in ns :: n == ns[0] || n in ns[1..];
      if ns[0].earned == want then [ns[0].id] + rest else rest
  }

  lemma {:induction false} IdsWhereSnoc(ns: seq<UserNode>, x: UserNode, want: bool)
    ensures IdsWhere(ns + [x], want) == IdsWhere(ns, want) + (if x.earned == want then [x.id] else [])
    decreases |ns|
  {
    if |ns| == 0 {
      assert [x][1..] == [];
    } else {
      assert (ns + [x])[1..] == ns[1..] + [x];
      IdsWhereSnoc(ns[1..], x, want);
    }
  }

  /** The listed ids are those at the matching positions, in node order. */
  lemma {:induction false} IdsWhereAtMatches(ns: seq<UserNode>, want: bool)
    ensures var r, idx := IdsWhere(ns, want), MatchIndices(ns, want);
            |r| == |idx| && forall i | 0 <= i < |r| :: r[i] == ns[idx[i]].id
    decreases |ns|
  {
    if |ns| > 0 {
      var init, x := ns[..|ns| - 1], ns[|ns| - 1];
      assert ns == init + [x];
      IdsWhereAtMatches(init, want);
      IdsWhereSnoc(init, x, want);
      var before, rest := IdsWhere(init, want), MatchIndices(init, want);
      var r, idx := IdsWhere(ns, want), MatchIndices(ns, want);
      assert r == before + (if x.earned == want then [x.id] else []);
      assert idx == rest + (if x.earned == want then [|ns| - 1] else []);
      forall i | 0 <= i < |r| ensures r[i] == ns[idx[i]].id {
        if i < |before| {
          assert r[i] == before[i] == init[rest[i]].id;
          assert idx[i] == rest[i] && init[rest[i]] == ns[rest[i]];
        }
      }
    }
  }

  /** Every node lands in exactly one of the two lists. */
  lemma {:induction false} SplitSizes(ns: seq<UserNode>)
    ensures |IdsWhere(ns, true)| + |IdsWhere(ns, false)| == |ns|
    decreases |ns|
  {
    if |ns| > 0 {
      SplitSizes(ns[1..]);
    }
  }

  /** With distinct node ids the two lists are repeat-free and share no id. */
  lemma {:induction false} SplitDistinct(ns: seq<UserNode>)
    requires Dedup.Distinct(ns, UserNodeId)
    ensures NoDuplicates(IdsWhere(ns, true)) && NoDuplicates(IdsWhere(ns, false))
    ensures forall id | id in IdsWhere(ns, true) :: id !in IdsWhere(ns, false)
    decreases |ns|
  {
    if |ns| > 0 {
      var tl := ns[1..];
      assert Dedup.Distinct(tl, UserNodeId) by {
        forall i, j | 0 <= i < j < |tl| ensures tl[i].id != tl[j].id {
          assert tl[i] == ns[i + 1] && tl[j] == ns[j + 1];
        }
      }
      SplitDistinct(tl);
      assert forall n | n in tl :: n.id != ns[0].id by {
        forall n | n in tl ensures n.id != ns[0].id {
          var k :| 0 <= k < |tl| && tl[k] == n;
          assert ns[k + 1] == n;
        }
      }
      ConsNoDuplicates(ns[0].id, IdsWhere(tl, true));
      ConsNoDuplicates(ns[0].id, IdsWhere(tl, false));
      forall id | id in IdsWhere(ns, true) ensures id !in IdsWhere(ns, false) {
        var a :| a in ns && a.id == id && a.earned;
        var ia :| 0 <= ia < |ns| && ns[ia] == a;
        forall b | b in ns && b.id == id ensures b.earned {
          var ib :| 0 <= ib < |ns| && ns[ib] == b;
          assert UserNodeId(ns[ia]) == UserNodeId(ns[ib]);
          assert ia == ib;
        }
      }
    }
  }

  lemma ConsNoDuplicates(x: string, xs: seq<string>)
    requires NoDuplicates(xs) && x !in xs
    ensures NoDuplicates([x] + xs)
  {
    var ys := [x] + xs;
    forall i, j | 0 <= i < j < |ys| ensures ys[i] != ys[j] {
      assert ys[j] == xs[j - 1];
      if i > 0 {
        assert ys[i] == xs[i - 1];
      }
    }
  }

  // ---------------------------------------------------------------------
  // The keyword fallback
  // ---------------------------------------------------------------------

  /** The fallback's keyword table, in declaration order. */
  const FallbackMappings: seq<Entry> := [
    Entry("javascript", "javascript"),
    Entry("python", "python"),
    Entry("react", "react"),
    Entry("nodejs", "nodejs"),
    Entry("git", "git"),
    Entry("docker", "docker"),
    Entry("aws", "aws"),
    Entry("mongodb", "mongodb"),
    Entry("postgresql", "postgresql"),
    Entry("figma", "figma"),
    Entry("project management", "project-management"),
    Entry("leadership", "leadership"),
    Entry("communication", "communication")
  ]

  /** The skills the fallback offers, unless earned. */
  const FallbackTargets: seq<string> := ["typescript", "nextjs", "kubernetes", "machine-learning", "ui-design"]

  /** `xs.filter(x => !drop.includes(x))`. */
  function Without(xs: seq<string>, drop: seq<string>): (r: seq<string>)
    ensures forall x :: x in r <==> x in xs && x !in drop
    ensures NoDuplicates(xs) ==> NoDuplicates(r)
    ensures (forall x | x in xs :: x !in drop) ==> r == xs
    decreases |xs|
  {
    if |xs| == 0 then []
    else
      var rest := Without(xs[1..], drop);
      assert forall x | x in xs :: x == xs[0] || x in xs[1..];
      assert NoDuplicates(xs) ==> NoDuplicates(xs[1..]) && xs[0] !in xs[1..] by {
        if NoDuplicates(xs) {
          forall i, j | 0 <= i < j < |xs[1..]| ensures xs[1..][i] != xs[1..][j] {
            assert xs[1..][i] == xs[i + 1] && xs[1..][j] == xs[j + 1];
          }
          forall k | 0 <= k < |xs[1..]| ensures xs[1..][k] != xs[0] {
            assert xs[1..][k] == xs[k + 1];
          }
        }
      }
      if xs[0] !in drop then [xs[0]] + rest else rest
  }

  /**
    `fallbackAnalysis(resumeText)`: an id is earned iff one of its keywords
    occurs in the lower-cased text, never twice; the offered skills are the
    fixed list minus the earned ones.
  */
  function Fallback(resumeText: string): (r: SkillLists)
    ensures forall id :: id in r.earnedSkills <==>
              exists e | e in FallbackMappings :: e.id == id && Text.IsSubstring(e.keyword, Text.Lower(resumeText))
    ensures NoDuplicates(r.earnedSkills)
    ensures forall s :: s in r.availableSkills <==> s in FallbackTargets && s !in r.earnedSkills
    ensures r.skillPoints == Points(r.earnedSkills, r.availableSkills)
  {
    var text := Text.Lower(resumeText);
    var earned := Scan(text, FallbackMappings);
    ScanSpec(text, FallbackMappings);
    var available := Without(FallbackTargets, earned);
    SkillLists(earned, available, Points(earned, available))
  }

  /**
    No offered skill has a keyword in the fallback table, so the filter
    never removes anything: the fallback always offers all five skills.
  */
  lemma FallbackOffersAll(resumeText: string)
    ensures Fallback(resumeText).availableSkills == FallbackTargets
  {
    var r := Fallback(resumeText);
    assert forall x | x in FallbackTargets :: x !in r.earnedSkills by {
      forall x | x in FallbackTargets ensures x !in r.earnedSkills {
        TargetsUnmapped(x);
      }
    }
  }

  /** No fallback table entry names one of the offered skills. */
  lemma TargetsUnmapped(x: string)
    requires x in FallbackTargets
    ensures forall e | e in FallbackMappings :: e.id != x
  {
    var ids := seq(|FallbackMappings|, i requires 0 <= i < |FallbackMappings| => FallbackMappings[i].id);
    assert ids == ["javascript", "python", "react", "nodejs", "git", "docker", "aws", "mongodb",
                   "postgresql", "figma", "project-management", "leadership", "communication"];
    forall e | e in FallbackMappings ensures e.id != x {
      var i :| 0 <= i < |FallbackMappings| && FallbackMappings[i] == e;
      assert e.id == ids[i];
    }
  }

  // ---------------------------------------------------------------------
  // The route
  // ---------------------------------------------------------------------

  /** The reply from the swept, overridden node list. */
  function Lists(ns: seq<UserNode>): (r: SkillLists)
    ensures |r.earnedSkills| + |r.availableSkills| == |ns|
    ensures forall id :: id in r.earnedSkills <==> exists n | n in ns :: n.id == id && n.earned
    ensures forall id :: id in r.availableSkills <==> exists n | n in ns :: n.id == id && !n.earned
    ensures r.skillPoints == Points(r.earnedSkills, r.availableSkills)
    ensures var idx := MatchIndices(ns, true);
            |r.earnedSkills| == |idx| && forall i | 0 <= i < |idx| :: r.earnedSkills[i] == ns[idx[i]].id
    ensures var idx := MatchIndices(ns, false);
            |r.availableSkills| == |idx| && forall i | 0 <= i < |idx| :: r.availableSkills[i] == ns[idx[i]].id
  {
    SplitSizes(ns);
    IdsWhereAtMatches(ns, true);
    IdsWhereAtMatches(ns, false);
    var earned := IdsWhere(ns, true);
    var available := IdsWhere(ns, false);
    SkillLists(earned, available, Points(earned, available))
  }

  /**
    `POST /api/analyze-resume`. The graph path is taken iff an API key is
    set, the model answers, the answer has a brace span, the span parses and
    the parsed object has a node list; every other case is the keyword
    fallback with no skill tree.
  */
  function Analyze(resumeText: string, hasApiKey: bool, reply: Option<string>, parse: string -> Option<RawGraph>)
    : (r: Reply)
    ensures r.skillTree.None? <==>
              || !hasApiKey || reply.None? || JsonSpan(reply.value).None?
              || parse(JsonSpan(reply.value).value).None?
              || parse(JsonSpan(reply.value).value).value.nodes.None?
    ensures r.skillTree.None? ==> r.lists == Fallback(resumeText)
    ensures r.skillTree.Some? ==> r.skillTree.value.nodes.Some?
    ensures r.skillTree.Some? && r.skillTree.value.nodes.Some? ==>
              var raw := parse(JsonSpan(reply.value).value).value;
              var ns := r.skillTree.value.nodes.value;
              && Dedup.Distinct(ns, UserNodeId)
              && SourceIds(ns) == SourceIds(raw.nodes.value)
              && (r.skillTree.value.connections.Some? <==> raw.connections.Some?)
              && NoDuplicates(r.lists.earnedSkills) && NoDuplicates(r.lists.availableSkills)
              && (forall id | id in r.lists.earnedSkills :: id !in r.lists.availableSkills)
              && (forall id :: id in r.lists.earnedSkills || id in r.lists.availableSkills <==> id in SourceIds(ns))
              && r.lists.skillPoints == Points(r.lists.earnedSkills, r.lists.availableSkills)
    ensures r.skillTree.Some? ==>
              var swept := SweepGraph(parse(JsonSpan(reply.value).value).value);
              && r.skillTree.value.nodes == Some(MasteredOverride(swept.nodes.value))
              && r.skillTree.value.connections == swept.connections
              && r.lists == Lists(r.skillTree.value.nodes.value)
  {
    if !hasApiKey || reply.None? then Reply(Fallback(resumeText), None)
    else
      match JsonSpan(reply.value)
      case None => Reply(Fallback(resumeText), None)
      case Some(span) =>
        match parse(span)
        case None => Reply(Fallback(resumeText), None)
        case Some(raw) =>
          if raw.nodes.None? then Reply(Fallback(resumeText), None)
          else
            var swept := SweepGraph(raw);
            var ns := MasteredOverride(swept.nodes.value);
            GraphFacts(swept.nodes.value, ns);
            Reply(Lists(ns), Some(swept.(nodes := Some(ns))))
  }

  /** The override keeps ids and the earned flag, so the swept list's facts carry over to the reply. */
  lemma GraphFacts(swept: seq<UserNode>, ns: seq<UserNode>)
    requires Dedup.Distinct(swept, UserNodeId)
    requires |ns| == |swept|
    requires forall i | 0 <= i < |ns| :: ns[i].(mastered := swept[i].mastered) == swept[i]
    ensures Dedup.Distinct(ns, UserNodeId)
    ensures SourceIds(ns) == SourceIds(swept)
    ensures NoDuplicates(IdsWhere(ns, true)) && NoDuplicates(IdsWhere(ns, false))
    ensures forall id | id in IdsWhere(ns, true) :: id !in IdsWhere(ns, false)
    ensures forall id :: id in IdsWhere(ns, true) || id in IdsWhere(ns, false) <==> id in SourceIds(ns)
  {
    assert forall i | 0 <= i < |ns| :: ns[i].id == swept[i].id by {
      forall i | 0 <= i < |ns| ensures ns[i].id == swept[i].id {
        assert ns[i].(mastered := swept[i].mastered) == swept[i];
      }
    }
    SplitDistinct(ns);
    forall id ensures id in IdsWhere(ns, true) || id in IdsWhere(ns, false) <==> id in SourceIds(ns) {
      if id in SourceIds(ns) {
        var k :| 0 <= k < |ns| && ns[k].id == id;
        assert ns[k] in ns;
      }
      if id in IdsWhere(ns, true) || id in IdsWhere(ns, false) {
        var n :| n in ns && n.id == id;
        var k :| 0 <= k < |ns| && ns[k] == n;
      }
    }
  }
}
