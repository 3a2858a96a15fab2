/**
  The rule-based resume analyser: the earned skills come from a keyword
  scan of the lower-cased text. The available skills come from a fixed list
  of prerequisite rules, a starter set when nothing was earned, and three
  foundational skills that always end up somewhere.
*/
module ResumeAnalyzer {
  import Text
  import opened Keywords

  /** The keyword table, in declaration order (object key order). */
  const SkillMappings: seq<Entry> := [
    Entry("javascript", "javascript"),
    Entry("js", "javascript"),
    Entry("typescript", "typescript"),
    Entry("ts", "typescript"),
    Entry("python", "python"),
    Entry("node.js", "nodejs"),
    Entry("nodejs", "nodejs"),
    Entry("node", "nodejs"),
    Entry("git", "git"),
    Entry("github", "git"),
    Entry("react", "react"),
    Entry("reactjs", "react"),
    Entry("next.js", "nextjs"),
    Entry("nextjs", "nextjs"),
    Entry("html", "html-css"),
    Entry("css", "html-css"),
    Entry("tailwind", "tailwind"),
    Entry("tailwindcss", "tailwind"),
    Entry("rest", "rest-apis"),
    Entry("api", "rest-apis"),
    Entry("docker", "docker"),
    Entry("aws", "aws"),
    Entry("amazon web services", "aws"),
    Entry("ci/cd", "cicd"),
    Entry("github actions", "cicd"),
    Entry("postgresql", "postgresql"),
    Entry("postgres", "postgresql"),
    Entry("mongodb", "mongodb"),
    Entry("mongo", "mongodb"),
    Entry("figma", "figma"),
    Entry("ui", "ui-design"),
    Entry("ux", "ux-design"),
    Entry("design", "ui-design"),
    Entry("project management", "project-management"),
    Entry("team lead", "team-leadership"),
    Entry("leadership", "team-leadership"),
    Entry("agile", "agile-scrum"),
    Entry("scrum", "agile-scrum")
  ]

  /** A prerequisite rule: `skill` becomes available when `enabler` is earned and `skill` is not. */
  datatype Rule = Rule(enabler: string, skill: string)

  const Rules: seq<Rule> := [
    Rule("javascript", "typescript"),
    Rule("javascript", "nodejs"),
    Rule("javascript", "react"),
    Rule("react", "nextjs"),
    Rule("html-css", "tailwind"),
    Rule("javascript", "rest-apis"),
    Rule("git", "docker"),
    Rule("docker", "aws"),
    Rule("git", "cicd"),
    Rule("figma", "ui-design"),
    Rule("ui-design", "ux-design"),
    Rule("project-management", "team-leadership")
  ]

  /** Offered when nothing was earned. */
  const StarterSkills: seq<string> := ["javascript", "html-css", "git", "figma", "project-management"]

  /** Added to the available list unless already earned or available. */
  const FoundationalSkills: seq<string> := ["html-css", "git", "agile-scrum"]

  /** The skills of the rules that fire, in rule order. */
  function ApplyRules(earned: seq<string>, rules: seq<Rule>): (r: seq<string>)
    ensures forall s :: s in r <==> exists q | q in rules :: q.skill == s && q.enabler in earned && q.skill !in earned
    decreases |rules|
  {
    if |rules| == 0 then []
    else
      var rest := ApplyRules(earned, rules[..|rules| - 1]);
      var q := rules[|rules| - 1];
      assert rules == rules[..|rules| - 1] + [q];
      if q.enabler in earned && q.skill !in earned then rest + [q.skill] else rest
  }

  /** Rules naming distinct skills fire without repeats. */
  lemma {:induction false} ApplyRulesNoDuplicates(earned: seq<string>, rules: seq<Rule>)
    requires forall i, j | 0 <= i < j < |rules| :: rules[i].skill != rules[j].skill
    ensures NoDuplicates(ApplyRules(earned, rules))
    decreases |rules|
  {
    if |rules| > 0 {
      var init := rules[..|rules| - 1];
      var q := rules[|rules| - 1];
      ApplyRulesNoDuplicates(earned, init);
      var rest := ApplyRules(earned, init);
      assert q.skill !in rest by {
        forall q' | q' in init ensures q'.skill != q.skill {
          var i :| 0 <= i < |init| && init[i] == q';
          assert rules[i] == q';
        }
      }
    }
  }

  /** With nothing earned no rule fires. */
  lemma {:induction false} NothingEarnedNothingFires(earned: seq<string>, rules: seq<Rule>)
    requires earned == []
    ensures ApplyRules(earned, rules) == []
    decreases |rules|
  {
    if |rules| > 0 {
      NothingEarnedNothingFires(earned, rules[..|rules| - 1]);
    }
  }

  /** Push `s` unless it is earned or already available. */
  function AddIfMissing(earned: seq<string>, available: seq<string>, s: string): (r: seq<string>)
    ensures s in earned || s in r
    ensures forall x :: x in r <==> x in available || (x == s && s !in earned)
    ensures NoDuplicates(available) ==> NoDuplicates(r)
  {
    if s !in earned && s !in available then available + [s] else available
  }

  /**
    The available list: the rules that fire, then the starter set when
    nothing was earned, then each foundational skill that is neither earned
    nor already available.
  */
  function Available(earned: seq<string>, rules: seq<Rule>, starter: seq<string>): seq<string>
  {
    var ruled := ApplyRules(earned, rules);
    var started := if |earned| == 0 then ruled + starter else ruled;
    var a1 := AddIfMissing(earned, started, "html-css");
    var a2 := AddIfMissing(earned, a1, "git");
    AddIfMissing(earned, a2, "agile-scrum")
  }

  /** What the available list promises, for any rule table naming distinct skills and any starter set without repeats. */
  lemma AvailableSpec(earned: seq<string>, rules: seq<Rule>, starter: seq<string>)
    requires forall i, j | 0 <= i < j < |rules| :: rules[i].skill != rules[j].skill
    requires NoDuplicates(starter)
    ensures var a := Available(earned, rules, starter);
            && NoDuplicates(a)
            && (forall s | s in a :: s !in earned)
            && (forall s | s in ["html-css", "git", "agile-scrum"] :: s in earned || s in a)
            && (earned == [] ==> forall s | s in starter :: s in a)
            && (forall q | q in rules && q.enabler in earned && q.skill !in earned :: q.skill in a)
            && (forall s | s in a ::
                  || (exists q | q in rules :: q.skill == s && q.enabler in earned)
                  || (earned == [] && s in starter)
                  || s == "html-css" || s == "git" || s == "agile-scrum")
  {
    var ruled := ApplyRules(earned, rules);
    ApplyRulesNoDuplicates(earned, rules);
    if |earned| == 0 {
      NothingEarnedNothingFires(earned, rules);
      assert ruled + starter == starter;
    }
  }

  /** `analyzeResume(resumeText)`. */
  function AnalyzeResume(resumeText: string): (r: SkillLists)
    ensures r.skillPoints == Points(r.earnedSkills, r.availableSkills)
    ensures forall id :: id in r.earnedSkills <==>
              exists e | e in SkillMappings :: e.id == id && Text.IsSubstring(e.keyword, Text.Lower(resumeText))
    ensures NoDuplicates(r.earnedSkills)
    ensures r.availableSkills == Available(r.earnedSkills, Rules, StarterSkills)
  {
    var text := Text.Lower(resumeText);
    var earned := Scan(text, SkillMappings);
    ScanSpec(text, SkillMappings);
    var available := Available(earned, Rules, StarterSkills);
    SkillLists(earned, available, Points(earned, available))
  }

  lemma RulesDistinct()
    ensures forall i, j | 0 <= i < j < |Rules| :: Rules[i].skill != Rules[j].skill
  {
  }

  lemma StarterDistinct()
    ensures NoDuplicates(StarterSkills)
  {
  }

  /**
    The analyser's lists: earned and available are disjoint and free of
    repeats; html-css, git and agile-scrum always appear in one of them;
    with nothing earned the starter set is offered; every rule that fires
    is honoured and every available skill has a reason.
  */
  lemma AnalyzeResumeSpec(resumeText: string)
    ensures var r := AnalyzeResume(resumeText);
            && NoDuplicates(r.availableSkills)
            && (forall s | s in r.availableSkills :: s !in r.earnedSkills)
            && (forall s | s in FoundationalSkills :: s in r.earnedSkills || s in r.availableSkills)
            && (r.earnedSkills == [] ==> forall s | s in StarterSkills :: s in r.availableSkills)
            && (forall q | q in Rules && q.enabler in r.earnedSkills && q.skill !in r.earnedSkills ::
                  q.skill in r.availableSkills)
            && (forall s | s in r.availableSkills ::
                  || (exists q | q in Rules :: q.skill == s && q.enabler in r.earnedSkills)
                  || (r.earnedSkills == [] && s in StarterSkills)
                  || s in FoundationalSkills)
  {
    var r := AnalyzeResume(resumeText);
    RulesDistinct();
    StarterDistinct();
    AvailableSpec(r.earnedSkills, Rules, StarterSkills);
  }
}
