/**
  The skill detail card: the status line (Mastered, Ready to Learn or
  Locked), the prerequisite badges (a badge is green when the prerequisite's
  slug is an earned id), and the Ready-to-Learn panel, which follows the
  available list alone.
*/
module SkillDetails {
  import Text
  import TreeView

  datatype DetailStatus = Mastered | ReadyToLearn | Locked

  /** `getStatusInfo`: earned first, then available, else locked. */
  function DetailsStatus(id: string, earned: seq<string>, available: seq<string>): (r: DetailStatus)
    ensures r == Mastered <==> id in earned
    ensures r == ReadyToLearn <==> id !in earned && id in available
    ensures r == Locked <==> id !in earned && id !in available
  {
    if id in earned then Mastered
    else if id in available then ReadyToLearn
    else Locked
  }

  /** The card and the tree draw a skill the same way. */
  lemma StatusAgreesWithTree(id: string, earned: seq<string>, available: seq<string>)
    ensures DetailsStatus(id, earned, available) == Mastered <==> TreeView.SkillStatus(id, earned, available) == TreeView.Earned
    ensures DetailsStatus(id, earned, available) == ReadyToLearn <==> TreeView.SkillStatus(id, earned, available) == TreeView.Available
    ensures DetailsStatus(id, earned, available) == Locked <==> TreeView.SkillStatus(id, earned, available) == TreeView.Locked
  {
  }

  /** `isAvailable`, which alone decides whether the Ready-to-Learn panel is shown. */
  function ShowsReadyPanel(id: string, available: seq<string>): (r: bool)
    ensures r <==> id in available
  {
    id in available
  }

  /** A skill both earned and available reads Mastered and still offers the panel. */
  lemma MasteredWithPanel(id: string, earned: seq<string>, available: seq<string>)
    requires id in earned && id in available
    ensures DetailsStatus(id, earned, available) == Mastered && ShowsReadyPanel(id, available)
  {
  }

  /** Skip leading whitespace. */
  function DropSpaces(s: string): (r: string)
    ensures |r| <= |s|
    ensures |r| > 0 ==> !Text.IsSpace(r[0])
    ensures forall c | c in r :: c in s
    ensures Visible(r) == Visible(s)
    decreases |s|
  {
    if |s| > 0 && Text.IsSpace(s[0]) then
      assert Visible(s) == Visible(s[1..]);
      DropSpaces(s[1..])
    else s
  }

  /** The characters of `s` other than whitespace and `-`, in order. */
  function Visible(s: string): string
    decreases |s|
  {
    if |s| == 0 then []
    else (if Text.IsSpace(s[0]) || s[0] == '-' then [] else [s[0]]) + Visible(s[1..])
  }

  /** `replace(/\s+/g, "-")`: every run of whitespace becomes one `-`. */
  function Hyphenate(s: string): (r: string)
    ensures forall i | 0 <= i < |r| :: !Text.IsSpace(r[i])
    ensures forall c | c in r :: c in s || c == '-'
    ensures |r| <= |s|
    decreases |s|
  {
    if |s| == 0 then []
    else if Text.IsSpace(s[0]) then
      var rest := Hyphenate(DropSpaces(s[1..]));
      assert forall c | c in rest :: c in s || c == '-';
      "-" + rest
    else
      var rest := Hyphenate(s[1..]);
      assert forall c | c in rest :: c in s || c == '-';
      [s[0]] + rest
  }

  /** Hyphenating keeps every other character, in order. */
  lemma {:induction false} HyphenateKeepsVisible(s: string)
    ensures Visible(Hyphenate(s)) == Visible(s)
    decreases |s|
  {
    if |s| > 0 {
      if Text.IsSpace(s[0]) {
        var t := DropSpaces(s[1..]);
        HyphenateKeepsVisible(t);
        var r := "-" + Hyphenate(t);
        assert r[1..] == Hyphenate(t);
      } else {
        HyphenateKeepsVisible(s[1..]);
        var r := [s[0]] + Hyphenate(s[1..]);
        assert r[1..] == Hyphenate(s[1..]);
      }
    }
  }

  /** A string without whitespace is left as it is. */
  lemma {:induction false} HyphenateNoSpace(s: string)
    requires forall i | 0 <= i < |s| :: !Text.IsSpace(s[i])
    ensures Hyphenate(s) == s
    decreases |s|
  {
    if |s| > 0 {
      HyphenateNoSpace(s[1..]);
      assert s == [s[0]] + s[1..];
    }
  }

  /** `prereq.toLowerCase().replace(/\s+/g, "-")`. */
  function Slug(s: string): (r: string)
    ensures PlainId(r)
    ensures Visible(r) == Visible(Text.Lower(s))
  {
    var low := Text.Lower(s);
    HyphenateKeepsVisible(low);
    var r := Hyphenate(low);
    forall i | 0 <= i < |r| ensures !('A' <= r[i] <= 'Z') {
      assert r[i] in r;
      if r[i] != '-' {
        var j :| 0 <= j < |low| && low[j] == r[i];
      }
    }
    r
  }

  /** A slug is its own slug. */
  lemma SlugIdempotent(s: string)
    ensures Slug(Slug(s)) == Slug(s)
  {
    var r := Slug(s);
    assert Text.Lower(r) == r;
    HyphenateNoSpace(r);
  }

  /** Written as an id: no whitespace and no upper-case letter. */
  predicate PlainId(p: string)
  {
    forall i | 0 <= i < |p| :: !Text.IsSpace(p[i]) && !('A' <= p[i] <= 'Z')
  }

  /** A prerequisite written as a plain id is matched as written. */
  lemma PlainIdIsItsSlug(p: string)
    requires PlainId(p)
    ensures Slug(p) == p
  {
    assert Text.Lower(p) == p;
    HyphenateNoSpace(p);
  }

  /** The badge is green exactly when the slug is an earned id. */
  function PrereqBadgeEarned(prereq: string, earned: seq<string>): (r: bool)
    ensures r <==> Slug(prereq) in earned
    ensures PlainId(prereq) ==> (r <==> prereq in earned)
  {
    if PlainId(prereq) then
      PlainIdIsItsSlug(prereq);
      Slug(prereq) in earned
    else
      Slug(prereq) in earned
  }

  /** A string made only of whitespace. */
  predicate AllSpace(w: string)
  {
    forall i | 0 <= i < |w| :: Text.IsSpace(w[i])
  }

  /** Skipping a whitespace run stops at the first character after it. */
  lemma {:induction false} DropSpacesRun(w: string, b: string)
    requires AllSpace(w)
    requires |b| > 0 ==> !Text.IsSpace(b[0])
    ensures DropSpaces(w + b) == b
    decreases |w|
  {
    if |w| > 0 {
      assert (w + b)[1..] == w[1..] + b;
      DropSpacesRun(w[1..], b);
    } else {
      assert w + b == b;
    }
  }

  /**
    A word, then a non-empty run of whitespace, then the rest: the word is
    kept, the whole run becomes one `-`, and the rest is hyphenated on its own.
    With `HyphenateNoSpace` this pins `Hyphenate` down on every string.
  */
  lemma {:induction false} HyphenateRun(a: string, w: string, b: string)
    requires forall i | 0 <= i < |a| :: !Text.IsSpace(a[i])
    requires |w| > 0 && AllSpace(w)
    requires |b| > 0 ==> !Text.IsSpace(b[0])
    ensures Hyphenate(a + w + b) == a + "-" + Hyphenate(b)
    decreases |a|
  {
    var s := a + w + b;
    if |a| == 0 {
      assert s == w + b && s[0] == w[0];
      assert s[1..] == w[1..] + b;
      DropSpacesRun(w[1..], b);
    } else {
      assert s[0] == a[0] && s[1..] == a[1..] + w + b;
      HyphenateRun(a[1..], w, b);
      assert a == [a[0]] + a[1..];
    }
  }

  /** Lower-casing keeps whitespace where it is and adds none. */
  lemma LowerKeepsSpaces(s: string)
    ensures forall i | 0 <= i < |s| :: Text.IsSpace(Text.Lower(s)[i]) <==> Text.IsSpace(s[i])
  {
  }

  /**
    The slug of a word, a whitespace run and the rest: the lower-cased word,
    one `-`, then the slug of the rest.
  */
  lemma SlugRun(a: string, w: string, b: string)
    requires forall i | 0 <= i < |a| :: !Text.IsSpace(a[i])
    requires |w| > 0 && AllSpace(w)
    requires |b| > 0 ==> !Text.IsSpace(b[0])
    ensures Slug(a + w + b) == Text.Lower(a) + "-" + Slug(b)
  {
    var la, lw, lb := Text.Lower(a), Text.Lower(w), Text.Lower(b);
    LowerKeepsSpaces(a);
    LowerKeepsSpaces(w);
    LowerKeepsSpaces(b);
    assert Text.Lower(a + w + b) == la + lw + lb;
    HyphenateRun(la, lw, lb);
  }

  /** Two id-like words separated by a space slug to the hyphenated id: `ui design` is matched by `ui-design`. */
  lemma SlugOfTwoWords(a: string, b: string)
    requires PlainId(a) && PlainId(b) && |b| > 0
    ensures Slug(a + " " + b) == a + "-" + b
  {
    var s := a + " " + b;
    assert Text.Lower(s) == s by {
      forall i | 0 <= i < |s| ensures Text.LowerChar(s[i]) == s[i] {
        if i < |a| {
          assert s[i] == a[i];
        } else if i > |a| {
          assert s[i] == b[i - |a| - 1];
        }
      }
    }
    HyphenateRun(a, " ", b);
    HyphenateNoSpace(b);
  }
}
