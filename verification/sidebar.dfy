/**
  The user list's pure helpers: the skills highlighted while the pointer is
  over a user (stored earned skills then earned tree-node ids, repeats
  dropped), the avatar initials, and the level badge.
*/
module Sidebar {
  import opened Individual
  import Dedup
  import Text
  import Levels
  import UserDirectory
  import opened Keywords

  /** `skillTreeNodes.filter(node => node.earned).map(node => node.id)`. */
  function EarnedIds(ns: seq<UserNode>): (r: seq<string>)
    ensures |r| == |EarnedNodes(ns)|
    ensures forall x :: x in r <==> exists n | n in ns :: n.earned && n.id == x
  {
    var e := EarnedNodes(ns);
    var r := seq(|e|, i requires 0 <= i < |e| => e[i].id);
    assert forall n | n in e :: n.id in r by {
      forall n | n in e ensures n.id in r {
        var i :| 0 <= i < |e| && e[i] == n;
        assert r[i] == n.id;
      }
    }
    r
  }

  /** `[...new Set([...earnedSkills, ...earnedNodeIds])]`: the union, first occurrences in order. */
  function Highlight(earned: seq<string>, ns: seq<UserNode>): (r: seq<string>)
    ensures NoDuplicates(r)
    ensures forall x :: x in r <==> x in earned || exists n | n in ns :: n.earned && n.id == x
    ensures Dedup.SubseqOf(r, earned + EarnedIds(ns))
    ensures Dedup.Swept(r, earned + EarnedIds(ns), Ident)
    ensures |r| <= |earned| + |EarnedNodes(ns)|
  {
    var all := earned + EarnedIds(ns);
    Dedup.DedupSwept(all, Ident);
    Dedup.DedupDistinct(all, Ident);
    Dedup.DedupSubseq(all, Ident);
    Dedup.DedupNoLonger(all, Ident);
    var r := Dedup.Dedup(all, Ident);
    forall x ensures x in r <==> x in all {
      if x in r {
        var i :| 0 <= i < |r| && r[i] == x;
        assert Ident(r[i]) in Dedup.KeySet(r, Ident);
      }
      if x in all {
        var i :| 0 <= i < |all| && all[i] == x;
        assert Ident(all[i]) in Dedup.KeySet(all, Ident);
      }
    }
    r
  }

  /**
    A skill stored in the earned list and also earned in the tree is
    highlighted once but counted twice in `totalSkills`, so the highlight is
    strictly shorter than the total.
  */
  lemma HighlightBelowTotal(u: UserDirectory.Summary)
    requires u.totalSkills == |u.earnedSkills| + |EarnedNodes(u.skillTreeNodes)|
    requires exists n | n in u.skillTreeNodes :: n.earned && n.id in u.earnedSkills
    ensures |Highlight(u.earnedSkills, u.skillTreeNodes)| < u.totalSkills
  {
    var ids := EarnedIds(u.skillTreeNodes);
    var n :| n in u.skillTreeNodes && n.earned && n.id in u.earnedSkills;
    assert n.id in ids;
    SharedShrinks(u.earnedSkills, ids, n.id);
  }

  /** Deduplicating two lists that share an element leaves fewer entries than both together. */
  lemma SharedShrinks(a: seq<string>, b: seq<string>, x: string)
    requires x in a && x in b
    ensures |Dedup.Dedup(a + b, Ident)| < |a| + |b|
  {
    var all := a + b;
    var i :| 0 <= i < |a| && a[i] == x;
    var k :| 0 <= k < |b| && b[k] == x;
    assert all[i] == x && all[|a| + k] == x;
    RepeatShrinksKeys(all, i, |a| + k);
    Dedup.DedupLength(all, Ident);
  }

  /** A list with a repeated element has fewer distinct elements than entries. */
  lemma RepeatShrinksKeys(xs: seq<string>, i: nat, j: nat)
    requires i < j < |xs| && xs[i] == xs[j]
    ensures |Dedup.KeySet(xs, Ident)| < |xs|
  {
    var ys := xs[..j] + xs[j + 1..];
    assert Dedup.KeySet(xs, Ident) == Dedup.KeySet(ys, Ident) by {
      forall x | x in Dedup.KeySet(xs, Ident) ensures x in Dedup.KeySet(ys, Ident) {
        var m :| 0 <= m < |xs| && Ident(xs[m]) == x;
        if m < j {
          assert ys[m] == xs[m];
        } else if m == j {
          assert ys[i] == xs[i];
        } else {
          assert ys[m - 1] == xs[m];
        }
      }
      forall x | x in Dedup.KeySet(ys, Ident) ensures x in Dedup.KeySet(xs, Ident) {
        var m :| 0 <= m < |ys| && Ident(ys[m]) == x;
        if m < j {
          assert ys[m] == xs[m];
        } else {
          assert ys[m] == xs[m + 1];
        }
      }
    }
    Dedup.DedupLength(ys, Ident);
  }

  /** The first character of each non-empty word (`word[0]` of an empty word joins as nothing). */
  function Firsts(words: seq<string>): string
    decreases |words|
  {
    if |words| == 0 then []
    else (if |words[0]| > 0 then [words[0][0]] else []) + Firsts(words[1..])
  }

  /**
    The word starts, read left to right: a non-space character that begins
    the string or follows a space. `atStart` says whether the previous
    character was a space (or there was none).
  */
  function WordStarts(s: string, atStart: bool): string
    decreases |s|
  {
    if |s| == 0 then []
    else (if atStart && s[0] != ' ' then [s[0]] else []) + WordStarts(s[1..], s[0] == ' ')
  }

  /**
    Taking the first character of every part of `split(' ')` is reading off
    the word starts; the parts after the first are the starts after the
    first character.
  */
  lemma {:induction false} FirstsOfSplit(s: string)
    ensures Firsts(Text.Split(s, ' ')) == WordStarts(s, true)
    ensures Firsts(Text.Split(s, ' ')[1..]) == WordStarts(s, false)
    decreases |s|
  {
    if |s| > 0 {
      var rest := Text.Split(s[1..], ' ');
      FirstsOfSplit(s[1..]);
      if s[0] == ' ' {
        var parts := [""] + rest;
        assert parts[1..] == rest;
      } else {
        var parts := [[s[0]] + rest[0]] + rest[1..];
        assert parts[1..] == rest[1..];
        assert parts[0][0] == s[0];
      }
    }
  }

  /** `getInitials`: the word starts, upper-cased, at most two of them. */
  function Initials(name: string): (r: string)
    ensures |r| <= 2
    ensures var w := WordStarts(name, true);
            |r| == (if |w| < 2 then |w| else 2) && forall i | 0 <= i < |r| :: r[i] == Text.UpperChar(w[i])
  {
    FirstsOfSplit(name);
    var joined := Text.Upper(Firsts(Text.Split(name, ' ')));
    if |joined| <= 2 then joined else joined[..2]
  }

  /** `getLevelInfo`: the badge for a total, its rank the number of thresholds the level reaches. */
  function LevelBadge(totalSkills: nat): (t: Levels.Tier)
    ensures Levels.Rank(t) == Levels.Reached(Levels.Level(totalSkills), Levels.Thresholds)
  {
    Levels.TierCountsThresholds(Levels.Level(totalSkills));
    Levels.TierOf(Levels.Level(totalSkills))
  }

  /** A user with more skills never shows a lower badge. */
  lemma LevelBadgeMonotone(a: nat, b: nat)
    requires a <= b
    ensures Levels.Rank(LevelBadge(a)) <= Levels.Rank(LevelBadge(b))
  {
    Levels.ReachedMonotone(Levels.Level(a), Levels.Level(b), Levels.Thresholds);
  }
}
