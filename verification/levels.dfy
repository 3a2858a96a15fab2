/**
  The level arithmetic the sidebar and the profile share: one level per
  five skills starting at level 1, a tier (the badge icon and colours)
  chosen by the largest threshold the level reaches, and the profile's
  title.
*/
module Levels {

  /** `Math.floor(totalSkills / 5) + 1`. */
  function Level(totalSkills: nat): (level: nat)
    ensures level >= 1
    ensures 5 * (level - 1) <= totalSkills < 5 * level
  {
    totalSkills / 5 + 1
  }

  /** The twelve badges, from the lowest (below level 2) to the highest (level 25 and up). */
  datatype Tier = Thumbnails | Star | Zap | Sparkles | Rocket | Award | Target | Flame | Shield | Gem | Swords | Crown

  /** The levels at which a new badge starts, highest first, as the source tests them. */
  const Thresholds: seq<nat> := [25, 20, 18, 16, 14, 12, 10, 8, 6, 4, 2]

  /** The `if (level >= 25) … else if (level >= 2) … else` chain. */
  function TierOf(level: nat): Tier
  {
    if level >= 25 then Crown
    else if level >= 20 then Swords
    else if level >= 18 then Gem
    else if level >= 16 then Shield
    else if level >= 14 then Flame
    else if level >= 12 then Target
    else if level >= 10 then Award
    else if level >= 8 then Rocket
    else if level >= 6 then Sparkles
    else if level >= 4 then Zap
    else if level >= 2 then Star
    else Thumbnails
  }

  /** A badge's place in the order, 0 for the lowest. */
  function Rank(t: Tier): nat
  {
    match t
    case Thumbnails => 0
    case Star => 1
    case Zap => 2
    case Sparkles => 3
    case Rocket => 4
    case Award => 5
    case Target => 6
    case Flame => 7
    case Shield => 8
    case Gem => 9
    case Swords => 10
    case Crown => 11
  }

  /** How many of `ts` the level reaches. */
  function Reached(level: nat, ts: seq<nat>): (n: nat)
    ensures n <= |ts|
    decreases |ts|
  {
    if |ts| == 0 then 0 else (if level >= ts[0] then 1 else 0) + Reached(level, ts[1..])
  }

  lemma {:induction false} ReachedMonotone(a: nat, b: nat, ts: seq<nat>)
    requires a <= b
    ensures Reached(a, ts) <= Reached(b, ts)
    decreases |ts|
  {
    if |ts| > 0 {
      ReachedMonotone(a, b, ts[1..]);
    }
  }

  /** `ts` is sorted from the highest threshold down. */
  predicate Descending(ts: seq<nat>)
  {
    forall i, j | 0 <= i < j < |ts| :: ts[i] >= ts[j]
  }

  /** On a descending list, a level between `ts[k]` and `ts[k - 1]` reaches exactly the last `|ts| - k` thresholds. */
  lemma {:induction false} DescendingReached(level: nat, ts: seq<nat>, k: nat)
    requires Descending(ts) && k <= |ts|
    requires k < |ts| ==> level >= ts[k]
    requires k > 0 ==> level < ts[k - 1]
    ensures Reached(level, ts) == |ts| - k
    decreases |ts|
  {
    if |ts| > 0 {
      var tl := ts[1..];
      assert Descending(tl) by {
        forall i, j | 0 <= i < j < |tl| ensures tl[i] >= tl[j] {
          assert tl[i] == ts[i + 1] && tl[j] == ts[j + 1];
        }
      }
      if k == 0 {
        assert level >= ts[0];
        if |tl| > 0 {
          assert tl[0] == ts[1];
        }
        DescendingReached(level, tl, 0);
      } else {
        assert ts[0] >= ts[k - 1];
        if k < |ts| {
          assert tl[k - 1] == ts[k];
        }
        if k > 1 {
          assert tl[k - 2] == ts[k - 1];
        }
        DescendingReached(level, tl, k - 1);
      }
    }
  }

  lemma ThresholdsDescending()
    ensures Descending(Thresholds)
  {
    var ts := Thresholds;
    assert forall i | 0 <= i < |ts| - 1 :: ts[i] > ts[i + 1];
    forall i, j | 0 <= i < j < |ts| ensures ts[i] >= ts[j] {
      StepsDescend(ts, i, j);
    }
  }

  lemma {:induction false} StepsDescend(ts: seq<nat>, i: nat, j: nat)
    requires i <= j < |ts|
    requires forall m | 0 <= m < |ts| - 1 :: ts[m] > ts[m + 1]
    ensures ts[i] >= ts[j]
    decreases j - i
  {
    if i < j {
      StepsDescend(ts, i + 1, j);
    }
  }

  /** The badge's rank is the number of thresholds the level reaches. */
  lemma TierCountsThresholds(level: nat)
    ensures Rank(TierOf(level)) == Reached(level, Thresholds)
  {
    ThresholdsDescending();
    TierCountsBands(level, Thresholds);
  }

  /** The values of `Thresholds`, stated one index at a time. */
  predicate ThresholdValues(ts: seq<nat>)
  {
    && |ts| == 11 && ts[0] == 25 && ts[1] == 20 && ts[2] == 18 && ts[3] == 16 && ts[4] == 14
    && ts[5] == 12 && ts[6] == 10 && ts[7] == 8 && ts[8] == 6 && ts[9] == 4 && ts[10] == 2
  }

  lemma TierCountsBands(level: nat, ts: seq<nat>)
    requires ThresholdValues(ts) && Descending(ts)
    ensures Rank(TierOf(level)) == Reached(level, ts)
  {
    if level >= 18 {
      TierCountsTop(level, ts);
    } else if level >= 12 {
      TierCountsUpper(level, ts);
    } else if level >= 6 {
      TierCountsLower(level, ts);
    } else {
      TierCountsBottom(level, ts);
    }
  }

  lemma TierCountsTop(level: nat, ts: seq<nat>)
    requires level >= 18 && ThresholdValues(ts) && Descending(ts)
    ensures Rank(TierOf(level)) == Reached(level, ts)
  {
    if level >= 25 {
      DescendingReached(level, ts, 0);
    } else if level >= 20 {
      DescendingReached(level, ts, 1);
    } else {
      DescendingReached(level, ts, 2);
    }
  }

  lemma TierCountsUpper(level: nat, ts: seq<nat>)
    requires 12 <= level < 18 && ThresholdValues(ts) && Descending(ts)
    ensures Rank(TierOf(level)) == Reached(level, ts)
  {
    if level >= 16 {
      DescendingReached(level, ts, 3);
    } else if level >= 14 {
      DescendingReached(level, ts, 4);
    } else {
      DescendingReached(level, ts, 5);
    }
  }

  lemma TierCountsLower(level: nat, ts: seq<nat>)
    requires 6 <= level < 12 && ThresholdValues(ts) && Descending(ts)
    ensures Rank(TierOf(level)) == Reached(level, ts)
  {
    if level >= 10 {
      DescendingReached(level, ts, 6);
    } else if level >= 8 {
      DescendingReached(level, ts, 7);
    } else {
      DescendingReached(level, ts, 8);
    }
  }

  lemma TierCountsBottom(level: nat, ts: seq<nat>)
    requires level < 6 && ThresholdValues(ts) && Descending(ts)
    ensures Rank(TierOf(level)) == Reached(level, ts)
  {
    if level >= 4 {
      DescendingReached(level, ts, 9);
    } else if level >= 2 {
      DescendingReached(level, ts, 10);
    } else {
      DescendingReached(level, ts, 11);
    }
  }

  /** More skills never give a lower badge. */
  lemma TierMonotone(a: nat, b: nat)
    requires a <= b
    ensures Rank(TierOf(Level(a))) <= Rank(TierOf(Level(b)))
  {
    TierCountsThresholds(Level(a));
    TierCountsThresholds(Level(b));
    ReachedMonotone(Level(a), Level(b), Thresholds);
  }

  datatype Title = Beginner | Intermediate | Advanced | Expert

  function TitleRank(t: Title): nat
  {
    match t
    case Beginner => 0
    case Intermediate => 1
    case Advanced => 2
    case Expert => 3
  }

  /** The profile heading: levels 1-2, 3-5, 6-10, and above. */
  function TitleOf(level: nat): (t: Title)
    ensures TitleRank(t) == Reached(level, [11, 6, 3])
  {
    if level <= 2 then Beginner
    else if level <= 5 then Intermediate
    else if level <= 10 then Advanced
    else Expert
  }

  /** More skills never give a lower title. */
  lemma TitleMonotone(a: nat, b: nat)
    requires a <= b
    ensures TitleRank(TitleOf(Level(a))) <= TitleRank(TitleOf(Level(b)))
  {
    ReachedMonotone(Level(a), Level(b), [11, 6, 3]);
  }
}
