/**
  The profile card: the skill total (stored earned skills plus earned tree
  nodes, so a skill in both counts twice), the level, badge and title it
  gives, the skill points (the stored value unless it is zero), and the
  name shown (the stored name, else one made from the e-mail address, else
  `User`).
*/
module Profile {
  import opened Wrappers
  import opened Individual
  import Text
  import Levels
  import UserDirectory
  import Keywords

  /** The skills the card is given; `nodes` is `skillTree?.nodes`, absent when either is missing. */
  datatype ProfileSkills = ProfileSkills(
    earnedSkills: seq<string>,
    availableSkills: seq<string>,
    skillPoints: nat,
    nodes: Option<seq<UserNode>>)

  /** The signed-in user as stored in the browser. */
  datatype UserData = UserData(email: string, name: Option<string>)

  function TotalSkills(p: ProfileSkills): (total: nat)
    ensures total >= |p.earnedSkills|
    ensures p.nodes.None? ==> total == |p.earnedSkills|
    ensures total <= |p.earnedSkills| + |p.nodes.GetOr([])|
    ensures total == |p.earnedSkills| + |EarnedPositions(p.nodes.GetOr([]))|
  {
    EarnedNodesNoLonger(p.nodes.GetOr([]));
    EarnedNodesCount(p.nodes.GetOr([]));
    |p.earnedSkills| + |EarnedNodes(p.nodes.GetOr([]))|
  }

  lemma {:induction false} EarnedNodesNoLonger(ns: seq<UserNode>)
    ensures |EarnedNodes(ns)| <= |ns|
    decreases |ns|
  {
    if |ns| > 0 {
      EarnedNodesNoLonger(ns[1..]);
    }
  }

  /** The card shows the same total the user list does for the same stored record. */
  lemma TotalAgreesWithDirectory(u: UserDirectory.UserRecord, parse: string -> Option<UserDirectory.ParsedTree>,
                                 available: seq<string>, points: nat)
    ensures var tree := UserDirectory.DecodeTree(u.skillTree, parse);
            var nodes := if tree.None? then None else tree.value.nodes;
            TotalSkills(ProfileSkills(u.earnedSkills.GetOr([]), available, points, nodes))
              == UserDirectory.Summarise(u, parse).totalSkills
  {
  }

  /** One skill stored as earned and also earned in the tree counts as two. */
  lemma CountedTwice()
    ensures var react := UserNode("react", "React", "software", true, false, [], "");
            TotalSkills(ProfileSkills(["react"], [], 0, Some([react]))) == 2
  {
    var react := UserNode("react", "React", "software", true, false, [], "");
    assert EarnedNodes([react]) == [react];
  }

  /** The level, badge and title of the heading. */
  datatype Heading = Heading(level: nat, badge: Levels.Tier, title: Levels.Title)

  function ProfileHeading(p: ProfileSkills): (h: Heading)
    ensures h.level >= 1 && 5 * (h.level - 1) <= TotalSkills(p) < 5 * h.level
    ensures Levels.Rank(h.badge) == Levels.Reached(h.level, Levels.Thresholds)
    ensures Levels.TitleRank(h.title) == Levels.Reached(h.level, [11, 6, 3])
  {
    var level := Levels.Level(TotalSkills(p));
    Levels.TierCountsThresholds(level);
    Heading(level, Levels.TierOf(level), Levels.TitleOf(level))
  }

  /** `skillPoints || earned * 10 + available * 5`: zero only when nothing is stored, earned or available. */
  function SkillPoints(p: ProfileSkills): (r: nat)
    ensures r == 0 <==> p.skillPoints == 0 && p.earnedSkills == [] && p.availableSkills == []
    ensures p.skillPoints != 0 ==> r == p.skillPoints
    ensures p.skillPoints == 0 ==> r == Keywords.Points(p.earnedSkills, p.availableSkills)
  {
    if p.skillPoints != 0 then p.skillPoints
    else Keywords.Points(p.earnedSkills, p.availableSkills)
  }

  /** `email.split('@')[0]`. */
  function LocalPart(email: string): (r: string)
    ensures '@' !in r
    ensures r <= email
    ensures |r| == |email| || email[|r|] == '@'
  {
    Text.SplitPartsFree(email, '@');
    SplitFirstPart(email, '@');
    Text.Split(email, '@')[0]
  }

  /** The first part of a split is everything before the first separator, or the whole string. */
  lemma {:induction false} SplitFirstPart(s: string, c: char)
    ensures Text.Split(s, c)[0] == match Text.FirstIndexOf(s, c) case None => s case Some(i) => s[..i]
    decreases |s|
  {
    if |s| > 0 && s[0] != c {
      var head := Text.Split(s[1..], c)[0];
      assert Text.Split(s, c)[0] == [s[0]] + head;
      SplitFirstPart(s[1..], c);
      match Text.FirstIndexOf(s[1..], c)
      case None =>
        assert Text.FirstIndexOf(s, c).None?;
        assert s == [s[0]] + s[1..];
      case Some(i) =>
        assert Text.FirstIndexOf(s, c) == Some(i + 1);
        assert s[..i + 1] == [s[0]] + s[1..][..i];
    }
  }

  /** `replace(/[._]/g, ' ')`. */
  function SpaceSeparators(s: string): (r: string)
    ensures |r| == |s|
    ensures forall i | 0 <= i < |s| :: r[i] != '.' && r[i] != '_'
    ensures forall i | 0 <= i < |s| && s[i] != '.' && s[i] != '_' :: r[i] == s[i]
  {
    seq(|s|, i requires 0 <= i < |s| => if s[i] == '.' || s[i] == '_' then ' ' else s[i])
  }

  /** `\b\w`: a word character that starts the string or follows a non-word character. */
  predicate StartsWord(s: string, i: int)
    requires 0 <= i < |s|
  {
    Text.IsWordChar(s[i]) && (i == 0 || !Text.IsWordChar(s[i - 1]))
  }

  /** `replace(/\b\w/g, l => l.toUpperCase())`. */
  function Capitalise(s: string): (r: string)
    ensures |r| == |s|
    ensures Text.Lower(r) == Text.Lower(s)
    ensures forall i | 0 <= i < |s| :: Text.IsWordChar(r[i]) == Text.IsWordChar(s[i])
    ensures forall i | 0 <= i < |s| && !StartsWord(s, i) :: r[i] == s[i]
    ensures forall i | 0 <= i < |s| && StartsWord(s, i) :: !('a' <= r[i] <= 'z')
  {
    var r := seq(|s|, i requires 0 <= i < |s| => if StartsWord(s, i) then Text.UpperChar(s[i]) else s[i]);
    assert forall i | 0 <= i < |s| :: Text.LowerChar(r[i]) == Text.LowerChar(s[i]);
    r
  }

  /** Capitalising twice is capitalising once. */
  lemma CapitaliseIdempotent(s: string)
    ensures Capitalise(Capitalise(s)) == Capitalise(s)
  {
    var r := Capitalise(s);
    forall i | 0 <= i < |s| ensures StartsWord(r, i) == StartsWord(s, i) {
    }
  }

  /** The name shown on the card. */
  function DisplayName(user: Option<UserData>): (r: string)
    ensures user.Some? && user.value.name.Some? && user.value.name.value != "" ==> r == user.value.name.value
    ensures (user.None? || user.value.name.None? || user.value.name.value == "") && user.Some? && user.value.email != "" ==>
              && |r| == |LocalPart(user.value.email)|
              && '@' !in r && '.' !in r && '_' !in r
              && Text.Lower(r) == Text.Lower(SpaceSeparators(LocalPart(user.value.email)))
    ensures (user.None? || user.value.name.None? || user.value.name.value == "") && (user.None? || user.value.email == "") ==>
              r == "User"
  {
    if user.Some? && user.value.name.Some? && user.value.name.value != "" then user.value.name.value
    else if user.Some? && user.value.email != "" then
      var local := LocalPart(user.value.email);
      var r := Capitalise(SpaceSeparators(local));
      assert forall i | 0 <= i < |r| :: Text.LowerChar(r[i]) == Text.LowerChar(SpaceSeparators(local)[i]);
      r
    else "User"
  }

  /** A typical address: `jo.x@a.io` shows as `Jo X`. */
  lemma DerivedNameExample()
    ensures DisplayName(Some(UserData("jo.x@a.io", None))) == "Jo X"
  {
    var e := "jo.x@a.io";
    assert e == "jo.x" + "@" + "a.io";
    DerivedFromLocalPart(e);
    LocalPartOf("jo.x", "a.io");
    SpaceSeparatorsExample();
    CapitaliseExample();
  }

  lemma SpaceSeparatorsExample()
    ensures SpaceSeparators("jo.x") == "jo x"
  {
  }

  lemma DerivedFromLocalPart(e: string)
    requires e != ""
    ensures DisplayName(Some(UserData(e, None))) == Capitalise(SpaceSeparators(LocalPart(e)))
  {
  }

  /** The local part of `p@q`, where `p` has no `@`, is `p`, whatever `q` holds. */
  lemma LocalPartOf(p: string, q: string)
    requires '@' !in p
    ensures LocalPart(p + "@" + q) == p
  {
    var e := p + "@" + q;
    assert e[|p|] == '@';
    assert forall k | 0 <= k < |p| :: e[k] == p[k];
    SplitFirstPart(e, '@');
    assert e[..|p|] == p;
  }

  lemma CapitaliseExample()
    ensures Capitalise("jo x") == "Jo X"
  {
    var s := "jo x";
    assert StartsWord(s, 0) && !StartsWord(s, 1) && !StartsWord(s, 2) && StartsWord(s, 3);
  }

  /** An address starting with `@` gives an empty name rather than `User`. */
  lemma EmptyLocalPartGivesEmptyName()
    ensures DisplayName(Some(UserData("@example.com", None))) == ""
  {
    SplitFirstPart("@example.com", '@');
  }
}
