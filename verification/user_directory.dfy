/**
  The user directory: every user with skills, summarised (stored skill tree
  parsed when it is text, an unparseable tree read as no tree, a total of
  earned skills) and listed most skilled first. The sort is stable, as
  `Array.prototype.sort` is: users with the same total keep their stored
  order.
*/
module UserDirectory {
  import opened Wrappers
  import opened Individual

  /** The `skills.skillTree` field: missing, JSON text, or an already decoded object. */
  datatype StoredTree = NoTree | TreeText(text: string) | TreeObject(tree: ParsedTree)

  /** A decoded tree; `nodes` is `None` when the object has no node list. */
  datatype ParsedTree = ParsedTree(nodes: Option<seq<UserNode>>)

  datatype UserRecord = UserRecord(
    id: string,
    name: string,
    email: string,
    earnedSkills: Option<seq<string>>,
    skillTree: StoredTree)

  /** One entry of the reply. */
  datatype Summary = Summary(
    id: string,
    name: string,
    email: string,
    earnedSkills: seq<string>,
    skillTreeNodes: seq<UserNode>,
    totalSkills: nat)

  /**
    The decoded tree, if any: non-empty text goes through `parse`, whose
    failure is caught and gives none; empty text is falsy and never parsed.
  */
  function DecodeTree(t: StoredTree, parse: string -> Option<ParsedTree>): (r: Option<ParsedTree>)
    ensures t.NoTree? ==> r.None?
    ensures t.TreeObject? ==> r == Some(t.tree)
    ensures t.TreeText? && t.text == "" ==> r.None?
    ensures t.TreeText? && t.text != "" ==> r == parse(t.text)
  {
    match t
    case NoTree => None
    case TreeText(s) => if s == "" then None else parse(s)
    case TreeObject(p) => Some(p)
  }

  /**
    One user's entry: missing lists read as empty, and the total is the
    stored earned list's length plus the number of earned tree nodes.
  */
  function Summarise(u: UserRecord, parse: string -> Option<ParsedTree>): (r: Summary)
    ensures r.id == u.id && r.name == u.name && r.email == u.email
    ensures r.earnedSkills == u.earnedSkills.GetOr([])
    ensures DecodeTree(u.skillTree, parse).None? ==> r.skillTreeNodes == []
    ensures DecodeTree(u.skillTree, parse).Some? ==> r.skillTreeNodes == DecodeTree(u.skillTree, parse).value.nodes.GetOr([])
    ensures r.totalSkills == |r.earnedSkills| + |EarnedNodes(r.skillTreeNodes)|
    ensures r.totalSkills == |u.earnedSkills.GetOr([])| + |EarnedPositions(r.skillTreeNodes)|
    ensures r.totalSkills >= |r.earnedSkills|
  {
    var nodes := match DecodeTree(u.skillTree, parse)
      case None => []
      case Some(p) => p.nodes.GetOr([]);
    var earned := u.earnedSkills.GetOr([]);
    EarnedNodesCount(nodes);
    Summary(u.id, u.name, u.email, earned, nodes, |earned| + |EarnedNodes(nodes)|)
  }

  /** Non-increasing totals. */
  predicate SortedByTotal(xs: seq<Summary>)
  {
    forall i, j | 0 <= i < j < |xs| :: xs[i].totalSkills >= xs[j].totalSkills
  }

  /** The entries with total `t`, in list order. */
  function WithTotal(xs: seq<Summary>, t: nat): seq<Summary>
    decreases |xs|
  {
    if |xs| == 0 then []
    else (if xs[0].totalSkills == t then [xs[0]] else []) + WithTotal(xs[1..], t)
  }

  /** Put `x` before the first entry whose total is not larger, so it precedes its equals. */
  function Insert(x: Summary, ys: seq<Summary>): (r: seq<Summary>)
    ensures |r| == |ys| + 1
    ensures multiset(r) == multiset(ys) + multiset{x}
    ensures SortedByTotal(ys) ==> SortedByTotal(r)
    ensures |ys| > 0 ==> r[0] == x || r[0] == ys[0]
    decreases |ys|
  {
    if |ys| == 0 || ys[0].totalSkills <= x.totalSkills then
      [x] + ys
    else
      var rest := Insert(x, ys[1..]);
      assert ys == [ys[0]] + ys[1..];
      assert SortedByTotal(ys) ==> SortedByTotal(ys[1..]) by {
        if SortedByTotal(ys) {
          forall i, j | 0 <= i < j < |ys[1..]| ensures ys[1..][i].totalSkills >= ys[1..][j].totalSkills {
            assert ys[1..][i] == ys[i + 1] && ys[1..][j] == ys[j + 1];
          }
        }
      }
      InsertHeadBound(ys[0], x, ys[1..], rest);
      [ys[0]] + rest
  }

  lemma InsertHeadBound(y: Summary, x: Summary, tl: seq<Summary>, rest: seq<Summary>)
    requires y.totalSkills > x.totalSkills
    requires SortedByTotal([y] + tl) ==> SortedByTotal(tl) && SortedByTotal(rest)
    requires |rest| == |tl| + 1 && multiset(rest) == multiset(tl) + multiset{x}
    ensures SortedByTotal([y] + tl) ==> SortedByTotal([y] + rest)
  {
    if SortedByTotal([y] + tl) {
      var ys := [y] + tl;
      forall e | e in rest ensures y.totalSkills >= e.totalSkills {
        assert e in multiset(rest);
        if e != x {
          assert e in multiset(tl);
          assert e in tl;
          var k :| 0 <= k < |tl| && tl[k] == e;
          assert ys[0] == y && ys[k + 1] == e;
          assert ys[0].totalSkills >= ys[k + 1].totalSkills;
        }
      }
      var zs := [y] + rest;
      forall i, j | 0 <= i < j < |zs| ensures zs[i].totalSkills >= zs[j].totalSkills {
        if i == 0 {
          assert zs[j] == rest[j - 1];
          assert rest[j - 1] in rest;
        } else {
          assert zs[i] == rest[i - 1] && zs[j] == rest[j - 1];
        }
      }
    }
  }

  /** `sort((a, b) => b.totalSkills - a.totalSkills)`: insertion from the back keeps equal totals in order. */
  function SortByTotal(xs: seq<Summary>): (r: seq<Summary>)
    ensures |r| == |xs|
    ensures multiset(r) == multiset(xs)
    ensures SortedByTotal(r)
    decreases |xs|
  {
    if |xs| == 0 then []
    else
      assert xs == [xs[0]] + xs[1..];
      Insert(xs[0], SortByTotal(xs[1..]))
  }

  /** Inserting `x` adds it in front of the entries with its total and leaves the other totals alone. */
  lemma {:induction false} InsertWithTotal(x: Summary, ys: seq<Summary>, t: nat)
    ensures WithTotal(Insert(x, ys), t) == (if x.totalSkills == t then [x] else []) + WithTotal(ys, t)
    decreases |ys|
  {
    if |ys| == 0 || ys[0].totalSkills <= x.totalSkills {
      assert Insert(x, ys) == [x] + ys;
      WithTotalCons(x, ys, t);
    } else {
      assert Insert(x, ys) == [ys[0]] + Insert(x, ys[1..]);
      InsertWithTotal(x, ys[1..], t);
      PassOver(x, ys[0], ys[1..], Insert(x, ys[1..]), t);
    }
  }

  /** Passing over a larger entry `y` keeps the entries with total `t` in order. */
  lemma PassOver(x: Summary, y: Summary, tl: seq<Summary>, rest: seq<Summary>, t: nat)
    requires WithTotal(rest, t) == (if x.totalSkills == t then [x] else []) + WithTotal(tl, t)
    requires y.totalSkills > x.totalSkills
    ensures WithTotal([y] + rest, t) == (if x.totalSkills == t then [x] else []) + WithTotal([y] + tl, t)
  {
    WithTotalCons(y, rest, t);
    WithTotalCons(y, tl, t);
  }

  lemma WithTotalCons(x: Summary, ys: seq<Summary>, t: nat)
    ensures WithTotal([x] + ys, t) == (if x.totalSkills == t then [x] else []) + WithTotal(ys, t)
  {
    assert ([x] + ys)[0] == x && ([x] + ys)[1..] == ys;
  }

  /** Stability: for every total, the entries with that total appear in their original order. */
  lemma {:induction false} SortIsStable(xs: seq<Summary>, t: nat)
    ensures WithTotal(SortByTotal(xs), t) == WithTotal(xs, t)
    decreases |xs|
  {
    if |xs| > 0 {
      SortIsStable(xs[1..], t);
      InsertWithTotal(xs[0], SortByTotal(xs[1..]), t);
    }
  }

  /** Summarise each user, then sort. */
  function ListUsers(users: seq<UserRecord>, parse: string -> Option<ParsedTree>): (r: seq<Summary>)
    ensures |r| == |users|
    ensures SortedByTotal(r)
    ensures multiset(r) == multiset(Summaries(users, parse))
  {
    SortByTotal(Summaries(users, parse))
  }

  function Summaries(users: seq<UserRecord>, parse: string -> Option<ParsedTree>): (r: seq<Summary>)
    ensures |r| == |users|
    ensures forall i | 0 <= i < |users| :: r[i] == Summarise(users[i], parse)
  {
    seq(|users|, i requires 0 <= i < |users| => Summarise(users[i], parse))
  }
}
