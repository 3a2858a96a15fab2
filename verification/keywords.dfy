/**
  The keyword scan both resume analysers share: walk a table of
  (keyword, skill id) entries in order and collect the id of every entry
  whose keyword occurs in the lower-cased text, skipping ids already
  collected. Also the three-part result both return.
*/
module Keywords {
  import Text
  import Dedup

  /** One row of a keyword table: a keyword to look for and the skill id it stands for. */
  datatype Entry = Entry(keyword: string, id: string)

  /** The `{ earnedSkills, availableSkills, skillPoints }` result of an analysis. */
  datatype SkillLists = SkillLists(earnedSkills: seq<string>, availableSkills: seq<string>, skillPoints: nat)

  function Ident(s: string): string { s }

  /** No id occurs twice. */
  predicate NoDuplicates(xs: seq<string>)
  {
    forall i, j | 0 <= i < j < |xs| :: xs[i] != xs[j]
  }

  /** `earned.length * 10 + available.length * 5`. */
  function Points(earned: seq<string>, available: seq<string>): nat
  {
    |earned| * 10 + |available| * 5
  }

  /**
    The `forEach` over the table, `text` already lower-cased: an entry's id
    is pushed when its keyword occurs in the text and the id is not yet in
    the list.
  */
  function Scan(text: string, table: seq<Entry>): seq<string>
    decreases |table|
  {
    if |table| == 0 then []
    else
      var found := Scan(text, table[..|table| - 1]);
      var e := table[|table| - 1];
      if Text.IsSubstring(e.keyword, text) && e.id !in found then found + [e.id] else found
  }

  /** The ids of the matching entries, in table order, repeats included. */
  function MatchedIds(text: string, table: seq<Entry>): (r: seq<string>)
    ensures forall id :: id in r <==> exists e | e in table :: e.id == id && Text.IsSubstring(e.keyword, text)
    decreases |table|
  {
    if |table| == 0 then []
    else
      var rest := MatchedIds(text, table[..|table| - 1]);
      var e := table[|table| - 1];
      assert table == table[..|table| - 1] + [e];
      if Text.IsSubstring(e.keyword, text) then rest + [e.id] else rest
  }

  /**
    The scan with its `includes` check is the first-occurrence sweep of the
    matching ids: it keeps table order and drops repeats of an id.
  */
  lemma {:induction false} ScanIsDedup(text: string, table: seq<Entry>)
    ensures Scan(text, table) == Dedup.Dedup(MatchedIds(text, table), Ident)
    decreases |table|
  {
    if |table| > 0 {
      var init := table[..|table| - 1];
      var e := table[|table| - 1];
      ScanIsDedup(text, init);
      if Text.IsSubstring(e.keyword, text) {
        SweepStep(Scan(text, init), MatchedIds(text, init), e.id);
      }
    }
  }

  /** One more matching id: the sweep keeps it exactly when the ids so far do not hold it. */
  lemma SweepStep(found: seq<string>, m: seq<string>, id: string)
    requires found == Dedup.Dedup(m, Ident)
    ensures Dedup.Dedup(m + [id], Ident) == if id in found then found else found + [id]
  {
    Dedup.DedupDistinct(m, Ident);
    IdentKeySet(found);
    IdentKeySet(m);
    var ms := m + [id];
    assert ms[..|ms| - 1] == m && ms[|ms| - 1] == id;
  }

  /** Keyed by the id itself, the key set is the set of elements. */
  lemma IdentKeySet(xs: seq<string>)
    ensures forall x :: x in Dedup.KeySet(xs, Ident) <==> x in xs
  {
    forall x | x in xs ensures x in Dedup.KeySet(xs, Ident) {
      var i :| 0 <= i < |xs| && xs[i] == x;
      assert Ident(xs[i]) in Dedup.KeySet(xs, Ident);
    }
  }

  /**
    An id is collected iff some entry for it has its keyword in the text;
    no id is collected twice.
  */
  lemma ScanSpec(text: string, table: seq<Entry>)
    ensures forall id :: id in Scan(text, table) <==>
              exists e | e in table :: e.id == id && Text.IsSubstring(e.keyword, text)
    ensures NoDuplicates(Scan(text, table))
    ensures |Scan(text, table)| <= |table|
  {
    var m := MatchedIds(text, table);
    ScanIsDedup(text, table);
    Dedup.DedupDistinct(m, Ident);
    Dedup.DedupNoLonger(m, Ident);
    MatchedNoLonger(text, table);
    var s := Scan(text, table);
    forall id ensures id in s <==> id in m {
      if id in s {
        var i :| 0 <= i < |s| && s[i] == id;
        assert Ident(s[i]) in Dedup.KeySet(s, Ident);
      }
      if id in m {
        var i :| 0 <= i < |m| && m[i] == id;
        assert Ident(m[i]) in Dedup.KeySet(m, Ident);
      }
    }
  }

  lemma {:induction false} MatchedNoLonger(text: string, table: seq<Entry>)
    ensures |MatchedIds(text, table)| <= |table|
    decreases |table|
  {
    if |table| > 0 {
      MatchedNoLonger(text, table[..|table| - 1]);
    }
  }
}
