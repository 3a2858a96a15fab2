/**
  First-occurrence-wins deduplication by a key, the sweep every route of the
  system runs over node lists (keyed by id), connection lists (keyed by the
  (from, to) pair) and plain id lists (keyed by the id itself).

  `Dedup` is the functional definition, built by extending the input one
  element at a time exactly as the source's `for ... of` loop does;
  `DedupLoop` is that loop, with its `Set` of seen keys.
*/
module Dedup {

  /** The keys of the elements of `xs`. */
  function KeySet<T, K(==)>(xs: seq<T>, key: T -> K): set<K>
  {
    set i | 0 <= i < |xs| :: key(xs[i])
  }

  /** No two elements of `xs` share a key. */
  predicate Distinct<T, K(==)>(xs: seq<T>, key: T -> K)
  {
    forall i, j | 0 <= i < j < |xs| :: key(xs[i]) != key(xs[j])
  }

  /** `xs[i]` is the first element of `xs` carrying its key. */
  predicate IsFirst<T, K(==)>(xs: seq<T>, key: T -> K, i: int)
    requires 0 <= i < |xs|
  {
    forall j | 0 <= j < i :: key(xs[j]) != key(xs[i])
  }

  /** `a` is `b` with some elements left out, the rest in their original order. */
  predicate SubseqOf<T(==)>(a: seq<T>, b: seq<T>)
    decreases |b|
  {
    if |a| == 0 then true
    else if |b| == 0 then false
    else (a[|a| - 1] == b[|b| - 1] && SubseqOf(a[..|a| - 1], b[..|b| - 1]))
         || SubseqOf(a, b[..|b| - 1])
  }

  /** Keep each element whose key has not been seen earlier in `xs`. */
  function Dedup<T, K(==)>(xs: seq<T>, key: T -> K): seq<T>
    decreases |xs|
  {
    if |xs| == 0 then []
    else
      var init := xs[..|xs| - 1];
      var last := xs[|xs| - 1];
      if key(last) in KeySet(init, key) then Dedup(init, key)
      else Dedup(init, key) + [last]
  }

  /**
    The positions of the first occurrences of each key, in increasing order:
    an index-level description of the sweep, independent of `Dedup`.
  */
  function FirstIndices<T, K(==)>(xs: seq<T>, key: T -> K): (idx: seq<nat>)
    ensures forall i | 0 <= i < |idx| :: idx[i] < |xs| && IsFirst(xs, key, idx[i])
    ensures forall i | 0 <= i < |xs| && IsFirst(xs, key, i) :: i in idx
    ensures forall i, j | 0 <= i < j < |idx| :: idx[i] < idx[j]
    decreases |xs|
  {
    if |xs| == 0 then []
    else
      var init := xs[..|xs| - 1];
      var rest := FirstIndices(init, key);
      FirstInPrefix(xs, key);
      if key(xs[|xs| - 1]) in KeySet(init, key) then rest else rest + [|xs| - 1]
  }

  /**
    `r` is `f` applied to the first element of each key of `xs`, in the order
    those first elements appear.
  */
  predicate MappedSweep<T, K(==), U(==)>(r: seq<U>, xs: seq<T>, key: T -> K, f: T -> U)
  {
    var idx := FirstIndices(xs, key);
    |r| == |idx| && forall i | 0 <= i < |r| :: r[i] == f(xs[idx[i]])
  }

  /** `r` is the first element of each key of `xs`, in the order they appear. */
  predicate Swept<T(==), K(==)>(r: seq<T>, xs: seq<T>, key: T -> K)
  {
    var idx := FirstIndices(xs, key);
    |r| == |idx| && forall i | 0 <= i < |r| :: r[i] == xs[idx[i]]
  }

  /** Dropping the last element leaves every earlier first occurrence first; the last is first iff its key is new. */
  lemma FirstInPrefix<T, K>(xs: seq<T>, key: T -> K)
    requires |xs| > 0
    ensures forall i | 0 <= i < |xs| - 1 :: IsFirst(xs, key, i) <==> IsFirst(xs[..|xs| - 1], key, i)
    ensures IsFirst(xs, key, |xs| - 1) <==> key(xs[|xs| - 1]) !in KeySet(xs[..|xs| - 1], key)
  {
    var init := xs[..|xs| - 1];
    assert forall j | 0 <= j < |init| :: init[j] == xs[j];
    if key(xs[|xs| - 1]) in KeySet(init, key) {
      var j :| 0 <= j < |init| && key(init[j]) == key(xs[|xs| - 1]);
      assert key(xs[j]) == key(xs[|xs| - 1]);
    }
  }

  /**
    Three facts pin the first-occurrence positions down: any increasing list
    of first positions that misses none of them is `FirstIndices`.
  */
  lemma FirstIndicesUnique<T, K>(xs: seq<T>, key: T -> K, idx: seq<nat>)
    requires forall i | 0 <= i < |idx| :: idx[i] < |xs| && IsFirst(xs, key, idx[i])
    requires forall i | 0 <= i < |xs| && IsFirst(xs, key, i) :: i in idx
    requires Increasing(idx)
    ensures idx == FirstIndices(xs, key)
  {
    var fi := FirstIndices(xs, key);
    forall x ensures x in idx <==> x in fi {
      if x in idx {
        var i :| 0 <= i < |idx| && idx[i] == x;
      }
      if x in fi {
        var i :| 0 <= i < |fi| && fi[i] == x;
      }
    }
    IncreasingBySet(idx, fi);
  }

  /** Two strictly increasing lists with the same elements are equal. */
  lemma {:induction false} IncreasingBySet(a: seq<nat>, b: seq<nat>)
    requires Increasing(a) && Increasing(b)
    requires forall x :: x in a <==> x in b
    ensures a == b
    decreases |a|
  {
    assert |b| == 0 || b[0] in a;
    if |a| > 0 {
      assert a[|a| - 1] in b;
      DropLast(a);
      DropLast(b);
      var a', b' := a[..|a| - 1], b[..|b| - 1];
      assert a[|a| - 1] == b[|b| - 1] by {
        assert b[|b| - 1] in a;
      }
      forall x ensures x in a' <==> x in b' {
        assert x in a <==> x in b;
      }
      IncreasingBySet(a', b');
      assert a == a' + [a[|a| - 1]] && b == b' + [b[|b| - 1]];
    }
  }

  predicate Increasing(a: seq<nat>)
  {
    forall i, j | 0 <= i < j < |a| :: a[i] < a[j]
  }

  /** In an increasing list the last element is the largest, and the others are the rest. */
  lemma DropLast(a: seq<nat>)
    requires Increasing(a) && |a| > 0
    ensures a[|a| - 1] in a
    ensures forall x | x in a :: x <= a[|a| - 1]
    ensures forall x :: x in a[..|a| - 1] <==> x in a && x != a[|a| - 1]
    ensures Increasing(a[..|a| - 1])
  {
    forall x | x in a ensures x <= a[|a| - 1] {
      var k :| 0 <= k < |a| && a[k] == x;
    }
    forall x ensures x in a[..|a| - 1] <==> x in a && x != a[|a| - 1] {
      if x in a && x != a[|a| - 1] {
        var k :| 0 <= k < |a| && a[k] == x;
        assert a[..|a| - 1][k] == x;
      }
      if x in a[..|a| - 1] {
        var k :| 0 <= k < |a| - 1 && a[..|a| - 1][k] == x;
        assert a[k] < a[|a| - 1];
      }
    }
  }

  lemma KeySetSnoc<T, K>(xs: seq<T>, x: T, key: T -> K)
    ensures KeySet(xs + [x], key) == KeySet(xs, key) + {key(x)}
  {
    var ys := xs + [x];
    forall k | k in KeySet(ys, key)
      ensures k in KeySet(xs, key) + {key(x)}
    {
      var i :| 0 <= i < |ys| && key(ys[i]) == k;
      if i < |xs| {
        assert ys[i] == xs[i];
      }
    }
    forall k | k in KeySet(xs, key) + {key(x)}
      ensures k in KeySet(ys, key)
    {
      if k == key(x) {
        assert ys[|xs|] == x;
      } else {
        var i :| 0 <= i < |xs| && key(xs[i]) == k;
        assert ys[i] == xs[i];
      }
    }
  }

  /** Distinct keys: no element of `xs` has a key seen in `xs` earlier. */
  lemma {:induction false} DedupDistinct<T, K>(xs: seq<T>, key: T -> K)
    ensures Distinct(Dedup(xs, key), key)
    ensures KeySet(Dedup(xs, key), key) == KeySet(xs, key)
    decreases |xs|
  {
    if |xs| > 0 {
      var init := xs[..|xs| - 1];
      var last := xs[|xs| - 1];
      assert xs == init + [last];
      DedupDistinct(init, key);
      KeySetSnoc(init, last, key);
      var d := Dedup(init, key);
      if key(last) !in KeySet(init, key) {
        KeySetSnoc(d, last, key);
        forall i, j | 0 <= i < j < |d + [last]|
          ensures key((d + [last])[i]) != key((d + [last])[j])
        {
          if j == |d| {
            assert (d + [last])[i] == d[i];
            assert key(d[i]) in KeySet(d, key);
          } else {
            assert (d + [last])[i] == d[i] && (d + [last])[j] == d[j];
          }
        }
      }
    }
  }

  /** The survivors keep their relative order: the output is a subsequence of the input. */
  lemma {:induction false} DedupSubseq<T, K>(xs: seq<T>, key: T -> K)
    ensures SubseqOf(Dedup(xs, key), xs)
    decreases |xs|
  {
    if |xs| > 0 {
      var init := xs[..|xs| - 1];
      var last := xs[|xs| - 1];
      var d := Dedup(init, key);
      DedupSubseq(init, key);
      if key(last) !in KeySet(init, key) {
        var r := d + [last];
        assert r[..|r| - 1] == d;
      } else {
        SubseqDropLast(d, xs);
      }
    }
  }

  lemma SubseqDropLast<T>(a: seq<T>, b: seq<T>)
    requires |b| > 0 && SubseqOf(a, b[..|b| - 1])
    ensures SubseqOf(a, b)
  {
  }

  /** Every first occurrence survives the sweep. */
  lemma DedupKeepsFirst<T, K>(xs: seq<T>, key: T -> K)
    ensures forall i | 0 <= i < |xs| && IsFirst(xs, key, i) :: xs[i] in Dedup(xs, key)
  {
    DedupSwept(xs, key);
    var d, idx := Dedup(xs, key), FirstIndices(xs, key);
    forall i | 0 <= i < |xs| && IsFirst(xs, key, i)
      ensures xs[i] in d
    {
      var k :| 0 <= k < |idx| && idx[k] == i;
      assert d[k] == xs[i];
    }
  }

  /** The sweep keeps exactly the first occurrences, in the order they appear. */
  lemma {:induction false} DedupSwept<T, K>(xs: seq<T>, key: T -> K)
    ensures Swept(Dedup(xs, key), xs, key)
    decreases |xs|
  {
    if |xs| > 0 {
      var init := xs[..|xs| - 1];
      DedupSwept(init, key);
      var d, rest := Dedup(init, key), FirstIndices(init, key);
      assert forall i | 0 <= i < |d| :: d[i] == init[rest[i]] == xs[rest[i]];
    }
  }

  /** A sweep only removes elements whose key occurs earlier: on input with distinct keys it is the identity. */
  lemma {:induction false} DedupOfDistinct<T, K>(xs: seq<T>, key: T -> K)
    requires Distinct(xs, key)
    ensures Dedup(xs, key) == xs
    decreases |xs|
  {
    if |xs| > 0 {
      var init := xs[..|xs| - 1];
      var last := xs[|xs| - 1];
      assert Distinct(init, key) by {
        forall i, j | 0 <= i < j < |init| ensures key(init[i]) != key(init[j]) {
          assert init[i] == xs[i] && init[j] == xs[j];
        }
      }
      DedupOfDistinct(init, key);
      assert key(last) !in KeySet(init, key) by {
        forall j | 0 <= j < |init| ensures key(init[j]) != key(last) {
          assert init[j] == xs[j];
        }
      }
      assert xs == init + [last];
    }
  }

  /** Sweeping twice removes nothing more than sweeping once. */
  lemma DedupIdempotent<T, K>(xs: seq<T>, key: T -> K)
    ensures Dedup(Dedup(xs, key), key) == Dedup(xs, key)
  {
    DedupDistinct(xs, key);
    DedupOfDistinct(Dedup(xs, key), key);
  }

  lemma {:induction false} DistinctCard<T, K>(xs: seq<T>, key: T -> K)
    requires Distinct(xs, key)
    ensures |KeySet(xs, key)| == |xs|
    decreases |xs|
  {
    if |xs| > 0 {
      var init := xs[..|xs| - 1];
      var last := xs[|xs| - 1];
      assert xs == init + [last];
      assert Distinct(init, key) by {
        forall i, j | 0 <= i < j < |init| ensures key(init[i]) != key(init[j]) {
          assert init[i] == xs[i] && init[j] == xs[j];
        }
      }
      DistinctCard(init, key);
      KeySetSnoc(init, last, key);
      assert key(last) !in KeySet(init, key) by {
        forall j | 0 <= j < |init| ensures key(init[j]) != key(last) {
          assert init[j] == xs[j];
        }
      }
    }
  }

  /** One survivor per distinct key: the sweep removes exactly |xs| - |keys| elements. */
  lemma DedupLength<T, K>(xs: seq<T>, key: T -> K)
    ensures |Dedup(xs, key)| == |KeySet(xs, key)| <= |xs|
  {
    DedupDistinct(xs, key);
    DistinctCard(Dedup(xs, key), key);
    DedupNoLonger(xs, key);
  }

  lemma {:induction false} DedupNoLonger<T, K>(xs: seq<T>, key: T -> K)
    ensures |Dedup(xs, key)| <= |xs|
    decreases |xs|
  {
    if |xs| > 0 {
      DedupNoLonger(xs[..|xs| - 1], key);
    }
  }

  /**
    The source's sweep: walk the list once, remember each key in a set, push
    an element the first time its key is seen and count the others.
  */
  method DedupLoop<T, K(==)>(xs: seq<T>, key: T -> K) returns (kept: seq<T>, removed: nat)
    ensures kept == Dedup(xs, key)
    ensures removed + |kept| == |xs|
  {
    var seen: set<K> := {};
    kept := [];
    removed := 0;
    for i := 0 to |xs|
      invariant kept == Dedup(xs[..i], key)
      invariant seen == KeySet(xs[..i], key)
      invariant removed + |kept| == i
    {
      assert xs[..i + 1][..i] == xs[..i];
      KeySetSnoc(xs[..i], xs[i], key);
      assert xs[..i + 1] == xs[..i] + [xs[i]];
      if key(xs[i]) !in seen {
        seen := seen + {key(xs[i])};
        kept := kept + [xs[i]];
      } else {
        removed := removed + 1;
      }
    }
    assert xs[..|xs|] == xs;
  }
}
