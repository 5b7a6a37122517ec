/**
 * The two list operations the conversion tool builds its lists with:
 * `Array.prototype.filter` and `Array.from(new Set(xs))`, which keeps the
 * first occurrence of every element in insertion order.
 */
module Seqs {

  predicate NoDuplicates<T(==)>(s: seq<T>) {
    forall i, j :: 0 <= i < j < |s| ==> s[i] != s[j]
  }

  /** `s.filter(p)`: the elements satisfying `p`, in their order. */
  function Filter<T>(s: seq<T>, p: T -> bool): (r: seq<T>)
    ensures |r| <= |s|
    ensures forall i :: 0 <= i < |r| ==> p(r[i])
  {
    if |s| == 0 then []
    else Filter(s[..|s| - 1], p) + (if p(s[|s| - 1]) then [s[|s| - 1]] else [])
  }

  /** `Array.from(new Set(s))`: every element once, at the place of its first occurrence. */
  function Dedup<T(==)>(s: seq<T>): (r: seq<T>)
    ensures |r| <= |s|
  {
    if |s| == 0 then []
    else
      var d := Dedup(s[..|s| - 1]);
      if s[|s| - 1] in d then d else d + [s[|s| - 1]]
  }

  lemma {:induction false} FilterMembership<T>(s: seq<T>, p: T -> bool, x: T)
    ensures x in Filter(s, p) <==> x in s && p(x)
    decreases |s|
  {
    if |s| > 0 {
      var init := s[..|s| - 1];
      FilterMembership(init, p, x);
      assert s == init + [s[|s| - 1]];
    }
  }

  /** Filtering distributes over concatenation, so it keeps the relative order of what it keeps. */
  lemma {:induction false} FilterConcat<T>(a: seq<T>, b: seq<T>, p: T -> bool)
    ensures Filter(a + b, p) == Filter(a, p) + Filter(b, p)
    decreases |b|
  {
    if |b| > 0 {
      var init := b[..|b| - 1];
      assert (a + b)[..|a + b| - 1] == a + init;
      FilterConcat(a, init, p);
    } else {
      assert a + b == a;
    }
  }

  /** Filtering twice by the same test is filtering once. */
  lemma {:induction false} FilterIdempotent<T>(s: seq<T>, p: T -> bool)
    ensures Filter(Filter(s, p), p) == Filter(s, p)
    decreases |s|
  {
    if |s| > 0 {
      var init := s[..|s| - 1];
      var last := s[|s| - 1];
      FilterIdempotent(init, p);
      FilterConcat(Filter(init, p), if p(last) then [last] else [], p);
      if p(last) {
        assert Filter([last], p) == Filter([], p) + [last];
      }
    }
  }

  /** A filter keeps every element exactly when every element passes. */
  lemma {:induction false} FilterAll<T>(s: seq<T>, p: T -> bool)
    ensures Filter(s, p) == s <==> forall i :: 0 <= i < |s| ==> p(s[i])
    decreases |s|
  {
    if |s| > 0 {
      var init := s[..|s| - 1];
      FilterAll(init, p);
      if !p(s[|s| - 1]) {
        assert |Filter(s, p)| < |s|;
      } else if Filter(s, p) == s {
        assert Filter(init, p) == Filter(s, p)[..|s| - 1];
      }
    }
  }

  /** A filter of a list without duplicates has none. */
  lemma {:induction false} FilterNoDuplicates<T>(s: seq<T>, p: T -> bool)
    requires NoDuplicates(s)
    ensures NoDuplicates(Filter(s, p))
    decreases |s|
  {
    if |s| > 0 {
      var init := s[..|s| - 1];
      var last := s[|s| - 1];
      FilterNoDuplicates(init, p);
      FilterMembership(init, p, last);
    }
  }

  lemma {:induction false} DedupMembership<T>(s: seq<T>, x: T)
    ensures x in Dedup(s) <==> x in s
    decreases |s|
  {
    if |s| > 0 {
      var init := s[..|s| - 1];
      DedupMembership(init, x);
      assert s == init + [s[|s| - 1]];
    }
  }

  lemma {:induction false} DedupNoDuplicates<T>(s: seq<T>)
    ensures NoDuplicates(Dedup(s))
    decreases |s|
  {
    if |s| > 0 {
      DedupNoDuplicates(s[..|s| - 1]);
    }
  }

  /** Appending to a list never reorders what was already kept: the old result is a prefix of the new one. */
  lemma {:induction false} DedupPrefix<T>(a: seq<T>, b: seq<T>)
    ensures |Dedup(a)| <= |Dedup(a + b)|
    ensures Dedup(a + b)[..|Dedup(a)|] == Dedup(a)
    decreases |b|
  {
    if |b| == 0 {
      assert a + b == a;
    } else {
      var init := b[..|b| - 1];
      assert (a + b)[..|a + b| - 1] == a + init;
      DedupPrefix(a, init);
    }
  }

  /**
   * Deduplicating a concatenation keeps the deduplicated front, then the
   * first occurrences of the back that the front does not hold, in order.
   */
  lemma {:induction false} DedupConcat<T>(a: seq<T>, b: seq<T>)
    ensures Dedup(a + b) == Dedup(a) + Filter(Dedup(b), x => x !in a)
    decreases |b|
  {
    if |b| == 0 {
      assert a + b == a;
    } else {
      var init, y := b[..|b| - 1], b[|b| - 1];
      assert (a + b)[..|a + b| - 1] == a + init;
      DedupConcat(a, init);
      var e := Dedup(init);
      DedupMembership(a + init, y);
      DedupMembership(init, y);
      if y !in e {
        assert (e + [y])[..|e|] == e;
      }
    }
  }

  /** A list without duplicates is its own deduplication. */
  lemma {:induction false} DedupOfDistinct<T>(s: seq<T>)
    requires NoDuplicates(s)
    ensures Dedup(s) == s
    decreases |s|
  {
    if |s| > 0 {
      var init := s[..|s| - 1];
      DedupOfDistinct(init);
    }
  }

  /** The index of the first occurrence of `x` in `s`. */
  function IndexIn<T(==)>(s: seq<T>, x: T): (r: nat)
    requires x in s
    ensures r < |s| && s[r] == x
    ensures forall k :: 0 <= k < r ==> s[k] != x
  {
    if s[0] == x then 0 else 1 + IndexIn(s[1..], x)
  }

  /** What a filter keeps from a list without duplicates comes in the list's order. */
  lemma {:induction false} FilterOrder<T>(s: seq<T>, p: T -> bool)
    requires NoDuplicates(s)
    ensures forall x :: x in Filter(s, p) ==> x in s
    ensures forall i, j :: 0 <= i < j < |Filter(s, p)| ==> IndexIn(s, Filter(s, p)[i]) < IndexIn(s, Filter(s, p)[j])
    decreases |s|
  {
    forall x ensures x in Filter(s, p) ==> x in s {
      FilterMembership(s, p, x);
    }
    if |s| > 0 {
      var init := s[..|s| - 1];
      var last := s[|s| - 1];
      var f := Filter(init, p);
      FilterOrder(init, p);
      forall x | x in init ensures IndexIn(s, x) == IndexIn(init, x) && IndexIn(s, x) < |s| - 1 {
        IndexPrefix(init, [last], x);
      }
      assert IndexIn(s, last) == |s| - 1 by {
        assert last !in init;
      }
      FilterMembership(init, p, last);
    }
  }

  /** An element of `a` has the same first index in `a + b`. */
  lemma IndexPrefix<T>(a: seq<T>, b: seq<T>, x: T)
    requires x in a
    ensures x in a + b && IndexIn(a + b, x) == IndexIn(a, x)
  {
    var i := IndexIn(a, x);
    var j := IndexIn(a + b, x);
    assert (a + b)[i] == x;
  }
}
