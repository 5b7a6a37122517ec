/**
 * The read side of the serverless API (src/functions/lib/repository.ts):
 * the stored submissions served in pages of fifty, and the category table.
 * The page number is an ECMAScript number, so NaN, the infinities,
 * fractions, zero and negative pages all follow the language's own
 * arithmetic and `slice` rules.
 */
module Repository {
  import opened JsNumber

  /** The number of submissions in a page. */
  const ChunkSize: nat := 50

  /** `meta` of a page: the page asked for, the first index and the index after the last. */
  datatype Meta = Meta(page: Number, start: Number, finish: Number)

  /** The body `getSubmissions` returns. */
  datatype Page<T> = Page(data: seq<T>, meta: Meta)

  /** The body `getCategories` returns. */
  datatype Categories<C> = Categories(data: C)

  /**
   * `getSubmissions(page)`: the slice from `(page - 1) * 50` to fifty
   * further on when that start is below the number of submissions, and
   * nothing otherwise.
   */
  function GetSubmissions<T>(stored: seq<T>, page: Number): Page<T> {
    var start := Mul(Sub(page, Finite(1.0)), Finite(ChunkSize as real));
    var finish := Add(start, Finite(ChunkSize as real));
    var data := if Less(start, Finite(|stored| as real)) then Slice(stored, start, finish) else [];
    Page(data, Meta(page, start, finish))
  }

  /** `getCategories()`: the category table (key to label) as stored. */
  function GetCategories<C>(categories: C): (r: Categories<C>)
    ensures r.data == categories
  {
    Categories(categories)
  }

  function Min(a: nat, b: nat): nat {
    if a < b then a else b
  }

  /**
   * The meta of every page: the page itself, `start = (page - 1) * 50` and
   * `finish = start + 50`, whether or not there is data.  A page that is
   * NaN or infinite has no data.
   */
  lemma PageMeta<T>(stored: seq<T>, page: Number)
    ensures GetSubmissions(stored, page).meta.page == page
    ensures page.Finite? ==>
      && GetSubmissions(stored, page).meta.start == Finite((page.v - 1.0) * 50.0)
      && GetSubmissions(stored, page).meta.finish == Finite((page.v - 1.0) * 50.0 + 50.0)
    ensures page.NaN? ==> GetSubmissions(stored, page).meta.start.NaN? && GetSubmissions(stored, page).data == []
    ensures page.PosInf? ==> GetSubmissions(stored, page).meta.start.PosInf? && GetSubmissions(stored, page).data == []
    ensures page.NegInf? ==> GetSubmissions(stored, page).meta.start.NegInf? && GetSubmissions(stored, page).data == []
  {
  }

  /**
   * A whole page number `n >= 1` serves the submissions from `(n - 1) * 50`
   * up to `n * 50`, clipped to the list, in stored order; past the end
   * it serves nothing.
   */
  lemma WholePage<T>(stored: seq<T>, n: int)
    requires n >= 1
    ensures GetSubmissions(stored, Finite(n as real)).data ==
      stored[Min((n - 1) * ChunkSize, |stored|)..Min(n * ChunkSize, |stored|)]
    ensures (n - 1) * ChunkSize >= |stored| ==> GetSubmissions(stored, Finite(n as real)).data == []
    ensures GetSubmissions(stored, Finite(n as real)).meta.start == Finite(((n - 1) * ChunkSize) as real)
  {
    var a: nat := (n - 1) * ChunkSize;
    var b: nat := n * ChunkSize;
    assert (n as real - 1.0) * 50.0 == a as real;
    assert a as real + 50.0 == b as real;
    if a < |stored| {
      SliceNat(stored, a, b);
    }
  }

  /** Whole pages `n` and `n + 1` are adjacent and do not overlap: together they are one stretch of the list. */
  lemma PagesAdjacent<T>(stored: seq<T>, n: int)
    requires n >= 1
    ensures GetSubmissions(stored, Finite(n as real)).data + GetSubmissions(stored, Finite((n + 1) as real)).data ==
      stored[Min((n - 1) * ChunkSize, |stored|)..Min((n + 1) * ChunkSize, |stored|)]
  {
    WholePage(stored, n);
    WholePage(stored, n + 1);
    var a, b, c := Min((n - 1) * ChunkSize, |stored|), Min(n * ChunkSize, |stored|), Min((n + 1) * ChunkSize, |stored|);
    assert stored[a..b] + stored[b..c] == stored[a..c];
  }

  /** The data of pages 1 to `k`, one after the other. */
  function FirstPages<T>(stored: seq<T>, k: nat): seq<T> {
    Concatenated(PageData(stored), k)
  }

  /** The data `getSubmissions` serves for each whole page number. */
  function PageData<T>(stored: seq<T>): nat -> seq<T> {
    n => GetSubmissions(stored, Finite(n as real)).data
  }

  /** `page(1) + ... + page(k)`. */
  function Concatenated<T>(page: nat -> seq<T>, k: nat): seq<T> {
    if k == 0 then [] else Concatenated(page, k - 1) + page(k)
  }

  /** Pages 1 to `k` together are the first `50 k` submissions. */
  lemma FirstPagesPrefix<T>(stored: seq<T>, k: nat)
    ensures FirstPages(stored, k) == stored[..Min(k * ChunkSize, |stored|)]
  {
    var page := PageData(stored);
    forall n: nat | 1 <= n <= k
      ensures page(n) == stored[Min((n - 1) * ChunkSize, |stored|)..Min(n * ChunkSize, |stored|)]
    {
      WholePage(stored, n);
    }
    ConcatenatedChunks(page, stored, k);
  }

  /** Pages that are consecutive runs of fifty, concatenated, are a prefix of the list. */
  lemma {:induction false} ConcatenatedChunks<T>(page: nat -> seq<T>, stored: seq<T>, k: nat)
    requires forall n: nat :: 1 <= n <= k ==>
      page(n) == stored[Min((n - 1) * ChunkSize, |stored|)..Min(n * ChunkSize, |stored|)]
    ensures Concatenated(page, k) == stored[..Min(k * ChunkSize, |stored|)]
  {
    if k > 0 {
      ConcatenatedChunks(page, stored, k - 1);
      var a, b := Min((k - 1) * ChunkSize, |stored|), Min(k * ChunkSize, |stored|);
      assert stored[..a] + stored[a..b] == stored[..b];
    }
  }

  /** Reading pages 1, 2, ... up to the last one that has data yields every submission exactly once, in order. */
  lemma PagesCoverAll<T>(stored: seq<T>)
    ensures FirstPages(stored, (|stored| + ChunkSize - 1) / ChunkSize) == stored
  {
    var k := (|stored| + ChunkSize - 1) / ChunkSize;
    FirstPagesPrefix(stored, k);
    assert k * ChunkSize >= |stored|;
  }

  /** No page, whatever the number, serves more than fifty submissions. */
  lemma AtMostOneChunk<T>(stored: seq<T>, page: Number)
    ensures |GetSubmissions(stored, page).data| <= ChunkSize
  {
    var start := Mul(Sub(page, Finite(1.0)), Finite(ChunkSize as real));
    if start.Finite? && Less(start, Finite(|stored| as real)) {
      var x := start.v;
      var from := SliceIndex(start, |stored|);
      var to := SliceIndex(Finite(x + 50.0), |stored|);
      assert Add(start, Finite(ChunkSize as real)) == Finite(x + 50.0);
      SliceIndexSpan(x, |stored|);
    }
  }

  /** The `slice` bounds `x` and `x + 50` are never more than fifty apart. */
  lemma SliceIndexSpan(x: real, len: nat)
    ensures SliceIndex(Finite(x + 50.0), len) - SliceIndex(Finite(x), len) <= 50
  {
    var i, j := Truncate(x), Truncate(x + 50.0);
    assert j - i <= 50;
  }

  /** Page 0 serves nothing, although its meta starts at -50. */
  lemma PageZero<T>(stored: seq<T>)
    ensures GetSubmissions(stored, Finite(0.0)).data == []
    ensures GetSubmissions(stored, Finite(0.0)).meta.start == Finite(-50.0)
  {
    var start := Mul(Sub(Finite(0.0), Finite(1.0)), Finite(ChunkSize as real));
    assert start == Finite(-50.0);
    assert Add(start, Finite(ChunkSize as real)) == Finite(0.0);
    assert SliceIndex(Finite(0.0), |stored|) == 0 by {
      assert Truncate(0.0) == 0;
    }
  }

  /**
   * A negative whole page `-n` counts from the end of the list: it serves
   * the fifty submissions ending `50 n` before the end, clipped at the
   * front of the list.
   */
  lemma NegativePage<T>(stored: seq<T>, n: int)
    requires n >= 1
    ensures var len := |stored|;
      GetSubmissions(stored, Finite(-n as real)).data ==
        stored[if len - (n + 1) * ChunkSize < 0 then 0 else len - (n + 1) * ChunkSize
               .. if len - n * ChunkSize < 0 then 0 else len - n * ChunkSize]
  {
    var a := -(n + 1) * ChunkSize;
    var b := -n * ChunkSize;
    assert (-n as real - 1.0) * 50.0 == a as real;
    assert a as real + 50.0 == b as real;
    assert Truncate(a as real) == a;
    assert Truncate(b as real) == b;
  }
}
