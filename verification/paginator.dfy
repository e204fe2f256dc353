/**
 `get_articles_from_page` and the part of Django's `Paginator` it relies on, with the
 default settings (no orphans, an empty first page allowed):

 - the page count is `ceil(max(1, count) / per_page)`, so an empty list still has one page
   and a page size of 0 divides by zero;
 - `get_page(number)` serves the last page for a number below 1, and `page(number)`
   raises when that last page is itself below 1 (a negative page size);
 - page `k` holds the items `(k - 1) * per_page` up to `k * per_page`, cut at the end.

 Python's float division in the page count is taken as exact.
 */
module Paginator {
  import opened Basics

  /** The exceptions pagination can raise; the article views turn either into a server error. */
  datatype Fault = DivisionByZero | EmptyPage

  /** `ceil(a / b)` for a positive `a`. */
  function CeilDiv(a: nat, b: int): (r: int)
    requires a >= 1 && b != 0
    ensures b > 0 ==> r >= 1 && (r - 1) * b < a <= r * b
    ensures b < 0 ==> r <= 0 && r * b <= a < (r - 1) * b
  {
    if b > 0 then (a + b - 1) / b else -(a / (-b))
  }

  /** `Paginator(items, size).num_pages` for a list of `count` items. */
  function NumPages(count: nat, size: int): (r: int)
    requires size != 0
    ensures size > 0 ==> r >= 1 && (r - 1) * size <= count <= r * size
    ensures size > 0 && count > 0 ==> (r - 1) * size < count
    ensures size < 0 ==> r <= 0
  {
    CeilDiv(if count == 0 then 1 else count, size)
  }

  /** Page `k` of `xs`: the `size` items starting at `(k - 1) * size`, fewer at the end. */
  function Slice<T>(xs: seq<T>, k: int, size: int): (r: seq<T>)
    requires size > 0 && 1 <= k <= NumPages(|xs|, size)
    ensures |r| <= size
    ensures |r| > 0 <==> |xs| > 0
    ensures k < NumPages(|xs|, size) ==> |r| == size
  {
    PageBounds(|xs|, k, size);
    xs[(k - 1) * size .. Min(k * size, |xs|)]
  }

  /** Where page `k` starts and ends, relative to the list's length. */
  lemma PageBounds(count: nat, k: int, size: int)
    requires size > 0 && 1 <= k <= NumPages(count, size)
    ensures 0 <= (k - 1) * size <= count && k * size == (k - 1) * size + size
    ensures count > 0 ==> (k - 1) * size < count
    ensures k < NumPages(count, size) ==> k * size <= count
  {
    var n := NumPages(count, size);
    MulMonotone(k - 1, n - 1, size);
    MulMonotone(0, k - 1, size);
    if k < n {
      MulMonotone(k, n - 1, size);
    }
  }

  lemma MulMonotone(a: int, b: int, c: nat)
    requires a <= b
    ensures a * c <= b * c
  {
    assert b * c - a * c == (b - a) * c;
  }

  /**
   `get_articles_from_page(xs, page, size)`: nothing past the last page, otherwise
   `paginator.get_page(page).object_list`.
   */
  function FromPage<T>(xs: seq<T>, page: int, size: int): (r: Result<seq<T>, Fault>)
    ensures r == Err(DivisionByZero) <==> size == 0
    ensures r == Err(EmptyPage) <==> size < 0 && page <= NumPages(|xs|, size)
    ensures size != 0 && page > NumPages(|xs|, size) ==> r == Ok([])
    ensures size > 0 && 1 <= page <= NumPages(|xs|, size) ==> r == Ok(Slice(xs, page, size))
    ensures size > 0 && page < 1 ==> r == Ok(Slice(xs, NumPages(|xs|, size), size))
  {
    if size == 0 then Err(DivisionByZero)
    else
      var n := NumPages(|xs|, size);
      if page > n then Ok([])
      else
        var number := if page < 1 then n else page;
        if number < 1 then Err(EmptyPage)
        else Ok(Slice(xs, number, size))
  }

  /** A page holds items of the list and nothing else, each at most as often as the list does. */
  lemma FromPageWithin<T>(xs: seq<T>, page: int, size: int)
    requires FromPage(xs, page, size).Ok?
    ensures multiset(FromPage(xs, page, size).value) <= multiset(xs)
  {
    var n := NumPages(|xs|, size);
    if page <= n {
      var k := if page < 1 then n else page;
      PageBounds(|xs|, k, size);
      var lo, hi := (k - 1) * size, Min(k * size, |xs|);
      assert xs == xs[..lo] + xs[lo..hi] + xs[hi..];
    }
  }

  /** Pages 1 to `k` one after another. */
  function Pages<T>(xs: seq<T>, size: int, k: nat): seq<T>
    requires size > 0 && k <= NumPages(|xs|, size)
  {
    if k == 0 then [] else Pages(xs, size, k - 1) + Slice(xs, k, size)
  }

  /** The first `k` pages are the list up to item `k * size`. */
  lemma {:induction false} PagesArePrefix<T>(xs: seq<T>, size: int, k: nat)
    requires size > 0 && k <= NumPages(|xs|, size)
    ensures Pages(xs, size, k) == xs[..Min(k * size, |xs|)]
  {
    if k > 0 {
      PagesArePrefix(xs, size, k - 1);
      PageBounds(|xs|, k, size);
      assert Min((k - 1) * size, |xs|) == (k - 1) * size;
      assert xs[..(k - 1) * size] + xs[(k - 1) * size .. Min(k * size, |xs|)] == xs[..Min(k * size, |xs|)];
    }
  }

  /**
   The pages partition the list: read in order, pages 1 to `num_pages` give back every
   item exactly once and in place.
   */
  lemma PagesPartition<T>(xs: seq<T>, size: int)
    requires size > 0
    ensures Pages(xs, size, NumPages(|xs|, size)) == xs
  {
    PagesArePrefix(xs, size, NumPages(|xs|, size));
    assert xs[..|xs|] == xs;
  }
}
