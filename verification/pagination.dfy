/**
 The page arithmetic of the admin links table: a fixed window of five links
 over a caller-supplied, caller-ordered list. Pages are numbered from 1.
 Everything here is generic in the element type; the table itself lives in
 module LinksTable.
 */
module Pagination {

  /** Number of links shown per page. */
  const PageSize: nat := 5

  function Min(a: int, b: int): int
  {
    if a <= b then a else b
  }

  /** A position argument of `Array.prototype.slice` turned into an index into
      a sequence of length `len`: a negative argument counts back from the end,
      and the result is clamped to `[0, len]`. */
  function RelativeIndex(k: int, len: nat): (r: nat)
    ensures r <= len
    ensures 0 <= k ==> r == Min(k, len)
    ensures k < 0 ==> r == if len + k < 0 then 0 else len + k
  {
    if k < 0 then (if len + k < 0 then 0 else len + k)
    else if k < len then k else len
  }

  /** JavaScript's `s.slice(begin, end)`: the elements from the relative start
      up to (excluding) the relative end, or nothing when the end does not lie
      after the start. */
  function JsSlice<T>(s: seq<T>, begin: int, end: int): (r: seq<T>)
    ensures |r| <= |s|
    ensures 0 <= begin <= end ==> r == s[Min(begin, |s|)..Min(end, |s|)]
    ensures 0 <= end <= begin ==> r == []
  {
    var from := RelativeIndex(begin, |s|);
    var to := RelativeIndex(end, |s|);
    if from < to then s[from..to] else []
  }

  /** One-based position of the first link shown on `page`. */
  function StartOffset(page: int): (r: int)
    ensures (r - 1) % PageSize == 0
    ensures (r - 1) / PageSize == page - 1
  {
    (page - 1) * PageSize + 1
  }

  /** One-based position of the last link shown on `page` in a list of `count` links. */
  function EndOffset(page: int, count: nat): (r: int)
    ensures r <= count && r <= page * PageSize
    ensures r == count || r == page * PageSize
    ensures 1 <= page && StartOffset(page) - 1 <= count ==> StartOffset(page) - 1 <= r
  {
    Min(page * PageSize, count)
  }

  /** `Math.ceil(count / PageSize)`: the fewest pages that hold `count` links. */
  function TotalPages(count: nat): (r: nat)
    ensures (r - 1) * PageSize < count <= r * PageSize
  {
    (count + PageSize - 1) / PageSize
  }

  /** Whether the pagination controls are shown. */
  function ShowPagination(count: nat): (r: bool)
    ensures r <==> count > PageSize
  {
    TotalPages(count) > 1
  }

  /** The links shown on `page`: `links.slice(startOffset - 1, endOffset)`. */
  function VisibleLinks<T>(links: seq<T>, page: int): (r: seq<T>)
    ensures |r| <= PageSize
    ensures 1 <= page && StartOffset(page) - 1 <= |links| ==>
              r == links[StartOffset(page) - 1..EndOffset(page, |links|)]
    ensures 1 <= page && StartOffset(page) - 1 >= |links| ==> r == []
    ensures 1 <= page <= TotalPages(|links|) ==> 0 < |r|
  {
    JsSlice(links, StartOffset(page) - 1, EndOffset(page, |links|))
  }

  /** The concatenation of the links shown on pages 1 to k, in page order. */
  function Pages<T>(links: seq<T>, k: nat): seq<T>
  {
    if k == 0 then [] else Pages(links, k - 1) + VisibleLinks(links, k)
  }

  /** Pages 1 to k, read in order, are exactly the first EndOffset(k) links. */
  lemma {:induction false} PagesArePrefix<T>(links: seq<T>, k: nat)
    requires k <= TotalPages(|links|)
    ensures Pages(links, k) == links[..EndOffset(k, |links|)]
  {
    if k > 0 {
      PagesArePrefix(links, k - 1);
      var lo := (k - 1) * PageSize;
      assert EndOffset(k - 1, |links|) == lo;
      assert VisibleLinks(links, k) == links[lo..EndOffset(k, |links|)];
      assert links[..lo] + links[lo..EndOffset(k, |links|)] == links[..EndOffset(k, |links|)];
    }
  }

  /** Reading every page in order gives back the whole list: the pages are
      disjoint, leave no gap and keep the caller's order. */
  lemma PagesReconstructList<T>(links: seq<T>)
    ensures Pages(links, TotalPages(|links|)) == links
  {
    PagesArePrefix(links, TotalPages(|links|));
    assert links[..|links|] == links;
  }

  /** The link at zero-based position i is shown on page i / PageSize + 1, in
      row i % PageSize, and that page is one of the pages that exist. */
  lemma LinkOnItsPage<T>(links: seq<T>, i: nat)
    requires i < |links|
    ensures 1 <= i / PageSize + 1 <= TotalPages(|links|)
    ensures i % PageSize < |VisibleLinks(links, i / PageSize + 1)|
    ensures VisibleLinks(links, i / PageSize + 1)[i % PageSize] == links[i]
  {
    var p := i / PageSize + 1;
    assert StartOffset(p) - 1 == i - i % PageSize;
  }

  /** The "first–last of total" counters agree with the rows shown: on an
      existing page they lie within the list and span exactly the visible links. */
  lemma OffsetsSpanVisibleLinks<T>(links: seq<T>, page: int)
    requires 1 <= page <= TotalPages(|links|)
    ensures 1 <= StartOffset(page) <= EndOffset(page, |links|) <= |links|
    ensures EndOffset(page, |links|) - StartOffset(page) + 1 == |VisibleLinks(links, page)|
  {
  }
}
