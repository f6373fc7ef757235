/**
 * The visible window of records (dataview.ts, line 23). With a paginator, the
 * view renders the slice of the effective collection from `start` to
 * `start + rows`, where `start` is 0 in lazy mode and `first` otherwise;
 * without one, it renders the whole effective collection.
 *
 * The slice pipe calls `Array.prototype.slice`, whose bounds are clamped to the
 * array and count from its end when negative. A null collection renders no item.
 */
module Pagination {
  import opened Optional

  function Min(a: int, b: int): int { if a <= b then a else b }

  /** Where `Array.prototype.slice` starts or stops for argument `k` on an array of length `len`. */
  function SliceBound(k: int, len: nat): (b: nat)
    ensures b <= len
    ensures 0 <= k ==> b == Min(k, len)
  {
    if k < 0 then (if len + k < 0 then 0 else len + k)
    else if k < len then k
    else len
  }

  /** `s.slice(start, end)`. */
  function Slice<T>(s: seq<T>, start: int, end: int): (r: seq<T>)
    ensures |r| <= |s|
  {
    var from, to := SliceBound(start, |s|), SliceBound(end, |s|);
    if from < to then s[from..to] else []
  }

  /** The records the view renders. */
  function Window<T>(eff: Option<seq<T>>, paginator: bool, lazy: bool, first: int, rows: int): seq<T>
  {
    match eff
    case None => []
    case Some(s) =>
      if paginator then
        var start := if lazy then 0 else first;
        Slice(s, start, start + rows)
      else s
  }

  /** Without a paginator every record of the effective collection is rendered. */
  lemma WindowWithoutPaginator<T>(s: seq<T>, lazy: bool, first: int, rows: int)
    ensures Window(Some(s), false, lazy, first, rows) == s
  {
  }

  /** Eager paging renders the records from `first` up to `first + rows`, clipped to the collection. */
  lemma WindowEager<T>(s: seq<T>, first: int, rows: int)
    requires 0 <= first && 0 <= rows
    ensures var w := Window(Some(s), true, false, first, rows);
      w == s[Min(first, |s|)..Min(first + rows, |s|)] && |w| <= rows
  {
  }

  /**
   * Lazy paging renders the first `rows` records of what the host supplied,
   * whatever `first` is: the host is expected to have fetched only that page.
   */
  lemma WindowLazy<T>(s: seq<T>, first: int, rows: int)
    requires 0 <= rows
    ensures Window(Some(s), true, true, first, rows) == s[..Min(rows, |s|)]
  {
  }

  /** The rendered records form a contiguous run of the effective collection, in order. */
  lemma WindowIsContiguous<T>(s: seq<T>, paginator: bool, lazy: bool, first: int, rows: int)
    ensures exists from, to | 0 <= from <= to <= |s| ::
      Window(Some(s), paginator, lazy, first, rows) == s[from..to]
  {
    var w := Window(Some(s), paginator, lazy, first, rows);
    if !paginator {
      assert w == s[0..|s|];
    } else {
      var start := if lazy then 0 else first;
      var from, to := SliceBound(start, |s|), SliceBound(start + rows, |s|);
      if from >= to {
        assert w == s[0..0];
      }
    }
  }

  /** The records of the eager pages that start at `first`, `first + rows`, ..., concatenated. */
  function PagesFrom<T>(s: seq<T>, rows: int, first: nat): seq<T>
    requires rows > 0
    decreases |s| - first
  {
    if first >= |s| then []
    else Window(Some(s), true, false, first, rows) + PagesFrom(s, rows, first + rows)
  }

  /** Eager pages `0, rows, 2*rows, ...` show every record exactly once, in order. */
  lemma {:induction false} PagesCoverCollection<T>(s: seq<T>, rows: int, first: nat)
    requires rows > 0 && first <= |s|
    ensures PagesFrom(s, rows, first) == s[first..]
    decreases |s| - first
  {
    if first < |s| {
      var next := Min(first + rows, |s|);
      PagesCoverCollection(s, rows, next);
      if next == |s| {
        assert PagesFrom(s, rows, first + rows) == [];
      }
      assert s[first..] == s[first..next] + s[next..];
    }
  }
}
