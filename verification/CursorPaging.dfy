/** Cursor paging in the request handlers: featured markets and a user's bets. */
module CursorPaging {
  import opened Common
  import opened Decimal

  const USIZE_MAX: nat := 0xffff_ffff_ffff_ffff
  const I64_MAX: int := 0x7fff_ffff_ffff_ffff

  // ---- Featured markets: the cursor is an index ----

  datatype Page<T> = Page(items: seq<T>, nextCursor: Option<string>, hasMore: bool)

  /** A cursor that does not parse counts as the start; one past the end gives an empty page. */
  function StartIndex(length: nat, cursor: Option<string>): (i: nat)
    ensures i <= length
  {
    var parsed := if cursor.Some? then ParseUnsigned(cursor.value, USIZE_MAX) else None;
    Min(parsed.GetOr(0), length)
  }

  function FeaturedPage<T>(list: seq<T>, cursor: Option<string>, limit: nat): Page<T> {
    var start := StartIndex(|list|, cursor);
    var end := Min(start + limit, |list|);
    var hasMore := end < |list|;
    Page(list[start..end], if hasMore then Some(NatText(end)) else None, hasMore)
  }

  /** The page at an index: its items, and whether the list goes on, which is also when a next cursor is given. */
  lemma PageAt<T>(list: seq<T>, index: nat, limit: nat)
    requires index <= USIZE_MAX
    ensures var page := FeaturedPage(list, Some(NatText(index)), limit);
            var first := Min(index, |list|);
            && page.items == list[first..Min(first + limit, |list|)]
            && (page.hasMore <==> first + |page.items| < |list|)
            && page.nextCursor == if page.hasMore then Some(NatText(first + limit)) else None
  {
    UnsignedRoundTrip(index, USIZE_MAX);
  }

  /** Without a cursor, or with one that is no number, a client gets the first page. */
  lemma FirstPage<T>(list: seq<T>, cursor: Option<string>, limit: nat)
    requires cursor.Some? ==> ParseUnsigned(cursor.value, USIZE_MAX).None?
    ensures FeaturedPage(list, cursor, limit) == FeaturedPage(list, Some(NatText(0)), limit)
  {
    UnsignedRoundTrip(0, USIZE_MAX);
  }

  /** A client that follows `next_cursor` to the end sees the whole list once, in order. */
  method FollowPages<T>(list: seq<T>, limit: nat) returns (all: seq<T>, pages: nat)
    requires limit >= 1 && |list| <= USIZE_MAX
    ensures all == list
    ensures pages == if list == [] then 1 else (|list| - 1) / limit + 1
  {
    all, pages := [], 0;
    var cursor: Option<string> := None;
    while true
      invariant |all| <= |list| && all == list[..|all|] && |all| == pages * limit
      invariant StartIndex(|list|, cursor) == |all|
      invariant pages > 0 ==> |all| < |list|
      decreases |list| - |all|
    {
      var page := FeaturedPage(list, cursor, limit);
      ghost var end := Min(|all| + limit, |list|);
      assert list[..end] == list[..|all|] + list[|all|..end];
      PagesSoFar(|list|, limit, pages);
      if page.nextCursor.Some? {
        UnsignedRoundTrip(end, USIZE_MAX);
      }
      all := all + page.items;
      pages := pages + 1;
      cursor := page.nextCursor;
      if cursor.None? {
        return;
      }
    }
  }

  lemma PagesSoFar(n: nat, limit: nat, pages: nat)
    requires limit >= 1 && (pages > 0 ==> pages * limit < n)
    ensures (pages + 1) * limit == pages * limit + limit
    ensures pages * limit < n <= pages * limit + limit ==> (n - 1) / limit == pages
  {
    assert (pages + 1) * limit == pages * limit + limit;
    if pages * limit < n <= pages * limit + limit {
      QuotientIs(n - 1, limit, pages);
    }
  }

  // ---- User bets: the cursor is a page number ----

  /** Two's-complement 64-bit result of an addition. */
  function Wrap(x: int): int {
    (x + I64_MAX + 1) % (2 * (I64_MAX + 1)) - I64_MAX - 1
  }

  function SaturatingMul(a: int, b: int): int {
    Max(Min(a * b, I64_MAX), -I64_MAX - 1)
  }

  function RawPage(cursor: Option<string>): (p: nat)
    ensures p <= I64_MAX
  {
    var parsed := if cursor.Some? then ParseInt64(cursor.value) else None;
    Max(parsed.GetOr(0), 0)
  }

  function ClampedPage(raw: nat, size: nat): nat {
    Min(raw, I64_MAX / Max(size, 1))
  }

  /** The handler's `has_more`. */
  predicate HasMore(cursor: Option<string>, size: nat, total: int) {
    SaturatingMul(Wrap(ClampedPage(RawPage(cursor), size) + 1), size) < total
  }

  /** The handler's `next_cursor`. */
  function NextBetsCursor(cursor: Option<string>, size: nat, total: int): Option<string> {
    if HasMore(cursor, size, total) then Some(IntText(Wrap(ClampedPage(RawPage(cursor), size) + 1))) else None
  }

  /** A cursor names the page whose number it is the text of; any other names page 0. */
  lemma RawPageReads(page: int, cursor: Option<string>)
    requires -I64_MAX - 1 <= page <= I64_MAX
    ensures RawPage(Some(IntText(page))) == if page >= 0 then page else 0
    ensures cursor.None? || ParseInt64(cursor.value).None? ==> RawPage(cursor) == 0
  {
    Int64RoundTrip(page);
  }

  lemma ClampBounds(raw: nat, size: nat)
    requires size >= 1 && raw <= I64_MAX && !(size == 1 && raw == I64_MAX)
    ensures ClampedPage(raw, size) + 1 <= I64_MAX
    ensures ClampedPage(raw, size) < raw ==>
              (ClampedPage(raw, size) + 1) * size > I64_MAX && (raw + 1) * size > I64_MAX
  {
  }

  lemma ClampedTest(raw: nat, page: nat, size: nat, total: int)
    requires page <= raw && page + 1 <= I64_MAX && total <= I64_MAX
    requires page < raw ==> (page + 1) * size > I64_MAX && (raw + 1) * size > I64_MAX
    ensures SaturatingMul(Wrap(page + 1), size) < total <==> (raw + 1) * size < total
  {
  }

  lemma HasMoreFits(cursor: Option<string>, size: nat, total: int)
    requires size >= 1 && -I64_MAX - 1 <= total <= I64_MAX && !(size == 1 && RawPage(cursor) == I64_MAX)
    ensures HasMore(cursor, size, total) <==> (RawPage(cursor) + 1) * size < total
  {
    var raw := RawPage(cursor);
    ClampBounds(raw, size);
    ClampedTest(raw, ClampedPage(raw, size), size, total);
  }

  /**
   Clamping and saturation make `has_more` the unbounded-integer test for every
   cursor and total, except for one combination: page size 1 and the largest cursor,
   where the page number overflows.
   */
  lemma HasMoreExactIff(cursor: Option<string>, size: nat)
    requires size >= 1
    ensures (forall total :: -I64_MAX - 1 <= total <= I64_MAX ==>
               (HasMore(cursor, size, total) <==> (RawPage(cursor) + 1) * size < total))
            <==> !(size == 1 && RawPage(cursor) == I64_MAX)
  {
    if size == 1 && RawPage(cursor) == I64_MAX {
      assert Wrap(I64_MAX + 1) == -I64_MAX - 1;
      assert HasMore(cursor, size, 0);
    } else {
      forall total | -I64_MAX - 1 <= total <= I64_MAX
        ensures HasMore(cursor, size, total) <==> (RawPage(cursor) + 1) * size < total
      {
        HasMoreFits(cursor, size, total);
      }
    }
  }

  lemma PageFits(page: nat, size: nat, total: int)
    requires size >= 1 && total <= I64_MAX && (page > 0 ==> page * size < total)
    ensures ClampedPage(page, size) == page && (page > 0 ==> page < total)
  {
    MulMonotone(1, size, page);
    if page > I64_MAX / size {
      MulMonotone(I64_MAX / size + 1, page, size);
    }
  }

  lemma WrapFits(x: nat)
    requires x <= I64_MAX
    ensures Wrap(x) == x
  {
  }

  /** The answer to a cursor that names a page within the bets. */
  lemma BetsStep(cursor: Option<string>, size: nat, total: int)
    requires size >= 1 && -I64_MAX - 1 <= total <= I64_MAX
    requires RawPage(cursor) > 0 ==> RawPage(cursor) * size < total
    ensures ClampedPage(RawPage(cursor), size) == RawPage(cursor)
    ensures NextBetsCursor(cursor, size, total).Some? <==> (RawPage(cursor) + 1) * size < total
    ensures (RawPage(cursor) + 1) * size < total ==>
              RawPage(cursor) + 1 < total && RawPage(NextBetsCursor(cursor, size, total)) == RawPage(cursor) + 1
  {
    var page := RawPage(cursor);
    PageFits(page, size, total);
    HasMoreFits(cursor, size, total);
    var more := (page + 1) * size < total;
    assert HasMore(cursor, size, total) == more;
    if more {
      PageFits(page + 1, size, total);
      WrapFits(page + 1);
      RawPageReads(page + 1, None);
      assert NextBetsCursor(cursor, size, total) == Some(IntText(page + 1));
    }
  }

  /** A client that follows the next cursors of a user's bets asks for pages 0, 1, 2 and so on, just enough for all. */
  method FollowBets(total: int, size: nat) returns (pages: seq<int>)
    requires size >= 1 && -I64_MAX - 1 <= total <= I64_MAX
    ensures |pages| >= 1 && forall i :: 0 <= i < |pages| ==> pages[i] == i
    ensures total <= |pages| * size && (|pages| > 1 ==> (|pages| - 1) * size < total)
  {
    pages := [];
    var cursor: Option<string> := None;
    while true
      invariant RawPage(cursor) == |pages| && (|pages| > 0 ==> |pages| < total && |pages| * size < total)
      invariant forall i :: 0 <= i < |pages| ==> pages[i] == i
      decreases total - |pages|
    {
      BetsStep(cursor, size, total);
      var next := NextBetsCursor(cursor, size, total);
      pages := pages + [ClampedPage(RawPage(cursor), size)];
      if next.None? {
        return;
      }
      cursor := next;
    }
  }
}
