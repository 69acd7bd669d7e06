/** The pagination contract and what following it delivers (crates/compat/src/lemma/pagination.rs). */
module Pagination {
  import opened Wrappers
  import Radix

  const MAX_PAGINATION_WINDOW: nat := 1000
  const USIZE_MAX: nat := 0xFFFF_FFFF_FFFF_FFFF

  datatype DomainError = Validation

  datatype Page<T> = Page(
    items: seq<T>,
    total: nat,
    offset: nat,
    limit: nat,
    hasMore: bool,
    nextOffset: Option<nat>)

  function ValidateWindow(offset: nat, limit: nat): Result<nat, DomainError> {
    if offset + limit > USIZE_MAX then Err(Validation)
    else if offset + limit > MAX_PAGINATION_WINDOW then Err(Validation)
    else Ok(offset + limit)
  }

  function PageFlags(total: nat, windowEnd: nat, poolTruncated: bool): (bool, Option<nat>) {
    if total == 0 then (false, None)
    else
      var more := windowEnd < total || poolTruncated;
      (more, if more then Some(windowEnd) else None)
  }

  function Skip<T>(items: seq<T>, n: nat): seq<T> {
    if n <= |items| then items[n..] else []
  }

  function Take<T>(items: seq<T>, n: nat): seq<T> {
    if n <= |items| then items[..n] else items
  }

  function PaginateVec<T>(items: seq<T>, total: nat, offset: nat, limit: nat, poolTruncated: bool): Result<Page<T>, DomainError> {
    match ValidateWindow(offset, limit)
    case Err(e) => Err(e)
    case Ok(windowEnd) =>
      var (hasMore, nextOffset) := PageFlags(total, windowEnd, poolTruncated);
      Ok(Page(Take(Skip(items, offset), limit), total, offset, limit, hasMore, nextOffset))
  }

  /** What a caller collects by following nextOffset: the pages, and whether the walk ended in an error. */
  datatype Walk<T> = Walk(pages: seq<Page<T>>, failed: bool)

  function Follow<T>(items: seq<T>, total: nat, offset: nat, limit: nat, poolTruncated: bool): Walk<T>
    requires limit > 0
    decreases MAX_PAGINATION_WINDOW + limit - offset
  {
    match PaginateVec(items, total, offset, limit, poolTruncated)
    case Err(_) => Walk([], true)
    case Ok(page) =>
      match page.nextOffset
      case None => Walk([page], false)
      case Some(next) =>
        var rest := Follow(items, total, next, limit, poolTruncated);
        Walk([page] + rest.pages, rest.failed)
  }

  function Delivered<T>(pages: seq<Page<T>>): seq<T> {
    if pages == [] then [] else pages[0].items + Delivered(pages[1..])
  }

  // ---- One page ----

  /** A truncated pool never presents a page as the last one, unless its lower bound is zero. */
  lemma TruncatedPoolForcesMore<T>(items: seq<T>, total: nat, offset: nat, limit: nat)
    requires offset + limit <= MAX_PAGINATION_WINDOW
    ensures
      var page := PaginateVec(items, total, offset, limit, true).value;
      page.hasMore <==> total > 0
  {
  }

  /** Over an exact total a page tells the truth about what is left: it says there is more, and where, exactly if
      some item comes after it. It carries the total, its own window and the items in it. */
  lemma PageTellsTruth<T>(items: seq<T>, offset: nat, limit: nat)
    requires offset + limit <= MAX_PAGINATION_WINDOW
    ensures
      var r := PaginateVec(items, |items|, offset, limit, false);
      && r.Ok? && r.value.total == |items| && r.value.offset == offset && r.value.limit == limit
      && (r.value.hasMore <==> offset + limit < |items|)
      && r.value.nextOffset == (if r.value.hasMore then Some(offset + limit) else None)
      && (forall i :: 0 <= i < |r.value.items| ==> offset + i < |items| && r.value.items[i] == items[offset + i])
      && (|r.value.items| < limit ==> |items| <= offset + |r.value.items|) && |r.value.items| <= limit
  {
  }

  /** A window is refused exactly if it ends beyond the maximum. */
  lemma RefusedIff<T>(items: seq<T>, total: nat, offset: nat, limit: nat, poolTruncated: bool)
    ensures PaginateVec(items, total, offset, limit, poolTruncated).Err? <==> offset + limit > 1000
  {
  }

  // ---- The walk ----

  /** Where the i-th window of a walk from `offset` starts. */
  function WindowStart(offset: nat, limit: nat, i: nat): nat
    decreases i
  {
    if i == 0 then offset else WindowStart(offset + limit, limit, i - 1)
  }

  lemma {:induction false} WindowStartIs(offset: nat, limit: nat, i: nat)
    ensures WindowStart(offset, limit, i) == offset + i * limit
    decreases i
  {
    if i == 0 {
    } else {
      WindowStartIs(offset + limit, limit, i - 1);
      assert (i - 1) * limit + limit == i * limit;
    }
  }

  ghost predicate PageAt<T>(page: Page<T>, items: seq<T>, start: nat, limit: nat) {
    page.offset == start && page.limit == limit && page.items == Take(Skip(items, start), limit)
  }

  lemma {:induction false} PagesInWindows<T>(items: seq<T>, total: nat, offset: nat, limit: nat, poolTruncated: bool)
    requires limit > 0
    ensures
      var pages := Follow(items, total, offset, limit, poolTruncated).pages;
      forall i :: 0 <= i < |pages| ==> PageAt(pages[i], items, WindowStart(offset, limit, i), limit)
    decreases MAX_PAGINATION_WINDOW + limit - offset
  {
    var pages := Follow(items, total, offset, limit, poolTruncated).pages;
    if pages != [] && pages[0].nextOffset.Some? {
      var rest := Follow(items, total, offset + limit, limit, poolTruncated).pages;
      PagesInWindows(items, total, offset + limit, limit, poolTruncated);
      assert pages == [pages[0]] + rest;
      forall i | 0 < i < |pages| ensures PageAt(pages[i], items, WindowStart(offset, limit, i), limit) {
        assert pages[i] == rest[i - 1];
      }
    }
  }

  /** Pages are consecutive, disjoint and in order: the i-th covers the window of `limit` ranks from offset + i * limit. */
  lemma PagesConsecutive<T>(items: seq<T>, total: nat, offset: nat, limit: nat, poolTruncated: bool, i: nat)
    requires limit > 0 && i < |Follow(items, total, offset, limit, poolTruncated).pages|
    ensures
      var page := Follow(items, total, offset, limit, poolTruncated).pages[i];
      && page.offset == offset + i * limit && page.limit == limit
      && page.items == Take(Skip(items, offset + i * limit), limit)
  {
    PagesInWindows(items, total, offset, limit, poolTruncated);
    WindowStartIs(offset, limit, i);
  }

  /** How many of the n items from offset on can be reached in whole windows of `limit` that end within the maximum. */
  function WindowRoom(offset: nat, limit: nat): nat
    requires limit > 0
    decreases MAX_PAGINATION_WINDOW + limit - offset
  {
    if offset + limit > MAX_PAGINATION_WINDOW then 0 else limit + WindowRoom(offset + limit, limit)
  }

  lemma TakeMore<T>(xs: seq<T>, n: nat, m: nat)
    requires n <= |xs|
    ensures xs[..n] + Take(xs[n..], m) == Take(xs, n + m)
  {
  }

  lemma DeliveredFirst<T>(page: Page<T>, rest: seq<Page<T>>)
    ensures Delivered([page] + rest) == page.items + Delivered(rest)
  {
    assert ([page] + rest)[1..] == rest;
  }

  lemma FollowOn<T>(items: seq<T>, total: nat, offset: nat, limit: nat, page: Page<T>)
    requires limit > 0 && PaginateVec(items, total, offset, limit, false) == Ok(page) && page.nextOffset == Some(offset + limit)
    ensures
      var rest := Follow(items, total, offset + limit, limit, false);
      Follow(items, total, offset, limit, false) == Walk([page] + rest.pages, rest.failed)
  {
  }

  lemma FollowMiddle<T>(items: seq<T>, offset: nat, limit: nat)
    requires limit > 0 && offset + limit < |items| && offset + limit <= MAX_PAGINATION_WINDOW
    ensures
      var walk := Follow(items, |items|, offset, limit, false);
      var rest := Follow(items, |items|, offset + limit, limit, false);
      walk.failed == rest.failed && Delivered(walk.pages) == items[offset..offset + limit] + Delivered(rest.pages)
  {
    var page := PaginateVec(items, |items|, offset, limit, false).value;
    assert page.items == items[offset..offset + limit];
    FollowOn(items, |items|, offset, limit, page);
    DeliveredFirst(page, Follow(items, |items|, offset + limit, limit, false).pages);
  }

  lemma FollowLast<T>(items: seq<T>, offset: nat, limit: nat)
    requires limit > 0 && offset <= |items| <= offset + limit <= MAX_PAGINATION_WINDOW
    ensures
      var walk := Follow(items, |items|, offset, limit, false);
      !walk.failed && Delivered(walk.pages) == items[offset..]
  {
    var page := PaginateVec(items, |items|, offset, limit, false).value;
    assert page.items == items[offset..];
    DeliveredFirst(page, []);
    assert items[offset..] + [] == items[offset..];
  }

  /** A walk delivers, in order, as many of the items left as whole windows can reach. */
  lemma {:induction false} WalkFrom<T>(items: seq<T>, offset: nat, limit: nat)
    requires limit > 0 && offset <= |items| && (offset == |items| ==> offset == 0)
    ensures Delivered(Follow(items, |items|, offset, limit, false).pages) == Take(items[offset..], WindowRoom(offset, limit))
    decreases MAX_PAGINATION_WINDOW + limit - offset
  {
    var next := offset + limit;
    if next > MAX_PAGINATION_WINDOW {
      return;
    }
    if next < |items| {
      FollowMiddle(items, offset, limit);
      WalkFrom(items, next, limit);
      var left, room := items[offset..], WindowRoom(next, limit);
      assert items[next..] == left[limit..] && items[offset..next] == left[..limit];
      TakeMore(left, limit, room);
    } else {
      FollowLast(items, offset, limit);
    }
  }

  /** It ends in an error exactly when they cannot reach everything left. */
  lemma {:induction false} WalkFailsFrom<T>(items: seq<T>, offset: nat, limit: nat)
    requires limit > 0 && offset < |items|
    ensures Follow(items, |items|, offset, limit, false).failed <==> WindowRoom(offset, limit) < |items| - offset
    decreases MAX_PAGINATION_WINDOW + limit - offset
  {
    var next := offset + limit;
    if next > MAX_PAGINATION_WINDOW {
      return;
    }
    if next < |items| {
      FollowMiddle(items, offset, limit);
      WalkFailsFrom(items, next, limit);
    } else {
      FollowLast(items, offset, limit);
    }
  }

  /** WindowRoom from zero is the largest multiple of the limit within the maximum. */
  lemma {:induction false} RoomFrom(offset: nat, limit: nat, k: nat)
    requires limit > 0 && offset == k * limit
    ensures offset <= MAX_PAGINATION_WINDOW ==> offset + WindowRoom(offset, limit) == MAX_PAGINATION_WINDOW / limit * limit
    decreases MAX_PAGINATION_WINDOW + limit - offset
  {
    if offset + limit <= MAX_PAGINATION_WINDOW {
      assert (k + 1) * limit == k * limit + limit;
      RoomFrom(offset + limit, limit, k + 1);
    } else {
      QuotientIs(MAX_PAGINATION_WINDOW, limit, k);
    }
  }

  lemma QuotientIs(n: nat, m: nat, k: nat)
    requires m > 0
    ensures k * m <= n < k * m + m ==> n / m == k
  {
    var q := n / m;
    assert n == q * m + n % m;
    if k * m <= n < k * m + m {
      if q < k {
        Radix.MulLe(q + 1, k, m);
      } else if q > k {
        Radix.MulLe(k + 1, q, m);
      }
    }
  }

  lemma CeilFits(n: nat, m: nat, cap: nat)
    requires m > 0
    ensures Radix.CeilDiv(n, m) * m <= cap <==> n <= cap / m * m
  {
    var c, q := Radix.CeilDiv(n, m), cap / m;
    assert cap == q * m + cap % m;
    if c <= q {
      Radix.MulLe(c, q, m);
    } else {
      Radix.MulLe(q, c - 1, m);
      Radix.MulLe(q + 1, c, m);
      assert (q + 1) * m == q * m + m;
    }
  }

  /** The windows a walk from zero has to visit: one even if there is nothing to list. */
  function WindowCount(total: nat, limit: nat): nat
    requires limit > 0
  {
    if total == 0 then 1 else Radix.CeilDiv(total, limit)
  }

  lemma WalkOfNothing<T>(limit: nat)
    requires limit > 0
    ensures
      var walk := Follow<T>([], 0, 0, limit, false);
      Delivered(walk.pages) == [] && (walk.failed <==> limit > MAX_PAGINATION_WINDOW)
  {
  }

  lemma DeliversUpTo<T>(items: seq<T>, limit: nat)
    requires limit > 0 && items != []
    ensures Delivered(Follow(items, |items|, 0, limit, false).pages) == Take(items, MAX_PAGINATION_WINDOW / limit * limit)
  {
    WalkFrom(items, 0, limit);
    RoomFrom(0, limit, 0);
    assert items[0..] == items;
  }

  lemma FailsBeyond<T>(items: seq<T>, limit: nat)
    requires limit > 0 && items != []
    ensures Follow(items, |items|, 0, limit, false).failed <==> MAX_PAGINATION_WINDOW / limit * limit < |items|
  {
    WalkFailsFrom(items, 0, limit);
    RoomFrom(0, limit, 0);
  }

  /** Windows of `limit` deliver everything up to the reach, and everything is within it exactly when the windows
      are within the maximum. */
  lemma TakesAllIff<T>(items: seq<T>, limit: nat)
    requires limit > 0 && items != []
    ensures
      var reach := MAX_PAGINATION_WINDOW / limit * limit;
      && (Take(items, reach) == items <==> |items| <= reach)
      && (|items| <= reach <==> WindowCount(|items|, limit) * limit <= MAX_PAGINATION_WINDOW)
  {
    CeilFits(|items|, limit, MAX_PAGINATION_WINDOW);
  }

  /** Following nextOffset from the start over an exact total delivers the first
      floor(1000 / limit) * limit items in order; it ends cleanly, and has then delivered all of them, if and
      only if its windows, ceil(total / limit) of them and at least one, fit within the maximum. */
  lemma WalkDelivers<T>(items: seq<T>, limit: nat)
    requires limit > 0
    ensures
      var walk := Follow(items, |items|, 0, limit, false);
      && Delivered(walk.pages) == Take(items, MAX_PAGINATION_WINDOW / limit * limit)
      && (!walk.failed <==> WindowCount(|items|, limit) * limit <= MAX_PAGINATION_WINDOW)
      && (!walk.failed ==> Delivered(walk.pages) == items)
      && (walk.failed && items != [] ==> Delivered(walk.pages) != items)
  {
    if items == [] {
      WalkOfNothing<T>(limit);
    } else {
      DeliversUpTo(items, limit);
      FailsBeyond(items, limit);
      TakesAllIff(items, limit);
    }
  }

  /** Whatever the flags: a page that points on points beyond itself if and only if the limit is not zero;
      with a limit of zero it is empty and points back at itself. */
  lemma PointsBeyondIff<T>(items: seq<T>, total: nat, offset: nat, limit: nat, poolTruncated: bool)
    requires PaginateVec(items, total, offset, limit, poolTruncated).Ok?
    requires PaginateVec(items, total, offset, limit, poolTruncated).value.nextOffset.Some?
    ensures
      var page := PaginateVec(items, total, offset, limit, poolTruncated).value;
      && (page.nextOffset.value > offset <==> limit > 0)
      && (limit == 0 ==> page.nextOffset == Some(offset) && page.items == [])
  {
  }

  /** Following nextOffset for a number of pages, whatever the limit. */
  function FollowPages<T>(items: seq<T>, total: nat, offset: nat, limit: nat, poolTruncated: bool, n: nat): seq<Page<T>>
    decreases n
  {
    if n == 0 then []
    else
      match PaginateVec(items, total, offset, limit, poolTruncated)
      case Err(_) => []
      case Ok(page) =>
        match page.nextOffset
        case None => [page]
        case Some(next) => [page] + FollowPages(items, total, next, limit, poolTruncated, n - 1)
  }

  ghost predicate Endless<T>(items: seq<T>, total: nat, offset: nat, limit: nat, poolTruncated: bool) {
    forall n: nat :: |FollowPages(items, total, offset, limit, poolTruncated, n)| == n
  }

  lemma {:induction false} ZeroLimitStalls<T>(items: seq<T>, total: nat, offset: nat, poolTruncated: bool, n: nat)
    requires offset <= MAX_PAGINATION_WINDOW && total > 0 && (offset < total || poolTruncated)
    ensures |FollowPages(items, total, offset, 0, poolTruncated, n)| == n
    decreases n
  {
    if n == 0 {
    } else {
      PointsBeyondIff(items, total, offset, 0, poolTruncated);
      ZeroLimitStalls(items, total, offset, poolTruncated, n - 1);
    }
  }

  lemma {:induction false} WalkBounded<T>(items: seq<T>, total: nat, offset: nat, limit: nat, poolTruncated: bool, n: nat)
    requires limit > 0
    ensures |FollowPages(items, total, offset, limit, poolTruncated, n)|
         <= if offset <= MAX_PAGINATION_WINDOW then MAX_PAGINATION_WINDOW - offset else 0
    decreases n
  {
    if n == 0 {
    } else {
      var r := PaginateVec(items, total, offset, limit, poolTruncated);
      if r.Ok? && r.value.nextOffset.Some? {
        WalkBounded(items, total, offset + limit, limit, poolTruncated, n - 1);
      }
    }
  }

  lemma ZeroLimitSinglePage<T>(items: seq<T>, total: nat, offset: nat, poolTruncated: bool)
    requires offset > MAX_PAGINATION_WINDOW || total == 0 || (offset >= total && !poolTruncated)
    ensures |FollowPages(items, total, offset, 0, poolTruncated, 2)| <= 1
  {
  }

  /** The walk never ends exactly when the limit is zero and the first page points on. */
  lemma EndlessIff<T>(items: seq<T>, total: nat, offset: nat, limit: nat, poolTruncated: bool)
    ensures Endless(items, total, offset, limit, poolTruncated) <==>
      limit == 0 && offset <= MAX_PAGINATION_WINDOW && total > 0 && (offset < total || poolTruncated)
  {
    if limit > 0 {
      WalkBounded(items, total, offset, limit, poolTruncated, MAX_PAGINATION_WINDOW + 1);
    } else if offset <= MAX_PAGINATION_WINDOW && total > 0 && (offset < total || poolTruncated) {
      forall n: nat ensures |FollowPages(items, total, offset, 0, poolTruncated, n)| == n {
        ZeroLimitStalls(items, total, offset, poolTruncated, n);
      }
    } else {
      ZeroLimitSinglePage(items, total, offset, poolTruncated);
    }
  }
}
