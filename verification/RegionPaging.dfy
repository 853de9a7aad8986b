/** Paging through the regions of a byte class, in offset order or ranked by length
    (app/tools_consensus.py, engine/consensus.py). */
module RegionPaging {
  import opened Sequences

  datatype Region = Region(start: int, end: int) {
    function Length(): int { end - start }
  }

  datatype Order = ByOffset | LongestFirst | ShortestFirst

  const MAX_REGIONS_PER_PAGE := 500

  /** The runs of a class: positive lengths, ascending, none overlapping, from slab offset 0 up. */
  ghost predicate Runs(regions: seq<Region>) {
    && (forall i :: 0 <= i < |regions| ==> 0 <= regions[i].start < regions[i].end)
    && (forall i, j :: 0 <= i < j < |regions| ==> regions[i].end <= regions[j].start)
  }

  lemma {:induction false} RunsGrow(kept: seq<Region>, r: Region)
    requires Runs(kept) && 0 <= r.start < r.end && forall i :: 0 <= i < |kept| ==> kept[i].end <= r.start
    ensures Runs(kept + [r]) && kept + [] == kept
  {
  }

  predicate Qualifies(r: Region, minLength: int, maxLength: int) {
    minLength <= r.Length() && (maxLength == 0 || r.Length() <= maxLength)
  }

  /** The runs that survive the length filters, in offset order. */
  function Kept(regions: seq<Region>, minLength: int, maxLength: int): (r: seq<Region>)
    ensures forall x :: x in r <==> x in regions && Qualifies(x, minLength, maxLength)
  {
    if regions == [] then []
    else
      var n := |regions| - 1;
      assert regions == regions[..n] + [regions[n]];
      Kept(regions[..n], minLength, maxLength)
      + if Qualifies(regions[n], minLength, maxLength) then [regions[n]] else []
  }

  lemma {:induction false} KeptAreRuns(regions: seq<Region>, minLength: int, maxLength: int)
    requires Runs(regions)
    ensures Runs(Kept(regions, minLength, maxLength))
  {
    if regions != [] {
      var n := |regions| - 1;
      KeptAreRuns(regions[..n], minLength, maxLength);
      var kept := Kept(regions[..n], minLength, maxLength);
      forall i | 0 <= i < |kept| ensures kept[i].end <= regions[n].start {
        assert kept[i] in regions[..n];
      }
      RunsGrow(kept, regions[n]);
    }
  }

  /** Ties in length keep offset order in both directions. */
  predicate Before(order: Order, x: Region, y: Region) {
    match order
    case ByOffset => x.start <= y.start
    case LongestFirst => x.Length() > y.Length() || (x.Length() == y.Length() && x.start <= y.start)
    case ShortestFirst => x.Length() < y.Length() || (x.Length() == y.Length() && x.start <= y.start)
  }

  /** The whole list a caller pages through. */
  function Listing(kept: seq<Region>, order: Order): (r: seq<Region>)
    ensures multiset(r) == multiset(kept)
  {
    if order.ByOffset? then kept else Sort(kept, (x: Region, y: Region) => Before(order, x, y))
  }

  /** Every qualifying region once, in the requested order. */
  lemma {:induction false} ListingIsOrdered(kept: seq<Region>, order: Order)
    requires Runs(kept)
    ensures |Listing(kept, order)| == |kept|
    ensures SortedBy(Listing(kept, order), (x: Region, y: Region) => Before(order, x, y))
  {
    SameElements(Listing(kept, order), kept);
    if !order.ByOffset? {
      SortSorts(kept, (x: Region, y: Region) => Before(order, x, y));
    }
  }

  // ---- one page ---------------------------------------------------------------------------------------

  datatype Page = Page(rows: seq<Region>, truncated: bool, nextAfter: int)

  function Limit(limit: int): nat { Max(1, Min(limit, MAX_REGIONS_PER_PAGE)) }

  /** Rows of a ranked listing from `offset` on: `limit` of them and one past the page. */
  function RankRegions(listing: seq<Region>, offset: nat, limit: nat): (r: seq<Region>)
    ensures var p := Min(offset, |listing|);
            && |r| == Min(limit + 1, |listing| - p)
            && r[..Min(limit, |r|)] == listing[p..Min(p + limit, |listing|)]
  {
    var top := listing[..Min(offset + limit + 1, |listing|)];
    top[Min(offset, |top|)..]
  }

  /** How many rows of the listing precede a cursor. */
  ghost function Position(kept: seq<Region>, order: Order, after: int): nat {
    if order.ByOffset? then Passed(kept, after) else Min(if after >= 0 then after + 1 else 0, |Listing(kept, order)|)
  }

  /** Runs that start at or before the cursor. */
  ghost function Passed(kept: seq<Region>, after: int): (n: nat)
    ensures n <= |kept|
  {
    if kept == [] then 0
    else Passed(kept[..|kept| - 1], after) + if kept[|kept| - 1].start <= after then 1 else 0
  }

  lemma {:induction false} PassedIsPrefix(kept: seq<Region>, after: int, i: nat)
    requires Runs(kept) && i < |kept|
    ensures kept[i].start <= after <==> i < Passed(kept, after)
  {
    var n := |kept| - 1;
    if i < n { PassedIsPrefix(kept[..n], after, i); }
    if kept[n].start <= after {
      AllPassed(kept, after, |kept|);
      TakeAll(kept);
      assert i < n ==> kept[i].end <= kept[n].start;
    }
  }

  lemma {:induction false} AllPassed(kept: seq<Region>, after: int, n: nat)
    requires Runs(kept) && n <= |kept| && (n > 0 ==> kept[n - 1].start <= after)
    ensures Passed(kept[..n], after) == n
  {
    if n > 0 {
      if n > 1 { assert kept[n - 2].end <= kept[n - 1].start; }
      AllPassed(kept, after, n - 1);
      assert kept[..n][..n - 1] == kept[..n - 1];
    }
  }

  lemma {:induction false} PagedTo(kept: seq<Region>, n: nat)
    requires Runs(kept) && 0 < n <= |kept|
    ensures Passed(kept, kept[n - 1].start) == n
  {
    PassedIsPrefix(kept, kept[n - 1].start, n - 1);
    if n < |kept| { PassedIsPrefix(kept, kept[n - 1].start, n); }
  }

  /** What a page must hold: the rows after the cursor up to the limit, and a cursor to go on from
      exactly when rows remain. */
  ghost predicate IsPage(page: Page, kept: seq<Region>, order: Order, after: int, limit: nat) {
    IsSlice(page, Listing(kept, order), Position(kept, order, after), Position(kept, order, page.nextAfter), limit)
  }

  /** The rows are the `limit` rows of the listing from `p` on, and `next` is where they end. */
  ghost predicate IsSlice(page: Page, listing: seq<Region>, p: nat, next: nat, limit: nat) {
    var stop := Min(p + limit, |listing|);
    && p <= |listing|
    && page.rows == listing[p..stop]
    && (page.truncated <==> stop < |listing|)
    && (page.nextAfter == -1 <==> !page.truncated)
    && (page.truncated ==> page.nextAfter >= 0 && next == stop)
  }

  /** Regions that start after the cursor, until one past the page shows that more remain. */
  method OffsetPage(kept: seq<Region>, after: int, limit: nat) returns (page: Page)
    requires Runs(kept) && limit >= 1
    ensures IsPage(page, kept, ByOffset, after, limit)
  {
    var rows: seq<Region> := [];
    ghost var from := Passed(kept, after);
    for i := 0 to |kept|
      invariant PagedSoFar(rows, kept, from, i, limit)
    {
      PassedIsPrefix(kept, after, i);
      if kept[i].start <= after { continue; }
      if |rows| == limit {
        PagedTo(kept, i);
        return Page(rows, true, rows[|rows| - 1].start);
      }
      PagesOne(rows, kept, from, i, limit);
      rows := rows + [kept[i]];
    }
    page := Page(rows, false, -1);
  }

  /** Of the first `i` runs the page holds those that do not precede it. */
  ghost predicate PagedSoFar(rows: seq<Region>, kept: seq<Region>, from: nat, i: nat, limit: nat)
    requires from <= |kept| && i <= |kept|
  {
    |rows| <= limit && rows == if i <= from then [] else kept[from..i]
  }

  lemma {:induction false} PagesOne(rows: seq<Region>, kept: seq<Region>, from: nat, i: nat, limit: nat)
    requires from <= i < |kept| && PagedSoFar(rows, kept, from, i, limit) && |rows| < limit
    ensures PagedSoFar(rows + [kept[i]], kept, from, i + 1, limit)
  {
    assert kept[from..i + 1] == kept[from..i] + [kept[i]];
  }

  method RankPage(kept: seq<Region>, order: Order, after: int, limit: nat) returns (page: Page)
    requires Runs(kept) && limit >= 1 && !order.ByOffset?
    ensures IsPage(page, kept, order, after, limit)
  {
    var listing := Listing(kept, order);
    var offset := if after >= 0 then after + 1 else 0;
    page := RankSlice(listing, offset, limit);
    assert Position(kept, order, after) == Min(offset, |listing|);
    assert page.truncated ==> Position(kept, order, page.nextAfter) == Min(page.nextAfter + 1, |listing|);
  }

  method RankSlice(listing: seq<Region>, offset: nat, limit: nat) returns (page: Page)
    requires limit >= 1
    ensures IsSlice(page, listing, Min(offset, |listing|), Min(Max(page.nextAfter + 1, 0), |listing|), limit)
  {
    var ranked := RankRegions(listing, offset, limit);
    var truncated := |ranked| > limit;
    var rows := ranked[..Min(limit, |ranked|)];
    page := Page(rows, truncated, if truncated then offset + |rows| - 1 else -1);
  }

  // ---- a page in the caller's terms ----------------------------------------------------------------------

  /** The length limits let the region through; a maximum of 0 or less is none, and no minimum is below 1. */
  ghost predicate Wanted(r: Region, minLength: int, maxLength: int) {
    && r.end - r.start >= 1 && r.end - r.start >= minLength
    && (maxLength > 0 ==> r.end - r.start <= maxLength)
  }

  ghost predicate InTurn(order: Order, x: Region, y: Region) {
    match order
    case ByOffset => x.start < y.start
    case LongestFirst => x.end - x.start > y.end - y.start || (x.end - x.start == y.end - y.start && x.start < y.start)
    case ShortestFirst => x.end - x.start < y.end - y.start || (x.end - x.start == y.end - y.start && x.start < y.start)
  }

  /** The wanted regions, each once, in the order asked for, equal lengths by offset. */
  ghost predicate IsListing(listing: seq<Region>, regions: seq<Region>, order: Order, minLength: int, maxLength: int) {
    && (forall r :: r in listing <==> r in regions && Wanted(r, minLength, maxLength))
    && forall i, j :: 0 <= i < j < |listing| ==> InTurn(order, listing[i], listing[j])
  }

  /** The cursor stands before row `p`: in offset order it is a slab offset, else the rank of a row. */
  ghost predicate CursorAt(listing: seq<Region>, order: Order, after: int, p: int) {
    && 0 <= p <= |listing|
    && if order.ByOffset? then
         && (forall i :: 0 <= i < p ==> listing[i].start <= after)
         && (forall i :: p <= i < |listing| ==> listing[i].start > after)
       else if after < 0 then p == 0 else if after < |listing| then p == after + 1 else p == |listing|
  }

  /** Up to `limit` rows, no fewer than 1 nor more than 500 being asked for, and a cursor for the next
      page if and only if rows are left. */
  ghost predicate Shows(page: Page, listing: seq<Region>, order: Order, after: int, limit: int) {
    exists p {:trigger CursorAt(listing, order, after, p)} :: CursorAt(listing, order, after, p) &&
      var n := if limit < 1 then 1 else if limit > 500 then 500 else limit;
      var stop := if p + n < |listing| then p + n else |listing|;
      && page.rows == listing[p..stop]
      && (page.truncated <==> stop < |listing|)
      && (if page.truncated then page.nextAfter >= 0 && CursorAt(listing, order, page.nextAfter, stop)
          else page.nextAfter == -1)
  }

  lemma {:induction false} InMultiset(s: seq<Region>, i: nat)
    requires i < |s|
    ensures multiset(s)[s[i]] >= 1
  {
    assert s[i] in s;
  }

  lemma {:induction false} TwiceInMultiset(s: seq<Region>, i: nat, j: nat)
    requires i < j < |s| && s[i] == s[j]
    ensures multiset(s)[s[i]] >= 2
  {
    assert s == s[..j] + s[j..];
    InMultiset(s[..j], i);
    InMultiset(s[j..], 0);
  }

  lemma {:induction false} OnceInMultiset(kept: seq<Region>, x: Region)
    requires Runs(kept)
    ensures multiset(kept)[x] <= 1
  {
    if kept != [] {
      var n := |kept| - 1;
      OnceInMultiset(kept[..n], x);
      SplitLast(kept);
      if x in kept[..n] { assert x != kept[n]; }
    }
  }

  /** The listing of the kept runs is what was asked for. */
  lemma {:induction false} ListingIsWanted(regions: seq<Region>, order: Order, minLength: int, maxLength: int)
    requires Runs(regions)
    ensures IsListing(Listing(Kept(regions, Max(1, minLength), Max(0, maxLength)), order),
                      regions, order, minLength, maxLength)
  {
    var kept := Kept(regions, Max(1, minLength), Max(0, maxLength));
    KeptAreRuns(regions, Max(1, minLength), Max(0, maxLength));
    ListingIsOrdered(kept, order);
    var listing := Listing(kept, order);
    SameElements(listing, kept);
    forall i, j | 0 <= i < j < |listing| ensures InTurn(order, listing[i], listing[j]) {
      assert ((x: Region, y: Region) => Before(order, x, y))(listing[i], listing[j]);
      if listing[i] == listing[j] {
        TwiceInMultiset(listing, i, j);
        OnceInMultiset(kept, listing[i]);
      }
      assert listing[i] in kept && listing[j] in kept;
    }
  }

  lemma {:induction false} PositionIsCursor(kept: seq<Region>, order: Order, after: int)
    requires Runs(kept)
    ensures CursorAt(Listing(kept, order), order, after, Position(kept, order, after))
  {
    if order.ByOffset? {
      forall i: nat | i < |kept| ensures kept[i].start <= after <==> i < Passed(kept, after) {
        PassedIsPrefix(kept, after, i);
      }
    }
  }

  lemma {:induction false} PageShows(page: Page, kept: seq<Region>, order: Order, after: int, limit: int)
    requires Runs(kept) && IsPage(page, kept, order, after, Limit(limit))
    ensures Shows(page, Listing(kept, order), order, after, limit)
  {
    PositionIsCursor(kept, order, after);
    PositionIsCursor(kept, order, page.nextAfter);
  }

  /** One page of the wanted regions in order, and how many there are. */
  method ClassRegions(regions: seq<Region>, order: Order, minLength: int, maxLength: int, after: int, limit: int)
    returns (page: Page, total: nat)
    requires Runs(regions)
    ensures var kept := Kept(regions, Max(1, minLength), Max(0, maxLength));
            total == |kept| && IsPage(page, kept, order, after, Limit(limit))
    ensures exists listing :: IsListing(listing, regions, order, minLength, maxLength) && total == |listing|
                              && Shows(page, listing, order, after, limit)
  {
    var kept := Kept(regions, Max(1, minLength), Max(0, maxLength));
    KeptAreRuns(regions, Max(1, minLength), Max(0, maxLength));
    total := |kept|;
    if order.ByOffset? {
      page := OffsetPage(kept, after, Limit(limit));
    } else {
      page := RankPage(kept, order, after, Limit(limit));
    }
    ListingIsWanted(regions, order, minLength, maxLength);
    ListingIsOrdered(kept, order);
    PageShows(page, kept, order, after, limit);
  }

  // ---- all pages ---------------------------------------------------------------------------------------

  ghost function CursorBefore(pages: seq<Page>, k: nat): int
    requires k <= |pages|
  {
    if k == 0 then -1 else pages[k - 1].nextAfter
  }

  ghost predicate PageAt(pages: seq<Page>, limits: seq<int>, kept: seq<Region>, order: Order, k: nat)
    requires k < |pages| == |limits|
  {
    IsPage(pages[k], kept, order, CursorBefore(pages, k), Limit(limits[k]))
  }

  /** Pages asked for one after the other, each from the cursor the one before gave, with any
      limits, for as long as a cursor is given. */
  ghost predicate Session(pages: seq<Page>, limits: seq<int>, kept: seq<Region>, order: Order) {
    && pages != [] && |limits| == |pages|
    && (forall k :: 0 <= k < |pages| ==> PageAt(pages, limits, kept, order, k))
    && (forall k :: 0 <= k < |pages| - 1 ==> pages[k].nextAfter != -1)
  }

  ghost function RowsOf(pages: seq<Page>, n: nat): seq<Region>
    requires n <= |pages|
  {
    if n == 0 then [] else RowsOf(pages, n - 1) + pages[n - 1].rows
  }

  lemma {:induction false} StartsAtNothing(kept: seq<Region>, order: Order)
    requires Runs(kept)
    ensures Position(kept, order, -1) == 0
  {
    if order.ByOffset? && kept != [] { PassedIsPrefix(kept, -1, 0); }
  }

  /** After `n` pages the rows are the first of the listing, up to where the last page stopped. */
  ghost predicate PagedUpTo(pages: seq<Page>, kept: seq<Region>, order: Order, n: nat)
    requires 0 < n <= |pages|
  {
    var listing, last := Listing(kept, order), pages[n - 1];
    var stop := if last.truncated then Position(kept, order, last.nextAfter) else |listing|;
    n <= stop + 1 && stop <= |listing| && RowsOf(pages, n) == listing[..stop]
  }

  lemma {:induction false} FirstPage(pages: seq<Page>, limits: seq<int>, kept: seq<Region>, order: Order)
    requires Runs(kept) && Session(pages, limits, kept, order)
    ensures PagedUpTo(pages, kept, order, 1)
  {
    NextPage(pages, limits, kept, order, 1);
    StartsAtNothing(kept, order);
    assert RowsOf(pages, 0) == Listing(kept, order)[..0];
    PageFollows(RowsOf(pages, 0), pages[0], kept, order, CursorBefore(pages, 0), Limit(limits[0]));
  }

  lemma {:induction false} LaterPage(pages: seq<Page>, limits: seq<int>, kept: seq<Region>, order: Order, n: nat)
    requires Runs(kept) && Session(pages, limits, kept, order) && 1 < n <= |pages|
    requires PagedUpTo(pages, kept, order, n - 1)
    ensures PagedUpTo(pages, kept, order, n)
  {
    NextPage(pages, limits, kept, order, n);
    PageFollows(RowsOf(pages, n - 1), pages[n - 1], kept, order, CursorBefore(pages, n - 1), Limit(limits[n - 1]));
  }

  lemma {:induction false} PagesSoFar(pages: seq<Page>, limits: seq<int>, kept: seq<Region>, order: Order, n: nat)
    requires Runs(kept) && Session(pages, limits, kept, order) && 0 < n <= |pages|
    ensures PagedUpTo(pages, kept, order, n)
  {
    if n == 1 {
      FirstPage(pages, limits, kept, order);
    } else {
      PagesSoFar(pages, limits, kept, order, n - 1);
      LaterPage(pages, limits, kept, order, n);
    }
  }

  lemma {:induction false} NextPage(pages: seq<Page>, limits: seq<int>, kept: seq<Region>, order: Order, n: nat)
    requires Session(pages, limits, kept, order) && 0 < n <= |pages|
    ensures IsPage(pages[n - 1], kept, order, CursorBefore(pages, n - 1), Limit(limits[n - 1]))
    ensures n > 1 ==>
              && pages[n - 2].truncated && CursorBefore(pages, n - 1) == pages[n - 2].nextAfter
              && IsPage(pages[n - 2], kept, order, CursorBefore(pages, n - 2), Limit(limits[n - 2]))
    ensures RowsOf(pages, n) == RowsOf(pages, n - 1) + pages[n - 1].rows
  {
    assert PageAt(pages, limits, kept, order, n - 1);
    if n > 1 { assert PageAt(pages, limits, kept, order, n - 2); }
  }

  lemma {:induction false} PageFollows(done: seq<Region>, page: Page, kept: seq<Region>, order: Order, after: int,
                                       limit: nat)
    requires IsPage(page, kept, order, after, limit) && limit >= 1
    requires done == Listing(kept, order)[..Position(kept, order, after)]
    ensures var listing := Listing(kept, order);
            var stop := if page.truncated then Position(kept, order, page.nextAfter) else |listing|;
            && stop <= |listing| && done + page.rows == listing[..stop]
            && (page.truncated ==> stop > Position(kept, order, after))
  {
  }

  /** Following the cursor visits every qualifying region exactly once, in order, whatever the
      limits of the pages. */
  lemma {:induction false} EveryRegionOnce(pages: seq<Page>, limits: seq<int>, kept: seq<Region>, order: Order)
    requires Runs(kept) && Session(pages, limits, kept, order) && pages[|pages| - 1].nextAfter == -1
    ensures RowsOf(pages, |pages|) == Listing(kept, order)
    ensures multiset(RowsOf(pages, |pages|)) == multiset(kept)
  {
    PagesSoFar(pages, limits, kept, order, |pages|);
    assert PageAt(pages, limits, kept, order, |pages| - 1);
    TakeAll(Listing(kept, order));
  }

  /** The walk ends: no session is longer than the regions there are, and one. */
  lemma {:induction false} SessionsEnd(pages: seq<Page>, limits: seq<int>, kept: seq<Region>, order: Order)
    requires Runs(kept) && Session(pages, limits, kept, order)
    ensures |pages| <= |kept| + 1
  {
    PagesSoFar(pages, limits, kept, order, |pages|);
    ListingIsOrdered(kept, order);
  }
}
