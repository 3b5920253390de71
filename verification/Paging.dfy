/** Size-bounded pages over one immutable result list, and the chain a caller follows. */
module Paging {
  import opened Wrappers
  import opened Bytes
  import opened Cursor

  datatype Page = Page(
    offset: u64,
    limit: u64,
    returned: u64,
    totalItems: u64,
    hasMore: bool,
    nextCursor: Option<seq<byte>>,
    expiresAt: Option<u64>)

  datatype Window = Window(start: u64, end: u64, page: Page)

  /** What a cursor is bound to. */
  datatype Binding = Binding(operation: Text, generationId: Text, requestDigest: Text)

  function ContinuationAt(b: Binding, end: u64, expiresAt: u64): Payload {
    Payload(CURSOR_VERSION as byte, b.operation, b.generationId, b.requestDigest, end, expiresAt, [])
  }

  /** Resolve one page and, when needed, issue a continuation. */
  function PageWindow(c: Codec, b: Binding, cursor: Option<seq<byte>>, limit: u64, total: u64, now: u64)
    : (r: Result<Window, CursorError>)
    ensures r.Ok? ==> r.value.start <= r.value.end <= total
  {
    var decoded :=
      if cursor.None? then Ok(0 as u64)
      else
        var p := DecodeCursor(c, cursor.value, b.operation, b.generationId, b.requestDigest, now);
        if p.Err? then Err(p.error) else Ok(p.value.offset);
    if decoded.Err? then Err(decoded.error)
    else
      var offset := decoded.value;
      if offset > total then Err(OffsetBeyondPopulation)
      else
        var reach := SaturatingAdd(offset, limit);
        var end := if reach < total then reach else total;
        var hasMore := end < total;
        var expiresAt := SaturatingAdd(now, CURSOR_TTL);
        var next := if hasMore then Some(EncodeCursor(c, ContinuationAt(b, end, expiresAt))) else None;
        Ok(Window(offset, end,
          Page(offset, limit, end - offset, total, hasMore, next, if hasMore then Some(expiresAt) else None)))
  }

  // ---- choosing the largest page that fits ----

  /** How many characters a result serializes to, for the window it would show: with its
      facet previews, and, when it has any, without them. */
  datatype Sizes = Sizes(full: Window -> nat, withoutPreviews: Window -> Option<nat>, bound: nat)
  {
    predicate Fits(w: Window) {
      full(w) <= bound || (withoutPreviews(w).Some? && withoutPreviews(w).value <= bound)
    }
  }

  /** One request for a page. The clock is read again for every limit tried. */
  datatype Request = Request(cursor: Option<seq<byte>>, limit: u64, clock: int -> u64, sizes: Sizes)

  datatype PageError = BadCursor(error: CursorError) | TooLarge(smallest: nat)

  // ---- what a page is, by its fields ----

  /** Where the cursor of a request points; the beginning without one. */
  ghost predicate StartsAt(c: Codec, b: Binding, q: Request, limit: u64, start: u64) {
    match q.cursor
    case None => start == 0
    case Some(cursor) =>
      var p := DecodeCursor(c, cursor, b.operation, b.generationId, b.requestDigest, q.clock(limit));
      p.Ok? && p.value.offset == start
  }

  /** As many items as its limit says, or as are left, from where the cursor points; with the
      continuation that leads on from its end, if and only if something is left. */
  ghost predicate PageOf(c: Codec, b: Binding, total: u64, q: Request, w: Window) {
    && StartsAt(c, b, q, w.page.limit, w.start)
    && w.start <= total
    && w.end == (if w.start + w.page.limit < total then w.start + w.page.limit else total)
    && w.page.offset == w.start && w.page.returned == w.end - w.start && w.page.totalItems == total
    && (w.page.hasMore <==> w.end < total)
    && w.page.nextCursor.Some? == w.page.expiresAt.Some? == w.page.hasMore
    && (w.page.hasMore ==>
         && w.page.expiresAt.value == (
              if q.clock(w.page.limit) + 900 < U64_LIMIT then q.clock(w.page.limit) + 900 else U64_LIMIT - 1)
         && w.page.nextCursor.value == EncodeCursor(c, ContinuationAt(b, w.end, w.page.expiresAt.value)))
  }

  /** Why there is no page of a limit. */
  ghost predicate Refused(c: Codec, b: Binding, total: u64, q: Request, limit: u64, error: CursorError) {
    && q.cursor.Some?
    && var p := DecodeCursor(c, q.cursor.value, b.operation, b.generationId, b.requestDigest, q.clock(limit));
       if p.Ok? then total < p.value.offset && error == OffsetBeyondPopulation else error == p.error
  }

  /** A window resolves to the one page of its limit, or is refused. */
  lemma PageWindowIff(c: Codec, b: Binding, total: u64, q: Request, limit: u64)
    ensures var r := PageWindow(c, b, q.cursor, limit, total, q.clock(limit));
            && (forall w :: r == Ok(w) <==> PageOf(c, b, total, q, w) && w.page.limit == limit)
            && (forall e :: r == Err(e) <==> Refused(c, b, total, q, limit, e))
  {
    hide DecodeCursor, EncodeCursor;
  }

  // ---- what is selected ----

  /** Every limit above `limit` has a page, which does not fit. */
  ghost predicate AllTooLargeAbove(c: Codec, b: Binding, total: u64, q: Request, limit: int) {
    && (forall e: u64, error | limit < e <= q.limit :: !Refused(c, b, total, q, e, error))
    && (forall w | PageOf(c, b, total, q, w) && limit < w.page.limit <= q.limit :: !q.sizes.Fits(w))
  }

  /** The page of the largest limit, at or below the requested one, that fits. */
  ghost predicate LargestFitting(c: Codec, b: Binding, total: u64, q: Request, w: Window) {
    && 1 <= w.page.limit <= q.limit
    && PageOf(c, b, total, q, w)
    && (q.sizes.full(w) <= q.sizes.bound || (exists bare | q.sizes.withoutPreviews(w) == Some(bare) ::
         bare <= q.sizes.bound))
    && AllTooLargeAbove(c, b, total, q, w.page.limit)
  }

  ghost predicate CursorRefused(c: Codec, b: Binding, total: u64, q: Request, error: CursorError) {
    exists e: u64 | 1 <= e <= q.limit :: Refused(c, b, total, q, e, error) && AllTooLargeAbove(c, b, total, q, e)
  }

  /** A size some page produced, with and without previews alike. */
  ghost predicate SizeTried(c: Codec, b: Binding, total: u64, q: Request, limit: int, size: nat) {
    exists w | PageOf(c, b, total, q, w) && limit < w.page.limit <= q.limit ::
      size == q.sizes.full(w) || q.sizes.withoutPreviews(w) == Some(size)
  }

  ghost predicate NothingSmaller(c: Codec, b: Binding, total: u64, q: Request, limit: int, size: nat) {
    forall w | PageOf(c, b, total, q, w) && limit < w.page.limit <= q.limit ::
      && size <= q.sizes.full(w)
      && (q.sizes.withoutPreviews(w).Some? ==> size <= q.sizes.withoutPreviews(w).value)
  }

  /** Page selection in Assess: each limit is tried with and then without previews. */
  method SelectAssessPage(c: Codec, b: Binding, total: u64, q: Request) returns (r: Result<Window, PageError>)
    requires 1 <= q.limit
    ensures r.Ok? ==> LargestFitting(c, b, total, q, r.value)
    ensures r.Err? && r.error.BadCursor? ==> CursorRefused(c, b, total, q, r.error.error)
    ensures r.Err? && r.error.TooLarge? ==>
      && AllTooLargeAbove(c, b, total, q, 0)
      && q.sizes.bound < r.error.smallest
      && SizeTried(c, b, total, q, 0, r.error.smallest)
      && NothingSmaller(c, b, total, q, 0, r.error.smallest)
  {
    hide PageWindow, PageOf, Refused;
    var smallest: nat := 0;
    var limit := q.limit;
    while limit >= 1
      invariant 0 <= limit <= q.limit
      invariant AllTooLargeAbove(c, b, total, q, limit)
      invariant NothingSmaller(c, b, total, q, limit, smallest)
      invariant if limit == q.limit then smallest == 0 else
        q.sizes.bound < smallest && SizeTried(c, b, total, q, limit, smallest)
    {
      var window := PageWindow(c, b, q.cursor, limit, total, q.clock(limit));
      PageWindowIff(c, b, total, q, limit);
      if window.Err? {
        return Err(BadCursor(window.error));
      }
      var chars := q.sizes.full(window.value);
      smallest := if smallest == 0 || chars < smallest then chars else smallest;
      if chars <= q.sizes.bound {
        return Ok(window.value);
      }
      var bare := q.sizes.withoutPreviews(window.value);
      if bare.Some? {
        smallest := if bare.value < smallest then bare.value else smallest;
        if bare.value <= q.sizes.bound {
          return Ok(window.value);
        }
      }
      limit := limit - 1;
    }
    r := Err(TooLarge(smallest));
  }

  /** Page selection in Find and Audit: no previews, and the reported size is that of
      the last limit tried, one. */
  method SelectPage(c: Codec, b: Binding, total: u64, q: Request) returns (r: Result<Window, PageError>)
    requires 1 <= q.limit
    requires forall w :: q.sizes.withoutPreviews(w) == None
    ensures r.Ok? ==> LargestFitting(c, b, total, q, r.value)
    ensures r.Err? && r.error.BadCursor? ==> CursorRefused(c, b, total, q, r.error.error)
    ensures r.Err? && r.error.TooLarge? ==>
      && AllTooLargeAbove(c, b, total, q, 0)
      && exists last | PageOf(c, b, total, q, last) && last.page.limit == 1 ::
           r.error.smallest == q.sizes.full(last)
  {
    hide PageWindow, PageOf, Refused;
    var smallest: nat := 0;
    var limit := q.limit;
    while limit >= 1
      invariant 0 <= limit <= q.limit
      invariant AllTooLargeAbove(c, b, total, q, limit)
      invariant limit < q.limit ==> exists last | PageOf(c, b, total, q, last) && last.page.limit == limit + 1 ::
        smallest == q.sizes.full(last)
    {
      var window := PageWindow(c, b, q.cursor, limit, total, q.clock(limit));
      PageWindowIff(c, b, total, q, limit);
      if window.Err? {
        return Err(BadCursor(window.error));
      }
      smallest := q.sizes.full(window.value);
      if smallest <= q.sizes.bound {
        return Ok(window.value);
      }
      limit := limit - 1;
    }
    r := Err(TooLarge(smallest));
  }

  // ---- following the cursor ----

  /** A run of requests in which each carries the cursor of the page before it. */
  ghost predicate IsChain(c: Codec, b: Binding, total: u64, qs: seq<Request>, ws: seq<Window>) {
    && |qs| == |ws| > 0
    && qs[0].cursor == None
    && (forall k | 0 <= k < |qs| :: LargestFitting(c, b, total, qs[k], ws[k]))
    && (forall k | 0 <= k < |qs| - 1 :: ws[k].page.nextCursor.Some? && qs[k + 1].cursor == ws[k].page.nextCursor)
  }

  /** What a window shows and issues, whatever limit produced it. */
  ghost predicate Issued(c: Codec, b: Binding, total: u64, w: Window) {
    && w.start <= w.end <= total
    && (w.start < total ==> w.start < w.end)
    && w.page.offset == w.start && w.page.returned == w.end - w.start && w.page.totalItems == total
    && (w.page.hasMore <==> w.end < total)
    && (w.page.nextCursor.Some? <==> w.page.hasMore) && (w.page.expiresAt.Some? <==> w.page.hasMore)
    && (w.page.hasMore ==> w.page.nextCursor.value == EncodeCursor(c, ContinuationAt(b, w.end, w.page.expiresAt.value)))
  }

  lemma PageIssued(c: Codec, b: Binding, total: u64, q: Request, w: Window)
    requires LargestFitting(c, b, total, q, w)
    ensures Issued(c, b, total, w)
    ensures q.cursor == None ==> w.start == 0
  {
    hide DecodeCursor, EncodeCursor;
  }

  /** The continuation of a page is honoured by the same query exactly until it expires,
      and then resumes where that page ended. */
  lemma ContinuationHonoured(c: Codec, b: Binding, total: u64, w: Window, limit: u64, now: u64)
    requires c.Faithful()
    requires Issued(c, b, total, w) && w.page.hasMore
    ensures var r := PageWindow(c, b, w.page.nextCursor, limit, total, now);
            && (r.Ok? <==> now <= w.page.expiresAt.value)
            && (r.Ok? ==> r.value.start == w.end)
            && (r.Err? ==> r.error == Expired)
  {
    IssuedCursorDecodes(c, ContinuationAt(b, w.end, w.page.expiresAt.value),
      b.operation, b.generationId, b.requestDigest, now);
    hide DecodeCursor, EncodeCursor, Checksum;
  }

  lemma NextPageStarts(c: Codec, b: Binding, total: u64, w: Window, q: Request, next: Window)
    requires c.Faithful()
    requires Issued(c, b, total, w) && w.page.hasMore
    requires q.cursor == w.page.nextCursor
    requires LargestFitting(c, b, total, q, next)
    ensures next.start == w.end
  {
    var limit := next.page.limit;
    ContinuationHonoured(c, b, total, w, limit, q.clock(limit));
    PageWindowIff(c, b, total, q, limit);
    hide PageWindow, Issued, PageOf, Refused;
    assert PageWindow(c, b, q.cursor, limit, total, q.clock(limit)) == Ok(next);
  }

  function Shown<T>(items: seq<T>, ws: seq<Window>): seq<T>
    requires forall w | w in ws :: 0 <= w.start <= w.end <= |items|
  {
    if ws == [] then [] else Shown(items, ws[..|ws| - 1]) + items[ws[|ws| - 1].start..ws[|ws| - 1].end]
  }

  /** Windows that each start where the one before ended, the first at zero. */
  ghost predicate Contiguous(total: int, ws: seq<Window>) {
    && ws != []
    && (forall k | 0 <= k < |ws| :: Spans(total, ws[k]))
    && ws[0].start == 0
    && (forall k | 0 <= k < |ws| - 1 :: Follows(total, ws[k], ws[k + 1]))
  }

  ghost predicate Follows(total: int, w: Window, next: Window) {
    next.start == w.end < total
  }

  lemma {:induction false} ContiguousShows<T>(items: seq<T>, ws: seq<Window>)
    requires Contiguous(|items|, ws)
    ensures forall w | w in ws :: 0 <= w.start <= w.end <= |items|
    ensures Shown(items, ws) == items[..ws[|ws| - 1].end]
    ensures |ws| <= ws[|ws| - 1].end || (|ws| == 1 && items == [])
    ensures !ws[|ws| - 1].page.hasMore <==> Shown(items, ws) == items
  {
    var last := |ws| - 1;
    assert Spans(|items|, ws[last]);
    if last == 0 {
      assert ws[..0] == [];
    } else {
      assert Follows(|items|, ws[last - 1], ws[last - 1 + 1]);
      ContiguousShows(items, ws[..last]);
      assert items[..ws[last].end] == items[..ws[last].start] + items[ws[last].start..ws[last].end];
    }
    assert items[..|items|] == items;
  }

  /** Following the cursor visits the items once each and in order, whatever limits are
      asked for and whatever sizes results serialize to: the pages so far are a prefix,
      every page makes progress, and the last page is the one that completes the list. */
  lemma ChainPartitions<T>(c: Codec, b: Binding, items: seq<T>, qs: seq<Request>, ws: seq<Window>)
    requires c.Faithful()
    requires |items| < U64_LIMIT
    requires IsChain(c, b, |items|, qs, ws)
    ensures forall w | w in ws :: 0 <= w.start <= w.end <= |items|
    ensures Shown(items, ws) == items[..ws[|ws| - 1].end]
    ensures |ws| <= ws[|ws| - 1].end || (|ws| == 1 && items == [])
    ensures !ws[|ws| - 1].page.hasMore <==> Shown(items, ws) == items
  {
    ChainContiguous(c, b, |items|, qs, ws);
    hide IsChain, Contiguous, Shown;
    ContiguousShows(items, ws);
  }

  /** Each page of a chain starts where the one before it ended. */
  lemma ChainContiguous(c: Codec, b: Binding, total: u64, qs: seq<Request>, ws: seq<Window>)
    requires c.Faithful()
    requires IsChain(c, b, total, qs, ws)
    ensures Contiguous(total, ws)
  {
    hide LargestFitting;
    forall k | 0 <= k < |ws| ensures Spans(total, ws[k]) {
      PageIssued(c, b, total, qs[k], ws[k]);
      hide EncodeCursor;
    }
    PageIssued(c, b, total, qs[0], ws[0]);
    forall k | 0 <= k < |ws| - 1 ensures Follows(total, ws[k], ws[k + 1]) {
      PageIssued(c, b, total, qs[k], ws[k]);
      hide EncodeCursor;
      NextPageStarts(c, b, total, ws[k], qs[k + 1], ws[k + 1]);
    }
  }

  ghost predicate Spans(total: int, w: Window) {
    && 0 <= w.start <= w.end <= total
    && (w.start < total ==> w.start < w.end)
    && (w.page.hasMore <==> w.end < total)
  }
}
