/**
  The pagination cursor of a match request on its own: the page query used
  by NEXT, the cursor move one NEXT makes, and what a run of NEXT commands
  does from a fresh request.
*/
module Pagination {
  import opened Models

  /** The literal `limit(3)` of the NEXT query. */
  const PageLimit := 3

  function Min(a: int, b: int): int { if a <= b then a else b }

  /** Rows returned by `.offset(offset).limit(3)` (a negative offset reads as
      zero, as in SQLite). */
  function PageOf<T>(rows: seq<T>, offset: int): (page: seq<T>)
    ensures |page| <= PageLimit
    ensures |page| > 0 <==> 0 < |rows| && offset < |rows|
    ensures 0 <= offset < |rows| ==> |page| == Min(PageLimit, |rows| - offset)
    ensures 0 <= offset < |rows| ==> forall i :: 0 <= i < |page| ==> page[i] == rows[offset + i]
    ensures offset < 0 ==> page == rows[..Min(PageLimit, |rows|)]
  {
    var lo := if offset < 0 then 0 else if offset > |rows| then |rows| else offset;
    var hi := if lo + PageLimit < |rows| then lo + PageLimit else |rows|;
    rows[lo..hi]
  }

  /** The cursor move of one NEXT: the cursor advances only while matches
      remain. */
  function NextCursor(r: MatchRequest): MatchRequest {
    if HasMoreMatches(r) then AdvancePagination(r) else r
  }

  /** The request after `k` NEXT commands. */
  function CursorAfter(r: MatchRequest, k: nat): MatchRequest
    decreases k
  {
    if k == 0 then r else NextCursor(CursorAfter(r, k - 1))
  }

  /** Running `n` NEXT commands is one NEXT followed by the other `n - 1`. */
  lemma {:induction false} CursorAfterShift(r: MatchRequest, n: nat)
    requires n > 0
    ensures CursorAfter(NextCursor(r), n - 1) == CursorAfter(r, n)
    decreases n
  {
    if n > 1 {
      CursorAfterShift(r, n - 1);
    }
  }

  /** What every stored request satisfies: page size 3, offset a multiple of 3,
      and at most one (partial) page past the match count. */
  predicate CursorInvariant(r: MatchRequest) {
    && r.perPage == MatchesPerPage
    && r.offset % MatchesPerPage == 0
    && 0 <= r.offset < r.total + MatchesPerPage
  }

  /** Number of NEXT commands that return a page for `total` matches. */
  function PagesNeeded(total: nat): nat {
    (total + PageLimit - 1) / PageLimit
  }

  /** One NEXT keeps the cursor invariant. */
  lemma NextCursorKeeps(r: MatchRequest)
    requires CursorInvariant(r)
    ensures CursorInvariant(NextCursor(r))
    ensures NextCursor(r).(offset := r.offset) == r
  {
  }

  /** From a fresh request, the `k`-th cursor is `3 * min(k, PagesNeeded)`:
      the offset is always a multiple of 3, below total + 3, only the offset
      ever moves, and the cursor stops exactly when it reaches the total. */
  lemma {:induction false} CursorSchedule(r: MatchRequest, k: nat)
    requires r.offset == 0 && r.perPage == MatchesPerPage && r.total >= 0
    ensures CursorAfter(r, k).offset == MatchesPerPage * Min(k, PagesNeeded(r.total))
    ensures CursorInvariant(CursorAfter(r, k))
    ensures CursorAfter(r, k).(offset := 0) == r
    ensures HasMoreMatches(CursorAfter(r, k)) <==> k < PagesNeeded(r.total)
    decreases k
  {
    if k > 0 {
      CursorSchedule(r, k - 1);
      var c := CursorAfter(r, k - 1);
      NextCursorKeeps(c);
    }
  }

  /** A new request that has been given its match count `n` starts on a
      valid cursor at the first page: matches remain exactly when there are
      any, and after `k` NEXTs the offset is `3 * min(k, PagesNeeded(n))`. */
  lemma {:induction false} FreshRequestCursor(id: nat, userId: nat, ageStart: int, ageEnd: int,
                                              town: string, n: nat, k: nat)
    ensures var r := NewMatchRequest(id, userId, ageStart, ageEnd, town).(total := n);
      && CursorInvariant(r)
      && (HasMoreMatches(r) <==> n > 0)
      && CursorAfter(r, k).offset == MatchesPerPage * Min(k, PagesNeeded(n))
  {
    CursorSchedule(NewMatchRequest(id, userId, ageStart, ageEnd, town).(total := n), k);
  }

  /** Any number of NEXTs keeps the cursor invariant and moves only the
      offset. */
  lemma {:induction false} CursorAfterKeeps(r: MatchRequest, k: nat)
    requires CursorInvariant(r)
    ensures CursorInvariant(CursorAfter(r, k))
    ensures CursorAfter(r, k).(offset := r.offset) == r
    decreases k
  {
    if k > 0 {
      CursorAfterKeeps(r, k - 1);
      NextCursorKeeps(CursorAfter(r, k - 1));
    }
  }

  /** The rows one NEXT reads at cursor `r`: the page at the offset while
      matches remain, nothing once they are used up. */
  function PageAt<T>(rows: seq<T>, r: MatchRequest): seq<T> {
    if HasMoreMatches(r) then PageOf(rows, r.offset) else []
  }

  /** The pages `k` NEXT commands return, starting from cursor `r`. */
  function PagesFrom<T>(rows: seq<T>, r: MatchRequest, k: nat): seq<T>
    decreases k
  {
    if k == 0 then []
    else if HasMoreMatches(r) then PageOf(rows, r.offset) + PagesFrom(rows, NextCursor(r), k - 1)
    else PagesFrom(rows, NextCursor(r), k - 1)
  }

  /** The pages of `k` NEXTs are those of the first `k - 1` followed by the
      page at the cursor they leave. */
  lemma {:induction false} PagesFromSnoc<T>(rows: seq<T>, r: MatchRequest, k: nat)
    requires k > 0
    ensures PagesFrom(rows, r, k) == PagesFrom(rows, r, k - 1) + PageAt(rows, CursorAfter(r, k - 1))
    decreases k
  {
    if k > 1 {
      PagesFromSnoc(rows, NextCursor(r), k - 1);
      CursorAfterShift(r, k - 1);
      var head := PageAt(rows, r);
      assert PagesFrom(rows, r, k) == head + PagesFrom(rows, NextCursor(r), k - 1);
      assert PagesFrom(rows, r, k - 1) == head + PagesFrom(rows, NextCursor(r), k - 2);
    }
  }

  /** `k` NEXT commands from offset `o` deliver exactly the rows from `o`
      to `o + 3k` (cut at the end): in order, no gap, no repeat. */
  lemma {:induction false} PagesFromSlice<T>(rows: seq<T>, r: MatchRequest, k: nat)
    requires r.perPage == MatchesPerPage && r.total == |rows| && 0 <= r.offset
    ensures PagesFrom(rows, r, k) ==
              rows[Min(r.offset, |rows|)..Min(r.offset + MatchesPerPage * k, |rows|)]
    decreases k
  {
    if k > 0 {
      var next := NextCursor(r);
      PagesFromSlice(rows, next, k - 1);
      if HasMoreMatches(r) {
        var lo := r.offset;
        var mid := Min(r.offset + MatchesPerPage, |rows|);
        var hi := Min(r.offset + MatchesPerPage * k, |rows|);
        assert PageOf(rows, lo) == rows[lo..mid];
        assert next.offset == r.offset + MatchesPerPage;
        assert Min(next.offset + MatchesPerPage * (k - 1), |rows|) == hi;
        assert rows[lo..hi] == rows[lo..mid] + rows[mid..hi];
      }
    }
  }

  /** The NEXT commands that return a page, run from a fresh request, deliver
      the whole match list in position order; any further NEXT adds nothing. */
  lemma PagesCoverAllRows<T>(rows: seq<T>, r: MatchRequest, k: nat)
    requires r.offset == 0 && r.perPage == MatchesPerPage && r.total == |rows|
    requires k >= PagesNeeded(|rows|)
    ensures PagesFrom(rows, r, k) == rows
  {
    PagesFromSlice(rows, r, k);
  }
}
