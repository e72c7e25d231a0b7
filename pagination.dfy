/**
 * The page/pageSize clamp every listing service repeats:
 *   limit  = Math.max(1, Math.min(100, pageSize))
 *   offset = (Math.max(1, page) - 1) * limit
 * Page numbers and sizes are integers here (see README, "Left out").
 */
module Pagination {

  /** Defaults of the `list(page = 1, pageSize = 20)` signatures. */
  const DefaultPage: int := 1
  const DefaultPageSize: int := 20
  const MaxPageSize: int := 100

  datatype Window = Window(limit: int, offset: int)

  function Max(a: int, b: int): int { if a >= b then a else b }
  function Min(a: int, b: int): int { if a <= b then a else b }

  function Clamp(page: int, pageSize: int): (w: Window)
    ensures 1 <= w.limit <= MaxPageSize
    ensures 1 <= pageSize <= MaxPageSize ==> w.limit == pageSize
    ensures pageSize < 1 ==> w.limit == 1
    ensures pageSize > MaxPageSize ==> w.limit == MaxPageSize
    ensures page <= 1 ==> w.offset == 0
    ensures page >= 1 ==> w.offset == (page - 1) * w.limit
    ensures w.offset >= 0
  {
    var limit := Max(1, Min(MaxPageSize, pageSize));
    MulNonNegative(Max(1, page) - 1, limit);
    Window(limit, (Max(1, page) - 1) * limit)
  }

  lemma MulNonNegative(a: int, b: int)
    requires a >= 0 && b >= 0
    ensures a * b >= 0
  {
  }

  /** Consecutive pages are adjacent windows: page p + 1 starts exactly
      where page p ends, so pages neither overlap nor leave gaps. */
  lemma NextPageIsAdjacent(page: int, pageSize: int)
    requires page >= 1
    ensures Clamp(page + 1, pageSize).limit == Clamp(page, pageSize).limit
    ensures Clamp(page + 1, pageSize).offset
            == Clamp(page, pageSize).offset + Clamp(page, pageSize).limit
  {
    var w := Clamp(page, pageSize);
    assert Clamp(page + 1, pageSize).offset == page * w.limit;
    assert page * w.limit == (page - 1) * w.limit + w.limit;
  }

  /** Distinct pages (numbered from 1) select disjoint row ranges: a later
      page starts at or after the end of an earlier one. */
  lemma {:induction false} LaterPageStartsAfter(p: int, q: int, pageSize: int)
    requires 1 <= p < q
    ensures Clamp(q, pageSize).offset >= Clamp(p, pageSize).offset + Clamp(p, pageSize).limit
    decreases q - p
  {
    NextPageIsAdjacent(q - 1, pageSize);
    if p < q - 1 {
      LaterPageStartsAfter(p, q - 1, pageSize);
    }
  }

  /** Clamping is idempotent on the size: re-clamping a clamped limit is a no-op. */
  lemma ClampIdempotent(page: int, pageSize: int)
    ensures var w := Clamp(page, pageSize);
            Clamp(page, w.limit) == w
  {
  }

  /** With no paging arguments a listing returns the first 20 rows. */
  lemma DefaultWindow()
    ensures Clamp(DefaultPage, DefaultPageSize) == Window(20, 0)
  {
  }
}
