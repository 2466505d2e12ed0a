/**
 * Which rows a page holds: recent blocks counted back from the tip in wrapping 64-bit arithmetic,
 * and slices of a pool snapshot.
 */
module Paging {
  import opened Words

  const I64_LIMIT := 0x8000_0000_0000_0000

  /** `x as i64`. */
  function AsSigned(x: U64): int {
    if x < I64_LIMIT then x else x - U64_LIMIT
  }

  function DivCeil(a: nat, b: nat): nat
    requires b > 0
  {
    if a % b == 0 then a / b else a / b + 1
  }

  /** How many pages a client is told there are. */
  function TotalPages(rows: nat, limit: nat): nat {
    if limit == 0 then 0 else DivCeil(rows, limit)
  }

  /** As many as it takes and no more; none for no rows, and none for a limit of zero. */
  lemma TotalPagesExactly(rows: nat, limit: nat)
    ensures limit == 0 || rows == 0 ==> TotalPages(rows, limit) == 0
    ensures limit > 0 && rows > 0 ==>
              && TotalPages(rows, limit) >= 1
              && (TotalPages(rows, limit) - 1) * limit < rows <= TotalPages(rows, limit) * limit
  {
    if limit > 0 {
      DivCeilCovers(rows, limit);
      MulDistributes(TotalPages(rows, limit), -1, limit);
      assert TotalPages(rows, limit) == 0 ==> TotalPages(rows, limit) * limit == 0;
    }
    hide DivCeil;
  }

  // ---------------------------------------------------------------- blocks

  function PageStart(page: U64, limit: U64, height: U64): U64 {
    var span := WrappingMul(limit, WrappingAdd(page, 1));
    Max(AsSigned(WrappingSub(height, span)), 0)
  }

  function PageEnd(page: U64, limit: U64, height: U64): U64 {
    SaturatingSub(Min(SaturatingAdd(PageStart(page, limit, height), limit), height), 1)
  }

  /** Nothing is fetched otherwise. */
  predicate Served(page: U64, limit: U64, height: U64) {
    PageStart(page, limit, height) < height && limit > 0
  }

  /** Whatever the page number, wrapped or not, a served range lies on the chain and is no wider than the limit. */
  lemma ServedRange(page: U64, limit: U64, height: U64)
    requires Served(page, limit, height)
    ensures PageStart(page, limit, height) <= PageEnd(page, limit, height) < height
    ensures PageEnd(page, limit, height) - PageStart(page, limit, height) < limit
    ensures PageEnd(page, limit, height) - PageStart(page, limit, height) == limit - 1
            || PageEnd(page, limit, height) == height - 1
  {
    hide PageStart;
  }

  /** The page's far end is at most 2^63 below the bottom of the chain. */
  predicate NoWrap(page: U64, limit: U64, height: U64) {
    limit * (page + 1) <= height + I64_LIMIT && height < I64_LIMIT
  }

  /** How far a page reaches back is what its distance would be without bounds, modulo 2^64. */
  lemma SpanWraps(page: U64, limit: U64)
    ensures WrappingMul(limit, WrappingAdd(page, 1)) == limit * (page + 1) % U64_LIMIT
  {
    if page + 1 == U64_LIMIT {
      assert WrappingAdd(page, 1) == 0;
      RemainderPeriodic(0, U64_LIMIT, limit);
    }
  }

  lemma PageStartNoWrap(page: U64, limit: U64, height: U64)
    requires NoWrap(page, limit, height)
    ensures PageStart(page, limit, height) == Max(height - limit * (page + 1), 0)
  {
    MulMonotone(0, limit, page + 1);
    NoWrapIsExact(page, limit, height);
    hide PageStart;
  }

  /** And no further: from there to where the span has gone round once, the start is wrong. */
  lemma NoWrapIsExact(page: U64, limit: U64, height: U64)
    requires height < I64_LIMIT && limit * (page + 1) < height + U64_LIMIT
    ensures PageStart(page, limit, height) == Max(height - limit * (page + 1), 0) <==> NoWrap(page, limit, height)
  {
    SpanWraps(page, limit);
    MulMonotone(0, limit, page + 1);
    StartOfSpan(limit * (page + 1), height);
    hide WrappingMul, WrappingAdd, WrappingSub, AsSigned;
  }

  lemma StartOfSpan(span: nat, height: U64)
    requires height < I64_LIMIT && span < height + U64_LIMIT
    ensures Max(AsSigned(WrappingSub(height, span % U64_LIMIT)), 0) == Max(height - span, 0)
            <==> span <= height + I64_LIMIT
  {
    var turns := if span >= U64_LIMIT then 1 else 0;
    QuotientUnique(span, U64_LIMIT, turns, span - turns * U64_LIMIT);
    var d := height - span % U64_LIMIT;
    QuotientUnique(d, U64_LIMIT, if d < 0 then -1 else 0, if d < 0 then d + U64_LIMIT else d);
  }

  /** The page that counts back to height h. */
  function PageOf(h: U64, limit: U64, height: U64): U64
    requires limit > 0 && h < height
  {
    (height - 1 - h) / limit
  }

  lemma PageOfBounds(h: U64, limit: U64, height: U64)
    requires limit > 0 && h < height
    ensures var p := PageOf(h, limit, height);
            && limit * p <= height - 1 - h < limit * (p + 1)
            && p < TotalPages(height, limit)
  {
    var p := PageOf(h, limit, height);
    assert height - 1 - h == limit * p + (height - 1 - h) % limit;
    MulDistributes(p, 1, limit);
    if p >= TotalPages(height, limit) {
      MulMonotone(TotalPages(height, limit), p, limit);
      DivCeilCovers(height, limit);
    }
  }

  lemma DivCeilCovers(a: nat, b: nat)
    requires b > 0
    ensures a <= DivCeil(a, b) * b < a + b
  {
    assert a == b * (a / b) + a % b;
    MulDistributes(a / b, 1, b);
  }

  /** Every height is on one of the pages a client is told there are. */
  lemma PagesCover(h: U64, limit: U64, height: U64)
    requires limit > 0 && h < height < I64_LIMIT && limit <= I64_LIMIT
    ensures var p := PageOf(h, limit, height);
            && p < TotalPages(height, limit)
            && Served(p, limit, height)
            && PageStart(p, limit, height) <= h <= PageEnd(p, limit, height)
  {
    var p := PageOf(h, limit, height);
    PageOfBounds(h, limit, height);
    MulDistributes(p, 1, limit);
    PageStartNoWrap(p, limit, height);
    hide PageStart, PageOf, TotalPages;
  }

  /** Full pages tile the chain downwards from the tip: each ends right below the one before it. */
  lemma FullPagesTile(page: U64, limit: U64, height: U64)
    requires limit > 0 && limit * (page + 1) <= height < I64_LIMIT
    ensures PageEnd(page, limit, height) - PageStart(page, limit, height) == limit - 1
    ensures PageEnd(page, limit, height) + 1 == if page == 0 then height else PageStart(page - 1, limit, height)
  {
    MulDistributes(page, 1, limit);
    MulMonotone(1, page + 1, limit);
    PageStartNoWrap(page, limit, height);
    if page > 0 {
      MulMonotone(page, page + 1, limit);
      PageStartNoWrap(page - 1, limit, height);
    }
    hide PageStart;
  }

  /**
   * A last page with less than `limit` blocks left is not cut short: it starts at the bottom of the
   * chain and shows again, from the page before it, exactly what is missing to make it full.
   */
  lemma LastPageOverlaps(page: U64, limit: U64, height: U64)
    requires page > 0 && limit * page < height < limit * (page + 1) && NoWrap(page, limit, height)
    ensures PageStart(page, limit, height) == 0 && PageEnd(page, limit, height) == limit - 1
    ensures PageEnd(page, limit, height) + 1 - PageStart(page - 1, limit, height) == limit * (page + 1) - height > 0
  {
    MulDistributes(page, 1, limit);
    MulMonotone(1, page, limit);
    PageStartNoWrap(page, limit, height);
    PageStartNoWrap(page - 1, limit, height);
    hide PageStart;
  }

  /** Pages wrap: two that are a multiple of 2^64 rows apart are the same page, on every chain. */
  lemma FarPageWraps(page: U64, page': U64, limit: U64, height: U64)
    requires (limit * page' - limit * page) % U64_LIMIT == 0
    ensures PageStart(page', limit, height) == PageStart(page, limit, height)
    ensures PageEnd(page', limit, height) == PageEnd(page, limit, height)
  {
    SpanWraps(page, limit);
    SpanWraps(page', limit);
    MulDistributes(page, 1, limit);
    MulDistributes(page', 1, limit);
    var k := (limit * page' - limit * page) / U64_LIMIT;
    RemainderPeriodic(limit * (page + 1), U64_LIMIT, k);
    hide WrappingMul, WrappingAdd;
    assert limit * (page' + 1) == limit * (page + 1) + U64_LIMIT * k;
  }

  /** With 32 to a page, page 2^59 is page 0, the tip. */
  lemma FirstPageReturns(height: U64)
    ensures PageStart(0x800_0000_0000_0000, 32, height) == PageStart(0, 32, height)
  {
    FarPageWraps(0, 0x800_0000_0000_0000, 32, height);
    hide PageStart;
  }

  // ---------------------------------------------------------------- the pool

  /** Rows skipped and taken, with the product saturating rather than wrapping. */
  function PoolPage<T>(pool: seq<T>, page: U64, limit: U64): seq<T> {
    var skip := SaturatingMul(page, limit);
    var from := Min(skip, |pool|);
    pool[from..Min(from + limit, |pool|)]
  }

  /** The first n pages, one after the other. */
  function PoolPages<T>(pool: seq<T>, n: nat, limit: U64): seq<T>
    requires n <= U64_LIMIT
  {
    if n == 0 then [] else PoolPages(pool, n - 1, limit) + PoolPage(pool, n - 1, limit)
  }

  lemma {:induction false} PoolPagesPrefix<T>(pool: seq<T>, n: nat, limit: U64)
    requires |pool| < U64_LIMIT && n <= U64_LIMIT
    ensures 0 <= n * limit && PoolPages(pool, n, limit) == pool[..Min(n * limit, |pool|)]
  {
    hide PoolPage;
    MulMonotone(0, n, limit);
    if n != 0 {
      PoolPagesPrefix(pool, n - 1, limit);
      PoolPageIs(pool, n - 1, limit);
      var a, b := Min((n - 1) * limit, |pool|), Min(n * limit, |pool|);
      hide PoolPages;
      assert pool[..b] == pool[..a] + pool[a..b];
    }
  }

  lemma PoolPageIs<T>(pool: seq<T>, page: U64, limit: U64)
    requires |pool| < U64_LIMIT
    ensures 0 <= page * limit <= (page + 1) * limit
    ensures PoolPage(pool, page, limit) == pool[Min(page * limit, |pool|)..Min((page + 1) * limit, |pool|)]
  {
    MulMonotone(0, page, limit);
    MulDistributes(page, 1, limit);
  }

  /** The pages a client is told there are hold the whole snapshot, each row once and in order. */
  lemma PoolPagesCover<T>(pool: seq<T>, limit: U64)
    requires 0 < limit && |pool| < U64_LIMIT
    ensures TotalPages(|pool|, limit) <= U64_LIMIT
    ensures PoolPages(pool, TotalPages(|pool|, limit), limit) == pool
  {
    var n := TotalPages(|pool|, limit);
    DivCeilCovers(|pool|, limit);
    TotalBound(|pool|, limit);
    PoolPagesPrefix(pool, n, limit);
    assert pool[..|pool|] == pool;
  }

  lemma TotalBound(rows: nat, limit: nat)
    requires limit > 0
    ensures TotalPages(rows, limit) <= rows
  {
    var total := DivCeil(rows, limit);
    DivCeilCovers(rows, limit);
    if total > rows {
      MulMonotone(rows + 1, total, limit);
      MulDistributes(rows, 1, limit);
      MulMonotone(1, limit, rows);
    }
    hide DivCeil;
  }
}
