/** Offset pagination: slices of a fixed ordered result, with the page count computed as the
    source does it, by a floating-point division inside `ceil`. */
module OffsetPages {
  import opened Arithmetic

  function Pow2(k: nat): nat {
    if k == 0 then 1 else 2 * Pow2(k - 1)
  }

  const TWO_TO_52: nat := 4503599627370496
  const TWO_TO_53: nat := 9007199254740992

  // --- Doubles ------------------------------------------------------------------------------

  /** The finite values of IEEE 754 binary64: m * 2^e, |m| at most 2^53, e from -1074 to 971. */
  ghost predicate IsDouble(x: real) {
    exists m: int, k: nat :: IsScaled(x, m, k)
  }

  ghost predicate IsScaled(x: real, m: int, k: nat) {
    && -(TWO_TO_53 as int) <= m <= TWO_TO_53
    && ((k <= 1074 && x * Pow2(k) as real == m as real) || (k <= 971 && x == m as real * Pow2(k) as real))
  }

  function Abs(x: real): real {
    if x < 0.0 then -x else x
  }

  /** No double is nearer to the argument than the result: IEEE 754 round-to-nearest, whatever
      it does with ties. */
  ghost predicate RoundsToNearest(round: real -> real) {
    forall x: real, d: real | IsDouble(d) :: Abs(round(x) - x) <= Abs(d - x)
  }

  function Ceil(x: real): int {
    -((-x).Floor)
  }

  lemma IntegerIsDouble(n: nat)
    requires n <= TWO_TO_53
    ensures IsDouble(n as real)
  {
    assert IsScaled(n as real, n, 0);
  }

  // --- The float ceiling is the integer ceiling ---------------------------------------------------

  /** The integer ceiling of total/size. */
  function PageCount(total: nat, size: nat): nat
    requires size > 0
  {
    (total + size - 1) / size
  }

  lemma PageCountMeaning(total: nat, size: nat)
    requires size > 0
    ensures (PageCount(total, size) - 1) * size < total <= PageCount(total, size) * size
  {
    var a, c := total + size - 1, PageCount(total, size);
    assert c * size <= a < c * size + size;
    assert (c - 1) * size == c * size - size;
  }

  /** Scales `n` up to 53 bits. */
  lemma {:induction false} Normalise(n: nat, k: nat, scaled: nat) returns (e: nat)
    requires 1 <= n && scaled == n * Pow2(k) && Pow2(k) <= scaled < TWO_TO_53 && k <= 52
    ensures TWO_TO_52 <= n * Pow2(e) < TWO_TO_53 && e <= 52
    decreases TWO_TO_53 - scaled
  {
    if TWO_TO_52 <= scaled {
      e := k;
    } else {
      PowBound(k);
      assert n * Pow2(k + 1) == 2 * scaled by {
        var p := Pow2(k);
        assert Pow2(k + 1) == 2 * p;
        hide Pow2;
        assert n * (2 * p) == 2 * (n * p);
      }
      e := Normalise(n, k + 1, 2 * scaled);
    }
  }

  lemma {:induction false} PowBound(k: nat)
    ensures Pow2(k) >= 1
    ensures k >= 52 ==> Pow2(k) >= TWO_TO_52
  {
    if k == 52 {
      Pow52();
    } else if k > 0 {
      PowBound(k - 1);
    }
  }

  lemma Pow52()
    ensures Pow2(52) == TWO_TO_52
  {
    assert Pow2(10) == 1024;
    assert Pow2(20) == 1048576;
    assert Pow2(30) == 1073741824;
    assert Pow2(40) == 1099511627776;
  }

  /** The double next above an integer `n`, on the scale that gives `n` 53 bits. */
  lemma NextDouble(n: nat, e: nat, d: real)
    requires n * Pow2(e) < TWO_TO_53 && e <= 52 && d * Pow2(e) as real == (n * Pow2(e) + 1) as real
    ensures IsDouble(d)
  {
    assert IsScaled(d, n * Pow2(e) + 1, e);
  }

  /** Nearest rounding does not fall below a double that is not above the argument, nor rise
      above one that is not below it. */
  lemma RoundingRespects(round: real -> real, x: real, d: real)
    requires RoundsToNearest(round) && IsDouble(d)
    ensures d <= x ==> round(x) >= d
    ensures x <= d ==> round(x) <= d
  {
    assert Abs(round(x) - x) <= Abs(d - x);
  }

  lemma MulLe(a: real, b: real, c: real)
    requires a <= b && c >= 0.0
    ensures a * c <= b * c
  {}

  /** A reciprocal is no larger than a quotient over no larger a divisor. */
  lemma SmallDoubleFits(d: real, p: real, q: real, s: real)
    requires d * p == 1.0 && q * s >= 1.0 && 0.0 < s <= p
    ensures 0.0 < d <= q
  {
    if d <= 0.0 {
      MulLe(d, 0.0, p);
    }
    MulLe(s, p, d);
    if q < d {
      MulLe(q, d, s);
      Cancel(q, d, s);
    }
  }

  lemma Cancel(q: real, d: real, s: real)
    requires q < d && s > 0.0
    ensures q * s < d * s
  {}

  /** The reciprocal of the size is no smaller than the least positive double. */
  ghost predicate SizeFits(size: nat) {
    exists k: nat :: k <= 1074 && size <= Pow2(k)
  }

  /** A positive quotient rounds to something positive. */
  lemma RoundsAboveZero(round: real -> real, total: nat, size: nat, q: real)
    requires RoundsToNearest(round) && 1 <= total && 0 < size && SizeFits(size) && q * size as real == total as real
    ensures round(q) > 0.0
  {
    hide Pow2;
    var k: nat :| k <= 1074 && size <= Pow2(k);
    var p := Pow2(k) as real;
    var d := 1.0 / p;
    assert d * p == 1.0;
    SmallDoubleFits(d, p, q, size as real);
    assert IsScaled(d, 1, k);
    RoundingRespects(round, q, d);
  }

  /** A quotient just above an integer does not round down to it: half the gap to the next
      double is less than the least distance a quotient can have. */
  lemma RoundsAboveInteger(round: real -> real, total: nat, size: nat, q: real, n: nat)
    requires RoundsToNearest(round) && total <= TWO_TO_53 && size > 0 && q * size as real == total as real
    requires 1 <= n && n * size < total
    ensures round(q) > n as real
  {
    MulLeInt(1, size, n);
    var e := Normalise(n, 0, n);
    PowBound(e);
    GapTooWide(round, total, size, q, n, Pow2(e), e);
  }

  lemma GapTooWide(round: real -> real, total: nat, size: nat, q: real, n: nat, p: nat, e: nat)
    requires RoundsToNearest(round) && total <= TWO_TO_53 && size > 0 && q * size as real == total as real
    requires 1 <= n && n * size < total
    requires p == Pow2(e) && p >= 1 && e <= 52 && TWO_TO_52 <= n * p < TWO_TO_53
    ensures round(q) > n as real
  {
    hide Pow2;
    var d := n as real + 1.0 / p as real;
    assert d * p as real == (n * p + 1) as real;
    NextDouble(n, e, d);
    if d <= q {
      RoundingRespects(round, q, d);
      assert d > n as real;
    } else if round(q) <= n as real {
      assert Abs(round(q) - q) <= Abs(d - q);
      DistanceTooSmall(total, size, q, n, p);
    }
  }

  /** The quotient exceeds `n` by more than half of 1/p. */
  lemma DistanceTooSmall(total: nat, size: nat, q: real, n: nat, p: nat)
    requires total <= TWO_TO_53 && size > 0 && q * size as real == total as real
    requires n * size < total && p >= 1 && TWO_TO_52 <= n * p
    ensures 2.0 * (q - n as real) > 1.0 / p as real
  {
    var gap := q - n as real;
    assert gap * size as real == (total - n * size) as real;
    assert n * (2 * p) == 2 * (n * p);
    assert size < 2 * p by {
      if size >= 2 * p {
        MulLeInt(2 * p, size, n);
      }
    }
    if 2.0 * gap <= 1.0 / p as real {
      MulLe(2.0 * gap, 1.0 / p as real, p as real);
      assert 2.0 * gap * p as real <= 1.0;
      assert gap > 0.0;
      Cancel(size as real, (2 * p) as real, gap);
    }
  }

  /** For every total up to 2^53, `ceil(total / size)` in floating point is the integer ceiling. */
  lemma FloatCeiling(round: real -> real, total: nat, size: nat)
    requires RoundsToNearest(round) && total <= TWO_TO_53 && 0 < size && SizeFits(size)
    ensures Ceil(round(total as real / size as real)) == PageCount(total, size)
  {
    hide Pow2;
    var q := total as real / size as real;
    assert q * size as real == total as real;
    var n := PageCount(total, size);
    PageCountMeaning(total, size);
    PageCountFits(total, size);
    assert q <= n as real by {
      if q > n as real {
        Cancel(n as real, q, size as real);
      }
    }
    IntegerIsDouble(n);
    RoundingRespects(round, q, n as real);
    if total == 0 {
      IntegerIsDouble(0);
      RoundingRespects(round, q, 0.0);
    } else if n == 1 {
      RoundsAboveZero(round, total, size, q);
    } else {
      RoundsAboveInteger(round, total, size, q, n - 1);
    }
    CeilBetween(round(q), n);
  }

  lemma PageCountFits(total: nat, size: nat)
    requires size > 0
    ensures PageCount(total, size) <= total
    ensures total > 0 ==> PageCount(total, size) >= 1
    ensures total == 0 ==> PageCount(total, size) == 0
  {
    PageCountMeaning(total, size);
    var n := PageCount(total, size);
    if n > total {
      MulLeInt(total, n - 1, size);
      MulLeInt(1, size, total);
    }
  }

  lemma CeilBetween(x: real, n: int)
    requires x <= n as real && (x > (n - 1) as real)
    ensures Ceil(x) == n
  {}

  /** The bound on the total is tight: one above 2^53 the page count comes out wrong, because
      the quotient is no double. */
  lemma WrongBeyondTwoTo53(round: real -> real)
    requires forall x :: IsDouble(round(x))
    ensures Ceil(round((TWO_TO_53 + 1) as real / 1.0)) != PageCount(TWO_TO_53 + 1, 1)
  {
    var x := (TWO_TO_53 + 1) as real;
    assert x / 1.0 == x && PageCount(TWO_TO_53 + 1, 1) == TWO_TO_53 + 1;
    var y := round(x);
    var m: int, k: nat :| IsScaled(y, m, k);
    if Ceil(y) == TWO_TO_53 + 1 {
      BigDoublesAreEven(y, m, k);
    }
  }

  /** No double lies above 2^53 and not above 2^53 + 1. */
  lemma BigDoublesAreEven(y: real, m: int, k: nat)
    requires IsScaled(y, m, k)
    ensures !(TWO_TO_53 as real < y <= (TWO_TO_53 + 1) as real)
  {
    assert Pow2(0) == 1;
    hide Pow2;
    PowBound(k);
    if y * Pow2(k) as real == m as real {
      ScaledDown(y, m, Pow2(k));
    } else if k > 0 {
      EvenMultiple(m, k);
      EvenGap(y, m * Pow2(k - 1));
    }
  }

  lemma ScaledDown(y: real, m: int, p: nat)
    requires p >= 1 && m <= TWO_TO_53 && y * p as real == m as real
    ensures y <= TWO_TO_53 as real
  {
    if y > 0.0 {
      MulLe(1.0, p as real, y);
    }
  }

  lemma EvenGap(y: real, half: int)
    requires y == (2 * half) as real
    ensures !(TWO_TO_53 as real < y <= (TWO_TO_53 + 1) as real)
  {}

  lemma EvenMultiple(m: int, k: nat)
    requires k > 0
    ensures m as real * Pow2(k) as real == (2 * (m * Pow2(k - 1))) as real
  {
    var p := Pow2(k - 1);
    assert m * (2 * p) == 2 * (m * p);
    assert m as real * (2 * p) as real == (m * (2 * p)) as real;
  }

  ghost predicate CountsRightly(round: real -> real, total: nat, size: nat)
    requires size > 0
  {
    Ceil(round(total as real / size as real)) == PageCount(total, size)
  }

  /** The page count is right for every total up to `t`, whatever the page size, if and only if `t`
      is not above 2^53. */
  lemma RightIffUpToTwoTo53(round: real -> real, t: nat)
    requires RoundsToNearest(round) && forall x :: IsDouble(round(x))
    ensures t <= TWO_TO_53 <==>
      forall total: nat, size: nat | total <= t && 0 < size && SizeFits(size) :: CountsRightly(round, total, size)
  {
    if t <= TWO_TO_53 {
      forall total: nat, size: nat | total <= t && 0 < size && SizeFits(size) ensures CountsRightly(round, total, size) {
        FloatCeiling(round, total, size);
      }
    } else {
      WrongBeyondTwoTo53(round);
      assert SizeFits(1) by {
        assert Pow2(0) == 1;
      }
      assert !CountsRightly(round, TWO_TO_53 + 1, 1);
    }
  }

  // --- Pages ------------------------------------------------------------------------------------

  datatype PageResponse<T> = PageResponse(
    items: seq<T>, hasMore: bool, limit: nat, total: nat, currentPage: nat, totalPages: int)

  /** OFFSET and LIMIT on a result. */
  function Slice<T>(rows: seq<T>, offset: nat, limit: nat): seq<T> {
    var from := if offset < |rows| then offset else |rows|;
    var to := if offset + limit < |rows| then offset + limit else |rows|;
    rows[from..to]
  }

  function PageItems<T>(rows: seq<T>, page: nat, size: nat): seq<T>
    requires page >= 1
  {
    Slice(rows, (page - 1) * size, size)
  }

  /** `items` are the rows from `offset` on, up to `limit` of them. */
  ghost predicate IsPageOf<T(!new)>(rows: seq<T>, offset: int, limit: nat, items: seq<T>) {
    && |items| == (if offset >= |rows| then 0 else if offset + limit > |rows| then |rows| - offset else limit)
    && forall k | 0 <= k < |items| :: 0 <= offset + k < |rows| && items[k] == rows[offset + k]
  }

  lemma SliceIsPage<T(!new)>(rows: seq<T>, offset: nat, limit: nat)
    ensures IsPageOf(rows, offset, limit, Slice(rows, offset, limit))
  {}

  /** `_paginate_query`; `round` is how the platform rounds a division to a double. */
  method PaginateQuery<T(!new)>(rows: seq<T>, page: int, pageSize: int, round: real -> real) returns (r: PageResponse<T>)
    requires RoundsToNearest(round)
    ensures var p, size := if page < 1 then 1 else page, if pageSize < 1 then 100 else pageSize;
      && r.items == PageItems(rows, p, size)
      && r.limit == size && r.total == |rows| && r.currentPage == p
      && (r.hasMore <==> p < PageCount(|rows|, size)) && (r.hasMore <==> p * size < |rows|)
      && IsPageOf(rows, (p - 1) * size, size, r.items)
      && (|rows| <= TWO_TO_53 && SizeFits(size) ==> r.totalPages == PageCount(|rows|, size))
  {
    hide Pow2, RoundsToNearest, PageCount, Ceil, Slice, IsPageOf;
    var p, size := page, pageSize;
    if p < 1 {
      p := 1;
    }
    if size < 1 {
      size := 100;
    }
    var total := |rows|;
    MulLeInt(0, p - 1, size);
    var offset: nat := (p - 1) * size;
    var data := Slice(rows, offset, size);
    SliceIsPage(rows, offset, size);
    var hasMore := p * size < total;
    var totalPages := Ceil(round(total as real / size as real));
    if total <= TWO_TO_53 && SizeFits(size) {
      FloatCeiling(round, total, size);
    }
    MoreIffNotLast(total, size, p);
    r := PageResponse(data, hasMore, size, total, p, totalPages);
  }

  lemma MoreIffNotLast(total: nat, size: nat, page: nat)
    requires size > 0
    ensures page * size < total <==> page < PageCount(total, size)
  {
    PageCountMeaning(total, size);
    var n := PageCount(total, size);
    if page < n {
      MulLeInt(page, n - 1, size);
    } else {
      MulLeInt(n, page, size);
    }
  }

  /** Pages 1 to `k` put end to end. */
  function FirstPages<T>(rows: seq<T>, k: nat, size: nat): seq<T> {
    if k == 0 then [] else FirstPages(rows, k - 1, size) + PageItems(rows, k, size)
  }

  lemma {:induction false} FirstPagesArePrefix<T>(rows: seq<T>, k: nat, size: nat)
    ensures FirstPages(rows, k, size) == rows[..if k * size < |rows| then k * size else |rows|]
  {
    if k > 0 {
      FirstPagesArePrefix(rows, k - 1, size);
      assert k * size == (k - 1) * size + size;
    }
  }

  /** On a fixed result pages 1 to `total_pages` are the whole result, in order. */
  lemma AllPagesAreTheResult<T>(rows: seq<T>, size: nat)
    requires size > 0
    ensures FirstPages(rows, PageCount(|rows|, size), size) == rows
  {
    PageCountMeaning(|rows|, size);
    FirstPagesArePrefix(rows, PageCount(|rows|, size), size);
    assert rows[..|rows|] == rows;
  }
}
