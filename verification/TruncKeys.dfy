module TruncKeys {
  /**
   src/columnar_customscan.c, scan keys: each restriction clause yields conditions on the column that
   every matching row meets, so a chunk group whose zone map contradicts one of them holds no
   matching row. Timestamps are int64 with the two infinities at the ends.
   */

  import opened Comparison
  import IcebergPrune

  const PINF: int := 0x7fff_ffff_ffff_ffff
  const NINF: int := -0x8000_0000_0000_0000
  const YEAR_OF_USECS: int := 366 * 86_400_000_000

  predicate IsTimestamp(x: int) { NINF <= x <= PINF }

  predicate IsFinite(x: int) { NINF < x < PINF }

  /** A unit of date_trunc: the truncation, and a value plus one step of the unit. */
  datatype Unit = Unit(trunc: int -> int, next: int -> int)

  /** Far enough from the end of the range that adding a step does not raise. */
  predicate HasNext(b: int) { IsFinite(b) && b < IcebergPrune.END_TIMESTAMP - YEAR_OF_USECS }

  /** What the calendar guarantees of second, minute, hour, day, week, month, quarter and year:
      truncation is monotone, decreasing and idempotent, the infinities stay, and one step from the
      start of a bucket is exactly where the next bucket starts. */
  ghost predicate GoodUnit(u: Unit) {
    && (forall x, y | x <= y :: u.trunc(x) <= u.trunc(y))
    && (forall x :: u.trunc(x) <= x && u.trunc(u.trunc(x)) == u.trunc(x))
    && (forall x | IsFinite(x) :: IsFinite(u.trunc(x)))
    && u.trunc(PINF) == PINF == u.next(PINF) && u.trunc(NINF) == NINF == u.next(NINF)
    && (forall b | HasNext(b) && u.trunc(b) == b :: StepsTo(u, b, u.next(b)))
  }

  ghost predicate StepsTo(u: Unit, b: int, hi: int) {
    b < hi && forall x | IsTimestamp(x) :: x < hi <==> u.trunc(x) <= b
  }

  // ----- units of a fixed number of microseconds meet these conditions

  function Floor(x: int, d: int): int
    requires d > 0
  {
    d * IcebergPrune.FloorDiv(x, d)
  }

  function FixedTrunc(x: int, d: int): int
    requires d > 0
  {
    if !IsFinite(x) then x else if Floor(x, d) <= NINF then NINF + 1 else Floor(x, d)
  }

  function FixedNext(x: int, d: int): int
    requires d > 0
  {
    if !IsFinite(x) then x else Floor(x, d) + d
  }

  function FixedUnit(d: int): Unit
    requires d > 0
  {
    Unit(x => FixedTrunc(x, d), x => FixedNext(x, d))
  }

  lemma {:induction false} FloorFacts(x: int, d: int)
    requires d > 0
    ensures Floor(x, d) <= x < Floor(x, d) + d
  {
    IcebergPrune.FloorDivIsFloor(x, d);
  }

  lemma {:induction false} FloorGalois(x: int, b: int, d: int)
    requires d > 0
    ensures x < Floor(b, d) + d <==> Floor(x, d) <= Floor(b, d)
    ensures Floor(x, d) > Floor(b, d) ==> Floor(x, d) >= Floor(b, d) + d
  {
    var p, q := IcebergPrune.FloorDiv(x, d), IcebergPrune.FloorDiv(b, d);
    FloorFacts(x, d);
    FloorFacts(b, d);
    if p > q { IcebergPrune.BucketGap(d, p, q); } else { Widen(d, p, q); }
  }

  lemma {:induction false} Widen(d: int, p: int, q: int)
    requires d > 0 && p <= q
    ensures d * p <= d * q
  {
    assert d * (q - p) >= 0;
    assert d * q == d * p + d * (q - p);
  }

  lemma {:induction false} FixedFacts(x: int, d: int)
    requires d > 0
    ensures FixedTrunc(x, d) <= x && FixedTrunc(FixedTrunc(x, d), d) == FixedTrunc(x, d)
    ensures IsFinite(x) ==> IsFinite(FixedTrunc(x, d))
  {
    hide Floor;
    FloorFacts(x, d);
    if IsFinite(x) {
      FloorOfFloor(x, d);
      FloorFacts(NINF + 1, d);
    }
  }

  lemma {:induction false} FloorOfFloor(x: int, d: int)
    requires d > 0
    ensures Floor(Floor(x, d), d) == Floor(x, d)
  {
    var p := IcebergPrune.FloorDiv(x, d);
    var q := IcebergPrune.FloorDiv(d * p, d);
    FloorFacts(d * p, d);
    if q < p { IcebergPrune.BucketGap(d, p, q); } else if q > p { IcebergPrune.BucketGap(d, q, p); }
  }

  lemma {:induction false} FixedMonotone(x: int, y: int, d: int)
    requires d > 0 && x <= y
    ensures FixedTrunc(x, d) <= FixedTrunc(y, d)
  {
    hide Floor;
    FloorFacts(x, d);
    FloorFacts(y, d);
    FloorGalois(x, y, d);
  }

  lemma {:induction false} FixedSteps(b: int, d: int)
    requires 0 < d <= YEAR_OF_USECS && HasNext(b) && FixedTrunc(b, d) == b
    ensures StepsTo(FixedUnit(d), b, FixedNext(b, d))
  {
    hide Floor;
    FloorFacts(b, d);
    forall x | IsTimestamp(x) ensures x < FixedNext(b, d) <==> FixedTrunc(x, d) <= b { FixedStep(b, x, d); }
  }

  lemma {:induction false} FixedStep(b: int, x: int, d: int)
    requires 0 < d <= YEAR_OF_USECS && HasNext(b) && FixedTrunc(b, d) == b && IsTimestamp(x)
    ensures x < FixedNext(b, d) <==> FixedTrunc(x, d) <= b
  {
    hide Floor;
    FloorFacts(b, d);
    FloorFacts(x, d);
    FloorGalois(x, b, d);
  }

  /** Seconds, minutes, hours, days and weeks are such units, so the conditions can be met. */
  lemma {:induction false} FixedUnitIsGood(d: int)
    requires 0 < d <= YEAR_OF_USECS
    ensures GoodUnit(FixedUnit(d))
  {
    hide FixedTrunc, FixedNext;
    var u := FixedUnit(d);
    forall x, y | x <= y ensures u.trunc(x) <= u.trunc(y) { FixedMonotone(x, y, d); }
    forall x ensures u.trunc(x) <= x && u.trunc(u.trunc(x)) == u.trunc(x) && (IsFinite(x) ==> IsFinite(u.trunc(x))) { FixedFacts(x, d); }
    Ends(d);
    forall b | HasNext(b) && u.trunc(b) == b ensures StepsTo(u, b, u.next(b)) { FixedSteps(b, d); }
  }

  lemma {:induction false} Ends(d: int)
    requires d > 0
    ensures FixedTrunc(PINF, d) == PINF == FixedNext(PINF, d) && FixedTrunc(NINF, d) == NINF == FixedNext(NINF, d)
  {
  }

  datatype Bound = Bound(op: Strategy, c: int)

  predicate Meets(ks: seq<Bound>, x: int) { forall i | 0 <= i < |ks| :: Holds(ks[i].op, x, ks[i].c) }

  /** pgcolumnar_preimage_range_scankey for `date_trunc(unit, col) op c`, operator already commuted. */
  function Keys(u: Unit, op: Strategy, c: int): seq<Bound> {
    var lo := u.trunc(c);
    var truncated := lo == c;
    if !truncated && op.Equal? then []
    else if IsFinite(lo) && lo >= IcebergPrune.END_TIMESTAMP - YEAR_OF_USECS then []
    else
      var hi := u.next(lo);
      match op
      case GreaterEqual => [Bound(GreaterEqual, if truncated then lo else hi)]
      case Greater => [Bound(GreaterEqual, hi)]
      case Less => [Bound(Less, if truncated then lo else hi)]
      case LessEqual => [Bound(Less, hi)]
      case Equal => if hi <= lo then [] else [Bound(GreaterEqual, lo), Bound(Less, hi)]
  }

  lemma {:induction false} Meets1(k: Bound, x: int)
    ensures Meets([k], x) <==> Holds(k.op, x, k.c)
  {
    assert [k][0] == k;
  }

  /** For a finite constant the keys, where there are any, select exactly the matching timestamps. */
  lemma {:induction false} FiniteKeysExact(u: Unit, op: Strategy, c: int, x: int)
    requires GoodUnit(u) && IsFinite(c) && IsTimestamp(x) && Keys(u, op, c) != []
    ensures Meets(Keys(u, op, c), x) <==> Holds(op, u.trunc(x), c)
  {
    var lo := u.trunc(c);
    var hi := u.next(lo);
    assert HasNext(lo) && u.trunc(lo) == lo;
    assert StepsTo(u, lo, hi);
    assert x < hi <==> u.trunc(x) <= lo;
    BucketBounds(u, lo, c, x);
    var ks := Keys(u, op, c);
    if op.Equal? {
      assert ks[0] == Bound(GreaterEqual, lo) && ks[1] == Bound(Less, hi);
    } else {
      Meets1(ks[0], x);
      assert ks == [ks[0]];
    }
  }

  /** There are keys for every finite constant but in the last year of the range, and for `=` those that
      start no bucket, which nothing equals. */
  lemma {:induction false} HasKeysIff(u: Unit, op: Strategy, c: int)
    requires GoodUnit(u) && IsFinite(c)
    ensures Keys(u, op, c) != [] <==> HasNext(u.trunc(c)) && (op.Equal? ==> u.trunc(c) == c)
    ensures op.Equal? && u.trunc(c) != c ==> forall x :: u.trunc(x) != c
  {
    var lo := u.trunc(c);
    if HasNext(lo) {
      assert u.trunc(lo) == lo;
      assert StepsTo(u, lo, u.next(lo));
    }
    forall x ensures u.trunc(c) != c ==> u.trunc(x) != c { assert u.trunc(u.trunc(x)) == u.trunc(x); }
  }

  /** No truncated value lies strictly inside a bucket. */
  lemma {:induction false} BucketBounds(u: Unit, lo: int, c: int, x: int)
    requires GoodUnit(u) && lo == u.trunc(c)
    ensures u.trunc(x) <= c <==> u.trunc(x) <= lo
    ensures x >= lo <==> u.trunc(x) >= lo
  {
    if u.trunc(x) <= c { assert u.trunc(u.trunc(x)) <= u.trunc(c); }
    if x >= lo { assert u.trunc(lo) <= u.trunc(x); }
  }

  /** No row that satisfies the clause is cut off by the keys. */
  ghost predicate KeysSound(u: Unit, op: Strategy, c: int) {
    forall x | IsTimestamp(x) && Holds(op, u.trunc(x), c) :: Meets(Keys(u, op, c), x)
  }

  /** Sound for every finite constant, and at an infinity for every operator but `<=`, whose key
      `k < hi` with hi == c cuts off the infinite row itself. */
  lemma {:induction false} KeysSoundIff(u: Unit, op: Strategy, c: int)
    requires GoodUnit(u) && IsTimestamp(c)
    ensures KeysSound(u, op, c) <==> IsFinite(c) || op != LessEqual
  {
    if IsFinite(c) {
      forall x | IsTimestamp(x) && Holds(op, u.trunc(x), c) ensures Meets(Keys(u, op, c), x) {
        if Keys(u, op, c) != [] { FiniteKeysExact(u, op, c, x); }
      }
    } else {
      InfiniteKeys(u, op, c);
    }
  }

  lemma {:induction false} InfiniteKeys(u: Unit, op: Strategy, c: int)
    requires GoodUnit(u) && (c == PINF || c == NINF)
    ensures KeysSound(u, op, c) <==> op != LessEqual
  {
    assert u.trunc(c) == c == u.next(c);
    match op
    case LessEqual =>
      assert Holds(op, u.trunc(c), c) && IsTimestamp(c);
      Meets1(Bound(Less, c), c);
    case Equal =>
    case Less =>
      forall x | IsTimestamp(x) && Holds(op, u.trunc(x), c) ensures Meets(Keys(u, op, c), x) {
        Meets1(Bound(Less, c), x);
        assert x >= c ==> u.trunc(c) <= u.trunc(x);
      }
    case GreaterEqual =>
      forall x | IsTimestamp(x) && Holds(op, u.trunc(x), c) ensures Meets(Keys(u, op, c), x) { Meets1(Bound(GreaterEqual, c), x); }
    case Greater =>
      forall x | IsTimestamp(x) && Holds(op, u.trunc(x), c) ensures Meets(Keys(u, op, c), x) { Meets1(Bound(GreaterEqual, c), x); }
  }

  /** `date_trunc('day', ts) <= 'infinity'` holds of the row at infinity, and its key refuses it. */
  lemma {:induction false} InfinityIsCutOff(u: Unit)
    requires GoodUnit(u)
    ensures Holds(LessEqual, u.trunc(PINF), PINF) && !Meets(Keys(u, LessEqual, PINF), PINF)
  {
    Meets1(Bound(Less, PINF), PINF);
  }
}
