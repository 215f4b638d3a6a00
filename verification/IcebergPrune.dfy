module IcebergPrune {
  /**
   src/columnar_iceberg_fdw.c, file pruning: a data file is skipped only when its min/max bounds or a
   partition cell show that no row in it satisfies a predicate. Columns are integers, dates and
   timestamps in their int64 form.
   */

  import opened Prelude
  import opened Bits
  import opened Comparison

  const INT64_MAX: int := 0x7fff_ffff_ffff_ffff
  const USECS_PER_DAY: int := 86_400_000_000
  const USECS_PER_HOUR: int := 3_600_000_000

  /** Days from 1970 to 2000, and the same in microseconds. */
  const DATE_EPOCH_OFFSET: int := 10957
  const TS_EPOCH_OFFSET: int := 946_684_800_000_000

  /** PostgreSQL's finite timestamps, in microseconds from 2000. */
  const MIN_TIMESTAMP: int := -211_813_488_000_000_000
  const END_TIMESTAMP: int := 9_223_371_331_200_000_000

  // ----- predicates

  /** A predicate of the query over one column, as written. */
  datatype Pred = Pred(col: nat, op: Strategy, c: int, varLeft: bool)

  function Normal(p: Pred): Strategy { if p.varLeft then p.op else Flip(p.op) }

  /** A null satisfies no comparison. */
  predicate Satisfies(x: Option<int>, p: Pred) {
    x.Some? && if p.varLeft then Holds(p.op, x.value, p.c) else Holds(p.op, p.c, x.value)
  }

  lemma {:induction false} NormalSound(x: Option<int>, p: Pred)
    ensures Satisfies(x, p) <==> x.Some? && Holds(Normal(p), x.value, p.c)
  {
    if x.Some? { FlipSound(p.op, x.value, p.c); }
  }

  // ----- order-preserving transforms

  /** ice_fdw_temporal_excludes: the cell is a whole bucket, so equal buckets decide nothing. */
  predicate TemporalExcludes(op: Strategy, b: int, v: int) {
    match op
    case Equal => v != b
    case Less => v > b
    case LessEqual => v > b
    case Greater => v < b
    case GreaterEqual => v < b
  }

  ghost predicate Monotone(t: int -> int) { forall x, y | x <= y :: t(x) <= t(y) }

  /** Under any monotone transform an excluded bucket holds no satisfying value. */
  lemma {:induction false} TemporalSound(t: int -> int, op: Strategy, x: int, c: int)
    requires Monotone(t) && TemporalExcludes(op, t(c), t(x))
    ensures !Holds(op, x, c)
  {
    if x <= c { assert t(x) <= t(c); } else { assert t(c) <= t(x); }
  }

  // ----- floor division

  /** C's `/` and `%`: toward zero. */
  function CDiv(a: int, b: int): int
    requires b > 0
  {
    if a >= 0 then a / b else -(-a / b)
  }

  function CMod(a: int, b: int): int
    requires b > 0
  {
    a - b * CDiv(a, b)
  }

  /** ice_floordiv, for the positive divisors it is used with. */
  function FloorDiv(a: int, b: int): int
    requires b > 0
  {
    var q := CDiv(a, b);
    if CMod(a, b) != 0 && a < 0 then q - 1 else q
  }

  lemma {:induction false} FloorDivIsFloor(a: int, b: int)
    requires b > 0
    ensures b * FloorDiv(a, b) <= a < b * FloorDiv(a, b) + b
  {
    if a >= 0 {
      assert a == b * (a / b) + a % b;
    } else {
      var q := -a / b;
      assert -a == b * q + -a % b;
      assert b * (-q) == -(b * q);
      assert b * (-q - 1) == -(b * q) - b;
    }
  }

  lemma {:induction false} FloorDivMonotone(x: int, y: int, b: int)
    requires b > 0 && x <= y
    ensures FloorDiv(x, b) <= FloorDiv(y, b)
  {
    FloorDivIsFloor(x, b);
    FloorDivIsFloor(y, b);
    var p, q := FloorDiv(x, b), FloorDiv(y, b);
    if p > q { BucketGap(b, p, q); }
  }

  lemma {:induction false} BucketGap(b: int, p: int, q: int)
    requires b > 0 && p > q
    ensures b * p >= b * q + b
  {
    assert b * p == b * q + b * (p - q);
    assert b * (p - q) >= b * 1 by { assert b * (p - q - 1) >= 0; }
  }

  // ----- buckets of timestamps

  datatype Kind = Year | Month | Day | Hour

  /** Year and month of a timestamp, as timestamp2tm decomposes it. */
  datatype Civil = Civil(year: int, month: int)

  type Clock = int -> Civil

  predicate NotAfter(a: Civil, b: Civil) { a.year < b.year || (a.year == b.year && a.month <= b.month) }

  /** The calendar, taken as any clock that does not run backwards and knows twelve civil. */
  ghost predicate Calendar(civil: Clock) {
    && (forall ts :: 1 <= civil(ts).month <= 12)
    && forall x, y | x <= y :: NotAfter(civil(x), civil(y))
  }

  /** Two's-complement wrap of a 64-bit sum. */
  function Wrap(x: int): int {
    var r := x % TWO64;
    if r > INT64_MAX then r - TWO64 else r
  }

  predicate Finite(ts: int) { MIN_TIMESTAMP <= ts < END_TIMESTAMP }

  /** The bucket a writer stores for a timestamp: Iceberg's transform. */
  function BucketOf(kind: Kind, civil: Clock, ts: int): int {
    match kind
    case Year => civil(ts).year - 1970
    case Month => (civil(ts).year - 1970) * 12 + civil(ts).month - 1
    case Day => FloorDiv(ts + TS_EPOCH_OFFSET, USECS_PER_DAY)
    case Hour => FloorDiv(ts + TS_EPOCH_OFFSET, USECS_PER_HOUR)
  }

  /** ice_temporal_bucket, applied to the constant: the sum with the epoch is an int64. */
  function ConstBucket(kind: Kind, civil: Clock, ts: int): int {
    match kind
    case Year => civil(ts).year - 1970
    case Month => (civil(ts).year - 1970) * 12 + civil(ts).month - 1
    case Day => FloorDiv(Wrap(ts + TS_EPOCH_OFFSET), USECS_PER_DAY)
    case Hour => FloorDiv(Wrap(ts + TS_EPOCH_OFFSET), USECS_PER_HOUR)
  }

  lemma {:induction false} BucketMonotone(kind: Kind, civil: Clock)
    requires Calendar(civil)
    ensures Monotone(ts => BucketOf(kind, civil, ts))
  {
    hide FloorDiv;
    forall x, y | x <= y ensures BucketOf(kind, civil, x) <= BucketOf(kind, civil, y) {
      match kind
      case Year => assert NotAfter(civil(x), civil(y));
      case Month => assert NotAfter(civil(x), civil(y));
      case Day => FloorDivMonotone(x + TS_EPOCH_OFFSET, y + TS_EPOCH_OFFSET, USECS_PER_DAY);
      case Hour => FloorDivMonotone(x + TS_EPOCH_OFFSET, y + TS_EPOCH_OFFSET, USECS_PER_HOUR);
    }
  }

  /** A day or hour bucket whose epoch sum leaves int64: timestamps in the last thirty years PostgreSQL has. */
  predicate Overflows(kind: Kind, ts: int) {
    (kind.Day? || kind.Hour?) && ts > INT64_MAX - TS_EPOCH_OFFSET
  }

  /** The two buckets agree exactly when the sum does not overflow. */
  lemma {:induction false} ConstBucketExact(kind: Kind, civil: Clock, ts: int)
    requires Finite(ts)
    ensures ConstBucket(kind, civil, ts) == BucketOf(kind, civil, ts) <==> !Overflows(kind, ts)
    ensures Overflows(kind, ts) ==> ConstBucket(kind, civil, ts) < 0
  {
    hide FloorDiv;
    var s := ts + TS_EPOCH_OFFSET;
    if Overflows(kind, ts) {
      assert Wrap(s) == s - TWO64 < 0;
      var d := if kind.Day? then USECS_PER_DAY else USECS_PER_HOUR;
      NegativeBucket(s - TWO64, d);
      PositiveBucket(s, d);
    } else if kind.Day? || kind.Hour? {
      assert Wrap(s) == s;
    }
  }

  lemma {:induction false} MulSign(b: int, q: int)
    requires b > 0
    ensures q >= 0 ==> b * q >= 0
    ensures q < 0 ==> b * q <= -b
  {
    if q < 0 {
      assert b * q == -b - b * (-q - 1);
      assert b * (-q - 1) >= 0;
    }
  }

  lemma {:induction false} NegativeBucket(a: int, b: int)
    requires b > 0 && a < 0
    ensures FloorDiv(a, b) < 0
  {
    FloorDivIsFloor(a, b);
    MulSign(b, FloorDiv(a, b));
  }

  lemma {:induction false} PositiveBucket(a: int, b: int)
    requires b > 0 && a >= 0
    ensures FloorDiv(a, b) >= 0
  {
    FloorDivIsFloor(a, b);
    MulSign(b, FloorDiv(a, b));
  }

  /** No file holds a satisfying row that the coarse temporal test for `op` and c excludes. */
  ghost predicate TemporalNeverLoses(kind: Kind, civil: Clock, op: Strategy, c: int) {
    forall x | Finite(x) && TemporalExcludes(op, ConstBucket(kind, civil, c), BucketOf(kind, civil, x)) :: !Holds(op, x, c)
  }

  /** The coarse test is sound for every finite constant except those whose day or hour bucket
      overflows under =, < and <=; there it loses rows. */
  lemma {:induction false} TemporalSoundIff(kind: Kind, civil: Clock, op: Strategy, c: int)
    requires Calendar(civil) && Finite(c)
    ensures TemporalNeverLoses(kind, civil, op, c) <==> !Overflows(kind, c) || op.Greater? || op.GreaterEqual?
  {
    hide FloorDiv, Overflows;
    ConstBucketExact(kind, civil, c);
    BucketMonotone(kind, civil);
    if !Overflows(kind, c) {
      forall x | Finite(x) && TemporalExcludes(op, ConstBucket(kind, civil, c), BucketOf(kind, civil, x)) ensures !Holds(op, x, c) {
        TemporalSound(ts => BucketOf(kind, civil, ts), op, x, c);
      }
    } else {
      OverflowLoses(kind, civil, op, c);
    }
  }

  lemma {:induction false} OverflowLoses(kind: Kind, civil: Clock, op: Strategy, c: int)
    requires Finite(c) && Overflows(kind, c)
    ensures TemporalNeverLoses(kind, civil, op, c) <==> op.Greater? || op.GreaterEqual?
  {
    hide FloorDiv;
    ConstBucketExact(kind, civil, c);
    var d, b := if kind.Day? then USECS_PER_DAY else USECS_PER_HOUR, ConstBucket(kind, civil, c);
    if op.Greater? || op.GreaterEqual? {
      forall x | Finite(x) ensures !TemporalExcludes(op, b, BucketOf(kind, civil, x)) {
        WrapsFarBelow(kind, civil, x, c);
      }
    } else if op.Equal? {
      assert TemporalExcludes(op, b, BucketOf(kind, civil, c)) && Holds(op, c, c);
    } else {
      PositiveBucket(TS_EPOCH_OFFSET, d);
      assert Finite(0) && TemporalExcludes(op, b, BucketOf(kind, civil, 0)) && Holds(op, 0, c);
    }
  }

  /** The wrapped bucket lies below the bucket of every finite timestamp. */
  lemma {:induction false} WrapsFarBelow(kind: Kind, civil: Clock, x: int, c: int)
    requires Finite(x) && Finite(c) && Overflows(kind, c)
    ensures ConstBucket(kind, civil, c) <= BucketOf(kind, civil, x)
  {
    hide FloorDiv;
    var d := if kind.Day? then USECS_PER_DAY else USECS_PER_HOUR;
    var s := c + TS_EPOCH_OFFSET;
    assert Wrap(s) == s - TWO64 <= x + TS_EPOCH_OFFSET;
    FloorDivMonotone(s - TWO64, x + TS_EPOCH_OFFSET, d);
  }

  /** `ts < '294276-12-31'` on an hour-partitioned table: the file of 2000-01-01 is skipped. */
  lemma {:induction false} LateConstantLosesRows(civil: Clock)
    ensures var c := END_TIMESTAMP - USECS_PER_DAY;
      && Finite(c) && Finite(0) && Holds(Less, 0, c)
      && TemporalExcludes(Less, ConstBucket(Hour, civil, c), BucketOf(Hour, civil, 0))
  {
    hide FloorDiv;
    ConstBucketExact(Hour, civil, END_TIMESTAMP - USECS_PER_DAY);
    PositiveBucket(TS_EPOCH_OFFSET, USECS_PER_HOUR);
  }

  // ----- what the buckets mean

  predicate Leap(y: int) { y % 4 == 0 && (y % 100 != 0 || y % 400 == 0) }

  /** Days of the years from..to - 1 of the Gregorian calendar. */
  function DaysOfYears(from: int, to: int): int
    decreases to - from
  {
    if from >= to then 0 else (if Leap(from) then 366 else 365) + DaysOfYears(from + 1, to)
  }

  /** Thirty years with seven leap days lie between the two epochs. */
  lemma {:induction false} EpochDays()
    ensures DaysOfYears(1970, 2000) == DATE_EPOCH_OFFSET && DATE_EPOCH_OFFSET * USECS_PER_DAY == TS_EPOCH_OFFSET
  {
    assert DaysOfYears(1990, 2000) == 3652;
    assert DaysOfYears(1980, 2000) == 7305;
  }

  /** The first microsecond of day k after 1970-01-01, on PostgreSQL's clock, which starts in 2000. */
  function DayStart(k: int): int { (k - DaysOfYears(1970, 2000)) * USECS_PER_DAY }

  /** Day bucket k holds exactly the timestamps of the k-th day after 1970-01-01, and hour bucket h of
      that day's hours; 1970-01-01 itself is bucket 0, for a date too. */
  lemma {:induction false} DayHourBuckets(civil: Clock, ts: int, k: int, h: int)
    ensures BucketOf(Day, civil, ts) == k <==> DayStart(k) <= ts < DayStart(k + 1)
    ensures BucketOf(Hour, civil, ts) == 24 * k + h <==> DayStart(k) + h * USECS_PER_HOUR <= ts < DayStart(k) + (h + 1) * USECS_PER_HOUR
    ensures CellFor(DayOfDate, k - DaysOfYears(1970, 2000)) == k
  {
    hide FloorDiv;
    EpochDays();
    FloorDivUnique(ts + TS_EPOCH_OFFSET, USECS_PER_DAY, k);
    FloorDivUnique(ts + TS_EPOCH_OFFSET, USECS_PER_HOUR, 24 * k + h);
  }

  /** Month bucket k is the k-th month after January 1970, year bucket k the k-th year after 1970. */
  lemma {:induction false} YearMonthBuckets(civil: Clock, ts: int, k: int)
    requires Calendar(civil)
    ensures BucketOf(Year, civil, ts) == k <==> civil(ts).year == 1970 + k
    ensures BucketOf(Month, civil, ts) == k <==> civil(ts) == Civil(1970 + k / 12, 1 + k % 12)
  {
  }

  // ----- truncate[W]

  /** Iceberg's truncate of an integer: the multiple of W at or below it. */
  function Truncate(x: int, w: int): int
    requires w > 0
  {
    w * FloorDiv(x, w)
  }

  lemma {:induction false} TruncateRange(x: int, w: int)
    requires w > 0
    ensures Truncate(x, w) <= x <= Truncate(x, w) + w - 1
  {
    FloorDivIsFloor(x, w);
  }

  // ----- one file

  datatype Bound = Bound(field: int, bytes: seq<Byte>)

  datatype Cell = Cell(isnull: bool, isBytes: bool, comparable: bool, ival: int)

  datatype Meta = Meta(lower: seq<Bound>, upper: seq<Bound>, spec: int, cells: seq<Cell>)

  datatype Qual =
    | MetricQual(field: int, op: Strategy, c: int)
    | BucketQual(pos: int, target: int)
    | TruncQual(pos: int, w: int, op: Strategy, c: int)
    | DayQual(pos: int, op: Strategy, day: int)
    | TemporalQual(pos: int, op: Strategy, bucket: int)

  /** ice_fdw_find_bound: the first entry for the field. */
  function FindBound(bs: seq<Bound>, field: int, i: nat): Option<seq<Byte>>
    requires i <= |bs|
    decreases |bs| - i
  {
    if i == |bs| then None else if bs[i].field == field then Some(bs[i].bytes) else FindBound(bs, field, i + 1)
  }

  /** ice_fdw_bound_int: a boolean byte, an int or a long; other widths say nothing. */
  function BoundInt(bs: seq<Byte>): Option<int> {
    if |bs| == 1 then Some(bs[0])
    else if |bs| == 4 then Some(if FromLE(bs) >= TWO32 / 2 then FromLE(bs) - TWO32 else FromLE(bs))
    else if |bs| == 8 then Some(if FromLE(bs) >= TWO64 / 2 then FromLE(bs) - TWO64 else FromLE(bs))
    else None
  }

  /** The bounds a file states for a column, when it states both in a known width. */
  function Range(m: Meta, field: int): Option<(int, int)> {
    var lb, ub := FindBound(m.lower, field, 0), FindBound(m.upper, field, 0);
    if lb.None? || ub.None? then None
    else
      var lo, hi := BoundInt(lb.value), BoundInt(ub.value);
      if lo.None? || hi.None? then None else Some((lo.value, hi.value))
  }

  /** A partition cell that can be compared. */
  function CellValue(m: Meta, specid: int, pos: int): Option<int> {
    if m.spec != specid || !(0 <= pos < |m.cells|) then None
    else
      var c := m.cells[pos];
      if c.isnull || c.isBytes || !c.comparable then None else Some(c.ival)
  }

  /** One qual against one file. */
  predicate Excludes(q: Qual, m: Meta, specid: int) {
    match q
    case MetricQual(f, op, c) =>
      var r := Range(m, f);
      r.Some? && r.value.0 <= r.value.1 && MetricExcludes(op, c, r.value.0, r.value.1)
    case BucketQual(pos, target) =>
      var v := CellValue(m, specid, pos);
      v.Some? && v.value != target
    case TruncQual(pos, w, op, c) =>
      var v := CellValue(m, specid, pos);
      v.Some? && v.value <= INT64_MAX - w && MetricExcludes(op, c, v.value, v.value + w - 1)
    case DayQual(pos, op, day) =>
      var v := CellValue(m, specid, pos);
      v.Some? && MetricExcludes(op, day, v.value, v.value)
    case TemporalQual(pos, op, bucket) =>
      var v := CellValue(m, specid, pos);
      v.Some? && TemporalExcludes(op, bucket, v.value)
  }

  /** How a partition field is computed from its source column. */
  datatype Transform = Bucket(hash: int -> int) | Trunc(w: int) | DayOfDate | Temporal(kind: Kind, civil: Clock)

  function CellFor(t: Transform, x: int): int
    requires t.Trunc? ==> t.w > 0
  {
    match t
    case Bucket(hash) => hash(x)
    case Trunc(w) => Truncate(x, w)
    case DayOfDate => x + DATE_EPOCH_OFFSET
    case Temporal(kind, civil) => BucketOf(kind, civil, x)
  }

  // ----- what a writer of the file states

  /** A value a single-value binary bound can hold: a boolean byte, an int, a long. */
  predicate Storable(v: int, w: nat) {
    if w == 1 then 0 <= v < 256
    else if w == 4 then -0x8000_0000 <= v < 0x8000_0000
    else w == 8 && -0x8000_0000_0000_0000 <= v <= INT64_MAX
  }

  predicate KnownWidth(w: nat) { w == 1 || w == 4 || w == 8 }

  /** Iceberg's single-value serialization: little-endian two's complement. */
  function StoredInt(v: int, w: nat): seq<Byte>
    requires Storable(v, w)
  {
    ToLE(if v >= 0 then v else if w == 4 then TWO32 + v else TWO64 + v, w)
  }

  lemma {:induction false} BoundIntBack(v: int, w: nat)
    requires Storable(v, w)
    ensures BoundInt(StoredInt(v, w)) == Some(v)
  {
    hide ToLE, FromLE, Pow2;
    var u := if v >= 0 then v else if w == 4 then TWO32 + v else TWO64 + v;
    WidthPower(w);
    ToFromLE(u, w);
    if w == 1 { OneByte(ToLE(u, 1)); }
  }

  lemma {:induction false} WidthPower(w: nat)
    requires KnownWidth(w)
    ensures Pow2(8 * w) == if w == 1 then 256 else if w == 4 then TWO32 else TWO64
  {
    hide Pow2;
    Pow2Of8();
    Pow2Add(8, 8);
    Pow2Add(16, 16);
    Pow2Of64();
  }

  lemma {:induction false} OneByte(s: seq<Byte>)
    requires |s| == 1
    ensures FromLE(s) == s[0]
  {
    assert FromLE(s[1..]) == 0;
  }

  /** Entry i is the bound of the field: the first that names it. */
  ghost predicate FirstFor(bs: seq<Bound>, field: int, i: nat) {
    i < |bs| && bs[i].field == field && forall j | 0 <= j < i :: bs[j].field != field
  }

  lemma {:induction false} FindBoundIsFirst(bs: seq<Bound>, field: int, k: nat)
    requires k <= |bs| && forall j | 0 <= j < k :: bs[j].field != field
    ensures forall i: nat | FirstFor(bs, field, i) :: FindBound(bs, field, k) == Some(bs[i].bytes)
    ensures FindBound(bs, field, k).Some? ==> exists i: nat :: FirstFor(bs, field, i)
    decreases |bs| - k
  {
    if k < |bs| {
      if bs[k].field == field { assert FirstFor(bs, field, k); } else { FindBoundIsFirst(bs, field, k + 1); }
    }
  }

  ghost predicate StoresAtMost(bytes: seq<Byte>, x: int) {
    exists lo :: Storable(lo, |bytes|) && bytes == StoredInt(lo, |bytes|) && lo <= x
  }

  ghost predicate StoresAtLeast(bytes: seq<Byte>, x: int) {
    exists hi :: Storable(hi, |bytes|) && bytes == StoredInt(hi, |bytes|) && hi >= x
  }

  /** The writer's promise for a file that holds x in the column: a lower bound it stored for the
      field in a width of integers is at most x, an upper bound at least x. */
  ghost predicate WithinBounds(m: Meta, field: int, x: int) {
    && (forall i: nat | FirstFor(m.lower, field, i) && KnownWidth(|m.lower[i].bytes|) :: StoresAtMost(m.lower[i].bytes, x))
    && (forall i: nat | FirstFor(m.upper, field, i) && KnownWidth(|m.upper[i].bytes|) :: StoresAtLeast(m.upper[i].bytes, x))
  }

  /** The bounds the reader decodes are the ones promised. */
  lemma {:induction false} RangeHolds(m: Meta, field: int, x: int)
    requires WithinBounds(m, field, x) && Range(m, field).Some?
    ensures Range(m, field).value.0 <= x <= Range(m, field).value.1
  {
    hide StoredInt, FindBound;
    FindBoundIsFirst(m.lower, field, 0);
    FindBoundIsFirst(m.upper, field, 0);
    var i: nat :| FirstFor(m.lower, field, i);
    var j: nat :| FirstFor(m.upper, field, j);
    var lb, ub := m.lower[i].bytes, m.upper[j].bytes;
    assert StoresAtMost(lb, x) && StoresAtLeast(ub, x);
    var lo :| Storable(lo, |lb|) && lb == StoredInt(lo, |lb|) && lo <= x;
    var hi :| Storable(hi, |ub|) && ub == StoredInt(hi, |ub|) && hi >= x;
    BoundIntBack(lo, |lb|);
    BoundIntBack(hi, |ub|);
  }

  /** The writer stored lo and hi for the field, in w bytes. */
  ghost predicate States(m: Meta, field: int, lo: int, hi: int, w: nat) {
    && Storable(lo, w) && Storable(hi, w)
    && (exists i: nat :: FirstFor(m.lower, field, i) && m.lower[i].bytes == StoredInt(lo, w))
    && (exists i: nat :: FirstFor(m.upper, field, i) && m.upper[i].bytes == StoredInt(hi, w))
  }

  /** Stated bounds exclude a file when and only when they are in order and no value between them
      satisfies the predicate. */
  lemma {:induction false} MetricQualExact(p: Pred, field: int, m: Meta, specid: int, lo: int, hi: int, w: nat)
    requires States(m, field, lo, hi, w)
    ensures Excludes(CompileMetric(p, field), m, specid) <==> lo <= hi && forall x | lo <= x <= hi :: !Satisfies(Some(x), p)
  {
    hide StoredInt, FindBound;
    FindBoundIsFirst(m.lower, field, 0);
    FindBoundIsFirst(m.upper, field, 0);
    BoundIntBack(lo, w);
    BoundIntBack(hi, w);
    assert Range(m, field) == Some((lo, hi));
    forall x ensures Satisfies(Some(x), p) <==> Holds(Normal(p), x, p.c) { NormalSound(Some(x), p); }
    if lo <= hi { MetricExact(Normal(p), p.c, lo, hi); }
  }

  /** The writer's promise for a file of the spec that holds x: the cell at the field's position of the
      partition tuple, where it is an integer, is the transform of x. */
  ghost predicate InCell(m: Meta, specid: int, pos: int, t: Transform, x: int)
    requires t.Trunc? ==> t.w > 0
  {
    m.spec == specid && 0 <= pos < |m.cells| && IntegerCell(m.cells[pos]) ==> m.cells[pos].ival == CellFor(t, x)
  }

  predicate IntegerCell(c: Cell) { !c.isnull && !c.isBytes && c.comparable }

  /** How the planner compiles a predicate for a metric or for a partition field. */
  function CompileMetric(p: Pred, field: int): Qual { MetricQual(field, Normal(p), p.c) }

  function CompileCell(p: Pred, pos: int, t: Transform): Option<Qual> {
    match t
    case Bucket(hash) => if Normal(p).Equal? then Some(BucketQual(pos, hash(p.c))) else None
    case Trunc(w) => Some(TruncQual(pos, w, Normal(p), p.c))
    case DayOfDate => Some(DayQual(pos, Normal(p), p.c + DATE_EPOCH_OFFSET))
    case Temporal(kind, civil) =>
      if Finite(p.c) then Some(TemporalQual(pos, Normal(p), ConstBucket(kind, civil, p.c))) else None
  }

  /** If the bounds exclude a file, none of its rows satisfies the predicate, in either operand order. */
  lemma {:induction false} MetricQualSound(p: Pred, field: int, m: Meta, specid: int, x: Option<int>)
    requires Excludes(CompileMetric(p, field), m, specid)
    requires x.Some? ==> WithinBounds(m, field, x.value)
    ensures !Satisfies(x, p)
  {
    NormalSound(x, p);
    var r := Range(m, field);
    if x.Some? { RangeHolds(m, field, x.value); }
    MetricExact(Normal(p), p.c, r.value.0, r.value.1);
  }

  /** The constants the partition tests are exact for. */
  predicate InRange(p: Pred, t: Transform) {
    t.Temporal? ==> !Overflows(t.kind, p.c) || Normal(p).Greater? || Normal(p).GreaterEqual?
  }

  /** If a partition cell excludes a file, none of its rows satisfies the predicate, in either operand
      order, for bucket, truncate, day and the coarse temporal transforms. */
  lemma {:induction false} CellQualSound(p: Pred, pos: int, t: Transform, m: Meta, specid: int, x: Option<int>)
    requires (t.Trunc? ==> t.w > 0) && (t.Temporal? ==> Calendar(t.civil) && (x.Some? ==> Finite(x.value)))
    requires InRange(p, t)
    requires CompileCell(p, pos, t).Some? && Excludes(CompileCell(p, pos, t).value, m, specid)
    requires x.Some? ==> InCell(m, specid, pos, t, x.value)
    ensures !Satisfies(x, p)
  {
    hide FloorDiv, Overflows, ConstBucket, BucketOf;
    NormalSound(x, p);
    if x.Some? {
      match t
      case Bucket(_) =>
      case Trunc(w) =>
        TruncateRange(x.value, w);
        MetricExact(Normal(p), p.c, Truncate(x.value, w), Truncate(x.value, w) + w - 1);
      case DayOfDate =>
        MetricExact(Normal(p), p.c + DATE_EPOCH_OFFSET, x.value + DATE_EPOCH_OFFSET, x.value + DATE_EPOCH_OFFSET);
        ShiftedHolds(Normal(p), x.value, p.c, DATE_EPOCH_OFFSET);
      case Temporal(kind, civil) => TemporalSoundIff(kind, civil, Normal(p), p.c);
    }
  }

  /** What a cell alone can tell: a coarse bucket cannot separate < from <=. */
  function Blurred(op: Strategy, t: Transform): Strategy {
    if !t.Temporal? then op
    else match op
      case Less => LessEqual
      case Greater => GreaterEqual
      case _ => op
  }

  /** Some value of the cell satisfies the predicate, as far as the cell can tell. */
  ghost predicate CellAdmits(v: int, t: Transform, op: Strategy, c: int)
    requires t.Trunc? ==> t.w > 0
  {
    exists x :: CellFor(t, x) == v && Holds(Blurred(op, t), x, c)
  }

  /** The integer cell of a file of the spec, which holds some value x0, excludes the file when and only
      when no value of the cell satisfies the predicate: nothing is read that the cell could rule out,
      but for a truncate cell whose range leaves int64. */
  lemma {:induction false} CellQualExact(p: Pred, pos: int, t: Transform, m: Meta, specid: int, x0: int)
    requires (t.Trunc? ==> t.w > 0) && (t.Temporal? ==> Calendar(t.civil) && !Overflows(t.kind, p.c))
    requires m.spec == specid && 0 <= pos < |m.cells| && IntegerCell(m.cells[pos]) && m.cells[pos].ival == CellFor(t, x0)
    requires (t.Bucket? ==> p.op.Equal?) && (t.Temporal? ==> Finite(p.c))
    ensures CompileCell(p, pos, t).Some?
    ensures Excludes(CompileCell(p, pos, t).value, m, specid)
      <==> (t.Trunc? ==> m.cells[pos].ival + t.w <= INT64_MAX) && !CellAdmits(m.cells[pos].ival, t, Normal(p), p.c)
  {
    hide FloorDiv, Overflows, ConstBucket, BucketOf;
    var v, op, c := m.cells[pos].ival, Normal(p), p.c;
    match t
    case Bucket(hash) => if hash(c) == v { assert CellFor(t, c) == v && Holds(op, c, c); }
    case Trunc(w) => TruncExact(t, v, op, c, x0);
    case DayOfDate =>
      ShiftedHolds(op, x0, c, DATE_EPOCH_OFFSET);
      MetricExact(op, c + DATE_EPOCH_OFFSET, v, v);
      if Holds(op, x0, c) { assert CellFor(t, x0) == v; }
    case Temporal(kind, civil) =>
      ConstBucketExact(kind, civil, c);
      TemporalExact(t, v, op, c, x0);
  }

  lemma {:induction false} TruncExact(t: Transform, v: int, op: Strategy, c: int, x0: int)
    requires t.Trunc? && t.w > 0 && v == CellFor(t, x0)
    ensures MetricExcludes(op, c, v, v + t.w - 1) <==> !CellAdmits(v, t, op, c)
  {
    hide FloorDiv;
    MetricExact(op, c, v, v + t.w - 1);
    forall x ensures CellFor(t, x) == v <==> v <= x <= v + t.w - 1 {
      TruncateRange(x, t.w);
      FloorDivUnique(x, t.w, FloorDiv(x0, t.w));
    }
    if x :| v <= x <= v + t.w - 1 && Holds(op, x, c) { assert CellFor(t, x) == v && Holds(Blurred(op, t), x, c); }
  }

  lemma {:induction false} FloorDivUnique(x: int, w: int, q: int)
    requires w > 0
    ensures FloorDiv(x, w) == q <==> w * q <= x < w * q + w
  {
    hide FloorDiv;
    FloorDivIsFloor(x, w);
    var f := FloorDiv(x, w);
    if f < q { BucketGap(w, q, f); }
    if f > q { BucketGap(w, f, q); }
  }

  lemma {:induction false} TemporalExact(t: Transform, v: int, op: Strategy, c: int, x0: int)
    requires t.Temporal? && Calendar(t.civil) && v == CellFor(t, x0)
    ensures TemporalExcludes(op, BucketOf(t.kind, t.civil, c), v) <==> !CellAdmits(v, t, op, c)
  {
    hide BucketOf;
    BucketMonotone(t.kind, t.civil);
    var b := BucketOf(t.kind, t.civil, c);
    forall x, y | x <= y ensures BucketOf(t.kind, t.civil, x) <= BucketOf(t.kind, t.civil, y) {
      var f := ts => BucketOf(t.kind, t.civil, ts);
      assert f(x) <= f(y);
    }
    if !TemporalExcludes(op, b, v) {
      var x := if b == v then c else x0;
      assert CellFor(t, x) == v && Holds(Blurred(op, t), x, c);
    }
  }

  lemma {:induction false} ShiftedHolds(op: Strategy, x: int, c: int, k: int)
    ensures Holds(op, x + k, c + k) == Holds(op, x, c)
  {
  }

  /** Without a bound in both maps, or without an integer cell of the scan's spec, nothing is excluded. */
  lemma {:induction false} SilenceNeverExcludes(p: Pred, field: int, pos: int, t: Transform, m: Meta, specid: int)
    ensures (forall i: nat :: !FirstFor(m.lower, field, i)) || (forall i: nat :: !FirstFor(m.upper, field, i)) ==>
      !Excludes(CompileMetric(p, field), m, specid)
    ensures CompileCell(p, pos, t).Some? && (m.spec != specid || !(0 <= pos < |m.cells|) || !IntegerCell(m.cells[pos])) ==>
      !Excludes(CompileCell(p, pos, t).value, m, specid)
  {
    hide FindBound;
    FindBoundIsFirst(m.lower, field, 0);
    FindBoundIsFirst(m.upper, field, 0);
  }

  /** A compiled qual with the predicate it stands for. */
  datatype Compiled = OnMetric(p: Pred, field: int) | OnCell(p: Pred, pos: int, t: Transform)

  function QualOf(c: Compiled): Option<Qual> {
    match c
    case OnMetric(p, field) => Some(CompileMetric(p, field))
    case OnCell(p, pos, t) => CompileCell(p, pos, t)
  }

  /** ice_fdw_file_excludes: any qual may exclude. */
  ghost predicate FileExcludes(cs: seq<Compiled>, m: Meta, specid: int) {
    exists i :: 0 <= i < |cs| && ExcludedBy(cs[i], m, specid)
  }

  predicate ExcludedBy(c: Compiled, m: Meta, specid: int) { QualOf(c).Some? && Excludes(QualOf(c).value, m, specid) }

  /** A row: a value or null per column. */
  type Row = nat -> Option<int>

  ghost predicate Usable(c: Compiled) {
    c.OnCell? ==> (c.t.Trunc? ==> c.t.w > 0) && (c.t.Temporal? ==> Calendar(c.t.civil)) && InRange(c.p, c.t)
  }

  /** The row is one the file can hold. */
  ghost predicate Consistent(row: Row, cs: seq<Compiled>, m: Meta, specid: int) {
    forall i | 0 <= i < |cs| :: Usable(cs[i]) ==> RowFits(row, cs[i], m, specid)
  }

  ghost predicate RowFits(row: Row, c: Compiled, m: Meta, specid: int)
    requires Usable(c)
  {
    var x := row(c.p.col);
    x.Some? ==> match c
      case OnMetric(_, field) => WithinBounds(m, field, x.value)
      case OnCell(_, pos, t) => (t.Temporal? ==> Finite(x.value)) && InCell(m, specid, pos, t, x.value)
  }

  /** A skipped file holds no row that satisfies all the predicates of the scan. */
  lemma {:induction false} FileExcludesSound(cs: seq<Compiled>, m: Meta, specid: int, row: Row)
    requires FileExcludes(cs, m, specid) && Consistent(row, cs, m, specid) && forall i | 0 <= i < |cs| :: Usable(cs[i])
    ensures exists i :: 0 <= i < |cs| && !Satisfies(row(cs[i].p.col), cs[i].p)
  {
    var i :| 0 <= i < |cs| && ExcludedBy(cs[i], m, specid);
    assert Usable(cs[i]) && RowFits(row, cs[i], m, specid);
    var c := cs[i];
    match c
    case OnMetric(p, field) => MetricQualSound(p, field, m, specid, row(p.col));
    case OnCell(p, pos, t) => CellQualSound(p, pos, t, m, specid, row(p.col));
  }

  // ----- the loops

  /** The quals of the first k predicates that have one. */
  function Quals(cs: seq<Compiled>, k: nat): seq<Qual>
    requires k <= |cs|
  {
    if k == 0 then []
    else Quals(cs, k - 1) + if QualOf(cs[k - 1]).Some? then [QualOf(cs[k - 1]).value] else []
  }

  ghost predicate AnyExcludes(quals: seq<Qual>, m: Meta, specid: int) {
    exists i :: 0 <= i < |quals| && Excludes(quals[i], m, specid)
  }

  lemma {:induction false} AnyOfMore(quals: seq<Qual>, more: seq<Qual>, m: Meta, specid: int)
    ensures AnyExcludes(quals + more, m, specid) <==> AnyExcludes(quals, m, specid) || AnyExcludes(more, m, specid)
  {
    hide Excludes;
    var all := quals + more;
    if i :| 0 <= i < |quals| && Excludes(quals[i], m, specid) { assert Excludes(all[i], m, specid); }
    if i :| 0 <= i < |more| && Excludes(more[i], m, specid) { assert Excludes(all[|quals| + i], m, specid); }
    if i :| 0 <= i < |all| && Excludes(all[i], m, specid) {
      assert if i < |quals| then Excludes(quals[i], m, specid) else Excludes(more[i - |quals|], m, specid);
    }
  }

  /** The list the loop runs over and the predicates of the soundness theorem exclude the same files. */
  lemma {:induction false} QualsExclude(cs: seq<Compiled>, k: nat, m: Meta, specid: int)
    requires k <= |cs|
    ensures AnyExcludes(Quals(cs, k), m, specid) <==> FileExcludes(cs[..k], m, specid)
  {
    hide Excludes, QualOf;
    if k > 0 {
      var q, before := QualOf(cs[k - 1]), cs[..k - 1];
      QualsExclude(cs, k - 1, m, specid);
      AnyOfMore(Quals(cs, k - 1), if q.Some? then [q.value] else [], m, specid);
      if i :| 0 <= i < |before| && ExcludedBy(before[i], m, specid) { assert ExcludedBy(cs[..k][i], m, specid); }
      if i :| 0 <= i < k && ExcludedBy(cs[..k][i], m, specid) { assert i < k - 1 ==> ExcludedBy(before[i], m, specid); }
      assert cs[..k][k - 1] == cs[k - 1];
      assert q.Some? ==> [q.value][0] == q.value;
    }
  }

  /** A file is skipped only if the scan has no row in it: the loops put together. */
  method PruneScan(cs: seq<Compiled>, m: Meta, specid: int) returns (skip: bool)
    ensures skip <==> FileExcludes(cs, m, specid)
  {
    hide Excludes, QualOf;
    var quals := [];
    for i := 0 to |cs|
      invariant quals == Quals(cs, i)
    {
      var q := QualOf(cs[i]);
      if q.Some? { quals := quals + [q.value]; }
    }
    skip := PruneFile(quals, m, specid);
    QualsExclude(cs, |cs|, m, specid);
    assert cs[..|cs|] == cs;
  }

  /** The loop over the compiled quals. */
  method PruneFile(quals: seq<Qual>, m: Meta, specid: int) returns (skip: bool)
    ensures skip <==> AnyExcludes(quals, m, specid)
  {
    for i := 0 to |quals|
      invariant forall j | 0 <= j < i :: !Excludes(quals[j], m, specid)
    {
      if Excludes(quals[i], m, specid) { return true; }
    }
    skip := false;
  }
}
