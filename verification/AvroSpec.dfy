module AvroSpec {
  /**
   src/columnar_avro.c: an Avro reader driven by the writer's schema. `Skip` is the cursor position
   after one value; every projected decoder is a function of the same bytes, and wherever it succeeds
   it ends exactly where `Skip` ends.
   */

  import opened Prelude
  import opened Bits
  import opened BitPack
  import opened Words

  const MAX_OBJECTS: nat := 50_000_000
  const MAX_EQUALITY_IDS: nat := 10000
  const MAX_BOUNDS: nat := 8192
  const MAX_BOUND_LEN: nat := 65536
  const INT32_MAX: int := 0x7fff_ffff
  const INT32_MIN: int := -0x8000_0000

  datatype Field = Field(name: string, ty: Sch)

  datatype Sch =
    | ANull | ABool | AInt | ALong | AFloat | ADouble | ABytes | AString | AEnum
    | AFixed(size: nat)
    | ARecord(fields: seq<Field>)
    | AArray(items: Sch)
    | AMap(values: Sch)
    | AUnion(branches: seq<Sch>)

  /** A decoded value and the position after it. */
  datatype At<T> = At(value: T, pos: nat)

  // ----- primitives

  /** av_varint from byte `shift / 7` on; at most ten bytes. */
  function VarintFrom(buf: seq<Byte>, pos: nat, v: nat, shift: nat): (r: Result<At<nat>>)
    ensures r.Ok? ==> pos < r.value.pos <= |buf|
    decreases |buf| - pos
  {
    if pos >= |buf| then Err
    else
      var b := buf[pos];
      var w := Or(v, Shl(b % 128, shift) % TWO64);
      if b < 128 then Ok(At(w, pos + 1))
      else if shift + 7 > 63 then Err
      else VarintFrom(buf, pos + 1, w, shift + 7)
  }

  function VarintAt(buf: seq<Byte>, pos: nat): (r: Result<At<nat>>)
    ensures r.Ok? ==> pos < r.value.pos <= |buf|
  {
    VarintFrom(buf, pos, 0, 0)
  }

  function SignedOf(u: nat): int { if u < TWO63 then u else u - TWO64 }

  /** av_long: the zigzag of a varint. */
  function LongAt(buf: seq<Byte>, pos: nat): (r: Result<At<int>>)
    ensures r.Ok? ==> pos < r.value.pos <= |buf|
  {
    var u := VarintAt(buf, pos);
    if u.Err? then Err else Ok(At(SignedOf(UnZigZag(u.value.value % TWO64)), u.value.pos))
  }

  /** av_take */
  function TakeAt(buf: seq<Byte>, pos: nat, n: int): (r: Result<At<seq<Byte>>>)
    ensures r.Ok? ==> 0 <= n && r.value.pos == pos + n <= |buf|
  {
    if n < 0 || pos + n > |buf| then Err else Ok(At(buf[pos..pos + n], pos + n))
  }

  /** av_bytes: a length, then that many bytes. */
  function BytesAt(buf: seq<Byte>, pos: nat): (r: Result<At<seq<Byte>>>)
    ensures r.Ok? ==> pos < r.value.pos <= |buf|
  {
    var n := LongAt(buf, pos);
    if n.Err? then Err else TakeAt(buf, n.value.pos, n.value.value)
  }

  // ----- what a writer stores is what is read

  /** LEB128: seven bits a byte, least significant first, the top bit set on all but the last. */
  function Leb(v: nat): (s: seq<Byte>)
    ensures |s| > 0
  {
    if v < 128 then [v] else [v % 128 + 128] + Leb(v / 128)
  }

  lemma {:induction false} ShlMono(a: nat, b: nat, s: nat)
    requires a <= b
    ensures Shl(a, s) <= Shl(b, s)
  {
    if s > 0 { ShlMono(a, b, s - 1); }
  }

  lemma {:induction false} ShlSplit(q: nat, low: nat, s: nat)
    ensures Shl(128 * q + low, s) == Shl(low, s) + 128 * Shl(q, s)
  {
    if s > 0 { ShlSplit(q, low, s - 1); }
  }

  lemma {:induction false} ShlSeven(q: nat, s: nat)
    ensures Shl(q, s + 7) == 128 * Shl(q, s) && Pow2(s + 7) == 128 * Pow2(s)
  {
    assert Shl(q, s + 7) == 2 * Shl(q, s + 6) == 4 * Shl(q, s + 5) == 8 * Shl(q, s + 4);
    assert Shl(q, s + 4) == 2 * Shl(q, s + 3) == 4 * Shl(q, s + 2) == 8 * Shl(q, s + 1) == 16 * Shl(q, s);
    assert Pow2(s + 7) == 2 * Pow2(s + 6) == 4 * Pow2(s + 5) == 8 * Pow2(s + 4);
    assert Pow2(s + 4) == 2 * Pow2(s + 3) == 4 * Pow2(s + 2) == 8 * Pow2(s + 1) == 16 * Pow2(s);
  }

  lemma {:induction false} ShlLarge(q: nat, s: nat)
    requires q >= 1
    ensures Shl(q, s) >= Pow2(s)
  {
    if s > 0 { ShlLarge(q, s - 1); }
  }

  lemma {:induction false} ShlSmall(low: nat, s: nat)
    requires low <= 127
    ensures Shl(low, s) <= 127 * Pow2(s)
  {
    if s > 0 { ShlSmall(low, s - 1); }
  }

  /** One more byte: what is accumulated stays below the next shift, and the shift stays below 64. */
  lemma {:induction false} VarintStep(acc: nat, shift: nat, v: nat)
    requires acc < Pow2(shift) && v >= 128 && acc + Shl(v, shift) < TWO64 && shift <= 63
    ensures var next := acc + Shl(v % 128, shift);
      && next < Pow2(shift + 7) && next + Shl(v / 128, shift + 7) == acc + Shl(v, shift) && shift + 7 <= 63
  {
    ShlSplit(v / 128, v % 128, shift);
    ShlSeven(v / 128, shift);
    ShlSmall(v % 128, shift);
    ShlLarge(v / 128, shift + 7);
    if shift + 7 > 63 {
      Pow2Of64();
      Pow2Mono(64, shift + 7);
    }
  }

  lemma {:induction false} VarintBack(buf: seq<Byte>, pos: nat, acc: nat, shift: nat, v: nat, rest: seq<Byte>)
    requires pos <= |buf| && buf[pos..] == Leb(v) + rest
    requires acc < Pow2(shift) && acc + Shl(v, shift) < TWO64 && shift <= 63
    ensures VarintFrom(buf, pos, acc, shift) == Ok(At(acc + Shl(v, shift), pos + |Leb(v)|))
    decreases v
  {
    hide Or, Shl, Pow2;
    var low := v % 128;
    ShlMono(low, v, shift);
    AddIsOr(acc, low, shift);
    assert buf[pos] == buf[pos..][0] == Leb(v)[0];
    if v >= 128 {
      VarintStep(acc, shift, v);
      assert buf[pos + 1..] == buf[pos..][1..] == Leb(v / 128) + rest;
      VarintBack(buf, pos + 1, acc + Shl(low, shift), shift + 7, v / 128, rest);
    }
  }

  /** The zigzag of an int64, as Avro prescribes it. */
  function ZigZagOf(x: int): (z: nat)
    requires 0 <= x + TWO63 < TWO64
    ensures z < TWO64
  {
    if x >= 0 then 2 * x else -2 * x - 1
  }

  lemma {:induction false} UnZigZagOf(x: int)
    requires 0 <= x + TWO63 < TWO64
    ensures SignedOf(UnZigZag(ZigZagOf(x))) == x
  {
    hide UnZigZag;
    UnZigZagValue(ZigZagOf(x));
  }

  /** Every int64, written as the LEB128 of its zigzag, is read back, whatever follows. */
  lemma {:induction false} LongBack(buf: seq<Byte>, pos: nat, x: int, rest: seq<Byte>)
    requires 0 <= x + TWO63 < TWO64 && pos <= |buf| && buf[pos..] == Leb(ZigZagOf(x)) + rest
    ensures LongAt(buf, pos) == Ok(At(x, pos + |Leb(ZigZagOf(x))|))
  {
    hide UnZigZag, VarintFrom, Leb, ZigZagOf, SignedOf;
    VarintBack(buf, pos, 0, 0, ZigZagOf(x), rest);
    UnZigZagOf(x);
  }

  /** The header of an array or map block: a count, negative when a byte size follows. */
  function BlockAt(buf: seq<Byte>, pos: nat, cap: nat): (r: Result<At<nat>>)
    ensures r.Ok? ==> pos < r.value.pos <= |buf| && r.value.value <= cap
  {
    var c := LongAt(buf, pos);
    if c.Err? then Err
    else
      var cnt := c.value.value;
      if cnt >= 0 then if cnt > cap then Err else Ok(At(cnt, c.value.pos))
      else if cnt + cap < 0 then Err
      else
        var size := LongAt(buf, c.value.pos);
        if size.Err? then Err else Ok(At(-cnt, size.value.pos))
  }

  // ----- skipping

  /** av_skip */
  function Skip(buf: seq<Byte>, pos: nat, s: Sch): (r: Result<nat>)
    requires pos <= |buf|
    ensures r.Ok? ==> pos <= r.value <= |buf|
    decreases s, 1, 0, 0
  {
    match s
    case ANull => Ok(pos)
    case ABool => Pos(TakeAt(buf, pos, 1))
    case AInt => Pos(LongAt(buf, pos))
    case ALong => Pos(LongAt(buf, pos))
    case AEnum => Pos(LongAt(buf, pos))
    case AFloat => Pos(TakeAt(buf, pos, 4))
    case ADouble => Pos(TakeAt(buf, pos, 8))
    case ABytes => Pos(BytesAt(buf, pos))
    case AString => Pos(BytesAt(buf, pos))
    case AFixed(n) => Pos(TakeAt(buf, pos, n))
    case ARecord(fs) => SkipFields(buf, pos, s, |fs|)
    case AUnion(bs) =>
      var idx := LongAt(buf, pos);
      if idx.Err? || !(0 <= idx.value.value < |bs|) then Err else Skip(buf, idx.value.pos, bs[idx.value.value])
    case AArray(_) => SkipBlocks(buf, pos, s)
    case AMap(_) => SkipBlocks(buf, pos, s)
  }

  function Pos<T>(r: Result<At<T>>): Result<nat> { if r.Err? then Err else Ok(r.value.pos) }

  /** The first k fields of a record. */
  function SkipFields(buf: seq<Byte>, pos: nat, s: Sch, k: nat): (r: Result<nat>)
    requires s.ARecord? && k <= |s.fields| && pos <= |buf|
    ensures r.Ok? ==> pos <= r.value <= |buf|
    decreases s, 0, 0, k
  {
    if k == 0 then Ok(pos)
    else
      var before := SkipFields(buf, pos, s, k - 1);
      if before.Err? then Err else Skip(buf, before.value, s.fields[k - 1].ty)
  }

  /** The blocks of an array or map up to the empty one. */
  function SkipBlocks(buf: seq<Byte>, pos: nat, s: Sch): (r: Result<nat>)
    requires (s.AArray? || s.AMap?) && pos <= |buf|
    ensures r.Ok? ==> pos <= r.value <= |buf|
    decreases s, 0, |buf| - pos, MAX_OBJECTS + 1
  {
    var b := BlockAt(buf, pos, MAX_OBJECTS);
    if b.Err? then Err
    else if b.value.value == 0 then Ok(b.value.pos)
    else
      var p := SkipItems(buf, b.value.pos, s, b.value.value);
      if p.Err? then Err else SkipBlocks(buf, p.value, s)
  }

  /** k elements; a map element starts with its key. */
  function SkipItems(buf: seq<Byte>, pos: nat, s: Sch, k: nat): (r: Result<nat>)
    requires (s.AArray? || s.AMap?) && pos <= |buf|
    ensures r.Ok? ==> pos <= r.value <= |buf|
    decreases s, 0, |buf| - pos, k
  {
    if k == 0 then Ok(pos)
    else
      var before := SkipItems(buf, pos, s, k - 1);
      if before.Err? then Err
      else if s.AArray? then Skip(buf, before.value, s.items)
      else
        var key := BytesAt(buf, before.value);
        if key.Err? then Err else Skip(buf, key.value.pos, s.values)
  }

  // ----- projected decoding

  datatype Unwrapped = Unwrapped(ty: Sch, isnull: bool)

  /** av_unwrap_union: the branch taken, and whether it is null. */
  function UnwrapAt(buf: seq<Byte>, pos: nat, s: Sch): (r: Result<At<Unwrapped>>)
    requires pos <= |buf|
    ensures r.Ok? ==> pos <= r.value.pos <= |buf|
  {
    if !s.AUnion? then Ok(At(Unwrapped(s, false), pos))
    else
      var idx := LongAt(buf, pos);
      if idx.Err? || !(0 <= idx.value.value < |s.branches|) then Err
      else
        var t := s.branches[idx.value.value];
        Ok(At(Unwrapped(t, t.ANull?), idx.value.pos))
  }

  /** Skipping a value is skipping the branch its union names. */
  lemma {:induction false} UnwrapSkips(buf: seq<Byte>, pos: nat, s: Sch)
    requires pos <= |buf| && UnwrapAt(buf, pos, s).Ok?
    ensures var u := UnwrapAt(buf, pos, s).value; Skip(buf, pos, s) == Skip(buf, u.pos, u.value.ty)
    ensures var u := UnwrapAt(buf, pos, s).value; u.value.isnull ==> Skip(buf, pos, s) == Ok(u.pos)
  {
    hide LongAt;
  }

  predicate IsText(s: Sch) { s.AString? || s.ABytes? }

  predicate IsInt(s: Sch) { s.AInt? || s.ALong? }

  /** av_read_string: null and mistyped values give None. */
  function StringAt(buf: seq<Byte>, pos: nat, s: Sch): (r: Result<At<Option<seq<Byte>>>>)
    requires pos <= |buf|
  {
    var u := UnwrapAt(buf, pos, s);
    if u.Err? then Err
    else if u.value.value.isnull then Ok(At(None, u.value.pos))
    else if !IsText(u.value.value.ty) then Skipped(Skip(buf, u.value.pos, u.value.value.ty), None)
    else
      var b := BytesAt(buf, u.value.pos);
      if b.Err? then Err else Ok(At(Some(b.value.value), b.value.pos))
  }

  function Skipped<T>(p: Result<nat>, v: T): Result<At<T>> { if p.Err? then Err else Ok(At(v, p.value)) }

  /** av_read_long */
  function LongField(buf: seq<Byte>, pos: nat, s: Sch): (r: Result<At<Option<int>>>)
    requires pos <= |buf|
  {
    var u := UnwrapAt(buf, pos, s);
    if u.Err? then Err
    else if u.value.value.isnull then Ok(At(None, u.value.pos))
    else if !IsInt(u.value.value.ty) then Skipped(Skip(buf, u.value.pos, u.value.value.ty), None)
    else
      var v := LongAt(buf, u.value.pos);
      if v.Err? then Err else Ok(At(Some(v.value.value), v.value.pos))
  }

  function OrNought(v: Option<int>): int { if v.Some? then v.value else 0 }

  /** av_read_int32_field: a value outside int32 raises. */
  function Int32Field(buf: seq<Byte>, pos: nat, s: Sch): (r: Result<At<Option<int>>>)
    requires pos <= |buf|
  {
    var v := LongField(buf, pos, s);
    if v.Err? || !(INT32_MIN <= OrNought(v.value.value) <= INT32_MAX) then Err else v
  }

  lemma {:induction false} StringSkips(buf: seq<Byte>, pos: nat, s: Sch)
    requires pos <= |buf| && StringAt(buf, pos, s).Ok?
    ensures Skip(buf, pos, s) == Ok(StringAt(buf, pos, s).value.pos)
  {
    hide UnwrapAt, BytesAt;
    UnwrapSkips(buf, pos, s);
  }

  lemma {:induction false} LongSkips(buf: seq<Byte>, pos: nat, s: Sch)
    requires pos <= |buf| && LongField(buf, pos, s).Ok?
    ensures Skip(buf, pos, s) == Ok(LongField(buf, pos, s).value.pos)
  {
    hide UnwrapAt, LongAt;
    UnwrapSkips(buf, pos, s);
  }

  // ----- arrays of ints

  /** k elements appended to what is already read. */
  function IntItems(buf: seq<Byte>, pos: nat, vals: seq<int>, k: nat): (r: Result<At<seq<int>>>)
    requires pos <= |buf|
    ensures r.Ok? ==> pos <= r.value.pos <= |buf| && |r.value.value| == |vals| + k
    decreases k
  {
    if k == 0 then Ok(At(vals, pos))
    else
      var before := IntItems(buf, pos, vals, k - 1);
      if before.Err? then Err
      else
        var v := LongAt(buf, before.value.pos);
        if v.Err? || !(0 <= v.value.value <= INT32_MAX) then Err else Ok(At(before.value.value + [v.value.value], v.value.pos))
  }

  function IntBlocks(buf: seq<Byte>, pos: nat, vals: seq<int>): (r: Result<At<seq<int>>>)
    requires pos <= |buf|
    ensures r.Ok? ==> pos <= r.value.pos <= |buf|
    decreases |buf| - pos
  {
    var b := BlockAt(buf, pos, MAX_EQUALITY_IDS);
    if b.Err? then Err
    else if b.value.value == 0 then Ok(At(vals, b.value.pos))
    else if |vals| + b.value.value > MAX_EQUALITY_IDS then Err
    else
      var p := IntItems(buf, b.value.pos, vals, b.value.value);
      if p.Err? then Err else IntBlocks(buf, p.value.pos, p.value.value)
  }

  /** av_read_int_array */
  function IntArrayAt(buf: seq<Byte>, pos: nat, s: Sch): (r: Result<At<seq<int>>>)
    requires pos <= |buf|
  {
    var u := UnwrapAt(buf, pos, s);
    if u.Err? then Err
    else if u.value.value.isnull then Ok(At([], u.value.pos))
    else if !(u.value.value.ty.AArray? && IsInt(u.value.value.ty.items)) then Skipped(Skip(buf, u.value.pos, u.value.value.ty), [])
    else IntBlocks(buf, u.value.pos, [])
  }

  /** A block the stricter cap accepts is read the same under the wider one. */
  lemma {:induction false} BlockCap(buf: seq<Byte>, pos: nat, cap: nat)
    requires cap <= MAX_OBJECTS && BlockAt(buf, pos, cap).Ok?
    ensures BlockAt(buf, pos, MAX_OBJECTS) == BlockAt(buf, pos, cap)
  {
    hide LongAt;
  }

  lemma {:induction false} IntItemsSkip(buf: seq<Byte>, pos: nat, vals: seq<int>, s: Sch, k: nat)
    requires pos <= |buf| && s.AArray? && IsInt(s.items) && IntItems(buf, pos, vals, k).Ok?
    ensures SkipItems(buf, pos, s, k) == Ok(IntItems(buf, pos, vals, k).value.pos)
    decreases k
  {
    hide LongAt;
    if k > 0 { IntItemsSkip(buf, pos, vals, s, k - 1); }
  }

  lemma {:induction false} IntBlocksSkip(buf: seq<Byte>, pos: nat, vals: seq<int>, s: Sch)
    requires pos <= |buf| && s.AArray? && IsInt(s.items) && IntBlocks(buf, pos, vals).Ok?
    ensures SkipBlocks(buf, pos, s) == Ok(IntBlocks(buf, pos, vals).value.pos)
    decreases |buf| - pos
  {
    hide BlockAt, IntItems, SkipItems;
    var b := BlockAt(buf, pos, MAX_EQUALITY_IDS);
    BlockCap(buf, pos, MAX_EQUALITY_IDS);
    if b.value.value != 0 {
      var p := IntItems(buf, b.value.pos, vals, b.value.value);
      IntItemsSkip(buf, b.value.pos, vals, s, b.value.value);
      IntBlocksSkip(buf, p.value.pos, p.value.value, s);
    }
  }

  lemma {:induction false} IntArraySkips(buf: seq<Byte>, pos: nat, s: Sch)
    requires pos <= |buf| && IntArrayAt(buf, pos, s).Ok?
    ensures Skip(buf, pos, s) == Ok(IntArrayAt(buf, pos, s).value.pos)
  {
    hide UnwrapAt, IntBlocks, SkipBlocks, LongAt;
    UnwrapSkips(buf, pos, s);
    var u := UnwrapAt(buf, pos, s).value;
    if !u.value.isnull && u.value.ty.AArray? && IsInt(u.value.ty.items) { IntBlocksSkip(buf, u.pos, [], u.value.ty); }
  }

  // ----- bound maps: an array of {key, value} records

  datatype Bound = Bound(id: int, bytes: seq<Byte>)

  datatype KeyValue = KeyValue(key: Option<int>, value: Option<seq<Byte>>)

  /** The value of a bound; null and mistyped values are passed over. */
  function BoundValue(buf: seq<Byte>, pos: nat, s: Sch): (r: Result<At<Option<seq<Byte>>>>)
    requires pos <= |buf|
    ensures r.Ok? ==> pos <= r.value.pos <= |buf|
  {
    var u := UnwrapAt(buf, pos, s);
    if u.Err? then Err
    else if u.value.value.isnull then Ok(At(None, u.value.pos))
    else if !IsText(u.value.value.ty) then Skipped(Skip(buf, u.value.pos, u.value.value.ty), None)
    else
      var b := BytesAt(buf, u.value.pos);
      if b.Err? || |b.value.value| > MAX_BOUND_LEN then Err else Ok(At(Some(b.value.value), b.value.pos))
  }

  function BoundField(buf: seq<Byte>, pos: nat, f: Field, kv: KeyValue): (r: Result<At<KeyValue>>)
    requires pos <= |buf|
  {
    if f.name == "key" then
      var k := Int32Field(buf, pos, f.ty);
      if k.Err? then Err else Ok(At(kv.(key := Some(OrNought(k.value.value))), k.value.pos))
    else if f.name == "value" then
      var v := BoundValue(buf, pos, f.ty);
      if v.Err? then Err else Ok(At(if v.value.value.Some? then kv.(value := v.value.value) else kv, v.value.pos))
    else Skipped(Skip(buf, pos, f.ty), kv)
  }

  lemma {:induction false} BoundFieldSkips(buf: seq<Byte>, pos: nat, f: Field, kv: KeyValue)
    requires pos <= |buf| && BoundField(buf, pos, f, kv).Ok?
    ensures Skip(buf, pos, f.ty) == Ok(BoundField(buf, pos, f, kv).value.pos)
  {
    hide UnwrapAt, BytesAt, LongField;
    if f.name == "key" {
      LongSkips(buf, pos, f.ty);
    } else if f.name == "value" {
      UnwrapSkips(buf, pos, f.ty);
    }
  }

  lemma {:induction false} SkipInside(buf: seq<Byte>, pos: nat, s: Sch, p: nat)
    requires pos <= |buf| && Skip(buf, pos, s) == Ok(p)
    ensures pos <= p <= |buf|
  {
  }

  /** The first k fields of one record. */
  function BoundRecord(buf: seq<Byte>, pos: nat, rec: Sch, k: nat): (r: Result<At<KeyValue>>)
    requires pos <= |buf| && rec.ARecord? && k <= |rec.fields|
    ensures r.Ok? ==> SkipFields(buf, pos, rec, k) == Ok(r.value.pos) && pos <= r.value.pos <= |buf|
    decreases k
  {
    if k == 0 then Ok(At(KeyValue(None, None), pos))
    else
      var before := BoundRecord(buf, pos, rec, k - 1);
      if before.Err? then Err
      else
        var f := rec.fields[k - 1];
        var r := BoundField(buf, before.value.pos, f, before.value.value);
        if r.Ok? then (BoundFieldSkips(buf, before.value.pos, f, before.value.value); r) else r
  }

  function BoundItems(buf: seq<Byte>, pos: nat, s: Sch, bs: seq<Bound>, k: nat): (r: Result<At<seq<Bound>>>)
    requires pos <= |buf| && s.AArray? && s.items.ARecord?
    ensures r.Ok? ==> SkipItems(buf, pos, s, k) == Ok(r.value.pos) && pos <= r.value.pos <= |buf|
    decreases k
  {
    if k == 0 then Ok(At(bs, pos))
    else
      var before := BoundItems(buf, pos, s, bs, k - 1);
      if before.Err? then Err
      else
        var kv := BoundRecord(buf, before.value.pos, s.items, |s.items.fields|);
        if kv.Err? then Err
        else
          var KeyValue(key, value) := kv.value.value;
          Ok(At(if key.Some? && value.Some? then before.value.value + [Bound(key.value, value.value)] else before.value.value, kv.value.pos))
  }

  function BoundBlocks(buf: seq<Byte>, pos: nat, s: Sch, bs: seq<Bound>): (r: Result<At<seq<Bound>>>)
    requires pos <= |buf| && s.AArray? && s.items.ARecord?
    ensures r.Ok? ==> SkipBlocks(buf, pos, s) == Ok(r.value.pos) && pos <= r.value.pos <= |buf|
    decreases |buf| - pos
  {
    var b := BlockAt(buf, pos, MAX_BOUNDS);
    if b.Err? then Err
    else
      BlockCap(buf, pos, MAX_BOUNDS);
      if b.value.value == 0 then Ok(At(bs, b.value.pos))
      else if |bs| + b.value.value > MAX_BOUNDS then Err
      else
        var p := BoundItems(buf, b.value.pos, s, bs, b.value.value);
        if p.Err? then Err else BoundBlocks(buf, p.value.pos, s, p.value.value)
  }

  /** av_read_bound_map */
  function BoundMapAt(buf: seq<Byte>, pos: nat, s: Sch): (r: Result<At<seq<Bound>>>)
    requires pos <= |buf|
  {
    var u := UnwrapAt(buf, pos, s);
    if u.Err? then Err
    else if u.value.value.isnull then Ok(At([], u.value.pos))
    else if !(u.value.value.ty.AArray? && u.value.value.ty.items.ARecord?) then Skipped(Skip(buf, u.value.pos, u.value.value.ty), [])
    else BoundBlocks(buf, u.value.pos, u.value.value.ty, [])
  }

  lemma {:induction false} BoundMapSkips(buf: seq<Byte>, pos: nat, s: Sch)
    requires pos <= |buf| && BoundMapAt(buf, pos, s).Ok?
    ensures Skip(buf, pos, s) == Ok(BoundMapAt(buf, pos, s).value.pos)
  {
    hide UnwrapAt, BoundBlocks, SkipBlocks, LongAt;
    UnwrapSkips(buf, pos, s);
  }

  // ----- partition cells

  datatype Cell = Cell(isnull: bool, comparable: bool, ival: int, bytes: Option<seq<Byte>>)

  function Plain(comparable: bool): Cell { Cell(false, comparable, 0, None) }

  /** One field of av_decode_partition. */
  function CellAt(buf: seq<Byte>, pos: nat, s: Sch): (r: Result<At<Cell>>)
    requires pos <= |buf|
  {
    var u := UnwrapAt(buf, pos, s);
    if u.Err? then Err
    else if u.value.value.isnull then Ok(At(Cell(true, true, 0, None), u.value.pos))
    else TypedCell(buf, u.value.pos, u.value.value.ty)
  }

  function TypedCell(buf: seq<Byte>, pos: nat, t: Sch): (r: Result<At<Cell>>)
    requires pos <= |buf|
    ensures r.Ok? ==> Skip(buf, pos, t) == Ok(r.value.pos)
  {
    match t
    case AInt => LongCell(LongAt(buf, pos))
    case ALong => LongCell(LongAt(buf, pos))
    case ABool =>
      var p := TakeAt(buf, pos, 1);
      if p.Err? then Err else Ok(At(Cell(false, true, if p.value.value[0] != 0 then 1 else 0, None), p.value.pos))
    case AString => BytesCell(BytesAt(buf, pos))
    case ABytes => BytesCell(BytesAt(buf, pos))
    case AFixed(n) => Skipped(Pos(TakeAt(buf, pos, n)), Plain(false))
    case AFloat => Skipped(Pos(TakeAt(buf, pos, 4)), Plain(false))
    case ADouble => Skipped(Pos(TakeAt(buf, pos, 8)), Plain(false))
    case _ => Skipped(Skip(buf, pos, t), Plain(false))
  }

  function LongCell(v: Result<At<int>>): Result<At<Cell>> {
    if v.Err? then Err else Ok(At(Cell(false, true, v.value.value, None), v.value.pos))
  }

  function BytesCell(b: Result<At<seq<Byte>>>): Result<At<Cell>> {
    if b.Err? then Err else Ok(At(Cell(false, true, 0, Some(b.value.value)), b.value.pos))
  }

  lemma {:induction false} CellSkips(buf: seq<Byte>, pos: nat, s: Sch)
    requires pos <= |buf| && CellAt(buf, pos, s).Ok?
    ensures Skip(buf, pos, s) == Ok(CellAt(buf, pos, s).value.pos) && pos <= CellAt(buf, pos, s).value.pos <= |buf|
  {
    hide UnwrapAt, TypedCell;
    UnwrapSkips(buf, pos, s);
    SkipInside(buf, pos, s, CellAt(buf, pos, s).value.pos);
  }

  function CellsAt(buf: seq<Byte>, pos: nat, s: Sch, k: nat): (r: Result<At<seq<Cell>>>)
    requires pos <= |buf| && s.ARecord? && k <= |s.fields|
    ensures r.Ok? ==> SkipFields(buf, pos, s, k) == Ok(r.value.pos) && pos <= r.value.pos <= |buf|
    decreases k
  {
    if k == 0 then Ok(At([], pos))
    else
      var before := CellsAt(buf, pos, s, k - 1);
      if before.Err? then Err
      else
        var c := CellAt(buf, before.value.pos, s.fields[k - 1].ty);
        if c.Err? then Err
        else
          CellSkips(buf, before.value.pos, s.fields[k - 1].ty);
          Ok(At(before.value.value + [c.value.value], c.value.pos))
  }

  /** av_decode_partition */
  function PartitionAt(buf: seq<Byte>, pos: nat, s: Sch): (r: Result<At<Option<seq<Cell>>>>)
    requires pos <= |buf|
    ensures r.Ok? ==> Skip(buf, pos, s) == Ok(r.value.pos)
  {
    if !s.ARecord? then Skipped(Skip(buf, pos, s), None)
    else
      var cs := CellsAt(buf, pos, s, |s.fields|);
      if cs.Err? then Err else Ok(At(Some(cs.value.value), cs.value.pos))
  }

  // ----- data files and manifest entries

  datatype Entry = Entry(
    status: int, hasSequenceField: bool, sequenceNumber: Option<int>,
    path: Option<seq<Byte>>, format: Option<seq<Byte>>, content: int, recordCount: int, fileSize: int,
    partition: Option<seq<Cell>>, equalityIds: seq<int>, lower: seq<Bound>, upper: seq<Bound>,
    referenced: Option<seq<Byte>>, contentOffset: Option<int>, contentSize: Option<int>)

  function Put<T>(r: Result<At<T>>, f: T -> Entry): Result<At<Entry>> {
    if r.Err? then Err else Ok(At(f(r.value.value), r.value.pos))
  }

  /** The partition field: a null branch leaves the entry alone. */
  function PartitionField(buf: seq<Byte>, pos: nat, s: Sch, e: Entry): Result<At<Entry>>
    requires pos <= |buf|
  {
    var u := UnwrapAt(buf, pos, s);
    if u.Err? then Err
    else if u.value.value.isnull then Ok(At(e, u.value.pos))
    else Put(PartitionAt(buf, u.value.pos, u.value.value.ty), p => e.(partition := p))
  }

  lemma {:induction false} PartitionFieldSkips(buf: seq<Byte>, pos: nat, s: Sch, e: Entry)
    requires pos <= |buf| && PartitionField(buf, pos, s, e).Ok?
    ensures Skip(buf, pos, s) == Ok(PartitionField(buf, pos, s, e).value.pos)
  {
    hide UnwrapAt, PartitionAt;
    UnwrapSkips(buf, pos, s);
  }

  /** One field of av_decode_data_file, by name. */
  function DataFileField(buf: seq<Byte>, pos: nat, f: Field, e: Entry): Result<At<Entry>>
    requires pos <= |buf|
  {
    match f.name
    case "file_path" => Put(StringAt(buf, pos, f.ty), v => e.(path := v))
    case "file_format" => Put(StringAt(buf, pos, f.ty), v => e.(format := v))
    case "content" => Put(Int32Field(buf, pos, f.ty), v => e.(content := OrNought(v)))
    case "record_count" => Put(LongField(buf, pos, f.ty), v => e.(recordCount := OrNought(v)))
    case "file_size_in_bytes" => Put(LongField(buf, pos, f.ty), v => e.(fileSize := OrNought(v)))
    case "partition" => PartitionField(buf, pos, f.ty, e)
    case "equality_ids" => Put(IntArrayAt(buf, pos, f.ty), v => e.(equalityIds := v))
    case "lower_bounds" => Put(BoundMapAt(buf, pos, f.ty), v => e.(lower := v))
    case "upper_bounds" => Put(BoundMapAt(buf, pos, f.ty), v => e.(upper := v))
    case "referenced_data_file" => Put(StringAt(buf, pos, f.ty), v => e.(referenced := v))
    case "content_offset" => Put(LongField(buf, pos, f.ty), v => e.(contentOffset := v))
    case "content_size_in_bytes" => Put(LongField(buf, pos, f.ty), v => e.(contentSize := v))
    case _ => Skipped(Skip(buf, pos, f.ty), e)
  }

  lemma {:induction false} DataFileFieldSkips(buf: seq<Byte>, pos: nat, f: Field, e: Entry)
    requires pos <= |buf| && DataFileField(buf, pos, f, e).Ok?
    ensures Skip(buf, pos, f.ty) == Ok(DataFileField(buf, pos, f, e).value.pos)
  {
    hide StringAt, LongField, IntArrayAt, BoundMapAt, PartitionField, Skip;
    if StringAt(buf, pos, f.ty).Ok? { StringSkips(buf, pos, f.ty); }
    if LongField(buf, pos, f.ty).Ok? { LongSkips(buf, pos, f.ty); }
    if IntArrayAt(buf, pos, f.ty).Ok? { IntArraySkips(buf, pos, f.ty); }
    if BoundMapAt(buf, pos, f.ty).Ok? { BoundMapSkips(buf, pos, f.ty); }
    if PartitionField(buf, pos, f.ty, e).Ok? { PartitionFieldSkips(buf, pos, f.ty, e); }
  }

  function DataFileFields(buf: seq<Byte>, pos: nat, s: Sch, e: Entry, k: nat): (r: Result<At<Entry>>)
    requires pos <= |buf| && s.ARecord? && k <= |s.fields|
    ensures r.Ok? ==> SkipFields(buf, pos, s, k) == Ok(r.value.pos) && pos <= r.value.pos <= |buf|
    decreases k
  {
    if k == 0 then Ok(At(e, pos))
    else
      var before := DataFileFields(buf, pos, s, e, k - 1);
      if before.Err? then Err
      else
        var f := s.fields[k - 1];
        var r := DataFileField(buf, before.value.pos, f, before.value.value);
        if r.Ok? then (DataFileFieldSkips(buf, before.value.pos, f, before.value.value); r) else r
  }

  /** av_decode_data_file: a data file must be a record. */
  function DataFileAt(buf: seq<Byte>, pos: nat, s: Sch, e: Entry): Result<At<Entry>>
    requires pos <= |buf|
  {
    if !s.ARecord? then Err else DataFileFields(buf, pos, s, e, |s.fields|)
  }

  function DataFileRef(buf: seq<Byte>, pos: nat, s: Sch, e: Entry): Result<At<Entry>>
    requires pos <= |buf|
  {
    var u := UnwrapAt(buf, pos, s);
    if u.Err? then Err
    else if u.value.value.isnull then Ok(At(e, u.value.pos))
    else DataFileAt(buf, u.value.pos, u.value.value.ty, e)
  }

  lemma {:induction false} DataFileRefSkips(buf: seq<Byte>, pos: nat, s: Sch, e: Entry)
    requires pos <= |buf| && DataFileRef(buf, pos, s, e).Ok?
    ensures Skip(buf, pos, s) == Ok(DataFileRef(buf, pos, s, e).value.pos)
  {
    hide UnwrapAt, DataFileFields;
    UnwrapSkips(buf, pos, s);
  }

  /** One field of av_decode_entry, by name. */
  function EntryField(buf: seq<Byte>, pos: nat, f: Field, e: Entry): Result<At<Entry>>
    requires pos <= |buf|
  {
    match f.name
    case "status" => Put(Int32Field(buf, pos, f.ty), v => e.(status := OrNought(v)))
    case "sequence_number" => Put(LongField(buf, pos, f.ty), v => e.(hasSequenceField := true, sequenceNumber := v))
    case "data_sequence_number" => Put(LongField(buf, pos, f.ty), v => e.(hasSequenceField := true, sequenceNumber := v))
    case "data_file" => DataFileRef(buf, pos, f.ty, e)
    case _ => Skipped(Skip(buf, pos, f.ty), e)
  }

  lemma {:induction false} EntryFieldSkips(buf: seq<Byte>, pos: nat, f: Field, e: Entry)
    requires pos <= |buf| && EntryField(buf, pos, f, e).Ok?
    ensures Skip(buf, pos, f.ty) == Ok(EntryField(buf, pos, f, e).value.pos)
  {
    hide LongField, DataFileRef, Skip;
    if LongField(buf, pos, f.ty).Ok? { LongSkips(buf, pos, f.ty); }
    if DataFileRef(buf, pos, f.ty, e).Ok? { DataFileRefSkips(buf, pos, f.ty, e); }
  }

  function EntryFields(buf: seq<Byte>, pos: nat, s: Sch, e: Entry, k: nat): (r: Result<At<Entry>>)
    requires pos <= |buf| && s.ARecord? && k <= |s.fields|
    ensures r.Ok? ==> SkipFields(buf, pos, s, k) == Ok(r.value.pos) && pos <= r.value.pos <= |buf|
    decreases k
  {
    if k == 0 then Ok(At(e, pos))
    else
      var before := EntryFields(buf, pos, s, e, k - 1);
      if before.Err? then Err
      else
        var f := s.fields[k - 1];
        var r := EntryField(buf, before.value.pos, f, before.value.value);
        if r.Ok? then (EntryFieldSkips(buf, before.value.pos, f, before.value.value); r) else r
  }

  /** av_decode_entry */
  function EntryAt(buf: seq<Byte>, pos: nat, s: Sch, e: Entry): Result<At<Entry>>
    requires pos <= |buf|
  {
    if !s.ARecord? then Err else EntryFields(buf, pos, s, e, |s.fields|)
  }

  /** For every schema and every byte string: where the projected decoding of a manifest entry
      succeeds, skipping the same record succeeds too and ends at the same byte. */
  lemma {:induction false} EntrySkips(buf: seq<Byte>, pos: nat, s: Sch, e: Entry)
    requires pos <= |buf| && EntryAt(buf, pos, s, e).Ok?
    ensures Skip(buf, pos, s) == Ok(EntryAt(buf, pos, s, e).value.pos)
  {
    hide EntryFields;
  }
}
