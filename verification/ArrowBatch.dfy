module ArrowBatch {
  /** src/columnar_arrow.c: the buffers of shredded columns in pre-order, the record batch that holds them, and their import. */

  import opened Prelude
  import opened Bits
  import opened BitPack
  import opened Words
  import opened ArrowTypes

  // ----- export: buffers in pre-order

  function OffsetBytes(os: seq<nat>): seq<Byte> { Stores(os, 4, |os|) }

  /** arrow_emit_buffers: validity, own buffers, then the children's. */
  function Buffers(ty: Ty, c: Col): seq<seq<Byte>>
    requires Shape(ty, c)
    decreases ty, 1, 0
  {
    [Spelled(c.valid)] +
    match ty
    case FixedTy(_) => [c.fixed]
    case BoolTy => [Spelled(c.bools)]
    case BytesTy => [OffsetBytes(c.offs), c.vardata]
    case ListTy(e) => [OffsetBytes(c.offs)] + Buffers(e, c.children[0])
    case StructTy(fs) => FieldBuffers(ty, c.children, |fs|)
  }

  function FieldBuffers(ty: Ty, cs: seq<Col>, k: nat): seq<seq<Byte>>
    requires ty.StructTy? && k <= |cs| == |ty.fields| && forall f | 0 <= f < |cs| :: Shape(ty.fields[f], cs[f])
    decreases ty, 0, k
  {
    if k == 0 then [] else FieldBuffers(ty, cs, k - 1) + Buffers(ty.fields[k - 1], cs[k - 1])
  }

  /** arrow_count_buffers */
  function Count(ty: Ty): (n: nat)
    ensures n > 0
    decreases ty, 1, 0
  {
    match ty
    case BytesTy => 3
    case ListTy(e) => 2 + Count(e)
    case StructTy(fs) => 1 + CountFields(ty, |fs|)
    case _ => 2
  }

  function CountFields(ty: Ty, k: nat): nat
    requires ty.StructTy? && k <= |ty.fields|
    decreases ty, 0, k
  {
    if k == 0 then 0 else CountFields(ty, k - 1) + Count(ty.fields[k - 1])
  }

  lemma {:induction false} BuffersCount(ty: Ty, c: Col)
    requires Shape(ty, c)
    ensures |Buffers(ty, c)| == Count(ty)
    decreases ty, 1, 0
  {
    match ty
    case ListTy(e) => BuffersCount(e, c.children[0]);
    case StructTy(fs) => FieldBuffersCount(ty, c.children, |fs|);
    case _ =>
  }

  lemma {:induction false} FieldBuffersCount(ty: Ty, cs: seq<Col>, k: nat)
    requires ty.StructTy? && k <= |cs| == |ty.fields| && forall f | 0 <= f < |cs| :: Shape(ty.fields[f], cs[f])
    ensures |FieldBuffers(ty, cs, k)| == CountFields(ty, k)
    decreases ty, 0, k
  {
    if k > 0 {
      FieldBuffersCount(ty, cs, k - 1);
      BuffersCount(ty.fields[k - 1], cs[k - 1]);
    }
  }

  /** A record batch body: the bytes and where each buffer lies in them. */
  datatype Batch = Batch(body: seq<Byte>, off: seq<nat>, len: seq<nat>)

  predicate InBody(b: Batch) { |b.off| == |b.len| && forall k | 0 <= k < |b.off| :: b.off[k] + b.len[k] <= |b.body| }

  function Buf(b: Batch, k: nat): (s: seq<Byte>)
    requires InBody(b) && k < |b.off|
    ensures |s| == b.len[k]
  {
    b.body[b.off[k]..b.off[k] + b.len[k]]
  }

  /** body_add_buffer: append and pad to 8 bytes. */
  function AddBuffer(b: Batch, s: seq<Byte>): Batch {
    var grown := b.body + s;
    Batch(grown + Zeros((8 - |grown| % 8) % 8), b.off + [|b.body|], b.len + [|s|])
  }

  /** The first k buffers added to a body. */
  function EmitOnto(b: Batch, bufs: seq<seq<Byte>>, k: nat): (r: Batch)
    requires k <= |bufs|
    ensures |r.off| == |b.off| + k
  {
    if k == 0 then b else AddBuffer(EmitOnto(b, bufs, k - 1), bufs[k - 1])
  }

  function Emit(bufs: seq<seq<Byte>>, k: nat): (b: Batch)
    requires k <= |bufs|
    ensures |b.off| == k
  {
    EmitOnto(Batch([], [], []), bufs, k)
  }

  /** Buffers cur, cur + 1, ... of the batch are the given ones. */
  ghost predicate At(b: Batch, cur: nat, bufs: seq<seq<Byte>>) {
    InBody(b) && cur + |bufs| <= |b.off| && forall j | 0 <= j < |bufs| :: BufIs(b, cur + j, bufs[j])
  }

  ghost predicate BufIs(b: Batch, k: nat, s: seq<Byte>)
    requires InBody(b) && k < |b.off|
  {
    Buf(b, k) == s
  }

  lemma {:induction false} AddBufferKeeps(b: Batch, s: seq<Byte>, k: nat)
    requires InBody(b) && k <= |b.off|
    ensures InBody(AddBuffer(b, s))
    ensures Buf(AddBuffer(b, s), k) == if k < |b.off| then Buf(b, k) else s
    ensures |AddBuffer(b, s).body| % 8 == 0
  {
    var grown := b.body + s;
    var r := (8 - |grown| % 8) % 8;
    assert (|grown| + r) % 8 == 0;
  }

  lemma {:induction false} EmitHolds(bufs: seq<seq<Byte>>, k: nat, j: nat)
    requires k <= |bufs|
    ensures InBody(Emit(bufs, k))
    ensures j < k ==> Buf(Emit(bufs, k), j) == bufs[j]
  {
    if k > 0 {
      EmitHolds(bufs, k - 1, j);
      AddBufferKeeps(Emit(bufs, k - 1), bufs[k - 1], if j < k then j else 0);
    }
  }

  // ----- import: the field tree with its buffer indices

  datatype Imp = Imp(ty: Ty, validBuf: nat, offBuf: nat, dataBuf: nat, children: seq<Imp>)

  /** imp_assign_buffers */
  function Assign(ty: Ty, cur: nat): Imp
    decreases ty
  {
    match ty
    case BytesTy => Imp(ty, cur, cur + 1, cur + 2, [])
    case ListTy(e) => Imp(ty, cur, cur + 1, 0, [Assign(e, cur + 2)])
    case StructTy(fs) =>
      Imp(ty, cur, 0, 0, seq(|fs|, f requires 0 <= f < |fs| => Assign(fs[f], cur + 1 + CountFields(ty, f))))
    case _ => Imp(ty, cur, 0, cur + 1, [])
  }

  /** imp_is_null: no bitmap means no nulls. */
  function IsNull(b: Batch, k: nat, i: nat): Result<bool>
    requires InBody(b)
  {
    if k >= |b.off| then Err
    else if b.len[k] == 0 then Ok(false)
    else if i / 8 >= b.len[k] then Err
    else Ok(Shr(Buf(b, k)[i / 8], i % 8) % 2 == 0)
  }

  function Int32(b: Batch, k: nat, i: nat): Result<int>
    requires InBody(b)
  {
    if k >= |b.off| || 4 * i + 4 > b.len[k] then Err
    else
      var u := FromLE(Buf(b, k)[4 * i..4 * i + 4]);
      Ok(if u < TWO31 then u else u - TWO32)
  }

  /** A byte range of a buffer. */
  function Range(b: Batch, k: nat, from: int, to: int): Result<seq<Byte>>
    requires InBody(b)
  {
    if k >= |b.off| || !(0 <= from <= to <= b.len[k]) then Err else Ok(Buf(b, k)[from..to])
  }

  function BitAt(b: Batch, k: nat, i: nat): Result<bool>
    requires InBody(b)
  {
    if k >= |b.off| || i / 8 >= b.len[k] then Err else Ok(Shr(Buf(b, k)[i / 8], i % 8) % 2 == 1)
  }

  /** imp_value_at; Err is a read outside the buffers. */
  function ValueAt(n: Imp, b: Batch, i: nat): Result<Val>
    requires InBody(b)
    decreases n, 1, 0
  {
    var missing := IsNull(b, n.validBuf, i);
    if missing.Err? then Err else if missing.value then Ok(Null)
    else
      match n.ty
      case FixedTy(w) =>
        var s := Range(b, n.dataBuf, Times(i, w), Times(i, w) + w);
        if s.Err? then Err else Ok(Prim(s.value))
      case BoolTy =>
        var f := BitAt(b, n.dataBuf, i);
        if f.Err? then Err else Ok(Flag(f.value))
      case BytesTy =>
        var from, to := Int32(b, n.offBuf, i), Int32(b, n.offBuf, i + 1);
        if from.Err? || to.Err? then Err
        else
          var s := Range(b, n.dataBuf, from.value, to.value);
          if s.Err? then Err else Ok(Text(s.value))
      case ListTy(_) =>
        var from, to := Int32(b, n.offBuf, i), Int32(b, n.offBuf, i + 1);
        if from.Err? || to.Err? || !(0 <= from.value <= to.value) || |n.children| != 1 then Err
        else
          var vs := ItemsAt(n, b, from.value, to.value - from.value);
          if vs.Err? then Err else Ok(Items(vs.value))
      case StructTy(fs) =>
        var cs := CellsAt(n, b, i, |n.children|);
        if cs.Err? then Err else Ok(Row(cs.value))
  }

  /** Elements from, from + 1, ... of the list's child. */
  function ItemsAt(n: Imp, b: Batch, from: nat, count: nat): Result<seq<Val>>
    requires InBody(b) && |n.children| == 1
    decreases n, 0, count
  {
    if count == 0 then Ok([])
    else
      var before := ItemsAt(n, b, from, count - 1);
      var v := ValueAt(n.children[0], b, from + count - 1);
      if before.Err? || v.Err? then Err else Ok(before.value + [v.value])
  }

  function CellsAt(n: Imp, b: Batch, i: nat, k: nat): Result<seq<Val>>
    requires InBody(b) && k <= |n.children|
    decreases n, 0, k
  {
    if k == 0 then Ok([])
    else
      var before := CellsAt(n, b, i, k - 1);
      var v := ValueAt(n.children[k - 1], b, i);
      if before.Err? || v.Err? then Err else Ok(before.value + [v.value])
  }

  /** imp_check_bounds */
  predicate CheckBounds(n: Imp, b: Batch, count: nat)
    requires InBody(b)
    decreases n
  {
    && n.validBuf < |b.off|
    && (b.len[n.validBuf] > 0 ==> count <= b.len[n.validBuf] * 8)
    && match n.ty
       case StructTy(_) => forall c | 0 <= c < |n.children| :: CheckBounds(n.children[c], b, count)
       case ListTy(_) =>
         && OffsetsOk(b, n.offBuf, count)
         && |n.children| == 1 && CheckBounds(n.children[0], b, LastOffset(b, n.offBuf, count))
       case BytesTy =>
         && OffsetsOk(b, n.offBuf, count)
         && n.dataBuf < |b.off| && LastOffset(b, n.offBuf, count) <= b.len[n.dataBuf]
       case BoolTy => n.dataBuf < |b.off| && count <= b.len[n.dataBuf] * 8
       case FixedTy(w) => n.dataBuf < |b.off| && w > 0 && count <= b.len[n.dataBuf] / w
  }

  /** count + 1 offsets fit the buffer, none is negative, none is below its predecessor. */
  predicate OffsetsOk(b: Batch, k: nat, count: nat)
    requires InBody(b)
  {
    && k < |b.off| && count + 1 <= b.len[k] / 4
    && forall i | 0 <= i <= count :: OffsetOk(b, k, i)
  }

  predicate OffsetOk(b: Batch, k: nat, i: nat)
    requires InBody(b)
  {
    Int32(b, k, i).Ok? && Int32(b, k, i).value >= 0
    && (i > 0 ==> Int32(b, k, i - 1).Ok? && Int32(b, k, i - 1).value <= Int32(b, k, i).value)
  }

  function LastOffset(b: Batch, k: nat, count: nat): nat
    requires InBody(b) && OffsetsOk(b, k, count)
  {
    assert OffsetOk(b, k, count);
    Int32(b, k, count).value
  }

  // ----- on any batch: what passes the check can be read

  lemma {:induction false} OffsetsRise(b: Batch, k: nat, count: nat, i: nat)
    requires InBody(b) && OffsetsOk(b, k, count) && i <= count
    ensures Int32(b, k, i).Ok? && 0 <= Int32(b, k, i).value <= LastOffset(b, k, count)
    decreases count - i
  {
    hide Int32;
    assert OffsetOk(b, k, i);
    if i < count {
      assert OffsetOk(b, k, i + 1);
      OffsetsRise(b, k, count, i + 1);
    }
  }

  lemma {:induction false} NullReadable(b: Batch, k: nat, count: nat, i: nat)
    requires InBody(b) && k < |b.off| && (b.len[k] > 0 ==> count <= b.len[k] * 8) && i < count
    ensures IsNull(b, k, i).Ok?
  {
  }

  lemma {:induction false} FixedInside(len: nat, w: nat, count: nat, i: nat)
    requires w > 0 && count <= len / w && i < count
    ensures Times(i, w) + w <= len
  {
    TimesIsMul(i + 1, w);
    QuotientBound(len, w, i + 1);
  }

  /** Whatever the batch says, after the bounds check no read leaves the buffers. */
  lemma {:induction false} CheckedReads(n: Imp, b: Batch, count: nat, i: nat)
    requires InBody(b) && CheckBounds(n, b, count) && i < count
    ensures ValueAt(n, b, i).Ok?
    decreases n, 1, 0
  {
    hide Int32, OffsetsOk, IsNull, Buf;
    NullReadable(b, n.validBuf, count, i);
    match n.ty
    case FixedTy(w) => FixedInside(b.len[n.dataBuf], w, count, i);
    case BoolTy =>
    case BytesTy =>
      OffsetsRise(b, n.offBuf, count, i);
      OffsetsRise(b, n.offBuf, count, i + 1);
      NextOffset(b, n.offBuf, count, i);
    case ListTy(_) =>
      OffsetsRise(b, n.offBuf, count, i);
      OffsetsRise(b, n.offBuf, count, i + 1);
      NextOffset(b, n.offBuf, count, i);
      var from, to := Int32(b, n.offBuf, i).value, Int32(b, n.offBuf, i + 1).value;
      CheckedItems(n, b, LastOffset(b, n.offBuf, count), from, to - from);
    case StructTy(_) => CheckedCells(n, b, count, i, |n.children|);
  }

  lemma {:induction false} NextOffset(b: Batch, k: nat, count: nat, i: nat)
    requires InBody(b) && OffsetsOk(b, k, count) && i < count
    ensures Int32(b, k, i).Ok? && Int32(b, k, i + 1).Ok? && Int32(b, k, i).value <= Int32(b, k, i + 1).value
  {
    assert OffsetOk(b, k, i) && OffsetOk(b, k, i + 1);
  }

  lemma {:induction false} CheckedItems(n: Imp, b: Batch, count: nat, from: nat, k: nat)
    requires InBody(b) && |n.children| == 1 && CheckBounds(n.children[0], b, count) && from + k <= count
    ensures ItemsAt(n, b, from, k).Ok?
    decreases n, 0, k
  {
    hide ValueAt, CheckBounds, InBody;
    if k > 0 {
      CheckedItems(n, b, count, from, k - 1);
      CheckedReads(n.children[0], b, count, from + k - 1);
    }
  }

  lemma {:induction false} CheckedCells(n: Imp, b: Batch, count: nat, i: nat, k: nat)
    requires InBody(b) && k <= |n.children| && (forall c | 0 <= c < |n.children| :: CheckBounds(n.children[c], b, count)) && i < count
    ensures CellsAt(n, b, i, k).Ok?
    decreases n, 0, k
  {
    hide ValueAt, CheckBounds, InBody;
    if k > 0 {
      CheckedCells(n, b, count, i, k - 1);
      CheckedReads(n.children[k - 1], b, count, i);
    }
  }

  // ----- reading back what was emitted

  /** Every running offset, at every level, is below 2^31. */
  ghost predicate Small(ty: Ty, rows: seq<Val>)
    decreases ty
  {
    match ty
    case BytesTy => Offset(rows, |rows|) < TWO31
    case ListTy(e) => Offset(rows, |rows|) < TWO31 && Small(e, Flat(rows, |rows|))
    case StructTy(fs) => forall f | 0 <= f < |fs| :: Small(fs[f], Column(rows, f))
    case _ => true
  }

  lemma {:induction false} LowestBit(v: nat)
    ensures Bit(v, 0) == (v % 2 == 1)
  {
  }

  lemma {:induction false} BitRead(s: seq<Byte>, f: seq<bool>, i: nat)
    requires s == Spelled(f) && i < |f|
    ensures i / 8 < |s| && (Shr(s[i / 8], i % 8) % 2 == 1) == f[i]
  {
    hide Shr, Spelled, Bit;
    SpelledSpells(f);
    assert StreamBit(s, i) == f[i];
    BitShr(s[i / 8], i % 8, 0);
    LowestBit(Shr(s[i / 8], i % 8));
  }

  lemma {:induction false} NullRead(b: Batch, k: nat, rows: seq<Val>, i: nat)
    requires InBody(b) && k < |b.off| && Buf(b, k) == Spelled(Valid(rows)) && i < |rows|
    ensures IsNull(b, k, i) == Ok(rows[i] == Null)
  {
    BitRead(Buf(b, k), Valid(rows), i);
  }

  lemma {:induction false} StoreAt(ws: seq<nat>, k: nat, i: nat)
    requires i < k <= |ws|
    ensures |Stores(ws, 4, k)| == 4 * k && Stores(ws, 4, k)[4 * i..4 * i + 4] == ToLE(ws[i], 4)
  {
    hide ToLE;
    TimesIsMul(k, 4);
    TimesIsMul(k - 1, 4);
    if i < k - 1 {
      StoreAt(ws, k - 1, i);
      assert Stores(ws, 4, k)[4 * i..4 * i + 4] == Stores(ws, 4, k - 1)[4 * i..4 * i + 4];
    }
  }

  lemma {:induction false} OffsetRead(b: Batch, k: nat, os: seq<nat>, i: nat)
    requires InBody(b) && k < |b.off| && Buf(b, k) == OffsetBytes(os) && i < |os| && os[i] < TWO31
    ensures Int32(b, k, i) == Ok(os[i])
  {
    hide Stores;
    StoreAt(os, |os|, i);
    CountBack(os[i]);
  }

  lemma {:induction false} OffsetMono(rows: seq<Val>, i: nat, k: nat)
    requires i <= k <= |rows|
    ensures Offset(rows, i) <= Offset(rows, k)
  {
    if i < k { OffsetMono(rows, i, k - 1); }
  }

  lemma {:induction false} FixedAt(rows: seq<Val>, w: nat, k: nat, i: nat)
    requires i < k <= |rows|
    ensures Times(i, w) + w <= Times(k, w) && FixedBytes(rows, w, k)[Times(i, w)..Times(i, w) + w] == Cell(rows[i], w)
  {
    hide Cell;
    if i < k - 1 {
      FixedAt(rows, w, k - 1, i);
      assert FixedBytes(rows, w, k)[Times(i, w)..Times(i, w) + w] == FixedBytes(rows, w, k - 1)[Times(i, w)..Times(i, w) + w];
    }
  }

  ghost predicate TextRows(rows: seq<Val>) { forall i | 0 <= i < |rows| :: Len(rows[i]) == |TextOf(rows[i])| }

  lemma {:induction false} TextsLength(rows: seq<Val>, k: nat)
    requires TextRows(rows) && k <= |rows|
    ensures |Texts(rows, k)| == Offset(rows, k)
  {
    hide Len;
    if k > 0 { TextsLength(rows, k - 1); }
  }

  lemma {:induction false} TextAt(rows: seq<Val>, k: nat, i: nat)
    requires TextRows(rows) && i < k <= |rows|
    ensures |Texts(rows, k)| == Offset(rows, k) && Offset(rows, i + 1) <= Offset(rows, k)
    ensures Texts(rows, k)[Offset(rows, i)..Offset(rows, i + 1)] == TextOf(rows[i])
  {
    hide Len, TextOf;
    TextsLength(rows, k);
    TextsLength(rows, k - 1);
    if i < k - 1 {
      TextAt(rows, k - 1, i);
      assert Texts(rows, k)[Offset(rows, i)..Offset(rows, i + 1)] == Texts(rows, k - 1)[Offset(rows, i)..Offset(rows, i + 1)];
    }
  }

  ghost predicate ListRows(rows: seq<Val>) { forall i | 0 <= i < |rows| :: Len(rows[i]) == |ItemsOf(rows[i])| }

  lemma {:induction false} FlatLength(rows: seq<Val>, k: nat)
    requires ListRows(rows) && k <= |rows|
    ensures |Flat(rows, k)| == Offset(rows, k)
  {
    hide Len;
    if k > 0 { FlatLength(rows, k - 1); }
  }

  /** Element j of list i is element Offset(i) + j of the flattened column. */
  lemma {:induction false} FlatAt(rows: seq<Val>, k: nat, i: nat, j: nat)
    requires ListRows(rows) && i < k <= |rows| && j < |ItemsOf(rows[i])|
    ensures Offset(rows, i) + j < |Flat(rows, k)| && Flat(rows, k)[Offset(rows, i) + j] == ItemsOf(rows[i])[j]
  {
    hide Len, ItemsOf;
    FlatLength(rows, k - 1);
    if i < k - 1 { FlatAt(rows, k - 1, i, j); }
  }

  lemma {:induction false} FlatConforms(rows: seq<Val>, e: Ty, k: nat)
    requires AllConform(rows, ListTy(e)) && k <= |rows|
    ensures AllConform(Flat(rows, k), e)
  {
    if k > 0 {
      FlatConforms(rows, e, k - 1);
      ItemsConform(rows[k - 1], e);
    }
  }

  lemma {:induction false} ColumnConforms(rows: seq<Val>, fs: seq<Ty>, f: nat)
    requires AllConform(rows, StructTy(fs)) && f < |fs|
    ensures AllConform(Column(rows, f), fs[f])
  {
    forall i | 0 <= i < |rows| ensures Conforms(Column(rows, f)[i], fs[f]) { assert Conforms(rows[i], StructTy(fs)); }
  }

  lemma {:induction false} RowsAre(rows: seq<Val>, ty: Ty)
    requires AllConform(rows, ty)
    ensures ty == BytesTy ==> TextRows(rows)
    ensures ty.ListTy? ==> ListRows(rows)
  {
    forall i | 0 <= i < |rows| && (ty == BytesTy || ty.ListTy?)
      ensures ty == BytesTy ==> Len(rows[i]) == |TextOf(rows[i])|
      ensures ty.ListTy? ==> Len(rows[i]) == |ItemsOf(rows[i])|
    {
      LenConform(rows[i], ty);
    }
  }

  // ----- the buffers of a subtree

  lemma {:induction false} AtTail(b: Batch, cur: nat, head: seq<seq<Byte>>, tail: seq<seq<Byte>>)
    requires At(b, cur, head + tail)
    ensures At(b, cur, head) && At(b, cur + |head|, tail)
  {
    hide Buf;
    forall j | 0 <= j < |head| ensures BufIs(b, cur + j, head[j]) { assert BufIs(b, cur + j, (head + tail)[j]); }
    var start := cur + |head|;
    forall j | 0 <= j < |tail| ensures BufIs(b, start + j, tail[j]) {
      assert BufIs(b, cur + (|head| + j), (head + tail)[|head| + j]);
    }
  }

  lemma {:induction false} AtFirst(b: Batch, cur: nat, bufs: seq<seq<Byte>>, j: nat)
    requires At(b, cur, bufs) && j < |bufs|
    ensures InBody(b) && cur + j < |b.off| && Buf(b, cur + j) == bufs[j]
  {
    assert BufIs(b, cur + j, bufs[j]);
  }

  lemma {:induction false} FieldAt(b: Batch, cur: nat, ty: Ty, cs: seq<Col>, k: nat, f: nat)
    requires ty.StructTy? && f < k <= |cs| == |ty.fields| && forall g | 0 <= g < |cs| :: Shape(ty.fields[g], cs[g])
    requires At(b, cur, FieldBuffers(ty, cs, k))
    ensures At(b, cur + CountFields(ty, f), Buffers(ty.fields[f], cs[f]))
    decreases k
  {
    hide At, Buffers, Count;
    AtTail(b, cur, FieldBuffers(ty, cs, k - 1), Buffers(ty.fields[k - 1], cs[k - 1]));
    FieldBuffersCount(ty, cs, k - 1);
    if f < k - 1 { FieldAt(b, cur, ty, cs, k - 1, f); }
  }

  /** The emitted buffers of a column of rows lie at cur. */
  ghost predicate Holds(b: Batch, cur: nat, ty: Ty, rows: seq<Val>) {
    Shape(ty, ColOf(ty, rows)) && At(b, cur, Buffers(ty, ColOf(ty, rows)))
  }

  lemma {:induction false} ListChild(b: Batch, cur: nat, e: Ty, rows: seq<Val>)
    requires Holds(b, cur, ListTy(e), rows)
    ensures Holds(b, cur + 2, e, Flat(rows, |rows|))
  {
    hide At, Offsets, Valid, Spelled, OffsetBytes, Buffers, Flat;
    var c := ColOf(ListTy(e), rows);
    ColShape(e, Flat(rows, |rows|));
    ListBuffers(e, c);
    AtTail(b, cur, [Spelled(c.valid), OffsetBytes(c.offs)], Buffers(e, c.children[0]));
  }

  lemma {:induction false} ListBuffers(e: Ty, c: Col)
    requires Shape(ListTy(e), c)
    ensures Buffers(ListTy(e), c) == [Spelled(c.valid), OffsetBytes(c.offs)] + Buffers(e, c.children[0])
  {
    hide Spelled, OffsetBytes;
    var a, o, t := Spelled(c.valid), OffsetBytes(c.offs), Buffers(e, c.children[0]);
    assert [a] + ([o] + t) == [a, o] + t;
  }

  lemma {:induction false} StructChild(b: Batch, cur: nat, ty: Ty, rows: seq<Val>, f: nat)
    requires ty.StructTy? && f < |ty.fields| && Holds(b, cur, ty, rows)
    ensures Holds(b, cur + 1 + CountFields(ty, f), ty.fields[f], Column(rows, f))
  {
    hide At, Valid, Spelled, CountFields, Buffers, FieldBuffers, Column;
    var c := ColOf(ty, rows);
    ColShape(ty.fields[f], Column(rows, f));
    var tail := FieldBuffers(ty, c.children, |ty.fields|);
    StructBuffers(ty, c);
    AtTail(b, cur, [Spelled(c.valid)], tail);
    FieldAt(b, cur + 1, ty, c.children, |ty.fields|, f);
  }

  lemma {:induction false} StructBuffers(ty: Ty, c: Col)
    requires ty.StructTy? && Shape(ty, c)
    ensures Buffers(ty, c) == [Spelled(c.valid)] + FieldBuffers(ty, c.children, |ty.fields|)
  {
    hide Spelled, FieldBuffers;
  }

  lemma {:induction false} BytesBuffers(c: Col)
    ensures Buffers(BytesTy, c) == [Spelled(c.valid), OffsetBytes(c.offs), c.vardata]
  {
    hide Spelled, OffsetBytes;
  }

  lemma {:induction false} OwnValid(b: Batch, cur: nat, ty: Ty, rows: seq<Val>)
    requires Holds(b, cur, ty, rows)
    ensures InBody(b) && cur < |b.off| && Buf(b, cur) == Spelled(Valid(rows))
  {
    hide At, Offsets, Valid, Spelled, OffsetBytes, Texts, FixedBytes, Flags, FieldBuffers;
    AtFirst(b, cur, Buffers(ty, ColOf(ty, rows)), 0);
  }

  lemma {:induction false} OwnOffsets(b: Batch, cur: nat, ty: Ty, rows: seq<Val>)
    requires Holds(b, cur, ty, rows) && (ty == BytesTy || ty.ListTy?)
    ensures InBody(b) && cur + 1 < |b.off| && Buf(b, cur + 1) == OffsetBytes(Offsets(rows))
  {
    hide At, Offsets, Valid, Spelled, OffsetBytes, Texts, Buffers, Flat;
    if ty == BytesTy { BytesBuffers(ColOf(ty, rows)); } else { ListBuffers(ty.elem, ColOf(ty, rows)); }
    AtFirst(b, cur, Buffers(ty, ColOf(ty, rows)), 1);
  }

  lemma {:induction false} OwnTexts(b: Batch, cur: nat, rows: seq<Val>)
    requires Holds(b, cur, BytesTy, rows)
    ensures InBody(b) && cur + 2 < |b.off| && Buf(b, cur + 2) == Texts(rows, |rows|)
  {
    hide At, Offsets, Valid, Spelled, OffsetBytes, Texts, Buffers;
    BytesBuffers(ColOf(BytesTy, rows));
    AtFirst(b, cur, Buffers(BytesTy, ColOf(BytesTy, rows)), 2);
  }

  lemma {:induction false} OwnFixed(b: Batch, cur: nat, w: nat, rows: seq<Val>)
    requires Holds(b, cur, FixedTy(w), rows)
    ensures InBody(b) && cur + 1 < |b.off| && Buf(b, cur + 1) == FixedBytes(rows, w, |rows|)
  {
    hide At, Valid, Spelled, FixedBytes, Buffers;
    FixedBuffers(w, ColOf(FixedTy(w), rows));
    AtFirst(b, cur, Buffers(FixedTy(w), ColOf(FixedTy(w), rows)), 1);
  }

  lemma {:induction false} FixedBuffers(w: nat, c: Col)
    ensures Buffers(FixedTy(w), c) == [Spelled(c.valid), c.fixed]
  {
    hide Spelled;
  }

  lemma {:induction false} OwnFlags(b: Batch, cur: nat, rows: seq<Val>)
    requires Holds(b, cur, BoolTy, rows)
    ensures InBody(b) && cur + 1 < |b.off| && Buf(b, cur + 1) == Spelled(Flags(rows))
  {
    hide At, Valid, Spelled, Flags;
    AtFirst(b, cur, Buffers(BoolTy, ColOf(BoolTy, rows)), 1);
  }

  // ----- row i comes back

  /** Offsets i and i + 1 of a variable-length column, as the importer reads them. */
  lemma {:induction false} OffsetPair(b: Batch, cur: nat, ty: Ty, rows: seq<Val>, i: nat)
    requires Holds(b, cur, ty, rows) && (ty == BytesTy || ty.ListTy?) && i < |rows| && Offset(rows, |rows|) < TWO31
    ensures InBody(b) && Int32(b, cur + 1, i) == Ok(Offset(rows, i)) && Int32(b, cur + 1, i + 1) == Ok(Offset(rows, i + 1))
    ensures Offset(rows, i) <= Offset(rows, i + 1)
  {
    hide At, Buffers, ColOf, Int32, OffsetBytes;
    OwnOffsets(b, cur, ty, rows);
    OffsetMono(rows, i, |rows|);
    OffsetMono(rows, i + 1, |rows|);
    OffsetRead(b, cur + 1, Offsets(rows), i);
    OffsetRead(b, cur + 1, Offsets(rows), i + 1);
  }

  /** Reassembling row i of an emitted column gives row i, for every nesting of lists and structs. */
  lemma {:induction false} ValueBack(b: Batch, cur: nat, ty: Ty, rows: seq<Val>, i: nat)
    requires Holds(b, cur, ty, rows) && AllConform(rows, ty) && Small(ty, rows) && i < |rows|
    ensures InBody(b) && ValueAt(Assign(ty, cur), b, i) == Ok(rows[i])
    decreases ty, 1, 0
  {
    hide Holds, IsNull;
    OwnValid(b, cur, ty, rows);
    NullRead(b, cur, rows, i);
    assert Conforms(rows[i], ty);
    if rows[i] != Null {
      match ty
      case FixedTy(w) => FixedBack(b, cur, w, rows, i);
      case BoolTy => FlagBack(b, cur, rows, i);
      case BytesTy => TextBack(b, cur, rows, i);
      case ListTy(e) => assert IsNullOk(b, cur, i); ListBack(b, cur, e, rows, i);
      case StructTy(fs) =>
        StructBack(b, cur, ty, rows, i, |fs|);
        assert rows[i].cells[..|fs|] == rows[i].cells;
    }
  }

  lemma {:induction false} FixedBack(b: Batch, cur: nat, w: nat, rows: seq<Val>, i: nat)
    requires Holds(b, cur, FixedTy(w), rows) && i < |rows| && Conforms(rows[i], FixedTy(w)) && rows[i] != Null
    ensures InBody(b) && Range(b, cur + 1, Times(i, w), Times(i, w) + w) == Ok(rows[i].bytes)
  {
    hide Holds;
    OwnFixed(b, cur, w, rows);
    FixedAt(rows, w, |rows|, i);
  }

  lemma {:induction false} FlagBack(b: Batch, cur: nat, rows: seq<Val>, i: nat)
    requires Holds(b, cur, BoolTy, rows) && i < |rows| && Conforms(rows[i], BoolTy) && rows[i] != Null
    ensures InBody(b) && BitAt(b, cur + 1, i) == Ok(rows[i].b)
  {
    hide Holds;
    OwnFlags(b, cur, rows);
    BitRead(Buf(b, cur + 1), Flags(rows), i);
  }

  lemma {:induction false} TextBack(b: Batch, cur: nat, rows: seq<Val>, i: nat)
    requires Holds(b, cur, BytesTy, rows) && AllConform(rows, BytesTy) && Offset(rows, |rows|) < TWO31
    requires i < |rows| && rows[i] != Null
    ensures InBody(b) && rows[i].Text? && Int32(b, cur + 1, i).Ok? && Int32(b, cur + 1, i + 1).Ok?
    ensures Range(b, cur + 2, Int32(b, cur + 1, i).value, Int32(b, cur + 1, i + 1).value) == Ok(rows[i].text)
  {
    hide Holds, Int32;
    assert Conforms(rows[i], BytesTy);
    RowsAre(rows, BytesTy);
    OffsetPair(b, cur, BytesTy, rows, i);
    OwnTexts(b, cur, rows);
    TextAt(rows, |rows|, i);
  }

  lemma {:induction false} ListBack(b: Batch, cur: nat, e: Ty, rows: seq<Val>, i: nat)
    requires Holds(b, cur, ListTy(e), rows) && AllConform(rows, ListTy(e)) && Small(ListTy(e), rows)
    requires i < |rows| && rows[i] != Null && IsNullOk(b, cur, i)
    ensures InBody(b) && rows[i].Items? && ValueAt(Assign(ListTy(e), cur), b, i) == Ok(rows[i])
    decreases ListTy(e), 0, 0
  {
    hide Holds, Int32, IsNull, ItemsAt;
    assert Conforms(rows[i], ListTy(e));
    RowsAre(rows, ListTy(e));
    OffsetPair(b, cur, ListTy(e), rows, i);
    ListChild(b, cur, e, rows);
    FlatConforms(rows, e, |rows|);
    var n := |rows[i].items|;
    ItemsBack(b, cur, e, rows, i, n);
    assert rows[i].items[..n] == rows[i].items;
  }

  ghost predicate IsNullOk(b: Batch, cur: nat, i: nat) { InBody(b) && IsNull(b, cur, i) == Ok(false) }

  lemma {:induction false} ItemsBack(b: Batch, cur: nat, e: Ty, rows: seq<Val>, i: nat, k: nat)
    requires ListRows(rows) && i < |rows| && rows[i].Items? && k <= |rows[i].items|
    requires Holds(b, cur + 2, e, Flat(rows, |rows|)) && AllConform(Flat(rows, |rows|), e) && Small(e, Flat(rows, |rows|))
    ensures InBody(b) && ItemsAt(Assign(ListTy(e), cur), b, Offset(rows, i), k) == Ok(rows[i].items[..k])
    decreases e, 2, k
  {
    hide Holds, ValueAt, Small;
    HoldsInBody(b, cur + 2, e, Flat(rows, |rows|));
    if k > 0 {
      ItemsBack(b, cur, e, rows, i, k - 1);
      FlatAt(rows, |rows|, i, k - 1);
      ValueBack(b, cur + 2, e, Flat(rows, |rows|), Offset(rows, i) + k - 1);
      assert rows[i].items[..k] == rows[i].items[..k - 1] + [rows[i].items[k - 1]];
    }
  }

  lemma {:induction false} HoldsInBody(b: Batch, cur: nat, ty: Ty, rows: seq<Val>)
    requires Holds(b, cur, ty, rows)
    ensures InBody(b)
  {
  }

  lemma {:induction false} StructBack(b: Batch, cur: nat, ty: Ty, rows: seq<Val>, i: nat, k: nat)
    requires ty.StructTy? && k <= |ty.fields| && Holds(b, cur, ty, rows) && AllConform(rows, ty) && Small(ty, rows)
    requires i < |rows| && rows[i].Row? && Conforms(rows[i], ty)
    requires |Assign(ty, cur).children| == |ty.fields|
    ensures InBody(b) && CellsAt(Assign(ty, cur), b, i, k) == Ok(rows[i].cells[..k])
    decreases ty, 0, k
  {
    hide Holds, ValueAt, Conforms, Assign, CountFields, Small, Column;
    HoldsInBody(b, cur, ty, rows);
    RowWidth(rows[i], ty);
    if k > 0 {
      StructBack(b, cur, ty, rows, i, k - 1);
      FieldOf(ty, cur, rows, i, k - 1);
      StructChild(b, cur, ty, rows, k - 1);
      ColumnConforms(rows, ty.fields, k - 1);
      ValueBack(b, cur + 1 + CountFields(ty, k - 1), ty.fields[k - 1], Column(rows, k - 1), i);
      assert rows[i].cells[..k] == rows[i].cells[..k - 1] + [rows[i].cells[k - 1]];
    }
  }

  lemma {:induction false} FieldOf(ty: Ty, cur: nat, rows: seq<Val>, i: nat, f: nat)
    requires ty.StructTy? && f < |ty.fields| && Small(ty, rows) && i < |rows|
    ensures |Assign(ty, cur).children| == |ty.fields|
    ensures Assign(ty, cur).children[f] == Assign(ty.fields[f], cur + 1 + CountFields(ty, f))
    ensures Small(ty.fields[f], Column(rows, f)) && Column(rows, f)[i] == Pick(rows[i], f)
  {
    hide CountFields, Pick, Small;
    SmallField(ty, rows, f);
  }

  lemma {:induction false} RowWidth(v: Val, ty: Ty)
    requires ty.StructTy? && v.Row? && Conforms(v, ty)
    ensures |v.cells| == |ty.fields|
  {
  }

  // ----- the bounds check accepts what was emitted

  lemma {:induction false} BitmapLong(s: seq<Byte>, f: seq<bool>)
    requires s == Spelled(f)
    ensures |f| <= |s| * 8
  {
  }

  lemma {:induction false} OffsetsAccepted(b: Batch, cur: nat, ty: Ty, rows: seq<Val>)
    requires Holds(b, cur, ty, rows) && (ty == BytesTy || ty.ListTy?) && Offset(rows, |rows|) < TWO31
    ensures InBody(b) && OffsetsOk(b, cur + 1, |rows|) && LastOffset(b, cur + 1, |rows|) == Offset(rows, |rows|)
  {
    hide Holds, Int32, Stores;
    OwnOffsets(b, cur, ty, rows);
    var k, os := cur + 1, Offsets(rows);
    StoreAt(os, |os|, 0);
    forall i | 0 <= i <= |rows| ensures OffsetOk(b, k, i) && Int32(b, k, i) == Ok(Offset(rows, i)) {
      OffsetMono(rows, i, |rows|);
      OffsetRead(b, k, os, i);
      if i > 0 {
        OffsetMono(rows, i - 1, i);
        OffsetRead(b, k, os, i - 1);
      }
    }
    assert OffsetOk(b, k, |rows|);
  }

  lemma {:induction false} CheckAccepts(b: Batch, cur: nat, ty: Ty, rows: seq<Val>)
    requires Holds(b, cur, ty, rows) && AllConform(rows, ty) && Small(ty, rows) && Widths(ty)
    ensures InBody(b) && CheckBounds(Assign(ty, cur), b, |rows|)
    decreases ty, 1
  {
    hide Holds, OffsetsOk, Small, AllConform, Spelled;
    OwnValid(b, cur, ty, rows);
    BitmapLong(Buf(b, cur), Valid(rows));
    match ty
    case FixedTy(w) =>
      OwnFixed(b, cur, w, rows);
      EnoughRoom(|rows|, w);
    case BoolTy =>
      OwnFlags(b, cur, rows);
      BitmapLong(Buf(b, cur + 1), Flags(rows));
    case BytesTy =>
      SmallOffsets(ty, rows);
      OffsetsAccepted(b, cur, ty, rows);
      OwnTexts(b, cur, rows);
      RowsAre(rows, ty);
      TextsLength(rows, |rows|);
    case ListTy(e) => ListAccepted(b, cur, e, rows);
    case StructTy(fs) =>
      forall f | 0 <= f < |fs| ensures CheckBounds(Assign(ty, cur).children[f], b, |rows|) {
        FieldAccepted(b, cur, ty, rows, f);
      }
  }

  lemma {:induction false} ListAccepted(b: Batch, cur: nat, e: Ty, rows: seq<Val>)
    requires Holds(b, cur, ListTy(e), rows) && AllConform(rows, ListTy(e)) && Small(ListTy(e), rows) && Widths(e)
    ensures InBody(b) && OffsetsOk(b, cur + 1, |rows|)
    ensures CheckBounds(Assign(e, cur + 2), b, LastOffset(b, cur + 1, |rows|))
    decreases ListTy(e), 0
  {
    hide Holds, OffsetsOk, Small, AllConform, CheckBounds, Assign, Widths;
    SmallOffsets(ListTy(e), rows);
    OffsetsAccepted(b, cur, ListTy(e), rows);
    ListChild(b, cur, e, rows);
    FlatConforms(rows, e, |rows|);
    RowsAre(rows, ListTy(e));
    FlatLength(rows, |rows|);
    CheckAccepts(b, cur + 2, e, Flat(rows, |rows|));
  }

  lemma {:induction false} FieldAccepted(b: Batch, cur: nat, ty: Ty, rows: seq<Val>, f: nat)
    requires ty.StructTy? && f < |ty.fields|
    requires Holds(b, cur, ty, rows) && AllConform(rows, ty) && Small(ty, rows) && Widths(ty)
    ensures InBody(b) && f < |Assign(ty, cur).children| && CheckBounds(Assign(ty, cur).children[f], b, |rows|)
    decreases ty, 0
  {
    hide Holds, Small, AllConform, CheckBounds, CountFields;
    HoldsInBody(b, cur, ty, rows);
    StructChild(b, cur, ty, rows, f);
    ColumnConforms(rows, ty.fields, f);
    SmallField(ty, rows, f);
    CheckAccepts(b, cur + 1 + CountFields(ty, f), ty.fields[f], Column(rows, f));
  }

  lemma {:induction false} SmallOffsets(ty: Ty, rows: seq<Val>)
    requires Small(ty, rows)
    ensures ty == BytesTy || ty.ListTy? ==> Offset(rows, |rows|) < TWO31
    ensures ty.ListTy? ==> Small(ty.elem, Flat(rows, |rows|))
  {
  }

  lemma {:induction false} SmallField(ty: Ty, rows: seq<Val>, f: nat)
    requires ty.StructTy? && Small(ty, rows) && f < |ty.fields|
    ensures Small(ty.fields[f], Column(rows, f))
  {
  }

  /** Every fixed width in the type is positive. */
  ghost predicate Widths(ty: Ty)
    decreases ty
  {
    match ty
    case FixedTy(w) => w > 0
    case ListTy(e) => Widths(e)
    case StructTy(fs) => forall f | 0 <= f < |fs| :: Widths(fs[f])
    case _ => true
  }

  lemma {:induction false} EnoughRoom(n: nat, w: nat)
    requires w > 0
    ensures n <= Times(n, w) / w
  {
    TimesIsMul(n, w);
    ModUnique(n * w, w, n, 0);
  }

  // ----- whole batches

  /** The columns of a batch: rows of a top-level struct without validity of its own. */
  function TopBuffers(tys: seq<Ty>, cols: seq<Col>, k: nat): seq<seq<Byte>>
    requires k <= |tys| == |cols| && forall j | 0 <= j < |cols| :: Shape(tys[j], cols[j])
  {
    FieldBuffers(StructTy(tys), cols, k)
  }

  /** One batch: the emitted bytes of all columns; buffer indices run on from column to column. Every
      row of every column is reassembled, and the bounds check accepts the batch. */
  lemma {:induction false} BatchRoundTrip(tys: seq<Ty>, rows: seq<seq<Val>>, n: nat, j: nat, i: nat)
    requires |rows| == |tys| && forall k | 0 <= k < |tys| :: |rows[k]| == n && AllConform(rows[k], tys[k])
    requires forall k | 0 <= k < |tys| :: Small(tys[k], rows[k]) && Widths(tys[k])
    requires j < |tys| && i < n
    ensures forall k | 0 <= k < |tys| :: Shape(tys[k], ColsOf(tys, rows)[k])
    ensures var bufs := TopBuffers(tys, ColsOf(tys, rows), |tys|);
      var b, imp := Emit(bufs, |bufs|), Assign(tys[j], CountFields(StructTy(tys), j));
      InBody(b) && CheckBounds(imp, b, n) && ValueAt(imp, b, i) == Ok(rows[j][i])
  {
    hide At, Small, AllConform, Widths, Emit, CheckBounds, ValueAt;
    var cols, ty := ColsOf(tys, rows), StructTy(tys);
    forall k | 0 <= k < |tys| ensures Shape(tys[k], cols[k]) { ColShape(tys[k], rows[k]); }
    var bufs := FieldBuffers(ty, cols, |tys|);
    var b := Emit(bufs, |bufs|);
    EmitIsAt(bufs);
    FieldAt(b, 0, ty, cols, |tys|, j);
    CheckAccepts(b, CountFields(ty, j), tys[j], rows[j]);
    ValueBack(b, CountFields(ty, j), tys[j], rows[j], i);
  }

  function ColsOf(tys: seq<Ty>, rows: seq<seq<Val>>): (cs: seq<Col>)
    requires |tys| == |rows|
    ensures |cs| == |tys|
  {
    seq(|tys|, k requires 0 <= k < |tys| == |rows| => ColOf(tys[k], rows[k]))
  }

  lemma {:induction false} EmitIsAt(bufs: seq<seq<Byte>>)
    ensures At(Emit(bufs, |bufs|), 0, bufs)
  {
    var b := Emit(bufs, |bufs|);
    EmitHolds(bufs, |bufs|, 0);
    forall j | 0 <= j < |bufs| ensures BufIs(b, 0 + j, bufs[j]) { EmitHolds(bufs, |bufs|, j); }
  }
}
