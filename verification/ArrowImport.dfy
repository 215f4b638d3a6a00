module ArrowImport {
  /**
   src/columnar_arrow.c, import of batches of any writer. When the buffers of a batch represent a column
   of rows is said by the Arrow columnar format, on the rows and the bytes alone: a validity bitmap may be
   left out when there is no null, slots under nulls hold anything, offsets may start anywhere. The
   importer accepts exactly the batches that represent rows, and reads those rows.
   */

  import opened Prelude
  import opened Bits
  import opened BitPack
  import opened Words
  import opened ArrowTypes
  import opened ArrowBatch

  // ----- the columnar format

  /** A bitmap is left out, and then there is no null, or has a bit per row. */
  ghost predicate Validity(s: seq<Byte>, rows: seq<Val>) {
    if s == [] then forall i | 0 <= i < |rows| :: rows[i] != Null
    else |rows| <= 8 * |s| && forall i: nat | i < |rows| :: StreamBit(s, i) == (rows[i] != Null)
  }

  ghost predicate FixedSlots(s: seq<Byte>, w: nat, rows: seq<Val>) {
    && w > 0 && |rows| * w <= |s|
    && forall i: nat | i < |rows| && rows[i] != Null :: FixedSlot(s, w, i, rows[i])
  }

  ghost predicate FixedSlot(s: seq<Byte>, w: nat, i: nat, v: Val) {
    v.Prim? && |v.bytes| == w && i * w + w <= |s| && s[i * w..i * w + w] == v.bytes
  }

  ghost predicate BoolSlots(s: seq<Byte>, rows: seq<Val>) {
    && |rows| <= 8 * |s|
    && forall i: nat | i < |rows| && rows[i] != Null :: rows[i] == Flag(StreamBit(s, i))
  }

  /** The first n + 1 int32 of the buffer are os, not negative and not decreasing. */
  ghost predicate OffsetsIn(s: seq<Byte>, n: nat, os: seq<nat>) {
    && |os| == n + 1 && 4 * (n + 1) <= |s|
    && (forall i | 0 <= i <= n :: os[i] < TWO31 && s[4 * i..4 * i + 4] == ToLE(os[i], 4))
    && forall i, j | 0 <= i <= j <= n :: os[i] <= os[j]
  }

  /** Offsets in buffer k, the bytes in buffer k + 1. */
  ghost predicate TextSlots(b: Batch, k: nat, rows: seq<Val>, os: seq<nat>)
    requires InBody(b) && k + 1 < |b.off|
  {
    && OffsetsIn(Buf(b, k), |rows|, os) && os[|rows|] <= |Buf(b, k + 1)|
    && forall i | 0 <= i < |rows| && rows[i] != Null :: TextSlot(Buf(b, k + 1), os[i], os[i + 1], rows[i])
  }

  ghost predicate TextSlot(data: seq<Byte>, from: nat, to: nat, v: Val) {
    from <= to <= |data| && v == Text(data[from..to])
  }

  /** Offsets in buffer k, the elements in a column of their own. */
  ghost predicate ListSlots(b: Batch, k: nat, rows: seq<Val>, os: seq<nat>, items: seq<Val>)
    requires InBody(b) && k < |b.off|
  {
    && OffsetsIn(Buf(b, k), |rows|, os) && os[|rows|] <= |items|
    && forall i | 0 <= i < |rows| && rows[i] != Null :: ListSlot(items, os[i], os[i + 1], rows[i])
  }

  ghost predicate ListSlot(items: seq<Val>, from: nat, to: nat, v: Val) {
    from <= to <= |items| && v == Items(items[from..to])
  }

  ghost predicate StructSlots(rows: seq<Val>, k: nat, cols: seq<seq<Val>>) {
    && |cols| == k && (forall f | 0 <= f < k :: |cols[f]| == |rows|)
    && forall i | 0 <= i < |rows| && rows[i] != Null :: StructSlot(cols, i, rows[i])
  }

  ghost predicate StructSlot(cols: seq<seq<Val>>, i: nat, v: Val) {
    v.Row? && |v.cells| == |cols| && forall f | 0 <= f < |cols| :: i < |cols[f]| && v.cells[f] == cols[f][i]
  }

  /** Buffers cur, cur + 1, ... of the batch represent the rows as a column of the type. */
  ghost predicate Represents(b: Batch, cur: nat, ty: Ty, rows: seq<Val>)
    decreases ty, 1
  {
    && InBody(b) && cur + ArrowBatch.Count(ty) <= |b.off| && Validity(Buf(b, cur), rows)
    && match ty
       case FixedTy(w) => FixedSlots(Buf(b, cur + 1), w, rows)
       case BoolTy => BoolSlots(Buf(b, cur + 1), rows)
       case BytesTy => HasTexts(b, cur + 1, rows)
       case ListTy(e) => HasLists(b, cur + 1, e, rows)
       case StructTy(fs) => exists cols :: StructSlots(rows, |fs|, cols) && FieldsRepresent(b, cur, ty, cols)
  }

  ghost predicate HasTexts(b: Batch, k: nat, rows: seq<Val>)
    requires InBody(b) && k + 1 < |b.off|
  {
    exists os :: TextSlots(b, k, rows, os)
  }

  ghost predicate HasLists(b: Batch, k: nat, e: Ty, rows: seq<Val>)
    requires InBody(b) && k < |b.off|
    decreases e, 2
  {
    exists os, items :: ListSlots(b, k, rows, os, items) && Represents(b, k + 1, e, items)
  }

  ghost predicate FieldsRepresent(b: Batch, cur: nat, ty: Ty, cols: seq<seq<Val>>)
    requires ty.StructTy?
    decreases ty, 0
  {
    |cols| == |ty.fields| && forall f | 0 <= f < |ty.fields| :: Represents(b, cur + 1 + CountFields(ty, f), ty.fields[f], cols[f])
  }

  // ----- reading a slot

  lemma {:induction false} BitReads(s: seq<Byte>, i: nat)
    requires i < 8 * |s|
    ensures i / 8 < |s| && (Shr(s[i / 8], i % 8) % 2 == 1) == StreamBit(s, i)
  {
    hide Shr, Bit;
    BitShr(s[i / 8], i % 8, 0);
    LowestBit(Shr(s[i / 8], i % 8));
  }

  lemma {:induction false} NullReads(b: Batch, k: nat, rows: seq<Val>, i: nat)
    requires InBody(b) && k < |b.off| && Validity(Buf(b, k), rows) && i < |rows|
    ensures IsNull(b, k, i) == Ok(rows[i] == Null)
  {
    hide Shr, StreamBit;
    if Buf(b, k) != [] { BitReads(Buf(b, k), i); }
  }

  lemma {:induction false} OffsetReads(b: Batch, k: nat, n: nat, os: seq<nat>, i: nat)
    requires InBody(b) && k < |b.off| && OffsetsIn(Buf(b, k), n, os) && i <= n
    ensures Int32(b, k, i) == Ok(os[i])
  {
    CountBack(os[i]);
    assert Buf(b, k)[4 * i..4 * i + 4] == ToLE(os[i], 4);
  }

  // ----- every represented row is read

  lemma {:induction false} FixedReads(b: Batch, k: nat, w: nat, rows: seq<Val>, i: nat)
    requires InBody(b) && k < |b.off| && FixedSlots(Buf(b, k), w, rows) && i < |rows| && rows[i] != Null
    ensures Range(b, k, Times(i, w), Times(i, w) + w) == Ok(rows[i].bytes) && rows[i].Prim?
  {
    assert FixedSlot(Buf(b, k), w, i, rows[i]);
    TimesIsMul(i, w);
  }

  lemma {:induction false} TextReads(b: Batch, k: nat, rows: seq<Val>, i: nat)
    requires InBody(b) && k + 1 < |b.off| && HasTexts(b, k, rows) && i < |rows| && rows[i] != Null
    ensures rows[i].Text? && Int32(b, k, i).Ok? && Int32(b, k, i + 1).Ok?
    ensures Range(b, k + 1, Int32(b, k, i).value, Int32(b, k, i + 1).value) == Ok(rows[i].text)
  {
    hide Int32, OffsetsIn;
    var os :| TextSlots(b, k, rows, os);
    OffsetReads(b, k, |rows|, os, i);
    OffsetReads(b, k, |rows|, os, i + 1);
    OffsetCount(Buf(b, k), |rows|, os);
    assert TextSlot(Buf(b, k + 1), os[i], os[i + 1], rows[i]);
  }

  lemma {:induction false} OffsetCount(s: seq<Byte>, n: nat, os: seq<nat>)
    requires OffsetsIn(s, n, os)
    ensures |os| == n + 1
  {
  }

  /** Reassembling row i of any batch that represents the rows gives row i. */
  lemma {:induction false} ImportReads(b: Batch, cur: nat, ty: Ty, rows: seq<Val>, i: nat)
    requires Represents(b, cur, ty, rows) && i < |rows|
    ensures ValueAt(Assign(ty, cur), b, i) == Ok(rows[i])
    decreases ty, 1, 0
  {
    hide IsNull, Validity, Int32, FixedSlots, HasTexts, HasLists, FieldsRepresent, StreamBit, Shr, Buf, ItemsAt, CellsAt;
    NullReads(b, cur, rows, i);
    if rows[i] != Null {
      match ty
      case FixedTy(w) => FixedReads(b, cur + 1, w, rows, i);
      case BoolTy => BitReads(Buf(b, cur + 1), i);
      case BytesTy => TextReads(b, cur + 1, rows, i);
      case ListTy(e) => ListReads(b, cur, e, rows, i);
      case StructTy(fs) => StructReads(b, cur, ty, rows, i);
    }
  }

  lemma {:induction false} ListReads(b: Batch, cur: nat, e: Ty, rows: seq<Val>, i: nat)
    requires Represents(b, cur, ListTy(e), rows) && i < |rows| && rows[i] != Null
    ensures rows[i].Items? && Int32(b, cur + 1, i).Ok? && Int32(b, cur + 1, i + 1).Ok?
    ensures var from, to := Int32(b, cur + 1, i).value, Int32(b, cur + 1, i + 1).value;
      0 <= from <= to && ItemsAt(Assign(ListTy(e), cur), b, from, to - from) == Ok(rows[i].items)
    decreases ListTy(e), 0, 0
  {
    hide Int32, OffsetsIn, ItemsAt, Validity, Buf;
    assert HasLists(b, cur + 1, e, rows);
    var os, items :| ListSlots(b, cur + 1, rows, os, items) && Represents(b, cur + 1 + 1, e, items);
    OffsetReads(b, cur + 1, |rows|, os, i);
    OffsetReads(b, cur + 1, |rows|, os, i + 1);
    OffsetCount(Buf(b, cur + 1), |rows|, os);
    assert ListSlot(items, os[i], os[i + 1], rows[i]);
    ItemsRead(b, cur, e, items, os[i], os[i + 1] - os[i]);
  }

  lemma {:induction false} StructReads(b: Batch, cur: nat, ty: Ty, rows: seq<Val>, i: nat)
    requires ty.StructTy? && Represents(b, cur, ty, rows) && i < |rows| && rows[i] != Null
    ensures rows[i].Row? && |Assign(ty, cur).children| == |ty.fields|
    ensures CellsAt(Assign(ty, cur), b, i, |ty.fields|) == Ok(rows[i].cells)
    decreases ty, 0, |ty.fields| + 1
  {
    hide FieldsRepresent, CellsAt, Validity, Buf;
    var cols :| StructSlots(rows, |ty.fields|, cols) && FieldsRepresent(b, cur, ty, cols);
    assert StructSlot(cols, i, rows[i]);
    CellsRead(b, cur, ty, cols, rows[i].cells, i, |ty.fields|);
    assert rows[i].cells[..|ty.fields|] == rows[i].cells;
  }

  lemma {:induction false} ItemsRead(b: Batch, cur: nat, e: Ty, items: seq<Val>, from: nat, k: nat)
    requires Represents(b, cur + 2, e, items) && from + k <= |items|
    ensures ItemsAt(Assign(ListTy(e), cur), b, from, k) == Ok(items[from..from + k])
    decreases e, 2, k
  {
    hide ValueAt, Represents;
    RepresentsInBody(b, cur + 2, e, items);
    if k > 0 {
      ItemsRead(b, cur, e, items, from, k - 1);
      ImportReads(b, cur + 2, e, items, from + k - 1);
      assert items[from..from + k] == items[from..from + k - 1] + [items[from + k - 1]];
    }
  }

  lemma {:induction false} CellsRead(b: Batch, cur: nat, ty: Ty, cols: seq<seq<Val>>, cells: seq<Val>, i: nat, k: nat)
    requires ty.StructTy? && k <= |ty.fields| == |cells| && InBody(b) && FieldsRepresent(b, cur, ty, cols)
    requires forall f | 0 <= f < |cols| :: i < |cols[f]| && cells[f] == cols[f][i]
    ensures |Assign(ty, cur).children| == |ty.fields| && CellsAt(Assign(ty, cur), b, i, k) == Ok(cells[..k])
    decreases ty, 0, k
  {
    hide ValueAt, Represents, CountFields;
    if k > 0 {
      CellsRead(b, cur, ty, cols, cells, i, k - 1);
      ImportReads(b, cur + 1 + CountFields(ty, k - 1), ty.fields[k - 1], cols[k - 1], i);
      assert cells[..k] == cells[..k - 1] + [cells[k - 1]];
    }
  }

  lemma {:induction false} RepresentsInBody(b: Batch, cur: nat, ty: Ty, rows: seq<Val>)
    requires Represents(b, cur, ty, rows)
    ensures InBody(b)
  {
  }

  // ----- and nothing else is accepted

  lemma {:induction false} OffsetsAccepted(b: Batch, k: nat, n: nat, os: seq<nat>)
    requires InBody(b) && k < |b.off| && OffsetsIn(Buf(b, k), n, os)
    ensures OffsetsOk(b, k, n) && LastOffset(b, k, n) == os[n]
  {
    hide Int32, Buf;
    forall i | 0 <= i <= n ensures OffsetOk(b, k, i) {
      OffsetReads(b, k, n, os, i);
      if i > 0 { OffsetReads(b, k, n, os, i - 1); }
    }
    OffsetReads(b, k, n, os, n);
  }

  /** The int32 of the buffer. */
  ghost function OffsetsRead(b: Batch, k: nat, n: nat): (os: seq<nat>)
    requires InBody(b) && OffsetsOk(b, k, n)
    ensures |os| == n + 1 && forall i | 0 <= i <= n :: Int32(b, k, i) == Ok(os[i])
  {
    assert forall i | 0 <= i <= n :: OffsetOk(b, k, i);
    seq(n + 1, i requires 0 <= i <= n && OffsetOk(b, k, i) => OffsetValue(b, k, i))
  }

  function OffsetValue(b: Batch, k: nat, i: nat): nat
    requires InBody(b) && OffsetOk(b, k, i)
  {
    Int32(b, k, i).value
  }

  lemma {:induction false} OffsetsAreIn(b: Batch, k: nat, n: nat)
    requires InBody(b) && OffsetsOk(b, k, n)
    ensures OffsetsIn(Buf(b, k), n, OffsetsRead(b, k, n)) && OffsetsRead(b, k, n)[n] == LastOffset(b, k, n)
  {
    var os, s := OffsetsRead(b, k, n), Buf(b, k);
    forall i | 0 <= i <= n ensures os[i] < TWO31 && s[4 * i..4 * i + 4] == ToLE(os[i], 4) { Int32Is(b, k, i); }
    forall i, j | 0 <= i <= j <= n ensures os[i] <= os[j] { OffsetsSorted(b, k, n, i, j); }
  }

  lemma {:induction false} Int32Is(b: Batch, k: nat, i: nat)
    requires InBody(b) && Int32(b, k, i).Ok? && Int32(b, k, i).value >= 0
    ensures var v := Int32(b, k, i).value; v < TWO31 && Buf(b, k)[4 * i..4 * i + 4] == ToLE(v, 4)
  {
    hide ToLE, FromLE;
    var t := Buf(b, k)[4 * i..4 * i + 4];
    FromToLE(t);
    FourBytes(t);
  }

  lemma {:induction false} FourBytes(t: seq<Byte>)
    requires |t| == 4
    ensures FromLE(t) < TWO32
  {
    assert FromLE(t[1..][1..][1..][1..]) == 0;
    assert FromLE(t[1..][1..][1..]) < 256;
    assert FromLE(t[1..][1..]) < 65536;
    assert FromLE(t[1..]) < 16777216;
  }

  lemma {:induction false} OffsetsSorted(b: Batch, k: nat, n: nat, i: nat, j: nat)
    requires InBody(b) && OffsetsOk(b, k, n) && i <= j <= n
    ensures Int32(b, k, i).Ok? && Int32(b, k, j).Ok? && Int32(b, k, i).value <= Int32(b, k, j).value
    decreases j - i
  {
    hide Int32;
    assert OffsetOk(b, k, i);
    assert OffsetOk(b, k, j);
    if i < j { OffsetsSorted(b, k, n, i, j - 1); }
  }

  /** The bounds check accepts every batch that represents rows. */
  lemma {:induction false} RepresentedIsAccepted(b: Batch, cur: nat, ty: Ty, rows: seq<Val>, n: nat)
    requires Represents(b, cur, ty, rows) && n <= |rows|
    ensures CheckBounds(Assign(ty, cur), b, n)
    decreases ty, 1
  {
    hide HasTexts, HasLists, FieldsRepresent, OffsetsOk, Buf, FixedSlot, StreamBit;
    match ty
    case FixedTy(w) => RoomFor(|Buf(b, cur + 1)|, w, |rows|);
    case BoolTy =>
    case BytesTy => TextsAccepted(b, cur + 1, rows, n);
    case ListTy(e) => ListsAccepted(b, cur, e, rows, n);
    case StructTy(fs) =>
      var cols :| StructSlots(rows, |fs|, cols) && FieldsRepresent(b, cur, ty, cols);
      forall f | 0 <= f < |fs| ensures CheckBounds(Assign(ty, cur).children[f], b, n) { FieldAccepted(b, cur, ty, cols, f, n); }
  }

  lemma {:induction false} FieldAccepted(b: Batch, cur: nat, ty: Ty, cols: seq<seq<Val>>, f: nat, n: nat)
    requires ty.StructTy? && f < |ty.fields| && InBody(b) && FieldsRepresent(b, cur, ty, cols) && n <= |cols[f]|
    ensures |Assign(ty, cur).children| == |ty.fields| && CheckBounds(Assign(ty, cur).children[f], b, n)
    decreases ty, 0
  {
    hide Represents, CheckBounds, CountFields;
    RepresentedIsAccepted(b, cur + 1 + CountFields(ty, f), ty.fields[f], cols[f], n);
  }

  lemma {:induction false} TextsAccepted(b: Batch, k: nat, rows: seq<Val>, n: nat)
    requires InBody(b) && k + 1 < |b.off| && HasTexts(b, k, rows) && n <= |rows|
    ensures OffsetsOk(b, k, n) && LastOffset(b, k, n) <= b.len[k + 1]
  {
    hide OffsetsOk;
    var os :| TextSlots(b, k, rows, os);
    FewerOffsets(Buf(b, k), |rows|, os, n);
    OffsetsAccepted(b, k, n, os[..n + 1]);
  }

  lemma {:induction false} FewerOffsets(s: seq<Byte>, m: nat, os: seq<nat>, n: nat)
    requires OffsetsIn(s, m, os) && n <= m
    ensures OffsetsIn(s, n, os[..n + 1]) && os[n] <= os[m]
  {
  }

  lemma {:induction false} ListsAccepted(b: Batch, cur: nat, e: Ty, rows: seq<Val>, n: nat)
    requires Represents(b, cur, ListTy(e), rows) && n <= |rows|
    ensures OffsetsOk(b, cur + 1, n) && CheckBounds(Assign(e, cur + 2), b, LastOffset(b, cur + 1, n))
    decreases ListTy(e), 0
  {
    hide OffsetsOk, CheckBounds, Assign, Validity;
    assert HasLists(b, cur + 1, e, rows);
    var os, items :| ListSlots(b, cur + 1, rows, os, items) && Represents(b, cur + 1 + 1, e, items);
    FewerOffsets(Buf(b, cur + 1), |rows|, os, n);
    OffsetsAccepted(b, cur + 1, n, os[..n + 1]);
    RepresentedIsAccepted(b, cur + 2, e, items, os[n]);
  }

  lemma {:induction false} RoomFor(len: nat, w: nat, n: nat)
    requires w > 0 && n * w <= len
    ensures n <= len / w
  {
    var q := len / w;
    assert len == w * q + len % w;
    assert n > q ==> (n - q - 1) * w >= 0;
  }

  /** What the importer makes of the first n rows of a checked column. */
  ghost function RowsRead(b: Batch, cur: nat, ty: Ty, n: nat): (rows: seq<Val>)
    requires InBody(b) && CheckBounds(Assign(ty, cur), b, n)
    ensures |rows| == n && forall i | 0 <= i < n :: ValueAt(Assign(ty, cur), b, i) == Ok(rows[i])
  {
    assert forall i | 0 <= i < n :: ValueAt(Assign(ty, cur), b, i).Ok? by {
      forall i | 0 <= i < n ensures ValueAt(Assign(ty, cur), b, i).Ok? { CheckedReads(Assign(ty, cur), b, n, i); }
    }
    seq(n, i requires 0 <= i < n && ValueAt(Assign(ty, cur), b, i).Ok? => ValueAt(Assign(ty, cur), b, i).value)
  }

  lemma {:induction false} ValidityRead(b: Batch, cur: nat, ty: Ty, n: nat)
    requires InBody(b) && CheckBounds(Assign(ty, cur), b, n)
    ensures cur < |b.off| && Validity(Buf(b, cur), RowsRead(b, cur, ty, n))
  {
    hide Shr, StreamBit, CellsAt, ItemsAt, Range, BitAt, Int32;
    var rows, s := RowsRead(b, cur, ty, n), Buf(b, cur);
    assert Assign(ty, cur).validBuf == cur;
    forall i: nat | i < n ensures IsNull(b, cur, i) == Ok(rows[i] == Null) { assert ValueAt(Assign(ty, cur), b, i) == Ok(rows[i]); }
    forall i: nat | i < n && s != [] ensures StreamBit(s, i) == (rows[i] != Null) {
      assert IsNull(b, cur, i) == Ok(rows[i] == Null);
      BitReads(s, i);
    }
  }

  /** A checked batch represents the rows the importer reads from it. */
  lemma {:induction false} AcceptedRepresents(b: Batch, cur: nat, ty: Ty, n: nat)
    requires InBody(b) && CheckBounds(Assign(ty, cur), b, n)
    ensures Represents(b, cur, ty, RowsRead(b, cur, ty, n))
    decreases ty, 1
  {
    hide RowsRead, Validity, CheckBounds, HasLists, HasTexts, FieldsRepresent, FixedSlots, BoolSlots, StructSlots, ValueAt;
    ValidityRead(b, cur, ty, n);
    match ty
    case FixedTy(w) => FixedRead(b, cur, w, n);
    case BoolTy => BoolRead(b, cur, n);
    case BytesTy => TextRead(b, cur, n);
    case ListTy(e) => ListRead(b, cur, e, n);
    case StructTy(fs) => StructRead(b, cur, ty, n);
  }

  lemma {:induction false} FixedRead(b: Batch, cur: nat, w: nat, n: nat)
    requires InBody(b) && CheckBounds(Assign(FixedTy(w), cur), b, n)
    ensures cur + 1 < |b.off| && FixedSlots(Buf(b, cur + 1), w, RowsRead(b, cur, FixedTy(w), n))
  {
    hide IsNull;
    var rows, s := RowsRead(b, cur, FixedTy(w), n), Buf(b, cur + 1);
    RoomIn(|s|, w, n);
    forall i: nat | i < n && rows[i] != Null ensures FixedSlot(s, w, i, rows[i]) {
      assert ValueAt(Assign(FixedTy(w), cur), b, i) == Ok(rows[i]);
      TimesIsMul(i, w);
    }
  }

  lemma {:induction false} RoomIn(len: nat, w: nat, n: nat)
    requires w > 0 && n <= len / w
    ensures n * w <= len
  {
    assert len == w * (len / w) + len % w;
    assert (len / w - n) * w >= 0;
  }

  lemma {:induction false} BoolRead(b: Batch, cur: nat, n: nat)
    requires InBody(b) && CheckBounds(Assign(BoolTy, cur), b, n)
    ensures cur + 1 < |b.off| && BoolSlots(Buf(b, cur + 1), RowsRead(b, cur, BoolTy, n))
  {
    hide IsNull, StreamBit, Shr;
    var rows, s := RowsRead(b, cur, BoolTy, n), Buf(b, cur + 1);
    forall i: nat | i < n && rows[i] != Null ensures rows[i] == Flag(StreamBit(s, i)) {
      assert ValueAt(Assign(BoolTy, cur), b, i) == Ok(rows[i]);
      BitReads(s, i);
    }
  }

  lemma {:induction false} TextRead(b: Batch, cur: nat, n: nat)
    requires InBody(b) && CheckBounds(Assign(BytesTy, cur), b, n)
    ensures cur + 2 < |b.off| && HasTexts(b, cur + 1, RowsRead(b, cur, BytesTy, n))
  {
    hide IsNull, Int32, OffsetsOk, OffsetsIn;
    var rows, os, data := RowsRead(b, cur, BytesTy, n), OffsetsRead(b, cur + 1, n), Buf(b, cur + 2);
    OffsetsAreIn(b, cur + 1, n);
    forall i | 0 <= i < n && rows[i] != Null ensures TextSlot(data, os[i], os[i + 1], rows[i]) {
      assert ValueAt(Assign(BytesTy, cur), b, i) == Ok(rows[i]);
    }
    assert TextSlots(b, cur + 1, rows, os);
  }

  lemma {:induction false} ListRead(b: Batch, cur: nat, e: Ty, n: nat)
    requires InBody(b) && CheckBounds(Assign(ListTy(e), cur), b, n)
    ensures cur + 2 + ArrowBatch.Count(e) <= |b.off| && HasLists(b, cur + 1, e, RowsRead(b, cur, ListTy(e), n))
    decreases ListTy(e), 0
  {
    hide IsNull, Int32, OffsetsOk, OffsetsIn, ItemsAt;
    var rows, os, m := RowsRead(b, cur, ListTy(e), n), OffsetsRead(b, cur + 1, n), LastOffset(b, cur + 1, n);
    OffsetsAreIn(b, cur + 1, n);
    assert CheckBounds(Assign(e, cur + 2), b, m);
    var items := RowsRead(b, cur + 2, e, m);
    AcceptedRepresents(b, cur + 2, e, m);
    RepresentsRoom(b, cur + 2, e, items);
    forall i | 0 <= i < n && rows[i] != Null ensures ListSlot(items, os[i], os[i + 1], rows[i]) {
      assert ValueAt(Assign(ListTy(e), cur), b, i) == Ok(rows[i]);
      SortedPair(Buf(b, cur + 1), n, os, i);
      ItemsRead(b, cur, e, items, os[i], os[i + 1] - os[i]);
    }
    assert ListSlots(b, cur + 1, rows, os, items) && Represents(b, cur + 1 + 1, e, items);
  }

  lemma {:induction false} SortedPair(s: seq<Byte>, n: nat, os: seq<nat>, i: nat)
    requires OffsetsIn(s, n, os) && i < n
    ensures os[i] <= os[i + 1] <= os[n]
  {
  }

  lemma {:induction false} RepresentsRoom(b: Batch, cur: nat, ty: Ty, rows: seq<Val>)
    requires Represents(b, cur, ty, rows)
    ensures cur + ArrowBatch.Count(ty) <= |b.off|
  {
  }

  lemma {:induction false} FieldChecked(b: Batch, cur: nat, ty: Ty, n: nat, f: nat)
    requires ty.StructTy? && InBody(b) && CheckBounds(Assign(ty, cur), b, n) && f < |ty.fields|
    ensures CheckBounds(Assign(ty.fields[f], cur + 1 + CountFields(ty, f)), b, n)
  {
    hide CountFields;
    assert CheckBounds(Assign(ty, cur).children[f], b, n);
  }

  /** The columns of the first k fields, as the importer reads them. */
  lemma {:induction false} ColsRead(b: Batch, cur: nat, ty: Ty, n: nat, k: nat) returns (cols: seq<seq<Val>>)
    requires ty.StructTy? && InBody(b) && CheckBounds(Assign(ty, cur), b, n) && k <= |ty.fields|
    ensures |cols| == k && forall f | 0 <= f < k :: FieldRead(b, cur, ty, n, f, cols[f])
    decreases k
  {
    hide CheckBounds, Assign, CountFields, RowsRead;
    cols := [];
    if k > 0 {
      var before := ColsRead(b, cur, ty, n, k - 1);
      FieldChecked(b, cur, ty, n, k - 1);
      cols := before + [RowsRead(b, cur + 1 + CountFields(ty, k - 1), ty.fields[k - 1], n)];
    }
  }

  ghost predicate FieldRead(b: Batch, cur: nat, ty: Ty, n: nat, f: nat, col: seq<Val>)
    requires ty.StructTy? && InBody(b) && f < |ty.fields|
  {
    && CheckBounds(Assign(ty.fields[f], cur + 1 + CountFields(ty, f)), b, n)
    && col == RowsRead(b, cur + 1 + CountFields(ty, f), ty.fields[f], n)
  }

  lemma {:induction false} FieldsRead(b: Batch, cur: nat, ty: Ty, n: nat, cols: seq<seq<Val>>)
    requires ty.StructTy? && InBody(b) && CheckBounds(Assign(ty, cur), b, n)
    requires |cols| == |ty.fields| && forall f | 0 <= f < |cols| :: FieldRead(b, cur, ty, n, f, cols[f])
    ensures FieldsRepresent(b, cur, ty, cols) && cur + ArrowBatch.Count(ty) <= |b.off|
    decreases ty, 0, 0
  {
    hide CountFields, Represents, CheckBounds, RowsRead, Assign;
    var fs := ty.fields;
    forall f | 0 <= f < |fs| ensures Represents(b, cur + 1 + CountFields(ty, f), fs[f], cols[f]) {
      assert FieldRead(b, cur, ty, n, f, cols[f]);
      AcceptedRepresents(b, cur + 1 + CountFields(ty, f), fs[f], n);
    }
    if |fs| > 0 {
      RepresentsRoom(b, cur + 1 + CountFields(ty, |fs| - 1), fs[|fs| - 1], cols[|fs| - 1]);
      LastField(ty);
    } else {
      NoFields(ty);
      FirstBuffer(b, cur, ty, n);
    }
  }

  lemma {:induction false} FirstBuffer(b: Batch, cur: nat, ty: Ty, n: nat)
    requires InBody(b) && CheckBounds(Assign(ty, cur), b, n)
    ensures cur < |b.off|
  {
    assert Assign(ty, cur).validBuf == cur;
  }

  lemma {:induction false} StructRead(b: Batch, cur: nat, ty: Ty, n: nat)
    requires ty.StructTy? && InBody(b) && CheckBounds(Assign(ty, cur), b, n)
    ensures cur + ArrowBatch.Count(ty) <= |b.off|
    ensures exists cols :: StructSlots(RowsRead(b, cur, ty, n), |ty.fields|, cols) && FieldsRepresent(b, cur, ty, cols)
    decreases ty, 0, 1
  {
    hide CountFields, FieldsRepresent, CheckBounds, Assign, ValueAt, StructSlot;
    var rows := RowsRead(b, cur, ty, n);
    var cols := ColsRead(b, cur, ty, n, |ty.fields|);
    FieldsRead(b, cur, ty, n, cols);
    forall f | 0 <= f < |cols| ensures |cols[f]| == n { assert FieldRead(b, cur, ty, n, f, cols[f]); }
    forall i | 0 <= i < n && rows[i] != Null ensures StructSlot(cols, i, rows[i]) { StructSlotRead(b, cur, ty, n, cols, i, rows[i]); }
    assert StructSlots(rows, |ty.fields|, cols) && FieldsRepresent(b, cur, ty, cols);
  }

  lemma {:induction false} StructSlotRead(b: Batch, cur: nat, ty: Ty, n: nat, cols: seq<seq<Val>>, i: nat, v: Val)
    requires ty.StructTy? && InBody(b) && FieldsRepresent(b, cur, ty, cols) && (forall f | 0 <= f < |cols| :: |cols[f]| == n) && i < n
    requires ValueAt(Assign(ty, cur), b, i) == Ok(v) && v != Null
    ensures StructSlot(cols, i, v)
  {
    hide IsNull, CellsAt, CountFields, FieldsRepresent;
    var k := |ty.fields|;
    FieldCount(b, cur, ty, cols);
    var cells := seq(k, f requires 0 <= f < k => cols[f][i]);
    CellsRead(b, cur, ty, cols, cells, i, k);
    assert cells[..k] == cells;
  }

  lemma {:induction false} FieldCount(b: Batch, cur: nat, ty: Ty, cols: seq<seq<Val>>)
    requires ty.StructTy? && FieldsRepresent(b, cur, ty, cols)
    ensures |cols| == |ty.fields|
  {
  }

  lemma {:induction false} LastField(ty: Ty)
    requires ty.StructTy? && |ty.fields| > 0
    ensures ArrowBatch.Count(ty) == 1 + CountFields(ty, |ty.fields| - 1) + ArrowBatch.Count(ty.fields[|ty.fields| - 1])
  {
  }

  lemma {:induction false} NoFields(ty: Ty)
    requires ty.StructTy? && |ty.fields| == 0
    ensures ArrowBatch.Count(ty) == 1
  {
  }

  // ----- put together

  ghost predicate RepresentsSome(b: Batch, cur: nat, ty: Ty, n: nat) {
    exists rows :: |rows| == n && Represents(b, cur, ty, rows)
  }

  /** The importer accepts n rows of a batch exactly when its buffers represent n rows, and there is one
      such list of rows: the one it reads. */
  lemma {:induction false} ImportIsExact(b: Batch, cur: nat, ty: Ty, n: nat)
    requires InBody(b)
    ensures CheckBounds(Assign(ty, cur), b, n) <==> RepresentsSome(b, cur, ty, n)
    ensures forall rows | |rows| == n && Represents(b, cur, ty, rows) ::
      CheckBounds(Assign(ty, cur), b, n) && rows == RowsRead(b, cur, ty, n)
  {
    hide Represents, CheckBounds, ValueAt, Assign;
    if CheckBounds(Assign(ty, cur), b, n) {
      AcceptedRepresents(b, cur, ty, n);
      assert Represents(b, cur, ty, RowsRead(b, cur, ty, n));
    }
    forall rows | |rows| == n && Represents(b, cur, ty, rows)
      ensures CheckBounds(Assign(ty, cur), b, n) && rows == RowsRead(b, cur, ty, n)
    {
      RepresentedIsAccepted(b, cur, ty, rows, n);
      forall i | 0 <= i < n ensures rows[i] == RowsRead(b, cur, ty, n)[i] { ImportReads(b, cur, ty, rows, i); }
    }
  }

  /** What this exporter emits is among them. */
  lemma {:induction false} EmittedRepresents(b: Batch, cur: nat, ty: Ty, rows: seq<Val>)
    requires ArrowBatch.Holds(b, cur, ty, rows) && AllConform(rows, ty) && Small(ty, rows) && Widths(ty)
    ensures Represents(b, cur, ty, rows)
  {
    hide ArrowBatch.Holds, AllConform, Small, Widths, Represents, CheckBounds, ValueAt, Assign;
    CheckAccepts(b, cur, ty, rows);
    AcceptedRepresents(b, cur, ty, |rows|);
    forall i | 0 <= i < |rows| ensures rows[i] == RowsRead(b, cur, ty, |rows|)[i] { ValueBack(b, cur, ty, rows, i); }
    assert rows == RowsRead(b, cur, ty, |rows|);
  }
}
