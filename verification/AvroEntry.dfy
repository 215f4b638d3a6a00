module AvroEntry {
  /**
   What a manifest entry decodes to, said of the values that were written: each part of the entry is the
   value under its name, or the default where the field is absent, null or of another type.
   */

  import opened Prelude
  import opened Bits
  import opened BitPack
  import opened Words
  import opened AvroSpec
  import opened AvroWrite

  // ----- what a written value holds

  /** The value a union holds, and its type; other values hold themselves. */
  function Inner(v: Value, s: Sch): Value { if s.AUnion? && v.VUnion? then v.of else v }

  function InnerType(v: Value, s: Sch): Sch { if s.AUnion? && v.VUnion? && v.branch < |s.branches| then s.branches[v.branch] else s }

  predicate IsNull(v: Value, s: Sch) { s.AUnion? && InnerType(v, s).ANull? }

  function TextIn(v: Value, s: Sch): Option<seq<Byte>> {
    if IsText(InnerType(v, s)) && Inner(v, s).VText? then Some(Inner(v, s).text) else None
  }

  function IntIn(v: Value, s: Sch): Option<int> {
    if IsInt(InnerType(v, s)) && Inner(v, s).VInt? then Some(Inner(v, s).i) else None
  }

  predicate IntArray(s: Sch) { s.AArray? && IsInt(s.items) }

  function IntOf(x: Item): int { if x.value.VInt? then x.value.i else 0 }

  /** The ints of the first k elements of block j. */
  function ItemInts(w: Value, j: nat, k: nat): (r: seq<int>)
    requires w.VBlocks? && j < |w.blocks| && k <= |w.blocks[j].items|
    ensures |r| == k
    decreases k
  {
    if k == 0 then [] else ItemInts(w, j, k - 1) + [IntOf(w.blocks[j].items[k - 1])]
  }

  /** The ints of the first j blocks. */
  function IntsOf(w: Value, j: nat): seq<int>
    requires w.VBlocks? && j <= |w.blocks|
    decreases j
  {
    if j == 0 then [] else IntsOf(w, j - 1) + ItemInts(w, j - 1, |w.blocks[j - 1].items|)
  }

  function IntsIn(v: Value, s: Sch): seq<int> {
    var w := Inner(v, s);
    if IntArray(InnerType(v, s)) && w.VBlocks? then IntsOf(w, |w.blocks|) else []
  }

  /** Field ids are non-negative int32, and there are at most 10000. */
  ghost predicate IdsFit(v: Value, s: Sch) {
    var w := Inner(v, s);
    IntArray(InnerType(v, s)) && w.VBlocks? ==>
      |IntsOf(w, |w.blocks|)| <= MAX_EQUALITY_IDS && IdsFrom(w, 0)
  }

  /** Blocks j, j + 1, ... hold ids only. */
  ghost predicate IdsFrom(w: Value, j: nat)
    requires w.VBlocks? && j <= |w.blocks|
    decreases |w.blocks| - j
  {
    j == |w.blocks| || (IdsOf(w, j, |w.blocks[j].items|) && IdsFrom(w, j + 1))
  }

  ghost predicate IdsOf(w: Value, j: nat, k: nat)
    requires w.VBlocks? && j < |w.blocks| && k <= |w.blocks[j].items|
  {
    forall i | 0 <= i < k :: 0 <= IntOf(w.blocks[j].items[i]) <= INT32_MAX
  }

  // ----- the fields of records

  datatype Named = Named(name: string, value: Value, ty: Sch)

  /** The first k fields of a record. */
  function Fields(v: Value, s: Sch, k: nat): (l: seq<Named>)
    requires v.VRec? && s.ARecord? && |v.vals| == |s.fields| && k <= |s.fields|
    ensures |l| == k
    decreases k
  {
    if k == 0 then [] else Fields(v, s, k - 1) + [Named(s.fields[k - 1].name, v.vals[k - 1], s.fields[k - 1].ty)]
  }

  /** The last of the fields that meets a condition. */
  function LastWhere(l: seq<Named>, p: Named -> bool): Option<Named>
    decreases |l|
  {
    if l == [] then None else if p(l[|l| - 1]) then Some(l[|l| - 1]) else LastWhere(l[..|l| - 1], p)
  }

  lemma {:induction false} LastOfMore(l: seq<Named>, x: Named, p: Named -> bool)
    ensures LastWhere(l + [x], p) == if p(x) then Some(x) else LastWhere(l, p)
  {
    assert (l + [x])[..|l|] == l;
  }

  /** The field of that name. */
  function ByName(l: seq<Named>, name: string): Option<Named> { LastWhere(l, (x: Named) => x.name == name) }

  /** The field of that name that is not null. */
  function Present(l: seq<Named>, name: string): Option<Named> { LastWhere(l, (x: Named) => x.name == name && !IsNull(x.value, x.ty)) }

  function TextOr(x: Option<Named>, default: Option<seq<Byte>>): Option<seq<Byte>> {
    if x.None? then default else TextIn(x.value.value, x.value.ty)
  }

  function IntOr(x: Option<Named>, default: Option<int>): Option<int> {
    if x.None? then default else IntIn(x.value.value, x.value.ty)
  }

  /** A missing number is 0. */
  function NumberOr(x: Option<Named>, default: int): int {
    if x.None? then default else match IntIn(x.value.value, x.value.ty) case None => 0 case Some(n) => n
  }

  function IntsOr(x: Option<Named>, default: seq<int>): seq<int> { if x.None? then default else IntsIn(x.value.value, x.value.ty) }

  // ----- bounds

  function BoundBytes(l: seq<Named>): Option<Named> { LastWhere(l, (x: Named) => x.name == "value" && TextIn(x.value, x.ty).Some?) }

  /** A record with a key and a value that is text is a bound. */
  function BoundOf(l: seq<Named>): seq<Bound> {
    var key, value := ByName(l, "key"), TextOr(BoundBytes(l), None);
    if key.Some? && value.Some? then [Bound(NumberOr(key, 0), value.value)] else []
  }

  predicate IsRecord(v: Value, s: Sch) { s.ARecord? && v.VRec? && |v.vals| == |s.fields| }

  function BoundIn(v: Value, rec: Sch): seq<Bound> { if IsRecord(v, rec) then BoundOf(Fields(v, rec, |rec.fields|)) else [] }

  function ItemBounds(w: Value, rec: Sch, j: nat, k: nat): (r: seq<Bound>)
    requires w.VBlocks? && j < |w.blocks| && k <= |w.blocks[j].items|
    ensures |r| <= k
    decreases k
  {
    if k == 0 then [] else ItemBounds(w, rec, j, k - 1) + BoundIn(w.blocks[j].items[k - 1].value, rec)
  }

  function BoundsOf(w: Value, rec: Sch, j: nat): seq<Bound>
    requires w.VBlocks? && j <= |w.blocks|
    decreases j
  {
    if j == 0 then [] else BoundsOf(w, rec, j - 1) + ItemBounds(w, rec, j - 1, |w.blocks[j - 1].items|)
  }

  predicate RecordArray(s: Sch) { s.AArray? && s.items.ARecord? }

  function BoundsIn(v: Value, s: Sch): seq<Bound> {
    var w, t := Inner(v, s), InnerType(v, s);
    if RecordArray(t) && w.VBlocks? then BoundsOf(w, t.items, |w.blocks|) else []
  }

  function BoundsOr(x: Option<Named>, default: seq<Bound>): seq<Bound> { if x.None? then default else BoundsIn(x.value.value, x.value.ty) }

  predicate Int32OrNone(n: Option<int>) { n.None? || INT32_MIN <= n.value <= INT32_MAX }

  /** Field ids are int32, values at most 65536 bytes. */
  predicate BoundFieldFits(x: Named) {
    && (x.name == "key" ==> Int32OrNone(IntIn(x.value, x.ty)))
    && (x.name == "value" ==> TextIn(x.value, x.ty).None? || |TextIn(x.value, x.ty).value| <= MAX_BOUND_LEN)
  }

  ghost predicate AllFit(l: seq<Named>, fits: Named -> bool) { forall i | 0 <= i < |l| :: fits(l[i]) }

  lemma {:induction false} AllFitMore(l: seq<Named>, x: Named, fits: Named -> bool)
    ensures AllFit(l + [x], fits) <==> AllFit(l, fits) && fits(x)
  {
    assert forall i | 0 <= i < |l| :: (l + [x])[i] == l[i];
    assert (l + [x])[|l|] == x;
  }

  ghost predicate RecordFits(v: Value, rec: Sch) {
    IsRecord(v, rec) ==> AllFit(Fields(v, rec, |rec.fields|), BoundFieldFits)
  }

  ghost predicate BoundsFit(v: Value, s: Sch) {
    var w, t := Inner(v, s), InnerType(v, s);
    RecordArray(t) && w.VBlocks? ==> BlocksFit(w, t.items, 0)
  }

  ghost predicate BlocksFit(w: Value, rec: Sch, j: nat)
    requires w.VBlocks? && j <= |w.blocks|
    decreases |w.blocks| - j
  {
    j == |w.blocks| || (BlockFits(w, rec, j) && BlocksFit(w, rec, j + 1))
  }

  /** A block may add as many records as there is room for after the bounds so far. */
  ghost predicate BlockFits(w: Value, rec: Sch, j: nat)
    requires w.VBlocks? && j < |w.blocks|
  {
    |BoundsOf(w, rec, j)| + |w.blocks[j].items| <= MAX_BOUNDS && RecordsFit(w, rec, j, |w.blocks[j].items|)
  }

  ghost predicate RecordsFit(w: Value, rec: Sch, j: nat, k: nat)
    requires w.VBlocks? && j < |w.blocks| && k <= |w.blocks[j].items|
  {
    forall i | 0 <= i < k :: RecordFits(w.blocks[j].items[i].value, rec)
  }

  // ----- partition cells

  function CellIn(v: Value, s: Sch): Cell {
    var w := Inner(v, s);
    if IsNull(v, s) then Cell(true, true, 0, None)
    else match InnerType(v, s)
      case AInt => Cell(false, true, if w.VInt? then w.i else 0, None)
      case ALong => Cell(false, true, if w.VInt? then w.i else 0, None)
      case ABool => Cell(false, true, if w == VBool(true) then 1 else 0, None)
      case AString => Cell(false, true, 0, Some(if w.VText? then w.text else []))
      case ABytes => Cell(false, true, 0, Some(if w.VText? then w.text else []))
      case _ => Cell(false, false, 0, None)
  }

  function CellsOf(w: Value, t: Sch, k: nat): seq<Cell>
    requires IsRecord(w, t) && k <= |t.fields|
    decreases k
  {
    if k == 0 then [] else CellsOf(w, t, k - 1) + [CellIn(w.vals[k - 1], t.fields[k - 1].ty)]
  }

  function CellsIn(v: Value, s: Sch): Option<seq<Cell>> {
    var w, t := Inner(v, s), InnerType(v, s);
    if IsRecord(w, t) then Some(CellsOf(w, t, |t.fields|)) else None
  }

  function CellsOr(x: Option<Named>, default: Option<seq<Cell>>): Option<seq<Cell>> {
    if x.None? then default else CellsIn(x.value.value, x.value.ty)
  }

  // ----- the entry

  /** The fields of the data file of an entry with these fields. */
  function FileFields(own: seq<Named>): seq<Named>
    decreases |own|
  {
    if own == [] then []
    else
      var x := own[|own| - 1];
      var w, t := Inner(x.value, x.ty), InnerType(x.value, x.ty);
      FileFields(own[..|own| - 1]) + if x.name == "data_file" && IsRecord(w, t) then Fields(w, t, |t.fields|) else []
  }

  function Sequence(own: seq<Named>): Option<Named> {
    LastWhere(own, (x: Named) => x.name == "sequence_number" || x.name == "data_sequence_number")
  }

  /** What an entry with its own fields and these fields of its data file decodes to. */
  function Expected(e: Entry, own: seq<Named>, file: seq<Named>): Entry {
    Entry(
      NumberOr(ByName(own, "status"), e.status),
      Sequence(own).Some? || e.hasSequenceField,
      IntOr(Sequence(own), e.sequenceNumber),
      TextOr(ByName(file, "file_path"), e.path),
      TextOr(ByName(file, "file_format"), e.format),
      NumberOr(ByName(file, "content"), e.content),
      NumberOr(ByName(file, "record_count"), e.recordCount),
      NumberOr(ByName(file, "file_size_in_bytes"), e.fileSize),
      CellsOr(Present(file, "partition"), e.partition),
      IntsOr(ByName(file, "equality_ids"), e.equalityIds),
      BoundsOr(ByName(file, "lower_bounds"), e.lower),
      BoundsOr(ByName(file, "upper_bounds"), e.upper),
      TextOr(ByName(file, "referenced_data_file"), e.referenced),
      IntOr(ByName(file, "content_offset"), e.contentOffset),
      IntOr(ByName(file, "content_size_in_bytes"), e.contentSize))
  }

  /** The limits of the reader. */
  ghost predicate FileFieldFits(x: Named) {
    && (x.name == "content" ==> Int32OrNone(IntIn(x.value, x.ty)))
    && (x.name == "equality_ids" ==> IdsFit(x.value, x.ty))
    && (x.name == "lower_bounds" || x.name == "upper_bounds" ==> BoundsFit(x.value, x.ty))
  }

  ghost predicate FileFits(l: seq<Named>) { forall i | 0 <= i < |l| :: FileFieldFits(l[i]) }

  ghost predicate EntryFits(l: seq<Named>) { forall i | 0 <= i < |l| :: EntryFieldFits(l[i]) }

  /** A data file is a record whose fields keep the limits, or null. */
  ghost predicate EntryFieldFits(x: Named) {
    && (x.name == "status" ==> Int32OrNone(IntIn(x.value, x.ty)))
    && (x.name == "data_file" ==>
        || IsNull(x.value, x.ty)
        || (var w, t := Inner(x.value, x.ty), InnerType(x.value, x.ty);
            IsRecord(w, t) && FileFits(Fields(w, t, |t.fields|))))
  }

  // ----- decoders of one field

  /** The fields before it, then a field. */
  lemma {:induction false} FieldStored(buf: seq<Byte>, pos: nat, v: Value, s: Sch, k: nat)
    requires s.ARecord? && Typed(v, s) && 0 < k <= |s.fields|
    ensures IsRecord(v, s) && Typed(v.vals[k - 1], s.fields[k - 1].ty)
    ensures |WriteFields(v, k)| == |WriteFields(v, k - 1)| + |Write(v.vals[k - 1])|
    ensures Stored(buf, pos, WriteFields(v, k)) ==>
      Stored(buf, pos, WriteFields(v, k - 1)) && Stored(buf, pos + |WriteFields(v, k - 1)|, Write(v.vals[k - 1]))
  {
    hide Write;
    StoredParts(buf, pos, WriteFields(v, k - 1), Write(v.vals[k - 1]));
  }

  lemma {:induction false} RecordTyped(v: Value, s: Sch)
    requires s.ARecord? && Typed(v, s)
    ensures IsRecord(v, s) && Write(v) == WriteFields(v, |s.fields|) && |WriteFields(v, 0)| == 0
  {
  }

  function End(pos: nat, v: Value): nat { pos + |Write(v)| }

  lemma {:induction false} UnwrapWritten(buf: seq<Byte>, pos: nat, v: Value, s: Sch) returns (p: nat)
    requires Typed(v, s) && Stored(buf, pos, Write(v))
    ensures UnwrapAt(buf, pos, s) == Ok(At(Unwrapped(InnerType(v, s), IsNull(v, s)), p))
    ensures Typed(Inner(v, s), InnerType(v, s)) && Stored(buf, p, Write(Inner(v, s))) && End(p, Inner(v, s)) == End(pos, v)
    ensures IsNull(v, s) ==> p == End(pos, v)
  {
    hide LongAt, WriteLong;
    p := pos;
    if s.AUnion? {
      StoredParts(buf, pos, WriteLong(v.branch), Write(v.of));
      LongStored(buf, pos, v.branch);
      p := pos + |WriteLong(v.branch)|;
    }
  }

  lemma {:induction false} StringWritten(buf: seq<Byte>, pos: nat, v: Value, s: Sch)
    requires Typed(v, s) && Stored(buf, pos, Write(v))
    ensures StringAt(buf, pos, s) == Ok(At(TextIn(v, s), End(pos, v)))
  {
    hide UnwrapAt, BytesAt, Skip, WriteText;
    var p := UnwrapWritten(buf, pos, v, s);
    var w, t := Inner(v, s), InnerType(v, s);
    if IsText(t) { TextStored(buf, p, w.text); } else { SkipWritten(buf, p, w, t); }
  }

  lemma {:induction false} LongFieldWritten(buf: seq<Byte>, pos: nat, v: Value, s: Sch)
    requires Typed(v, s) && Stored(buf, pos, Write(v))
    ensures LongField(buf, pos, s) == Ok(At(IntIn(v, s), End(pos, v)))
  {
    hide UnwrapAt, LongAt, Skip, WriteLong;
    var p := UnwrapWritten(buf, pos, v, s);
    var w, t := Inner(v, s), InnerType(v, s);
    if IsInt(t) { LongStored(buf, p, w.i); } else { SkipWritten(buf, p, w, t); }
  }

  lemma {:induction false} Int32FieldWritten(buf: seq<Byte>, pos: nat, v: Value, s: Sch)
    requires Typed(v, s) && Stored(buf, pos, Write(v))
    ensures Int32Field(buf, pos, s) == if Int32OrNone(IntIn(v, s)) then Ok(At(IntIn(v, s), End(pos, v))) else Err
  {
    LongFieldWritten(buf, pos, v, s);
  }

  // ----- arrays of ints

  lemma {:induction false} IntItemsWritten(buf: seq<Byte>, pos: nat, w: Value, t: Sch, j: nat, k: nat, vals: seq<int>)
    requires IntArray(t) && w.VBlocks? && j < |w.blocks| && BlockTyped(w, j, t.items, false) && k <= |w.blocks[j].items|
    requires Stored(buf, pos, WriteItems(w, j, k))
    ensures IntItems(buf, pos, vals, k) == if IdsOf(w, j, k) then Ok(At(vals + ItemInts(w, j, k), pos + |WriteItems(w, j, k)|)) else Err
    decreases k
  {
    hide LongAt, WriteLong, Stored, BlockTyped;
    if k == 0 {
      assert vals + [] == vals;
    } else {
      var x, before := w.blocks[j].items[k - 1], WriteItems(w, j, k - 1);
      ItemStored(buf, pos, w, t.items, j, k);
      IntItemsWritten(buf, pos, w, t, j, k - 1, vals);
      LongStored(buf, pos + |before|, x.value.i);
      assert IdsOf(w, j, k) <==> IdsOf(w, j, k - 1) && 0 <= x.value.i <= INT32_MAX;
      assert vals + ItemInts(w, j, k - 1) + [x.value.i] == vals + ItemInts(w, j, k);
    }
  }

  lemma {:induction false} IntsGrow(w: Value, j: nat, k: nat)
    requires w.VBlocks? && j <= k <= |w.blocks|
    ensures |IntsOf(w, j)| <= |IntsOf(w, k)|
    decreases k
  {
    if j < k { IntsGrow(w, j, k - 1); }
  }

  lemma {:induction false} IntBlocksWritten(buf: seq<Byte>, pos: nat, w: Value, t: Sch, j: nat)
    requires IntArray(t) && Typed(w, t) && w.VBlocks? && j <= |w.blocks| && Stored(buf, pos, WriteBlocks(w, j))
    requires |IntsOf(w, j)| <= MAX_EQUALITY_IDS
    ensures IntBlocks(buf, pos, IntsOf(w, j))
         == if |IntsOf(w, |w.blocks|)| <= MAX_EQUALITY_IDS && IdsFrom(w, j)
            then Ok(At(IntsOf(w, |w.blocks|), pos + |WriteBlocks(w, j)|)) else Err
    decreases |w.blocks| - j
  {
    hide IntItems, WriteItems, WriteHeader, BlockAt, WriteLong, ItemInts, IdsOf, Typed, WriteBlocks, BlockTyped, Stored;
    if j == |w.blocks| {
      EndStored(buf, pos, w, MAX_EQUALITY_IDS);
    } else {
      var b, head, items := w.blocks[j], WriteHeader(w.blocks[j]), WriteItems(w, j, |w.blocks[j].items|);
      BlockStored(buf, pos, w, t, j);
      IntsGrow(w, j + 1, |w.blocks|);
      HeaderStored(buf, pos, b, MAX_EQUALITY_IDS);
      assert |IntsOf(w, j + 1)| == |IntsOf(w, j)| + |b.items|;
      if |IntsOf(w, j + 1)| <= MAX_EQUALITY_IDS {
        IntItemsWritten(buf, pos + |head|, w, t, j, |b.items|, IntsOf(w, j));
        if IdsOf(w, j, |b.items|) { IntBlocksWritten(buf, pos + |head| + |items|, w, t, j + 1); }
      }
    }
  }

  lemma {:induction false} NothingYet(w: Value, rec: Sch)
    requires w.VBlocks?
    ensures IntsOf(w, 0) == [] && BoundsOf(w, rec, 0) == []
  {
  }

  lemma {:induction false} NotNull(v: Value, s: Sch)
    requires !InnerType(v, s).ANull?
    ensures !IsNull(v, s)
  {
  }

  lemma {:induction false} IntArrayWritten(buf: seq<Byte>, pos: nat, v: Value, s: Sch)
    requires Typed(v, s) && Stored(buf, pos, Write(v))
    ensures IntArrayAt(buf, pos, s) == if IdsFit(v, s) then Ok(At(IntsIn(v, s), End(pos, v))) else Err
  {
    hide UnwrapAt, IntBlocks, Skip, Typed, Write, WriteBlocks, IntsOf, IdsFrom, Inner, InnerType, IsNull, Stored;
    var p := UnwrapWritten(buf, pos, v, s);
    var w, t := Inner(v, s), InnerType(v, s);
    if IntArray(t) {
      BlocksTyped(w, t);
      NothingYet(w, t);
      NotNull(v, s);
      IntBlocksWritten(buf, p, w, t, 0);
    } else {
      SkipWritten(buf, p, w, t);
    }
  }

  // ----- bound maps

  lemma {:induction false} BoundValueWritten(buf: seq<Byte>, pos: nat, v: Value, s: Sch)
    requires Typed(v, s) && Stored(buf, pos, Write(v))
    ensures BoundValue(buf, pos, s)
         == if TextIn(v, s).None? || |TextIn(v, s).value| <= MAX_BOUND_LEN then Ok(At(TextIn(v, s), End(pos, v))) else Err
  {
    hide UnwrapAt, BytesAt, Skip, WriteText;
    var p := UnwrapWritten(buf, pos, v, s);
    var w, t := Inner(v, s), InnerType(v, s);
    if IsText(t) { TextStored(buf, p, w.text); } else { SkipWritten(buf, p, w, t); }
  }

  /** What has been read of a bound record. */
  function KeyValueOf(l: seq<Named>): KeyValue {
    KeyValue(if ByName(l, "key").Some? then Some(NumberOr(ByName(l, "key"), 0)) else None, TextOr(BoundBytes(l), None))
  }

  lemma {:induction false} BoundFieldWritten(buf: seq<Byte>, pos: nat, l: seq<Named>, x: Named)
    requires Typed(x.value, x.ty) && Stored(buf, pos, Write(x.value))
    ensures BoundField(buf, pos, Field(x.name, x.ty), KeyValueOf(l))
         == if BoundFieldFits(x) then Ok(At(KeyValueOf(l + [x]), End(pos, x.value))) else Err
  {
    hide Int32Field, BoundValue, Skip, Write, LastWhere, TextIn, IntIn;
    LastOfMore(l, x, (y: Named) => y.name == "key");
    LastOfMore(l, x, (y: Named) => y.name == "value" && TextIn(y.value, y.ty).Some?);
    if x.name == "key" {
      Int32FieldWritten(buf, pos, x.value, x.ty);
    } else if x.name == "value" {
      BoundValueWritten(buf, pos, x.value, x.ty);
    } else {
      SkipWritten(buf, pos, x.value, x.ty);
    }
  }

  lemma {:induction false} BoundRecordWritten(buf: seq<Byte>, pos: nat, v: Value, rec: Sch, k: nat)
    requires rec.ARecord? && Typed(v, rec) && IsRecord(v, rec) && k <= |rec.fields| && Stored(buf, pos, WriteFields(v, k))
    ensures BoundRecord(buf, pos, rec, k)
         == if AllFit(Fields(v, rec, k), BoundFieldFits) then Ok(At(KeyValueOf(Fields(v, rec, k)), pos + |WriteFields(v, k)|)) else Err
    decreases k
  {
    hide BoundField, Write, KeyValueOf, BoundFieldFits, AllFit, Typed, Stored, WriteFields;
    if k == 0 {
      NothingRead();
      RecordTyped(v, rec);
    } else {
      var x := Named(rec.fields[k - 1].name, v.vals[k - 1], rec.fields[k - 1].ty);
      FieldStored(buf, pos, v, rec, k);
      BoundRecordWritten(buf, pos, v, rec, k - 1);
      AllFitMore(Fields(v, rec, k - 1), x, BoundFieldFits);
      BoundFieldWritten(buf, pos + |WriteFields(v, k - 1)|, Fields(v, rec, k - 1), x);
      assert rec.fields[k - 1] == Field(x.name, x.ty);
    }
  }

  lemma {:induction false} NothingRead()
    ensures KeyValueOf([]) == KeyValue(None, None) && AllFit([], BoundFieldFits)
  {
  }

  lemma {:induction false} BoundItemsWritten(buf: seq<Byte>, pos: nat, w: Value, t: Sch, j: nat, k: nat, bs: seq<Bound>)
    requires RecordArray(t) && w.VBlocks? && j < |w.blocks| && BlockTyped(w, j, t.items, false) && k <= |w.blocks[j].items|
    requires Stored(buf, pos, WriteItems(w, j, k))
    ensures BoundItems(buf, pos, t, bs, k)
         == if RecordsFit(w, t.items, j, k) then Ok(At(bs + ItemBounds(w, t.items, j, k), pos + |WriteItems(w, j, k)|)) else Err
    decreases k
  {
    hide BoundRecord, RecordFits, BoundIn, WriteFields, Typed, Write, Stored, BlockTyped;
    if k == 0 {
      assert bs + [] == bs;
    } else {
      var x, before := w.blocks[j].items[k - 1], WriteItems(w, j, k - 1);
      ItemStored(buf, pos, w, t.items, j, k);
      BoundItemsWritten(buf, pos, w, t, j, k - 1, bs);
      BoundInWritten(buf, pos + |before|, x.value, t.items);
      assert RecordsFit(w, t.items, j, k) <==> RecordsFit(w, t.items, j, k - 1) && RecordFits(x.value, t.items);
      var had, more := bs + ItemBounds(w, t.items, j, k - 1), BoundIn(x.value, t.items);
      assert had + [] == had;
      assert bs + ItemBounds(w, t.items, j, k) == had + more;
    }
  }

  lemma {:induction false} ItemStored(buf: seq<Byte>, pos: nat, w: Value, t: Sch, j: nat, k: nat)
    requires w.VBlocks? && j < |w.blocks| && BlockTyped(w, j, t, false) && 0 < k <= |w.blocks[j].items| && Stored(buf, pos, WriteItems(w, j, k))
    ensures var x, before := w.blocks[j].items[k - 1], WriteItems(w, j, k - 1);
      && Typed(x.value, t) && Stored(buf, pos, before) && Stored(buf, pos + |before|, Write(x.value))
      && |WriteItems(w, j, k)| == |before| + |Write(x.value)|
  {
    hide Write;
    var x, before := w.blocks[j].items[k - 1], WriteItems(w, j, k - 1);
    assert [] + Write(x.value) == Write(x.value);
    StoredParts(buf, pos, before, Write(x.value));
  }

  lemma {:induction false} BoundInWritten(buf: seq<Byte>, pos: nat, v: Value, rec: Sch)
    requires rec.ARecord? && Typed(v, rec) && Stored(buf, pos, Write(v))
    ensures var r := BoundRecord(buf, pos, rec, |rec.fields|);
      if RecordFits(v, rec) then r.Ok? && r.value.pos == End(pos, v) && BoundIn(v, rec) == BoundFrom(r.value.value) else r.Err?
  {
    hide BoundRecord, AllFit, Fields, WriteFields, Stored, ByName, BoundBytes, NumberOr, TextOr, Typed, Write;
    RecordTyped(v, rec);
    BoundRecordWritten(buf, pos, v, rec, |rec.fields|);
  }

  /** A key and a value make a bound. */
  function BoundFrom(kv: KeyValue): seq<Bound> { if kv.key.Some? && kv.value.Some? then [Bound(kv.key.value, kv.value.value)] else [] }

  lemma {:induction false} BoundBlocksWritten(buf: seq<Byte>, pos: nat, w: Value, t: Sch, j: nat)
    requires RecordArray(t) && Typed(w, t) && w.VBlocks? && j <= |w.blocks| && Stored(buf, pos, WriteBlocks(w, j))
    ensures BoundBlocks(buf, pos, t, BoundsOf(w, t.items, j))
         == if BlocksFit(w, t.items, j) then Ok(At(BoundsOf(w, t.items, |w.blocks|), pos + |WriteBlocks(w, j)|)) else Err
    decreases |w.blocks| - j
  {
    hide BoundItems, WriteItems, WriteHeader, BlockAt, WriteLong, ItemBounds, RecordsFit, Typed, WriteBlocks, BlockTyped, Stored;
    if j == |w.blocks| {
      EndStored(buf, pos, w, MAX_BOUNDS);
    } else {
      var b, head, items := w.blocks[j], WriteHeader(w.blocks[j]), WriteItems(w, j, |w.blocks[j].items|);
      BlockStored(buf, pos, w, t, j);
      HeaderStored(buf, pos, b, MAX_BOUNDS);
      if |BoundsOf(w, t.items, j)| + |b.items| <= MAX_BOUNDS {
        BoundItemsWritten(buf, pos + |head|, w, t, j, |b.items|, BoundsOf(w, t.items, j));
        if RecordsFit(w, t.items, j, |b.items|) { BoundBlocksWritten(buf, pos + |head| + |items|, w, t, j + 1); }
      }
    }
  }

  lemma {:induction false} BoundMapWritten(buf: seq<Byte>, pos: nat, v: Value, s: Sch)
    requires Typed(v, s) && Stored(buf, pos, Write(v))
    ensures BoundMapAt(buf, pos, s) == if BoundsFit(v, s) then Ok(At(BoundsIn(v, s), End(pos, v))) else Err
  {
    hide UnwrapAt, BoundBlocks, Skip, Typed, Write, WriteBlocks, BlocksFit, BoundsOf, Inner, InnerType, IsNull, Stored;
    var p := UnwrapWritten(buf, pos, v, s);
    var w, t := Inner(v, s), InnerType(v, s);
    if RecordArray(t) {
      BlocksTyped(w, t);
      NothingYet(w, t.items);
      NotNull(v, s);
      BoundBlocksWritten(buf, p, w, t, 0);
    } else {
      SkipWritten(buf, p, w, t);
    }
  }

  // ----- partitions

  lemma {:induction false} CellWritten(buf: seq<Byte>, pos: nat, v: Value, s: Sch)
    requires Typed(v, s) && Stored(buf, pos, Write(v))
    ensures CellAt(buf, pos, s) == Ok(At(CellIn(v, s), End(pos, v)))
  {
    hide UnwrapAt, Typed, Write, TypedCell;
    var p := UnwrapWritten(buf, pos, v, s);
    if !IsNull(v, s) { TypedCellWritten(buf, p, Inner(v, s), InnerType(v, s), v, s); }
  }

  lemma {:induction false} TypedCellWritten(buf: seq<Byte>, pos: nat, w: Value, t: Sch, v: Value, s: Sch)
    requires Typed(w, t) && Stored(buf, pos, Write(w)) && w == Inner(v, s) && t == InnerType(v, s) && !IsNull(v, s)
    ensures TypedCell(buf, pos, t) == Ok(At(CellIn(v, s), End(pos, w)))
  {
    hide LongAt, BytesAt, Skip, WriteLong, WriteText, WriteFields, WriteBlocks, BlockTyped, Inner, InnerType, IsNull;
    match t
    case AInt => LongStored(buf, pos, w.i);
    case ALong => LongStored(buf, pos, w.i);
    case AString => TextStored(buf, pos, w.text);
    case ABytes => TextStored(buf, pos, w.text);
    case ABool =>
    case AFixed(_) =>
    case AFloat =>
    case ADouble =>
    case _ => SkipWritten(buf, pos, w, t);
  }

  lemma {:induction false} CellsWritten(buf: seq<Byte>, pos: nat, w: Value, t: Sch, k: nat)
    requires t.ARecord? && Typed(w, t) && k <= |t.fields| && Stored(buf, pos, WriteFields(w, k))
    ensures AvroSpec.CellsAt(buf, pos, t, k) == Ok(At(CellsOf(w, t, k), pos + |WriteFields(w, k)|))
    decreases k
  {
    hide CellAt, CellIn, Write;
    if k > 0 {
      StoredParts(buf, pos, WriteFields(w, k - 1), Write(w.vals[k - 1]));
      CellsWritten(buf, pos, w, t, k - 1);
      CellWritten(buf, pos + |WriteFields(w, k - 1)|, w.vals[k - 1], t.fields[k - 1].ty);
    }
  }

  lemma {:induction false} PartitionWritten(buf: seq<Byte>, pos: nat, v: Value, s: Sch, e: Entry)
    requires Typed(v, s) && Stored(buf, pos, Write(v))
    ensures PartitionField(buf, pos, s, e) == Ok(At(if IsNull(v, s) then e else e.(partition := CellsIn(v, s)), End(pos, v)))
  {
    hide UnwrapAt, AvroSpec.CellsAt, Skip, WriteFields, WriteBlocks, BlockTyped, CellsOf;
    var p := UnwrapWritten(buf, pos, v, s);
    var w, t := Inner(v, s), InnerType(v, s);
    if !IsNull(v, s) {
      if t.ARecord? { CellsWritten(buf, p, w, t, |t.fields|); } else { SkipWritten(buf, p, w, t); }
    }
  }

  // ----- data files

  lemma {:induction false} NameOfMore(l: seq<Named>, x: Named, name: string)
    ensures ByName(l + [x], name) == if x.name == name then Some(x) else ByName(l, name)
    ensures Present(l + [x], name) == if x.name == name && !IsNull(x.value, x.ty) then Some(x) else Present(l, name)
  {
    hide LastWhere, IsNull;
    LastOfMore(l, x, (y: Named) => y.name == name);
    LastOfMore(l, x, (y: Named) => y.name == name && !IsNull(y.value, y.ty));
  }

  /** One field of a data file more. */
  lemma {:induction false} FileFieldMore(e: Entry, own: seq<Named>, file: seq<Named>, x: Named)
    ensures var f, had := Expected(e, own, file + [x]), Expected(e, own, file);
      f == match x.name
           case "file_path" => had.(path := TextIn(x.value, x.ty))
           case "file_format" => had.(format := TextIn(x.value, x.ty))
           case "content" => had.(content := OrNought(IntIn(x.value, x.ty)))
           case "record_count" => had.(recordCount := OrNought(IntIn(x.value, x.ty)))
           case "file_size_in_bytes" => had.(fileSize := OrNought(IntIn(x.value, x.ty)))
           case "partition" => if IsNull(x.value, x.ty) then had else had.(partition := CellsIn(x.value, x.ty))
           case "equality_ids" => had.(equalityIds := IntsIn(x.value, x.ty))
           case "lower_bounds" => had.(lower := BoundsIn(x.value, x.ty))
           case "upper_bounds" => had.(upper := BoundsIn(x.value, x.ty))
           case "referenced_data_file" => had.(referenced := TextIn(x.value, x.ty))
           case "content_offset" => had.(contentOffset := IntIn(x.value, x.ty))
           case "content_size_in_bytes" => had.(contentSize := IntIn(x.value, x.ty))
           case _ => had
  {
    hide ByName, Present, Sequence, TextIn, IntIn, CellsIn, IntsIn, BoundsIn, IsNull;
    NameOfMore(file, x, "file_path");
    NameOfMore(file, x, "file_format");
    NameOfMore(file, x, "content");
    NameOfMore(file, x, "record_count");
    NameOfMore(file, x, "file_size_in_bytes");
    NameOfMore(file, x, "partition");
    NameOfMore(file, x, "equality_ids");
    NameOfMore(file, x, "lower_bounds");
    NameOfMore(file, x, "upper_bounds");
    NameOfMore(file, x, "referenced_data_file");
    NameOfMore(file, x, "content_offset");
    NameOfMore(file, x, "content_size_in_bytes");
  }

  lemma {:induction false} FileFieldWritten(buf: seq<Byte>, pos: nat, e: Entry, own: seq<Named>, file: seq<Named>, x: Named)
    requires Typed(x.value, x.ty) && Stored(buf, pos, Write(x.value))
    ensures DataFileField(buf, pos, Field(x.name, x.ty), Expected(e, own, file))
         == if FileFieldFits(x) then Ok(At(Expected(e, own, file + [x]), End(pos, x.value))) else Err
  {
    hide StringAt, LongField, Int32Field, IntArrayAt, BoundMapAt, PartitionField, Skip, Expected, Typed, Write,
      TextIn, IntIn, CellsIn, IntsIn, BoundsIn, IsNull, IdsFit, BoundsFit, Int32OrNone;
    FileFieldMore(e, own, file, x);
    StringWritten(buf, pos, x.value, x.ty);
    LongFieldWritten(buf, pos, x.value, x.ty);
    SkipWritten(buf, pos, x.value, x.ty);
    PartitionWritten(buf, pos, x.value, x.ty, Expected(e, own, file));
    if x.name == "content" { Int32FieldWritten(buf, pos, x.value, x.ty); }
    if x.name == "equality_ids" { IntArrayWritten(buf, pos, x.value, x.ty); }
    if x.name == "lower_bounds" || x.name == "upper_bounds" { BoundMapWritten(buf, pos, x.value, x.ty); }
  }

  lemma {:induction false} DataFileWritten(buf: seq<Byte>, pos: nat, w: Value, t: Sch, e: Entry, own: seq<Named>, file: seq<Named>, k: nat)
    requires t.ARecord? && Typed(w, t) && IsRecord(w, t) && k <= |t.fields| && Stored(buf, pos, WriteFields(w, k))
    ensures DataFileFields(buf, pos, t, Expected(e, own, file), k)
         == if FileFits(Fields(w, t, k)) then Ok(At(Expected(e, own, file + Fields(w, t, k)), pos + |WriteFields(w, k)|)) else Err
    decreases k
  {
    hide DataFileField, Write, Expected, FileFits, Typed, Stored, WriteFields;
    if k == 0 {
      assert file + Fields(w, t, 0) == file;
      RecordTyped(w, t);
      FitsNothing();
    } else {
      var x, l := Named(t.fields[k - 1].name, w.vals[k - 1], t.fields[k - 1].ty), Fields(w, t, k - 1);
      FieldStored(buf, pos, w, t, k);
      DataFileWritten(buf, pos, w, t, e, own, file, k - 1);
      FileFitsMore(l, x);
      FileFieldWritten(buf, pos + |WriteFields(w, k - 1)|, e, own, file + l, x);
      assert t.fields[k - 1] == Field(x.name, x.ty);
      assert file + l + [x] == file + Fields(w, t, k);
    }
  }

  lemma {:induction false} FitsNothing()
    ensures FileFits([]) && EntryFits([])
  {
  }

  lemma {:induction false} FileFitsMore(l: seq<Named>, x: Named)
    ensures FileFits(l + [x]) <==> FileFits(l) && FileFieldFits(x)
    ensures EntryFits(l + [x]) <==> EntryFits(l) && EntryFieldFits(x)
  {
    hide FileFieldFits, EntryFieldFits;
    assert forall i | 0 <= i < |l| :: (l + [x])[i] == l[i];
    assert (l + [x])[|l|] == x;
  }

  // ----- entries

  lemma {:induction false} SequenceOfMore(own: seq<Named>, x: Named)
    ensures Sequence(own + [x]) == if x.name == "sequence_number" || x.name == "data_sequence_number" then Some(x) else Sequence(own)
  {
    hide LastWhere;
    LastOfMore(own, x, (y: Named) => y.name == "sequence_number" || y.name == "data_sequence_number");
  }

  /** One field of an entry more, the data file apart. */
  lemma {:induction false} EntryFieldMore(e: Entry, own: seq<Named>, file: seq<Named>, x: Named)
    ensures var f, had := Expected(e, own + [x], file), Expected(e, own, file);
      f == match x.name
           case "status" => had.(status := OrNought(IntIn(x.value, x.ty)))
           case "sequence_number" => had.(hasSequenceField := true, sequenceNumber := IntIn(x.value, x.ty))
           case "data_sequence_number" => had.(hasSequenceField := true, sequenceNumber := IntIn(x.value, x.ty))
           case _ => had
  {
    hide ByName, Present, Sequence, TextIn, IntIn, CellsIn, IntsIn, BoundsIn, IsNull;
    NameOfMore(own, x, "status");
    SequenceOfMore(own, x);
  }

  lemma {:induction false} FileOfMore(own: seq<Named>, x: Named)
    ensures var w, t := Inner(x.value, x.ty), InnerType(x.value, x.ty);
      FileFields(own + [x]) == FileFields(own) + if x.name == "data_file" && IsRecord(w, t) then Fields(w, t, |t.fields|) else []
  {
    assert (own + [x])[..|own|] == own;
  }

  lemma {:induction false} DataFileRefWritten(buf: seq<Byte>, pos: nat, x: Named, e: Entry, own: seq<Named>)
    requires Typed(x.value, x.ty) && Stored(buf, pos, Write(x.value)) && x.name == "data_file"
    ensures DataFileRef(buf, pos, x.ty, Expected(e, own, FileFields(own)))
         == if EntryFieldFits(x) then Ok(At(Expected(e, own, FileFields(own + [x])), End(pos, x.value))) else Err
  {
    hide UnwrapAt, DataFileFields, Expected, FileFits, FileFields, Fields, WriteFields, IsNull;
    var p := UnwrapWritten(buf, pos, x.value, x.ty);
    var w, t, file := Inner(x.value, x.ty), InnerType(x.value, x.ty), FileFields(own);
    FileOfMore(own, x);
    assert file + [] == file;
    if IsNull(x.value, x.ty) {
      NullIsNoRecord(x.value, x.ty);
    } else if t.ARecord? {
      RecordTyped(w, t);
      DataFileWritten(buf, p, w, t, e, own, file, |t.fields|);
    }
  }

  lemma {:induction false} NullIsNoRecord(v: Value, s: Sch)
    requires IsNull(v, s)
    ensures InnerType(v, s).ANull?
  {
  }

  lemma {:induction false} EntryFieldWritten(buf: seq<Byte>, pos: nat, e: Entry, own: seq<Named>, x: Named)
    requires Typed(x.value, x.ty) && Stored(buf, pos, Write(x.value))
    ensures EntryField(buf, pos, Field(x.name, x.ty), Expected(e, own, FileFields(own)))
         == if EntryFieldFits(x) then Ok(At(Expected(e, own + [x], FileFields(own + [x])), End(pos, x.value))) else Err
  {
    hide LongField, Int32Field, DataFileRef, Skip, Expected, Typed, Write, IntIn, FileFields, Fields, Int32OrNone, FileFits, IsNull;
    var file := FileFields(own + [x]);
    EntryFieldMore(e, own, file, x);
    if x.name == "data_file" {
      DataFileRefWritten(buf, pos, x, e, own);
    } else {
      FileOfMore(own, x);
      assert FileFields(own) + [] == FileFields(own);
      LongFieldWritten(buf, pos, x.value, x.ty);
      SkipWritten(buf, pos, x.value, x.ty);
      if x.name == "status" { Int32FieldWritten(buf, pos, x.value, x.ty); }
    }
  }

  lemma {:induction false} EntryFieldsWritten(buf: seq<Byte>, pos: nat, v: Value, s: Sch, e: Entry, k: nat)
    requires s.ARecord? && Typed(v, s) && IsRecord(v, s) && k <= |s.fields| && Stored(buf, pos, WriteFields(v, k))
    ensures var l := Fields(v, s, k);
      EntryFields(buf, pos, s, e, k) == if EntryFits(l) then Ok(At(Expected(e, l, FileFields(l)), pos + |WriteFields(v, k)|)) else Err
    decreases k
  {
    hide EntryField, Write, Expected, EntryFits, EntryFieldFits, FileFields, Typed, Stored, WriteFields;
    if k == 0 {
      NothingExpected(e);
      RecordTyped(v, s);
      FitsNothing();
    } else {
      var x, l := Named(s.fields[k - 1].name, v.vals[k - 1], s.fields[k - 1].ty), Fields(v, s, k - 1);
      FieldStored(buf, pos, v, s, k);
      EntryFieldsWritten(buf, pos, v, s, e, k - 1);
      FileFitsMore(l, x);
      EntryFieldWritten(buf, pos + |WriteFields(v, k - 1)|, e, l, x);
      assert s.fields[k - 1] == Field(x.name, x.ty);
    }
  }

  lemma {:induction false} NothingExpected(e: Entry)
    ensures Expected(e, [], FileFields([])) == e
  {
  }

  /** Write, then read: for every schema and every record value, the entry decoded from the written bytes
      holds, part by part, what was written under its name, and the cursor ends after the record; it is
      refused exactly when a value exceeds the reader's limits. */
  lemma {:induction false} EntryWritten(buf: seq<Byte>, pos: nat, v: Value, s: Sch, e: Entry)
    requires s.ARecord? && Typed(v, s) && Stored(buf, pos, Write(v))
    ensures IsRecord(v, s)
    ensures var own := Fields(v, s, |s.fields|);
      EntryAt(buf, pos, s, e) == if EntryFits(own) then Ok(At(Expected(e, own, FileFields(own)), pos + |Write(v)|)) else Err
  {
    hide EntryFields, Expected, FileFields, Fields, EntryFits, WriteFields, Typed, Write, Stored;
    RecordTyped(v, s);
    EntryFieldsWritten(buf, pos, v, s, e, |s.fields|);
  }
}
