module AvroWrite {
  /**
   Avro values and their binary encoding, as the Avro specification prescribes it, against the reader of
   src/columnar_avro.c: every value is skipped to its end, and a manifest entry decodes to the values
   that were written under the names of its fields.
   */

  import opened Prelude
  import opened Bits
  import opened BitPack
  import opened Words
  import opened AvroSpec

  // ----- values

  /** Arrays and maps are written in blocks; a map element has a key. */
  datatype Value =
    | VNull
    | VBool(b: bool)
    | VInt(i: int)
    | VRaw(raw: seq<Byte>)
    | VText(text: seq<Byte>)
    | VRec(vals: seq<Value>)
    | VBlocks(blocks: seq<Block>)
    | VUnion(branch: nat, of: Value)

  /** A block that states its size is written with a negative count. */
  datatype Block = Block(size: Option<int>, items: seq<Item>)

  datatype Item = Item(key: Option<seq<Byte>>, value: Value)

  predicate IsLong(x: int) { 0 <= x + TWO63 < TWO64 }

  /** The value is one of the type. */
  ghost predicate Typed(v: Value, s: Sch)
    decreases v
  {
    match s
    case ANull => v.VNull?
    case ABool => v.VBool?
    case AInt => v.VInt? && IsLong(v.i)
    case ALong => v.VInt? && IsLong(v.i)
    case AEnum => v.VInt? && IsLong(v.i)
    case AFloat => v.VRaw? && |v.raw| == 4
    case ADouble => v.VRaw? && |v.raw| == 8
    case ABytes => v.VText? && |v.text| < TWO63
    case AString => v.VText? && |v.text| < TWO63
    case AFixed(n) => v.VRaw? && |v.raw| == n
    case ARecord(fs) => v.VRec? && |v.vals| == |fs| && forall i | 0 <= i < |fs| :: Typed(v.vals[i], fs[i].ty)
    case AUnion(bs) => v.VUnion? && v.branch < |bs| && v.branch < TWO63 && Typed(v.of, bs[v.branch])
    case AArray(t) => v.VBlocks? && forall j | 0 <= j < |v.blocks| :: BlockTyped(v, j, t, false)
    case AMap(t) => v.VBlocks? && forall j | 0 <= j < |v.blocks| :: BlockTyped(v, j, t, true)
  }

  ghost predicate BlockTyped(v: Value, j: nat, t: Sch, keyed: bool)
    requires v.VBlocks? && j < |v.blocks|
    decreases v, 0
  {
    var b := v.blocks[j];
    && 0 < |b.items| <= MAX_OBJECTS && (b.size.Some? ==> IsLong(b.size.value))
    && forall k | 0 <= k < |b.items| ::
      && Typed(b.items[k].value, t) && b.items[k].key.Some? == keyed && (keyed ==> |b.items[k].key.value| < TWO63)
  }

  // ----- the binary encoding

  function WriteLong(x: int): seq<Byte> { if IsLong(x) then Leb(ZigZagOf(x)) else [] }

  function WriteText(t: seq<Byte>): seq<Byte> { WriteLong(|t|) + t }

  function Write(v: Value): seq<Byte>
    decreases v, 3, 0
  {
    match v
    case VNull => []
    case VBool(b) => [if b then 1 else 0]
    case VInt(i) => WriteLong(i)
    case VRaw(r) => r
    case VText(t) => WriteText(t)
    case VRec(vals) => WriteFields(v, |vals|)
    case VBlocks(_) => WriteBlocks(v, 0)
    case VUnion(k, w) => WriteLong(k) + Write(w)
  }

  /** The first k fields of a record, in order. */
  function WriteFields(v: Value, k: nat): seq<Byte>
    requires v.VRec? && k <= |v.vals|
    decreases v, 2, k
  {
    if k == 0 then [] else WriteFields(v, k - 1) + Write(v.vals[k - 1])
  }

  /** The blocks from j on, and the empty block that ends them. */
  function WriteBlocks(v: Value, j: nat): seq<Byte>
    requires v.VBlocks? && j <= |v.blocks|
    decreases v, 2, |v.blocks| - j
  {
    if j == |v.blocks| then WriteLong(0)
    else WriteHeader(v.blocks[j]) + WriteItems(v, j, |v.blocks[j].items|) + WriteBlocks(v, j + 1)
  }

  function WriteHeader(b: Block): seq<Byte> {
    if b.size.Some? then WriteLong(-|b.items|) + WriteLong(b.size.value) else WriteLong(|b.items|)
  }

  /** The first k elements of block j. */
  function WriteItems(v: Value, j: nat, k: nat): seq<Byte>
    requires v.VBlocks? && j < |v.blocks| && k <= |v.blocks[j].items|
    decreases v, 1, k
  {
    if k == 0 then []
    else
      var x := v.blocks[j].items[k - 1];
      WriteItems(v, j, k - 1) + ((if x.key.Some? then WriteText(x.key.value) else []) + Write(x.value))
  }

  // ----- bytes in a buffer

  ghost predicate Stored(buf: seq<Byte>, pos: nat, s: seq<Byte>) { pos + |s| <= |buf| && buf[pos..pos + |s|] == s }

  lemma {:induction false} StoredParts(buf: seq<Byte>, pos: nat, a: seq<Byte>, b: seq<Byte>)
    ensures Stored(buf, pos, a + b) <==> Stored(buf, pos, a) && Stored(buf, pos + |a|, b)
  {
    var n := pos + |a|;
    if Stored(buf, pos, a + b) {
      assert buf[pos..n] == buf[pos..n + |b|][..|a|] == (a + b)[..|a|];
      assert buf[n..n + |b|] == buf[pos..n + |b|][|a|..] == (a + b)[|a|..];
    }
    if Stored(buf, pos, a) && Stored(buf, n, b) {
      assert buf[pos..n + |b|] == buf[pos..n] + buf[n..n + |b|];
    }
  }

  lemma {:induction false} LongStored(buf: seq<Byte>, pos: nat, x: int)
    requires IsLong(x) && Stored(buf, pos, WriteLong(x))
    ensures LongAt(buf, pos) == Ok(At(x, pos + |WriteLong(x)|))
  {
    hide LongAt, Leb, ZigZagOf;
    var s := Leb(ZigZagOf(x));
    assert buf[pos..] == s + buf[pos + |s|..];
    LongBack(buf, pos, x, buf[pos + |s|..]);
  }

  lemma {:induction false} TextStored(buf: seq<Byte>, pos: nat, t: seq<Byte>)
    requires |t| < TWO63 && Stored(buf, pos, WriteText(t))
    ensures BytesAt(buf, pos) == Ok(At(t, pos + |WriteText(t)|))
  {
    hide LongAt, WriteLong;
    StoredParts(buf, pos, WriteLong(|t|), t);
    LongStored(buf, pos, |t|);
  }

  /** A block header is read, or refused for its count. */
  lemma {:induction false} HeaderStored(buf: seq<Byte>, pos: nat, b: Block, cap: nat)
    requires Stored(buf, pos, WriteHeader(b)) && |b.items| <= MAX_OBJECTS && (b.size.Some? ==> 0 < |b.items| && IsLong(b.size.value))
    ensures BlockAt(buf, pos, cap) == if |b.items| <= cap then Ok(At(|b.items|, pos + |WriteHeader(b)|)) else Err
  {
    hide LongAt, WriteLong;
    var n := |b.items|;
    if b.size.Some? {
      StoredParts(buf, pos, WriteLong(-n), WriteLong(b.size.value));
      LongStored(buf, pos, -n);
      LongStored(buf, pos + |WriteLong(-n)|, b.size.value);
    } else {
      LongStored(buf, pos, n);
    }
  }

  // ----- every value is skipped to its end

  lemma {:induction false} SkipWritten(buf: seq<Byte>, pos: nat, v: Value, s: Sch)
    requires Typed(v, s) && Stored(buf, pos, Write(v))
    ensures Skip(buf, pos, s) == Ok(pos + |Write(v)|)
    decreases v, 3, 0
  {
    hide LongAt, BytesAt, WriteLong, WriteText, SkipBlocks, SkipFields, WriteFields, WriteBlocks, BlockTyped;
    match s
    case AInt => LongStored(buf, pos, v.i);
    case ALong => LongStored(buf, pos, v.i);
    case AEnum => LongStored(buf, pos, v.i);
    case ABytes => TextStored(buf, pos, v.text);
    case AString => TextStored(buf, pos, v.text);
    case ARecord(fs) => SkipFieldsWritten(buf, pos, v, s, |fs|);
    case AUnion(bs) =>
      StoredParts(buf, pos, WriteLong(v.branch), Write(v.of));
      LongStored(buf, pos, v.branch);
      SkipWritten(buf, pos + |WriteLong(v.branch)|, v.of, bs[v.branch]);
    case AArray(_) => SkipBlocksWritten(buf, pos, v, s, 0);
    case AMap(_) => SkipBlocksWritten(buf, pos, v, s, 0);
    case _ =>
  }

  lemma {:induction false} SkipFieldsWritten(buf: seq<Byte>, pos: nat, v: Value, s: Sch, k: nat)
    requires s.ARecord? && Typed(v, s) && k <= |s.fields| && Stored(buf, pos, WriteFields(v, k))
    ensures SkipFields(buf, pos, s, k) == Ok(pos + |WriteFields(v, k)|)
    decreases v, 2, k
  {
    hide Skip, Write;
    if k > 0 {
      StoredParts(buf, pos, WriteFields(v, k - 1), Write(v.vals[k - 1]));
      SkipFieldsWritten(buf, pos, v, s, k - 1);
      SkipWritten(buf, pos + |WriteFields(v, k - 1)|, v.vals[k - 1], s.fields[k - 1].ty);
    }
  }

  predicate Blocks(s: Sch) { s.AArray? || s.AMap? }

  function ItemType(s: Sch): Sch
    requires Blocks(s)
  {
    if s.AArray? then s.items else s.values
  }

  lemma {:induction false} SkipBlocksWritten(buf: seq<Byte>, pos: nat, v: Value, s: Sch, j: nat)
    requires Blocks(s) && Typed(v, s) && v.VBlocks? && j <= |v.blocks| && Stored(buf, pos, WriteBlocks(v, j))
    ensures SkipBlocks(buf, pos, s) == Ok(pos + |WriteBlocks(v, j)|)
    decreases v, 2, |v.blocks| - j
  {
    hide SkipItems, WriteItems, WriteHeader, BlockAt, WriteLong, Skip, Typed, WriteBlocks, BlockTyped, Stored;
    if j == |v.blocks| {
      EndStored(buf, pos, v, MAX_OBJECTS);
    } else {
      var b, head, items := v.blocks[j], WriteHeader(v.blocks[j]), WriteItems(v, j, |v.blocks[j].items|);
      BlockStored(buf, pos, v, s, j);
      HeaderStored(buf, pos, b, MAX_OBJECTS);
      SkipItemsWritten(buf, pos + |head|, v, s, j, |b.items|);
      SkipBlocksWritten(buf, pos + |head| + |items|, v, s, j + 1);
    }
  }

  /** The empty block. */
  lemma {:induction false} EndStored(buf: seq<Byte>, pos: nat, v: Value, cap: nat)
    requires v.VBlocks? && Stored(buf, pos, WriteBlocks(v, |v.blocks|))
    ensures BlockAt(buf, pos, cap) == Ok(At(0, pos + |WriteBlocks(v, |v.blocks|)|))
  {
    hide LongAt, WriteLong;
    LongStored(buf, pos, 0);
  }

  /** Header, elements and the other blocks, one after the other. */
  lemma {:induction false} BlockStored(buf: seq<Byte>, pos: nat, v: Value, s: Sch, j: nat)
    requires Blocks(s) && Typed(v, s) && v.VBlocks? && j < |v.blocks| && Stored(buf, pos, WriteBlocks(v, j))
    ensures BlockTyped(v, j, ItemType(s), s.AMap?)
    ensures var b, head, items, rest := v.blocks[j], WriteHeader(v.blocks[j]), WriteItems(v, j, |v.blocks[j].items|), WriteBlocks(v, j + 1);
      && Stored(buf, pos, head) && Stored(buf, pos + |head|, items) && Stored(buf, pos + |head| + |items|, rest)
      && |WriteBlocks(v, j)| == |head| + |items| + |rest|
      && 0 < |b.items| <= MAX_OBJECTS && (b.size.Some? ==> IsLong(b.size.value))
  {
    hide WriteHeader, WriteItems;
    var head, items := WriteHeader(v.blocks[j]), WriteItems(v, j, |v.blocks[j].items|);
    assert BlockTyped(v, j, ItemType(s), s.AMap?);
    StoredParts(buf, pos, head + items, WriteBlocks(v, j + 1));
    StoredParts(buf, pos, head, items);
  }

  lemma {:induction false} BlocksTyped(v: Value, s: Sch)
    requires Blocks(s) && Typed(v, s)
    ensures v.VBlocks? && Write(v) == WriteBlocks(v, 0)
  {
  }

  lemma {:induction false} SkipItemsWritten(buf: seq<Byte>, pos: nat, v: Value, s: Sch, j: nat, k: nat)
    requires Blocks(s) && v.VBlocks? && j < |v.blocks| && BlockTyped(v, j, ItemType(s), s.AMap?)
    requires k <= |v.blocks[j].items| && Stored(buf, pos, WriteItems(v, j, k))
    ensures SkipItems(buf, pos, s, k) == Ok(pos + |WriteItems(v, j, k)|)
    decreases v, 1, k
  {
    hide Skip, Write, BytesAt, WriteText;
    if k > 0 {
      var x, before := v.blocks[j].items[k - 1], WriteItems(v, j, k - 1);
      var key := if x.key.Some? then WriteText(x.key.value) else [];
      StoredParts(buf, pos, before, key + Write(x.value));
      StoredParts(buf, pos + |before|, key, Write(x.value));
      SkipItemsWritten(buf, pos, v, s, j, k - 1);
      if s.AMap? { TextStored(buf, pos + |before|, x.key.value); }
      SkipWritten(buf, pos + |before| + |key|, x.value, ItemType(s));
    }
  }
}
