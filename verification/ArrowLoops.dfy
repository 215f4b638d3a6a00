module ArrowLoops {
  /** The loops of export and import over the same batch. */

  import opened Prelude
  import opened Bits
  import opened BitPack
  import opened Words
  import opened ArrowTypes
  import opened ArrowBatch

  lemma {:induction false} EmitSplit(b: Batch, x: seq<seq<Byte>>, y: seq<seq<Byte>>, k: nat)
    requires k <= |y|
    ensures EmitOnto(EmitOnto(b, x, |x|), y, k) == EmitOnto(b, x + y, |x| + k)
  {
    hide AddBuffer;
    if k == 0 {
      EmitPrefix(b, x, y, |x|);
    } else {
      EmitSplit(b, x, y, k - 1);
      assert (x + y)[|x| + k - 1] == y[k - 1];
    }
  }

  lemma {:induction false} EmitPrefix(b: Batch, x: seq<seq<Byte>>, y: seq<seq<Byte>>, k: nat)
    requires k <= |x|
    ensures EmitOnto(b, x + y, k) == EmitOnto(b, x, k)
  {
    hide AddBuffer;
    if k > 0 { EmitPrefix(b, x, y, k - 1); }
  }

  function EmitAll(b: Batch, bufs: seq<seq<Byte>>): Batch { EmitOnto(b, bufs, |bufs|) }

  lemma {:induction false} EmitTwo(b: Batch, x: seq<seq<Byte>>, y: seq<seq<Byte>>)
    ensures EmitAll(EmitAll(b, x), y) == EmitAll(b, x + y)
  {
    EmitSplit(b, x, y, |y|);
  }

  lemma {:induction false} EmitOne(b: Batch, s: seq<Byte>)
    ensures EmitAll(b, [s]) == AddBuffer(b, s)
  {
    assert EmitOnto(b, [s], 0) == b;
  }

  class Body {
    var bytes: seq<Byte>
    var bufOff: seq<nat>
    var bufLen: seq<nat>

    function State(): Batch reads this { Batch(bytes, bufOff, bufLen) }

    constructor ()
      ensures State() == Batch([], [], [])
    {
      bytes, bufOff, bufLen := [], [], [];
    }

    /** body_add_buffer */
    method Add(s: seq<Byte>)
      modifies this
      ensures State() == EmitAll(old(State()), [s])
    {
      EmitOne(State(), s);
      bufOff := bufOff + [|bytes|];
      bufLen := bufLen + [|s|];
      bytes := bytes + s;
      var pad := (8 - |bytes| % 8) % 8;
      bytes := bytes + seq(pad, _ => 0);
    }

    /** arrow_emit_buffers */
    method EmitColumn(ty: Ty, c: Col)
      requires Shape(ty, c)
      modifies this
      ensures State() == EmitAll(old(State()), Buffers(ty, c))
      decreases ty, 1, 0
    {
      hide EmitAll, Spelled, OffsetBytes;
      var bits := PackBits(c.valid);
      Add(bits);
      ghost var b := old(State());
      match ty
      case FixedTy(_) =>
        Add(c.fixed);
        EmitTwo(b, [bits], [c.fixed]);
      case BoolTy =>
        var vals := PackBits(c.bools);
        Add(vals);
        EmitTwo(b, [bits], [vals]);
      case BytesTy =>
        Add(OffsetBytes(c.offs));
        Add(c.vardata);
        EmitTwo(b, [bits], [OffsetBytes(c.offs)]);
        EmitTwo(b, [bits] + [OffsetBytes(c.offs)], [c.vardata]);
        assert [bits] + [OffsetBytes(c.offs)] + [c.vardata] == [bits] + [OffsetBytes(c.offs), c.vardata];
      case ListTy(e) =>
        Add(OffsetBytes(c.offs));
        EmitColumn(e, c.children[0]);
        EmitTwo(b, [bits], [OffsetBytes(c.offs)]);
        EmitTwo(b, [bits] + [OffsetBytes(c.offs)], Buffers(e, c.children[0]));
        ListBuffers(e, c);
        assert [bits] + [OffsetBytes(c.offs)] == [bits, OffsetBytes(c.offs)];
      case StructTy(fs) =>
        EmitFields(ty, c.children);
        EmitTwo(b, [bits], FieldBuffers(ty, c.children, |fs|));
    }

    method EmitFields(ty: Ty, cs: seq<Col>)
      requires ty.StructTy? && |cs| == |ty.fields| && forall f | 0 <= f < |cs| :: Shape(ty.fields[f], cs[f])
      modifies this
      ensures State() == EmitAll(old(State()), FieldBuffers(ty, cs, |cs|))
      decreases ty, 0, 0
    {
      hide Buffers;
      ghost var b := State();
      for f := 0 to |cs|
        invariant State() == EmitAll(b, FieldBuffers(ty, cs, f))
      {
        EmitTwo(b, FieldBuffers(ty, cs, f), Buffers(ty.fields[f], cs[f]));
        EmitColumn(ty.fields[f], cs[f]);
      }
    }
  }

  /** The bitmap loop: bit r of byte r / 8 for every set flag. */
  method PackBits(flags: seq<bool>) returns (out: seq<Byte>)
    ensures out == Spelled(flags)
  {
    var bits := new Byte[Bytes(|flags|)](_ => 0);
    ZerosSpell(bits[..]);
    for r := 0 to |flags|
      invariant Spells(bits[..], flags[..r])
    {
      ghost var before := bits[..];
      if flags[r] {
        ShlBound(r % 8, 8);
        Pow2Of8();
        OrFits(bits[r / 8], Shl(1, r % 8));
        bits[r / 8] := Or(bits[r / 8], Shl(1, r % 8));
        SetBit(before, bits[..], r);
      }
      OneMoreBit(before, bits[..], flags, r);
    }
    assert flags[..|flags|] == flags;
    SpelledSpells(flags);
    SpellsUnique(bits[..], Spelled(flags), flags);
    out := bits[..];
  }

  lemma {:induction false} OneMoreBit(s: seq<Byte>, t: seq<Byte>, flags: seq<bool>, r: nat)
    requires r < |flags| && Spells(s, flags[..r]) && r < 8 * |s| && BitAdded(s, t, r, flags[r])
    ensures Spells(t, flags[..r + 1])
  {
    forall p: nat | p < 8 * |t| ensures StreamBit(t, p) == (p < r + 1 && flags[..r + 1][p]) {
      assert StreamBit(t, p) == (StreamBit(s, p) || (p == r && flags[r]));
      assert StreamBit(s, p) == (p < r && flags[..r][p]);
    }
  }

  /** imp_assign_buffers: the running counter ends after the subtree. */
  method AssignBuffers(ty: Ty, bufcur: nat) returns (n: Imp, next: nat)
    ensures n == Assign(ty, bufcur) && next == bufcur + ArrowBatch.Count(ty)
    decreases ty, 1
  {
    hide CountFields;
    next := bufcur + 1;
    match ty
    case ListTy(e) =>
      var child;
      child, next := AssignBuffers(e, next + 1);
      n := Imp(ty, bufcur, bufcur + 1, 0, [child]);
    case StructTy(fs) =>
      var children;
      children, next := AssignFields(ty, next);
      n := Imp(ty, bufcur, 0, 0, children);
      assert children == Assign(ty, bufcur).children;
    case BytesTy =>
      n := Imp(ty, bufcur, bufcur + 1, bufcur + 2, []);
      next := next + 2;
    case _ =>
      n := Imp(ty, bufcur, 0, bufcur + 1, []);
      next := next + 1;
  }

  predicate IsChild(ty: Ty, start: nat, f: nat, c: Imp) {
    ty.StructTy? && f < |ty.fields| && c == Assign(ty.fields[f], start + CountFields(ty, f))
  }

  method AssignFields(ty: Ty, start: nat) returns (children: seq<Imp>, next: nat)
    requires ty.StructTy?
    ensures |children| == |ty.fields| && next == start + CountFields(ty, |ty.fields|)
    ensures forall f | 0 <= f < |children| :: IsChild(ty, start, f, children[f])
    decreases ty, 0
  {
    hide Assign, ArrowBatch.Count;
    children, next := [], start;
    for f := 0 to |ty.fields|
      invariant next == start + CountFields(ty, f) && |children| == f
      invariant forall g | 0 <= g < f :: IsChild(ty, start, g, children[g])
    {
      var child;
      child, next := AssignBuffers(ty.fields[f], next);
      children := children + [child];
    }
  }

  /** The offset loop of imp_check_bounds; the last offset is the child's element count. */
  method CheckOffsets(b: Batch, k: nat, count: nat) returns (ok: bool, last: int)
    requires InBody(b)
    ensures ok == OffsetsOk(b, k, count)
    ensures ok ==> last == LastOffset(b, k, count)
  {
    last := 0;
    if k >= |b.off| || count + 1 > b.len[k] / 4 { return false, 0; }
    for i := 0 to count + 1
      invariant last >= 0 && (i == 0 ==> last == 0) && (i > 0 ==> Int32(b, k, i - 1) == Ok(last))
      invariant forall j | 0 <= j < i :: OffsetOk(b, k, j)
    {
      var u := FromLE(Buf(b, k)[4 * i..4 * i + 4]);
      var off := if u < TWO31 then u else u - TWO32;
      assert Int32(b, k, i) == Ok(off);
      if off < 0 || off < last {
        assert !OffsetOk(b, k, i);
        return false, 0;
      }
      last := off;
    }
    ok := true;
  }
}
