module FlatModel {
  /**
   src/columnar_flatbuffers.c. The buffer is built back to front, so the state is the byte string
   written so far and every operation prepends to it; an object is known by its distance from the
   end. `Obj` says that the reader finds exactly the given tree there.
   */

  import opened Prelude
  import opened Bits
  import opened BitPack
  import opened FlatReader

  const MAX_ALLOC: nat := 0x3fff_ffff

  datatype Slot = Empty | Scalar(size: nat, value: nat, default: nat) | Ref(node: Node)

  datatype Node =
    | Str(text: seq<Byte>)
    | Pairs(pairs: seq<(nat, nat)>)
    | Refs(nodes: seq<Node>)
    | Table(slots: seq<Slot>)

  predicate ScalarSize(k: nat) { k == 1 || k == 2 || k == 4 || k == 8 }

  /** The values fit the C types, and a table has at most 16 slots. */
  ghost predicate Fits(n: Node) {
    match n
    case Str(t) => |t| < TWO32
    case Pairs(ps) => |ps| < TWO32 && forall i | 0 <= i < |ps| :: ps[i].0 < TWO64 && ps[i].1 < TWO64
    case Refs(ns) => |ns| < TWO32 && forall i | 0 <= i < |ns| :: Fits(ns[i])
    case Table(ss) => |ss| <= 16 && forall i | 0 <= i < |ss| :: FitsSlot(ss[i])
  }

  ghost predicate FitsSlot(s: Slot) {
    match s
    case Empty => true
    case Scalar(k, v, _) => ScalarSize(k) && v < Pow2(8 * k)
    case Ref(n) => Fits(n)
  }

  // ----- what the reader finds

  /** An offset stored `o` bytes from the end leads to the node. */
  ghost predicate RefAt(s: seq<Byte>, o: nat, n: Node)
    decreases n, 1
  {
    && 4 <= o <= |s| && o % 4 == 0
    && Indirect(s, |s| - o).Ok?
    && Indirect(s, |s| - o).value <= |s|
    && Obj(s, |s| - Indirect(s, |s| - o).value, n)
  }

  ghost predicate SlotAt(s: seq<Byte>, tab: nat, i: nat, slot: Slot)
    requires tab <= |s|
    decreases slot
  {
    match slot
    case Empty => FieldPos(s, tab, i) == Ok(0)
    case Scalar(k, v, def) =>
      if v == def then FieldPos(s, tab, i) == Ok(0)
      else ScalarAt(s, FieldPos(s, tab, i), k, v)
    case Ref(n) => FieldPos(s, tab, i).Ok? && 0 < FieldPos(s, tab, i).value <= |s| && RefAt(s, |s| - FieldPos(s, tab, i).value, n)
  }

  /** The field is present, holds v, and lies a multiple of its size from the end. */
  ghost predicate ScalarAt(s: seq<Byte>, pos: Result<nat>, k: nat, v: nat) {
    pos.Ok? && 0 < pos.value <= |s| && Unsigned(s, pos.value, k) == Ok(v) && Mod(|s| - pos.value, k) == 0
  }

  /** x % k for the four sizes. */
  function Mod(x: nat, k: nat): (r: nat)
    ensures r < 8
  {
    if k == 8 then x % 8 else if k == 4 then x % 4 else if k == 2 then x % 2 else 0
  }

  /** The object `off` bytes from the end of s is the node. */
  ghost predicate Obj(s: seq<Byte>, off: nat, n: Node)
    decreases n, 0
  {
    && 4 <= off <= |s| && off % 4 == 0
    && var p := |s| - off;
      match n
      case Str(t) =>
        && Unsigned(s, p, 4) == Ok(|t|) && 4 + |t| + 1 <= off
        && s[p + 4..p + 4 + |t|] == t && s[p + 4 + |t|] == 0
      case Pairs(ps) =>
        && Unsigned(s, p, 4) == Ok(|ps|) && (off - 4) % 8 == 0
        && forall i | 0 <= i < |ps| :: PairAt(s, p + 4 + 16 * i, ps[i])
      case Refs(ns) =>
        && Unsigned(s, p, 4) == Ok(|ns|) && 4 + 4 * |ns| <= off
        && forall i | 0 <= i < |ns| :: RefAt(s, off - 4 - 4 * i, ns[i])
      case Table(ss) =>
        && (forall i | 0 <= i < |ss| :: SlotAt(s, p, i, ss[i]))
        && forall i: nat | i >= |ss| :: FieldPos(s, p, i) == Ok(0)
  }

  ghost predicate PairAt(s: seq<Byte>, pos: nat, p: (nat, nat)) {
    Unsigned(s, pos, 8) == Ok(p.0) && Unsigned(s, pos + 8, 8) == Ok(p.1)
  }

  // ----- an object stays readable while more is prepended

  lemma {:induction false} RefStable(pre: seq<Byte>, s: seq<Byte>, o: nat, n: Node)
    requires RefAt(s, o, n)
    ensures RefAt(pre + s, o, n)
    decreases n, 1
  {
    hide Unsigned;
    var q := Indirect(s, |s| - o).value;
    IndirectShift(pre, s, |s| - o);
    assert |pre + s| - o == |pre| + (|s| - o);
    ObjStable(pre, s, |s| - q, n);
    assert |pre + s| - (|pre| + q) == |s| - q;
  }

  lemma {:induction false} SlotStable(pre: seq<Byte>, s: seq<Byte>, tab: nat, i: nat, slot: Slot)
    requires tab <= |s| && SlotAt(s, tab, i, slot)
    ensures SlotAt(pre + s, |pre| + tab, i, slot)
    decreases slot
  {
    hide Unsigned, FieldPos;
    FieldShift(pre, s, tab, i);
    var q := FieldPos(s, tab, i).value;
    assert q <= |s| ==> |pre + s| - (|pre| + q) == |s| - q;
    match slot
    case Empty =>
    case Scalar(k, v, def) => if v != def { UnsignedShift(pre, s, q, k); }
    case Ref(n) => RefStable(pre, s, |s| - q, n);
  }

  lemma {:induction false} ObjStable(pre: seq<Byte>, s: seq<Byte>, off: nat, n: Node)
    requires Obj(s, off, n)
    ensures Obj(pre + s, off, n)
    decreases n, 0
  {
    hide Unsigned, FieldPos, RefAt, SlotAt, PairAt;
    var p := |s| - off;
    var q := |pre + s| - off;
    assert q == |pre| + p;
    UnsignedShift(pre, s, p, 4);
    match n
    case Str(t) => assert (pre + s)[q + 4..q + 4 + |t|] == s[p + 4..p + 4 + |t|];
    case Pairs(ps) =>
      forall i | 0 <= i < |ps| ensures PairAt(pre + s, q + 4 + 16 * i, ps[i]) {
        assert q + 4 + 16 * i == |pre| + (p + 4 + 16 * i);
        PairStable(pre, s, p + 4 + 16 * i, ps[i]);
      }
    case Refs(ns) =>
      forall i | 0 <= i < |ns| ensures RefAt(pre + s, off - 4 - 4 * i, ns[i]) {
        RefStable(pre, s, off - 4 - 4 * i, ns[i]);
      }
    case Table(ss) =>
      forall i | 0 <= i < |ss| ensures SlotAt(pre + s, q, i, ss[i]) { SlotStable(pre, s, p, i, ss[i]); }
      forall i: nat | i >= |ss| ensures FieldPos(pre + s, q, i) == Ok(0) { FieldShift(pre, s, p, i); }
  }

  lemma {:induction false} PairStable(pre: seq<Byte>, s: seq<Byte>, pos: nat, p: (nat, nat))
    requires PairAt(s, pos, p)
    ensures PairAt(pre + s, |pre| + pos, p)
  {
    hide Unsigned;
    UnsignedShift(pre, s, pos, 8);
    UnsignedShift(pre, s, pos + 8, 8);
  }
}
