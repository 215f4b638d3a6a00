module FlatBuilder {
  /**
   src/columnar_flatbuffers.c as code: the FBB record, its growing buffer, and the drivers that build
   a tree. Every operation is proved to take the abstract state, the bytes written so far, where the
   functions of FlatBuild say; a false result is the raised "buffer too large".
   */

  import opened Prelude
  import opened Bits
  import opened BitPack
  import opened FlatReader
  import opened FlatModel
  import opened FlatBuild
  import opened FlatTree

  class FBB {
    var buf: array<Byte>
    var tail: nat
    var minalign: nat
    var objectEnd: nat
    var vslot: seq<nat>

    ghost predicate Valid()
      reads this, buf
    {
      tail <= buf.Length <= MAX_ALLOC && 256 <= buf.Length && ScalarSize(minalign)
    }

    /** What has been written, whatever the capacity. */
    ghost function State(): (st: St)
      requires Valid()
      reads this, buf
      ensures |st.d| == tail
    {
      St(buf[buf.Length - tail..], minalign)
    }

    constructor ()
      ensures Valid() && fresh(buf) && State() == St([], 1)
    {
      buf := new Byte[256](_ => 0);
      tail, minalign, objectEnd, vslot := 0, 1, 0, [];
    }

    /** pgc_fb_grow: double until it fits, keep the written bytes at the end. It raises only when
        more than half the allocation limit would be needed. */
    method Grow(need: nat) returns (ok: bool)
      requires Valid()
      modifies this`buf
      ensures buf == old(buf) || fresh(buf)
      ensures ok ==> Valid() && State() == old(State()) && buf.Length - tail >= need
      ensures !ok ==> 2 * (tail + need) > MAX_ALLOC
    {
      if buf.Length - tail >= need { return true; }
      var want := 2 * buf.Length;
      while want < tail + need
        invariant 0 < want && buf.Length < want && want < 2 * (tail + need)
        decreases tail + need - want
      {
        want := 2 * want;
      }
      if want > MAX_ALLOC { return false; }
      var nb := CopyTail(buf, tail, want);
      buf := nb;
      ok := true;
    }

    /** pgc_fb_place: prepend bytes. */
    method Place(src: seq<Byte>) returns (ok: bool)
      requires Valid()
      modifies this`buf, this`tail, buf
      ensures buf == old(buf) || fresh(buf)
      ensures ok ==> Valid() && State() == St(src + old(State()).d, minalign)
    {
      ghost var d := State().d;
      ok := Grow(|src|);
      if !ok { return; }
      tail := tail + |src|;
      var at := buf.Length - tail;
      ghost var before := buf[..];
      forall i | 0 <= i < |src| { buf[at + i] := src[i]; }
      assert buf[at + |src|..] == before[at + |src|..] == d;
      assert buf[at..at + |src|] == src;
      assert buf[at..] == buf[at..at + |src|] + buf[at + |src|..];
    }

    /** pgc_fb_pad */
    method Pad(n: nat) returns (ok: bool)
      requires Valid()
      modifies this`buf, this`tail, buf
      ensures buf == old(buf) || fresh(buf)
      ensures ok ==> Valid() && State() == St(Zeros(n) + old(State()).d, minalign)
    {
      if n == 0 {
        assert Zeros(0) + State().d == State().d;
        return true;
      }
      ok := Place(seq(n, _ => 0));
    }

    /** pgc_fb_prep: ((~x) + 1) & (size - 1) in 32-bit arithmetic. */
    method PrepFor(size: nat, additional: nat) returns (ok: bool)
      requires Valid() && ScalarSize(size)
      modifies this`buf, this`tail, this`minalign, buf
      ensures buf == old(buf) || fresh(buf)
      ensures ok ==> Valid() && State() == Prep(old(State()), size, additional)
    {
      hide PadFor, Prep, Zeros, Mod, Extends;
      PadIs(tail + additional, size);
      PrepIs(State(), size, additional);
      var alignsize := (TWO32 - (tail + additional) % TWO32) % size;
      if size > minalign { minalign := size; }
      ok := Pad(alignsize);
    }

    /** pgc_fb_push_u8 / i16 / i32 / i64 */
    method PushScalar(size: nat, v: nat) returns (ok: bool)
      requires Valid() && ScalarSize(size)
      modifies this`buf, this`tail, this`minalign, buf
      ensures buf == old(buf) || fresh(buf)
      ensures ok ==> Valid() && State() == Push(old(State()), size, v)
    {
      hide Prep, ToLE;
      ok := PrepFor(size, 0);
      if !ok { return; }
      ok := Place(ToLE(v, size));
    }

    method PushUoffset(off: nat) returns (ok: bool)
      requires Valid() && off <= tail
      modifies this`buf, this`tail, this`minalign, buf
      ensures buf == old(buf) || fresh(buf)
      ensures ok ==> Valid() && State() == PushRef(old(State()), off)
    {
      hide Prep, ToLE;
      ok := PrepFor(4, 0);
      if !ok { return; }
      ok := Place(ToLE(tail + 4 - off, 4));
    }

    method CreateString(t: seq<Byte>) returns (r: Result<nat>)
      requires Valid()
      modifies this`buf, this`tail, this`minalign, buf
      ensures buf == old(buf) || fresh(buf)
      ensures r.Ok? ==> Valid() && State() == Text(old(State()), t) && r.value == tail
    {
      hide Prep, ToLE;
      var ok := PrepFor(4, |t| + 1);
      if !ok { return Err; }
      ok := Place([0]);
      if !ok { return Err; }
      ok := Place(t);
      if !ok { return Err; }
      ok := Place(ToLE(|t|, 4));
      if !ok { return Err; }
      r := Ok(tail);
    }

    // ----- tables

    method Start(nslots: nat)
      requires Valid() && nslots <= 16
      modifies this`objectEnd, this`vslot
      ensures Valid() && State() == old(State()) && objectEnd == tail && |vslot| == nslots
      ensures forall i | 0 <= i < nslots :: vslot[i] == 0
    {
      vslot := seq(nslots, _ => 0);
      objectEnd := tail;
    }

    /** pgc_fb_add_*: a slot equal to its default, or a zero offset, is not written. */
    method Add(i: nat, slot: Slot, off: nat) returns (ok: bool)
      requires Valid() && i < |vslot| && off <= tail && vslot[i] == 0
      requires slot.Scalar? ==> ScalarSize(slot.size)
      modifies this`buf, this`tail, this`minalign, this`vslot, buf
      ensures buf == old(buf) || fresh(buf)
      ensures ok ==> Valid() && State() == AddSlot(old(State()), slot, off).0
      ensures ok ==> vslot == old(vslot)[i := AddSlot(old(State()), slot, off).1]
    {
      hide Push, PushRef;
      ok := true;
      match slot {
        case Empty => return;
        case Scalar(size, val, def) =>
          if val == def { return; }
          ok := PushScalar(size, val);
        case Ref(_) =>
          if off == 0 { return; }
          ok := PushUoffset(off);
      }
      if ok { vslot := vslot[i := tail]; }
    }

    method PlaceVoffs(objectOffset: nat) returns (ok: bool)
      requires Valid() && objectOffset == tail && forall j | 0 <= j < |vslot| :: vslot[j] <= objectOffset
      modifies this`buf, this`tail, buf
      ensures buf == old(buf) || fresh(buf)
      ensures ok ==> Valid() && State() == St(Voffs(objectOffset, vslot, 0) + old(State()).d, minalign)
    {
      hide ToLE, Voff, ScalarSize;
      ghost var d := State().d;
      var i: nat := |vslot|;
      ok := true;
      assert [] + d == d;
      while i > 0
        invariant i <= |vslot| && Valid() && (buf == old(buf) || fresh(buf))
        invariant State() == St(Voffs(objectOffset, vslot, i) + d, minalign)
      {
        i := i - 1;
        var voff := ToLE(Voff(objectOffset, vslot[i]), 2);
        Append3(voff, Voffs(objectOffset, vslot, i + 1), d);
        ok := Place(voff);
        if !ok { return; }
      }
    }

    /** Overwrite four bytes of an object already placed. */
    method Patch(off: nat, v: nat, ghost front: seq<Byte>, ghost back: seq<Byte>)
      requires Valid() && 4 <= off <= tail && State().d == front + (ToLE(0, 4) + back) && |back| == off - 4
      modifies buf
      ensures Valid() && State() == St(front + (ToLE(v, 4) + back), minalign)
    {
      hide ToLE;
      ghost var d := State().d;
      var bytes := ToLE(v, 4);
      var at := buf.Length - off;
      forall i | 0 <= i < 4 { buf[at + i] := bytes[i]; }
      ghost var start := buf.Length - tail;
      forall i | 0 <= i < tail ensures buf[start + i] == (front + (bytes + back))[i] {
        if i < |front| || i >= |front| + 4 { assert d[i] == (front + (ToLE(0, 4) + back))[i]; }
      }
      assert buf[start..] == front + (bytes + back);
    }

    /** pgc_fb_end */
    method End() returns (r: Result<nat>)
      requires Valid() && objectEnd <= tail && forall j | 0 <= j < |vslot| :: vslot[j] <= tail
      modifies this`buf, this`tail, this`minalign, buf
      ensures buf == old(buf) || fresh(buf)
      ensures r.Ok? ==> Valid() && (State(), r.value) == EndTable(old(State()), objectEnd, vslot)
    {
      hide Prep, ToLE, Vtable, Extends;
      var ok := PrepFor(4, 0);
      if !ok { return Err; }
      ghost var d := State().d;
      ok := Place(ToLE(0, 4));
      if !ok { return Err; }
      var objectOffset := tail;
      ok := PlaceVtable(objectOffset);
      if !ok { return Err; }
      Patch(objectOffset, tail - objectOffset, Vtable(objectOffset, objectEnd, vslot), d);
      r := Ok(objectOffset);
    }

    /** The vtable: voffsets from the last slot down, then the two sizes. */
    method PlaceVtable(objectOffset: nat) returns (ok: bool)
      requires Valid() && objectOffset == tail && forall j | 0 <= j < |vslot| :: vslot[j] <= objectOffset
      requires objectEnd <= objectOffset
      modifies this`buf, this`tail, buf
      ensures buf == old(buf) || fresh(buf)
      ensures ok ==> Valid() && State() == St(Vtable(objectOffset, objectEnd, vslot) + old(State()).d, minalign)
    {
      hide ToLE, Voffs, Voff, ScalarSize;
      ghost var d := State().d;
      ok := PlaceVoffs(objectOffset);
      if !ok { return; }
      var objsize, vtsize := ToLE(objectOffset - objectEnd, 2), ToLE((|vslot| + 2) * 2, 2);
      ok := Place(objsize);
      if !ok { return; }
      ok := Place(vtsize);
      PairAppend(vtsize, objsize, Voffs(objectOffset, vslot, 0), d);
    }

    // ----- vectors

    method StartVector(elemSize: nat, count: nat, align: nat) returns (ok: bool)
      requires Valid() && ScalarSize(align)
      modifies this`buf, this`tail, this`minalign, buf
      ensures buf == old(buf) || fresh(buf)
      ensures ok ==> Valid() && State() == Prep(Prep(old(State()), 4, elemSize * count), align, elemSize * count)
    {
      hide Prep;
      ok := PrepFor(4, elemSize * count);
      if !ok { return; }
      ok := PrepFor(align, elemSize * count);
    }

    method EndVector(count: nat) returns (r: Result<nat>)
      requires Valid() && tail % 4 == 0
      modifies this`buf, this`tail, this`minalign, buf
      ensures buf == old(buf) || fresh(buf)
      ensures r.Ok? ==> Valid() && State() == St(ToLE(count, 4) + old(State()).d, Max(old(minalign), 4)) && r.value == tail
    {
      hide Prep, ToLE;
      PrepNothing(State(), 4);
      var ok := PrepFor(4, 0);
      if !ok { return Err; }
      ok := Place(ToLE(count, 4));
      if !ok { return Err; }
      r := Ok(tail);
    }

    method PlacePair(lo: nat, hi: nat) returns (ok: bool)
      requires Valid() && tail % 8 == 0 && minalign == 8
      modifies this`buf, this`tail, this`minalign, buf
      ensures buf == old(buf) || fresh(buf)
      ensures ok ==> Valid() && State() == St(ToLE(lo, 8) + (ToLE(hi, 8) + old(State()).d), 8)
    {
      hide Prep, ToLE;
      PrepNothing(State(), 8);
      ok := PrepFor(8, 0);
      if !ok { return; }
      ok := Place(ToLE(hi, 8));
      if !ok { return; }
      ok := Place(ToLE(lo, 8));
    }

    /** A vector of 16-byte structs, written last to first, each upper half first. */
    method PairVector(ps: seq<(nat, nat)>) returns (r: Result<nat>)
      requires Valid()
      modifies this`buf, this`tail, this`minalign, buf
      ensures buf == old(buf) || fresh(buf)
      ensures r.Ok? ==> Valid() && State() == VecOfPairs(old(State()), ps) && r.value == tail
    {
      hide Prep, ToLE, PairBytes, Extends, Mod;
      var ok := StartVector(16, |ps|, 8);
      if !ok { return Err; }
      StartsAligned(|State().d|, |ps|);
      ok := PlacePairs(ps);
      if !ok { return Err; }
      r := EndVector(|ps|);
    }

    method PlacePairs(ps: seq<(nat, nat)>) returns (ok: bool)
      requires Valid() && tail % 8 == 0 && minalign == 8
      modifies this`buf, this`tail, this`minalign, buf
      ensures buf == old(buf) || fresh(buf)
      ensures ok ==> Valid() && State() == St(PairBytes(ps, 0) + old(State()).d, 8) && tail % 8 == 0
    {
      hide Prep, ToLE;
      ghost var d := State().d;
      var i: nat := |ps|;
      ok := true;
      assert [] + d == d;
      while i > 0
        invariant i <= |ps| && Valid() && (buf == old(buf) || fresh(buf))
        invariant State() == St(PairBytes(ps, i) + d, 8) && tail % 8 == 0
      {
        i := i - 1;
        ok := PlacePair(ps[i].0, ps[i].1);
        if !ok { return; }
        PairAppend(ToLE(ps[i].0, 8), ToLE(ps[i].1, 8), PairBytes(ps, i + 1), d);
      }
    }

    /** A vector of offsets, written last to first. */
    method RefVector(offs: seq<nat>) returns (r: Result<nat>)
      requires Valid() && forall i | 0 <= i < |offs| :: offs[i] <= tail
      modifies this`buf, this`tail, this`minalign, buf
      ensures buf == old(buf) || fresh(buf)
      ensures r.Ok? ==> Valid() && State() == VecOfRefs(old(State()), offs) && r.value == tail
    {
      hide Prep, ToLE, PushRef, Extends;
      ghost var st := State();
      var ok := StartVector(4, |offs|, 4);
      if !ok { return Err; }
      PrepTwice(st, 4 * |offs|);
      ghost var q := Prep(st, 4, 4 * |offs|);
      var i: nat := |offs|;
      while i > 0
        invariant i <= |offs| && Valid() && (buf == old(buf) || fresh(buf)) && |q.d| <= tail
        invariant State() == PushRefs(q, offs, i)
      {
        i := i - 1;
        ok := PushUoffset(offs[i]);
        if !ok { return Err; }
      }
      r := EndVector(|offs|);
    }

    /** pgc_fb_finish */
    method FinishRoot(root: nat) returns (ok: bool)
      requires Valid() && root <= tail
      modifies this`buf, this`tail, this`minalign, buf
      ensures buf == old(buf) || fresh(buf)
      ensures ok ==> Valid() && State() == Finish(old(State()), root)
    {
      hide Prep, PushRef;
      ok := PrepFor(minalign, 4);
      if !ok { return; }
      ok := PushUoffset(root);
    }
  }

  method CopyTail(a: array<Byte>, n: nat, size: nat) returns (b: array<Byte>)
    requires n <= a.Length <= size
    ensures fresh(b) && b.Length == size && b[size - n..] == a[a.Length - n..]
  {
    b := new Byte[size](_ => 0);
    var from, to := a.Length - n, size - n;
    forall i | 0 <= i < n { b[to + i] := a[from + i]; }
    forall i | 0 <= i < n ensures b[to..][i] == a[from..][i] { assert b[to + i] == a[from + i]; }
    assert b[to..] == a[from..];
  }

  lemma {:induction false} PrepIs(st: St, k: nat, additional: nat)
    requires ScalarSize(k)
    ensures Prep(st, k, additional) == St(Zeros(PadFor(|st.d| + additional, k)) + st.d, if k > st.m then k else st.m)
  {
    hide PadFor, Zeros, Extends, Mod;
  }

  lemma {:induction false} StartsAligned(d: nat, n: nat)
    requires Mod(d + 16 * n, 8) == 0
    ensures d % 8 == 0
  {
    assert d == 8 * ((d + 16 * n) / 8 - 2 * n);
  }

  lemma {:induction false} PadIs(x: nat, size: nat)
    requires ScalarSize(size)
    ensures (TWO32 - x % TWO32) % size == PadFor(x, size)
  {
    if size == 8 {
      Pad8(x);
    } else if size == 4 {
      Pad4(x);
    } else if size == 2 {
      Pad2(x);
    }
  }

  lemma {:induction false} Pad8(x: nat)
    ensures (TWO32 - x % TWO32) % 8 == if x % 8 == 0 then 0 else 8 - x % 8
  {
    var q, a, b := x / TWO32, x % TWO32 / 8, x % TWO32 % 8;
    assert x == 8 * (0x2000_0000 * q + a) + b;
    assert TWO32 - x % TWO32 == 8 * (0x2000_0000 - a) - b;
  }

  lemma {:induction false} Pad4(x: nat)
    ensures (TWO32 - x % TWO32) % 4 == if x % 4 == 0 then 0 else 4 - x % 4
  {
    var q, a, b := x / TWO32, x % TWO32 / 4, x % TWO32 % 4;
    assert x == 4 * (0x4000_0000 * q + a) + b;
    assert TWO32 - x % TWO32 == 4 * (0x4000_0000 - a) - b;
  }

  lemma {:induction false} Pad2(x: nat)
    ensures (TWO32 - x % TWO32) % 2 == if x % 2 == 0 then 0 else 2 - x % 2
  {
    var q, a, b := x / TWO32, x % TWO32 / 2, x % TWO32 % 2;
    assert x == 2 * (0x8000_0000 * q + a) + b;
    assert TWO32 - x % TWO32 == 2 * (0x8000_0000 - a) - b;
  }

  lemma {:induction false} PrepNothing(st: St, k: nat)
    requires (k == 4 || k == 8) && |st.d| % k == 0
    ensures Prep(st, k, 0) == St(st.d, Max(st.m, k))
  {
    assert Zeros(0) + st.d == st.d;
  }

  lemma {:induction false} PrepTwice(st: St, n: nat)
    requires n % 4 == 0
    ensures Prep(Prep(st, 4, n), 4, n) == Prep(st, 4, n)
  {
    var q := Prep(st, 4, n);
    assert PadFor(|q.d| + n, 4) == 0;
    assert Zeros(0) + q.d == q.d;
  }

  lemma {:induction false} Append3(a: seq<Byte>, b: seq<Byte>, c: seq<Byte>)
    ensures a + (b + c) == a + b + c
  {
  }

  lemma {:induction false} PairAppend(lo: seq<Byte>, hi: seq<Byte>, rest: seq<Byte>, d: seq<Byte>)
    ensures lo + (hi + (rest + d)) == (lo + (hi + rest)) + d
  {
  }

  /** The children of a node, in order. */
  method BuildChildren(b: FBB, n: Node, ord: Order) returns (r: Result<seq<nat>>)
    requires b.Valid() && Fits(n)
    modifies b, b.buf
    ensures b.buf == old(b.buf) || fresh(b.buf)
    ensures r.Ok? ==> b.Valid() && (b.State(), r.value) == AllKids(ord, old(b.State()), n)
    decreases n, 0
  {
    hide Build, Extends, Fits;
    var offs, p := seq(Kids(n), _ => 0), OrderOf(ord, n, b.tail);
    for i := 0 to Kids(n)
      invariant b.Valid() && (b.buf == old(b.buf) || fresh(b.buf))
      invariant (b.State(), offs) == BuildKids(ord, old(b.State()), n, p, i)
    {
      if HasKid(n, p[i]) {
        KidFits(n, p[i]);
        var off := BuildNode(b, Kid(n, p[i]), ord);
        if off.Err? { return Err; }
        offs := offs[p[i] := off.value];
      }
    }
    r := Ok(offs);
  }

  /** Build a tree the way the callers do: children first, in the caller's order, then the object
      that refers to them. */
  method BuildNode(b: FBB, n: Node, ord: Order) returns (r: Result<nat>)
    requires b.Valid() && Fits(n)
    modifies b, b.buf
    ensures b.buf == old(b.buf) || fresh(b.buf)
    ensures r.Ok? ==> b.Valid() && (b.State(), r.value) == Build(ord, old(b.State()), n)
    decreases n, 1
  {
    hide AllKids, VecOfRefs, Text, VecOfPairs, TableOf, Extends;
    match n
    case Str(t) => r := b.CreateString(t);
    case Pairs(ps) => r := b.PairVector(ps);
    case Refs(ns) =>
      var offs := BuildChildren(b, n, ord);
      if offs.Err? { return Err; }
      r := b.RefVector(offs.value);
    case Table(ss) =>
      var offs := BuildChildren(b, n, ord);
      if offs.Err? { return Err; }
      r := BuildTable(b, ss, offs.value);
  }

  method BuildTable(b: FBB, ss: seq<Slot>, offs: seq<nat>) returns (r: Result<nat>)
    requires b.Valid() && |ss| == |offs| <= 16 && (forall i | 0 <= i < |offs| :: offs[i] <= b.tail)
    requires forall i | 0 <= i < |ss| :: FitsSlot(ss[i])
    modifies b, b.buf
    ensures b.buf == old(b.buf) || fresh(b.buf)
    ensures r.Ok? ==> b.Valid() && (b.State(), r.value) == TableOf(old(b.State()), ss, offs)
  {
    hide AddSlot, EndTable, Extends;
    ghost var st := b.State();
    b.Start(|ss|);
    for i := 0 to |ss|
      invariant b.Valid() && (b.buf == old(b.buf) || fresh(b.buf)) && b.objectEnd == |st.d|
      invariant |b.vslot| == |ss| && b.State() == AddSlots(st, ss, offs, i).0 && b.vslot[..i] == AddSlots(st, ss, offs, i).1
      invariant forall j | i <= j < |ss| :: b.vslot[j] == 0
    {
      assert FitsSlot(ss[i]);
      ghost var before := b.vslot;
      var ok := b.Add(i, ss[i], offs[i]);
      if !ok { return Err; }
      assert b.vslot[..i + 1] == before[..i] + [b.vslot[i]];
      assert (b.State(), b.vslot[..i + 1]) == AddSlots(st, ss, offs, i + 1);
    }
    assert b.vslot[..|ss|] == b.vslot;
    AddSlotsShape(st, ss, offs, |ss|);
    r := b.End();
  }
}
