/**
 src/columnar_flatbuffers.c, one operation after another: aligned scalars, relative offsets,
 strings, vectors and tables with their vtables, as functions on the bytes written so far, each
 with what the reader then finds.
 */
module FlatBuild {
  import opened Prelude
  import opened Bits
  import opened BitPack
  import opened FlatReader
  import opened FlatModel

  /** The bytes written so far and the largest alignment asked for. */
  datatype St = St(d: seq<Byte>, m: nat)

  /** Bytes that bring x to a multiple of k. */
  function PadFor(x: nat, k: nat): (n: nat)
    requires ScalarSize(k)
    ensures n < k && Mod(x + n, k) == 0
  {
    var r := Mod(x, k);
    if r == 0 then 0 else k - r
  }

  function Max(a: nat, b: nat): (r: nat)
    ensures r >= a && r >= b && (r == a || r == b)
  {
    if a > b then a else b
  }

  /** pgc_fb_prep */
  function Prep(st: St, k: nat, additional: nat): (r: St)
    requires ScalarSize(k)
    ensures Mod(|r.d| + additional, k) == 0 && |st.d| <= |r.d| < |st.d| + k && r.m >= k
    ensures Extends(r.d, st.d) && r.m >= st.m && (ScalarSize(st.m) ==> ScalarSize(r.m))
  {
    var z := Zeros(PadFor(|st.d| + additional, k));
    ExtendsBy(z, st.d);
    St(z + st.d, Max(st.m, k))
  }

  /** s ends with what t was. */
  predicate Extends(s: seq<Byte>, t: seq<Byte>) { |t| <= |s| && s[|s| - |t|..] == t }

  lemma {:induction false} ExtendsBy(pre: seq<Byte>, t: seq<Byte>)
    ensures Extends(pre + t, t)
  {
  }

  lemma {:induction false} ExtendsShort(s: seq<Byte>, t: seq<Byte>)
    requires Extends(s, t)
    ensures |t| <= |s|
  {
  }

  lemma {:induction false} ExtendsSelf(s: seq<Byte>)
    ensures Extends(s, s)
  {
  }

  lemma {:induction false} ExtendsTrans(s: seq<Byte>, t: seq<Byte>, u: seq<Byte>)
    requires Extends(s, t) && Extends(t, u)
    ensures Extends(s, u)
  {
    assert s[|s| - |u|..] == s[|s| - |t|..][|t| - |u|..];
  }

  lemma {:induction false} ExtendsBoth(a: seq<Byte>, b: seq<Byte>, t: seq<Byte>, u: seq<Byte>)
    requires Extends(t, u)
    ensures Extends(a + (b + t), u)
  {
    assert a + (b + t) == (a + b) + t;
    ExtendsBy(a + b, t);
    ExtendsTrans(a + (b + t), t, u);
  }

  lemma {:induction false} ObjKept(s: seq<Byte>, t: seq<Byte>, off: nat, n: Node)
    requires Extends(s, t) && Obj(t, off, n)
    ensures Obj(s, off, n)
  {
    var pre := s[..|s| - |t|];
    assert s == pre + t;
    ObjStable(pre, t, off, n);
  }

  /** pgc_fb_push_*: an aligned scalar. */
  function Push(st: St, k: nat, v: nat): (r: St)
    requires ScalarSize(k)
    ensures Mod(|r.d|, k) == 0 && |st.d| < |r.d| < |st.d| + 2 * k && r.m >= k
    ensures Extends(r.d, st.d) && r.m >= st.m && (ScalarSize(st.m) ==> ScalarSize(r.m))
  {
    var q := Prep(st, k, 0);
    ExtendsBy(ToLE(v, k), q.d);
    ExtendsTrans(ToLE(v, k) + q.d, q.d, st.d);
    St(ToLE(v, k) + q.d, q.m)
  }

  /** pgc_fb_push_uoffset */
  function PushRef(st: St, off: nat): (r: St)
    requires off <= |st.d|
    ensures Mod(|r.d|, 4) == 0 && |st.d| < |r.d| < |st.d| + 8 && r.m >= 4
    ensures Extends(r.d, st.d) && r.m >= st.m && (ScalarSize(st.m) ==> ScalarSize(r.m))
  {
    Push(st, 4, |Prep(st, 4, 0).d| + 4 - off)
  }

  lemma {:induction false} PushedScalar(st: St, k: nat, v: nat)
    requires ScalarSize(k) && v < Pow2(8 * k)
    ensures var s := Push(st, k, v).d; Unsigned(s, 0, k) == Ok(v)
  {
    UnsignedFront(v, k, Prep(st, k, 0).d);
  }

  lemma {:induction false} Below32(v: nat)
    requires v <= MAX_ALLOC + 8
    ensures v < Pow2(8 * 4)
  {
    Pow2Of8();
    Pow2Add(8, 8);
    Pow2Add(16, 16);
  }

  lemma {:induction false} PushedRef(st: St, off: nat, n: Node)
    requires off <= |st.d| && Obj(st.d, off, n) && |PushRef(st, off).d| <= MAX_ALLOC
    ensures RefAt(PushRef(st, off).d, |PushRef(st, off).d|, n)
  {
    hide Unsigned, Obj, Extends, ToLE, Prep, Pow2;
    var q, s := Prep(st, 4, 0), PushRef(st, off).d;
    Below32(|q.d| + 4 - off);
    PushedScalar(st, 4, |q.d| + 4 - off);
    ObjKept(s, st.d, off, n);
  }

  lemma {:induction false} RefKept(s: seq<Byte>, t: seq<Byte>, o: nat, n: Node)
    requires Extends(s, t) && RefAt(t, o, n)
    ensures RefAt(s, o, n)
  {
    var pre := s[..|s| - |t|];
    assert s == pre + t;
    RefStable(pre, t, o, n);
  }

  // ----- strings and vectors

  function Text(st: St, t: seq<Byte>): St {
    var q := Prep(st, 4, |t| + 1);
    St(ToLE(|t|, 4) + (t + ([0] + q.d)), q.m)
  }

  lemma {:induction false} TextOk(st: St, t: seq<Byte>)
    requires |Text(st, t).d| <= MAX_ALLOC
    ensures var r := Text(st, t); Extends(r.d, st.d) && r.m >= st.m && Obj(r.d, |r.d|, Str(t))
  {
    hide Unsigned, ToLE, Prep, Obj;
    var q, r := Prep(st, 4, |t| + 1), Text(st, t);
    var body := t + ([0] + q.d);
    assert r.d == (ToLE(|t|, 4) + t + [0]) + q.d;
    ExtendsBy(ToLE(|t|, 4) + t + [0], q.d);
    ExtendsTrans(r.d, q.d, st.d);
    Below32(|t|);
    UnsignedFront(|t|, 4, body);
    assert r.d[4..4 + |t|] == t;
    StrIs(r.d, t);
  }

  lemma {:induction false} StrIs(s: seq<Byte>, t: seq<Byte>)
    requires |s| % 4 == 0 && 4 + |t| + 1 <= |s| && Unsigned(s, 0, 4) == Ok(|t|)
    requires s[4..4 + |t|] == t && s[4 + |t|] == 0
    ensures Obj(s, |s|, Str(t))
  {
    hide Unsigned;
  }

  /** The pairs from i on, lower half first. */
  function PairBytes(ps: seq<(nat, nat)>, i: nat): (s: seq<Byte>)
    requires i <= |ps|
    ensures |s| == 16 * (|ps| - i)
    decreases |ps| - i
  {
    if i == |ps| then [] else ToLE(ps[i].0, 8) + (ToLE(ps[i].1, 8) + PairBytes(ps, i + 1))
  }

  function VecOfPairs(st: St, ps: seq<(nat, nat)>): St {
    var q := Prep(Prep(st, 4, 16 * |ps|), 8, 16 * |ps|);
    St(ToLE(|ps|, 4) + (PairBytes(ps, 0) + q.d), q.m)
  }

  lemma {:induction false} Below64(v: nat)
    requires v < TWO64
    ensures v < Pow2(8 * 8)
  {
    Pow2Of64();
  }

  lemma {:induction false} PairsRead(s: seq<Byte>, at: nat, ps: seq<(nat, nat)>, i: nat, j: nat, post: seq<Byte>)
    requires i <= j < |ps| && at <= |s| && s[at..] == PairBytes(ps, i) + post
    requires ps[j].0 < TWO64 && ps[j].1 < TWO64
    ensures PairAt(s, at + 16 * (j - i), ps[j])
    decreases j - i
  {
    hide Unsigned, ToLE, Pow2;
    var lo, hi, rest := ToLE(ps[i].0, 8), ToLE(ps[i].1, 8), PairBytes(ps, i + 1);
    assert PairBytes(ps, i) + post == lo + (hi + (rest + post));
    var pre := s[..at];
    assert s == pre + (lo + (hi + (rest + post)));
    if i == j {
      Below64(ps[i].0);
      Below64(ps[i].1);
      UnsignedBack(pre, ps[i].0, 8, hi + (rest + post));
      assert s == (pre + lo) + (hi + (rest + post));
      UnsignedBack(pre + lo, ps[i].1, 8, rest + post);
    } else {
      assert s == (pre + lo + hi) + (rest + post);
      assert s[at + 16..] == rest + post;
      PairsRead(s, at + 16, ps, i + 1, j, post);
    }
  }

  lemma {:induction false} VecOfPairsOk(st: St, ps: seq<(nat, nat)>)
    requires |VecOfPairs(st, ps).d| <= MAX_ALLOC && Fits(Pairs(ps))
    ensures var r := VecOfPairs(st, ps); Extends(r.d, st.d) && r.m >= st.m && r.m >= 8 && Obj(r.d, |r.d|, Pairs(ps))
  {
    hide Unsigned, PairAt, Obj, ToLE, PairBytes, Extends;
    var q1 := Prep(st, 4, 16 * |ps|);
    var q := Prep(q1, 8, 16 * |ps|);
    var head := ToLE(|ps|, 4) + PairBytes(ps, 0);
    VecSize(|q.d|, |ps|);
    VecOfPairsReads(q.d, ps);
    ExtendsBy(head, q.d);
    ExtendsTrans(head + q.d, q.d, q1.d);
    ExtendsTrans(head + q.d, q1.d, st.d);
    assert ToLE(|ps|, 4) + (PairBytes(ps, 0) + q.d) == head + q.d;
  }

  lemma {:induction false} VecSize(d: nat, n: nat)
    requires Mod(d + 16 * n, 8) == 0
    ensures (16 * n + d) % 8 == 0 && (4 + 16 * n + d) % 4 == 0
  {
  }

  lemma {:induction false} VecOfPairsReads(d: seq<Byte>, ps: seq<(nat, nat)>)
    requires (16 * |ps| + |d|) % 8 == 0 && (4 + 16 * |ps| + |d|) % 4 == 0 && |ps| <= MAX_ALLOC && Fits(Pairs(ps))
    ensures var s := ToLE(|ps|, 4) + (PairBytes(ps, 0) + d); Obj(s, |s|, Pairs(ps))
  {
    hide Unsigned, PairsAt, Obj, ToLE, PairBytes, Pow2, Fits;
    var body := PairBytes(ps, 0) + d;
    var s := ToLE(|ps|, 4) + body;
    assert |s| == 4 + 16 * |ps| + |d| && s[4..] == body;
    Below32(|ps|);
    UnsignedFront(|ps|, 4, body);
    AllPairsRead(s, ps, d);
    PairsIs(s, ps);
  }

  lemma {:induction false} AllPairsRead(s: seq<Byte>, ps: seq<(nat, nat)>, d: seq<Byte>)
    requires 4 <= |s| && s[4..] == PairBytes(ps, 0) + d && Fits(Pairs(ps))
    ensures PairsAt(s, ps)
  {
    hide PairAt, PairBytes;
    forall j | 0 <= j < |ps| ensures PairAt(s, 4 + 16 * j, ps[j]) { PairsRead(s, 4, ps, 0, j, d); }
  }

  lemma {:induction false} UnsignedFront(v: nat, k: nat, post: seq<Byte>)
    requires v < Pow2(8 * k)
    ensures Unsigned(ToLE(v, k) + post, 0, k) == Ok(v)
  {
    hide ToLE, Unsigned;
    assert [] + (ToLE(v, k) + post) == ToLE(v, k) + post;
    UnsignedBack([], v, k, post);
  }

  ghost predicate PairsAt(s: seq<Byte>, ps: seq<(nat, nat)>) {
    forall i | 0 <= i < |ps| :: PairAt(s, 4 + 16 * i, ps[i])
  }

  lemma {:induction false} PairsIs(s: seq<Byte>, ps: seq<(nat, nat)>)
    requires |s| % 4 == 0 && 4 <= |s| && (|s| - 4) % 8 == 0 && Unsigned(s, 0, 4) == Ok(|ps|)
    requires PairsAt(s, ps)
    ensures Obj(s, |s|, Pairs(ps))
  {
    hide Unsigned, PairAt;
  }

  /** Offsets |offs| - 1 down to k pushed. */
  function PushRefs(st: St, offs: seq<nat>, k: nat): (r: St)
    requires k <= |offs| && (forall i | 0 <= i < |offs| :: offs[i] <= |st.d|) && Mod(|st.d|, 4) == 0
    ensures |r.d| == |st.d| + 4 * (|offs| - k) && Extends(r.d, st.d) && r.m >= st.m
    ensures ScalarSize(st.m) ==> ScalarSize(r.m)
    decreases |offs| - k
  {
    if k == |offs| then st
    else
      var q := PushRefs(st, offs, k + 1);
      var r := PushRef(q, offs[k]);
      ExtendsTrans(r.d, q.d, st.d);
      r
  }

  /** The references pushed so far lead to their nodes. */
  lemma {:induction false} PushRefsOk(st: St, offs: seq<nat>, ns: seq<Node>, k: nat, i: nat)
    requires |offs| == |ns| && k <= i < |offs| && Mod(|st.d|, 4) == 0
    requires forall j | 0 <= j < |offs| :: offs[j] <= |st.d| && Obj(st.d, offs[j], ns[j])
    requires |PushRefs(st, offs, k).d| <= MAX_ALLOC
    ensures RefAt(PushRefs(st, offs, k).d, |st.d| + 4 * (|offs| - i), ns[i])
    decreases |offs| - k
  {
    hide Obj, RefAt, PushRef;
    var q, r := PushRefs(st, offs, k + 1), PushRefs(st, offs, k);
    if i == k {
      ObjKept(q.d, st.d, offs[k], ns[k]);
      PushedRef(q, offs[k], ns[k]);
    } else {
      PushRefsOk(st, offs, ns, k + 1, i);
      RefKept(r.d, q.d, |st.d| + 4 * (|offs| - i), ns[i]);
    }
  }

  function VecOfRefs(st: St, offs: seq<nat>): (r: St)
    requires forall i | 0 <= i < |offs| :: offs[i] <= |st.d|
    ensures Extends(r.d, st.d) && r.m >= st.m && r.m >= 4 && (ScalarSize(st.m) ==> ScalarSize(r.m))
  {
    var q := Prep(st, 4, 4 * |offs|);
    var e := PushRefs(q, offs, 0);
    ExtendsTrans(e.d, q.d, st.d);
    ExtendsBy(ToLE(|offs|, 4), e.d);
    ExtendsTrans(ToLE(|offs|, 4) + e.d, e.d, st.d);
    St(ToLE(|offs|, 4) + e.d, e.m)
  }

  lemma {:induction false} VecOfRefsOk(st: St, offs: seq<nat>, ns: seq<Node>)
    requires |offs| == |ns| && forall j | 0 <= j < |offs| :: offs[j] <= |st.d| && Obj(st.d, offs[j], ns[j])
    requires |VecOfRefs(st, offs).d| <= MAX_ALLOC
    ensures var r := VecOfRefs(st, offs); Obj(r.d, |r.d|, Refs(ns))
  {
    hide Obj, RefAt, Unsigned, PushRefs, Extends, ToLE, Pow2;
    var q := Prep(st, 4, 4 * |offs|);
    var e, r := PushRefs(q, offs, 0), VecOfRefs(st, offs);
    Below32(|ns|);
    UnsignedFront(|ns|, 4, e.d);
    ExtendsBy(ToLE(|offs|, 4), e.d);
    forall j | 0 <= j < |offs| ensures Obj(q.d, offs[j], ns[j]) { ObjKept(q.d, st.d, offs[j], ns[j]); }
    forall i | 0 <= i < |ns| ensures RefAt(r.d, |r.d| - 4 - 4 * i, ns[i]) {
      PushRefsOk(q, offs, ns, 0, i);
      RefKept(r.d, e.d, |q.d| + 4 * (|offs| - i), ns[i]);
    }
    RefsIs(r.d, ns);
  }

  lemma {:induction false} RefsIs(s: seq<Byte>, ns: seq<Node>)
    requires |s| % 4 == 0 && 4 + 4 * |ns| <= |s| && Unsigned(s, 0, 4) == Ok(|ns|)
    requires forall i | 0 <= i < |ns| :: RefAt(s, |s| - 4 - 4 * i, ns[i])
    ensures Obj(s, |s|, Refs(ns))
  {
    hide Unsigned, RefAt;
  }

  // ----- tables

  /** What is written for a slot: nothing, or a value found `o` bytes from the end. */
  ghost predicate Held(s: seq<Byte>, o: nat, slot: Slot) {
    match slot
    case Empty => o == 0
    case Scalar(k, v, def) => if v == def then o == 0 else 0 < o <= |s| && Unsigned(s, |s| - o, k) == Ok(v) && Mod(o, k) == 0
    case Ref(n) => RefAt(s, o, n)
  }

  lemma {:induction false} HeldKept(s: seq<Byte>, t: seq<Byte>, o: nat, slot: Slot)
    requires Extends(s, t) && Held(t, o, slot)
    ensures Held(s, o, slot)
  {
    hide RefAt, Unsigned;
    match slot
    case Empty =>
    case Scalar(k, v, def) =>
      if v != def {
        var pre := s[..|s| - |t|];
        assert s == pre + t;
        assert |s| - o == |pre| + (|t| - o);
        UnsignedShift(pre, t, |t| - o, k);
      }
    case Ref(n) => RefKept(s, t, o, n);
  }

  /** pgc_fb_add_*: write the slot unless it holds its default or a zero offset. */
  function AddSlot(st: St, slot: Slot, off: nat): (r: (St, nat))
    requires off <= |st.d|
    ensures Extends(r.0.d, st.d) && r.0.m >= st.m && |r.0.d| < |st.d| + 16 && r.1 <= |r.0.d|
    ensures (r.1 == 0 || r.1 > |st.d|) && (ScalarSize(st.m) ==> ScalarSize(r.0.m))
  {
    if slot.Scalar? && slot.value != slot.default && ScalarSize(slot.size) then
      var q := Push(st, slot.size, slot.value);
      (q, |q.d|)
    else if slot.Ref? && off != 0 then
      var q := PushRef(st, off);
      (q, |q.d|)
    else (st, 0)
  }

  lemma {:induction false} AddSlotOk(st: St, slot: Slot, off: nat)
    requires FitsSlot(slot) && off <= |st.d| && (slot.Ref? ==> off > 0 && Obj(st.d, off, slot.node))
    requires |AddSlot(st, slot, off).0.d| <= MAX_ALLOC
    ensures var (q, o) := AddSlot(st, slot, off); Held(q.d, o, slot)
  {
    hide Obj, RefAt, Unsigned, Push, PushRef;
    match slot
    case Empty =>
    case Scalar(k, v, def) => if v != def { PushedScalar(st, k, v); assert Push(st, k, v).d == AddSlot(st, slot, off).0.d; }
    case Ref(n) => PushedRef(st, off, n);
  }

  /** The first k slots added; the second part is vslot. */
  function AddSlots(st: St, ss: seq<Slot>, offs: seq<nat>, k: nat): (r: (St, seq<nat>))
    requires |ss| == |offs| && k <= |ss| && forall i | 0 <= i < |offs| :: offs[i] <= |st.d|
    ensures |st.d| <= |r.0.d| && |r.1| == k
  {
    if k == 0 then (st, [])
    else
      var a := AddSlots(st, ss, offs, k - 1);
      var b := AddSlot(a.0, ss[k - 1], offs[k - 1]);
      (b.0, a.1 + [b.1])
  }

  lemma {:induction false} AddSlotsShape(st: St, ss: seq<Slot>, offs: seq<nat>, k: nat)
    requires |ss| == |offs| && k <= |ss| && forall i | 0 <= i < |offs| :: offs[i] <= |st.d|
    ensures var r := AddSlots(st, ss, offs, k);
      && Extends(r.0.d, st.d) && r.0.m >= st.m && (ScalarSize(st.m) ==> ScalarSize(r.0.m))
      && |r.0.d| <= |st.d| + 16 * k
      && forall i | 0 <= i < k :: r.1[i] == 0 || |st.d| < r.1[i] <= |r.0.d|
  {
    hide AddSlot, ScalarSize, Extends;
    if k == 0 {
      ExtendsSelf(st.d);
    } else {
      AddSlotsShape(st, ss, offs, k - 1);
      var a := AddSlots(st, ss, offs, k - 1).0;
      var b := AddSlot(a, ss[k - 1], offs[k - 1]).0;
      ExtendsShort(b.d, a.d);
      ExtendsTrans(b.d, a.d, st.d);
    }
  }

  lemma {:induction false} AddSlotsOk(st: St, ss: seq<Slot>, offs: seq<nat>, k: nat, i: nat)
    requires |ss| == |offs| && i < k <= |ss| && forall j | 0 <= j < |offs| :: offs[j] <= |st.d|
    requires forall j | 0 <= j < |ss| :: FitsSlot(ss[j]) && (ss[j].Ref? ==> offs[j] > 0 && Obj(st.d, offs[j], ss[j].node))
    requires |AddSlots(st, ss, offs, k).0.d| <= MAX_ALLOC
    ensures var (q, vs) := AddSlots(st, ss, offs, k); Held(q.d, vs[i], ss[i])
  {
    hide Obj, Held, AddSlot, FitsSlot;
    AddSlotsShape(st, ss, offs, k - 1);
    var (q, vs) := AddSlots(st, ss, offs, k - 1);
    var (r, o) := AddSlot(q, ss[k - 1], offs[k - 1]);
    if i == k - 1 {
      if ss[i].Ref? { ObjKept(q.d, st.d, offs[i], ss[i].node); }
      AddSlotOk(q, ss[i], offs[i]);
    } else {
      AddSlotsOk(st, ss, offs, k - 1, i);
      HeldKept(r.d, q.d, vs[i], ss[i]);
    }
  }

  function Voff(obj: nat, v: nat): (r: nat)
    requires v <= obj
  {
    if v == 0 then 0 else obj - v
  }

  /** The voffsets from slot i on. */
  function Voffs(obj: nat, vs: seq<nat>, i: nat): (s: seq<Byte>)
    requires i <= |vs| && forall j | 0 <= j < |vs| :: vs[j] <= obj
    ensures |s| == 2 * (|vs| - i)
    decreases |vs| - i
  {
    if i == |vs| then [] else ToLE(Voff(obj, vs[i]), 2) + Voffs(obj, vs, i + 1)
  }

  function Vtable(obj: nat, objectEnd: nat, vs: seq<nat>): (s: seq<Byte>)
    requires (forall j | 0 <= j < |vs| :: vs[j] <= obj) && objectEnd <= obj
    ensures |s| == 4 + 2 * |vs|
  {
    ToLE(4 + 2 * |vs|, 2) + (ToLE(obj - objectEnd, 2) + Voffs(obj, vs, 0))
  }

  /** pgc_fb_end: the signed offset to the vtable, then the vtable in front of it. */
  function EndTable(st: St, objectEnd: nat, vs: seq<nat>): (r: (St, nat))
    requires (forall j | 0 <= j < |vs| :: vs[j] <= |st.d|) && objectEnd <= |st.d|
    ensures Extends(r.0.d, st.d) && r.0.m >= st.m && r.0.m >= 4 && |st.d| + 4 <= r.1 < |st.d| + 8 && r.1 % 4 == 0
    ensures |r.0.d| == 4 + 2 * |vs| + r.1 && (ScalarSize(st.m) ==> ScalarSize(r.0.m))
  {
    var q := Prep(st, 4, 0);
    var obj := |q.d| + 4;
    var vt := Vtable(obj, objectEnd, vs);
    ExtendsBoth(vt, ToLE(|vt|, 4), q.d, st.d);
    (St(vt + (ToLE(|vt|, 4) + q.d), q.m), obj)
  }

  /** A whole table whose children are at the given offsets. */
  function TableOf(st: St, ss: seq<Slot>, offs: seq<nat>): (r: (St, nat))
    requires |ss| == |offs| && forall i | 0 <= i < |offs| :: offs[i] <= |st.d|
    ensures Extends(r.0.d, st.d) && r.0.m >= st.m && r.0.m >= 4 && r.1 <= |r.0.d| && (ScalarSize(st.m) ==> ScalarSize(r.0.m))
  {
    AddSlotsShape(st, ss, offs, |ss|);
    var (a, vs) := AddSlots(st, ss, offs, |ss|);
    var (e, obj) := EndTable(a, |st.d|, vs);
    ExtendsTrans(e.d, a.d, st.d);
    (e, obj)
  }

  lemma {:induction false} VoffRead(s: seq<Byte>, at: nat, obj: nat, vs: seq<nat>, i: nat, j: nat, post: seq<Byte>)
    requires i <= j < |vs| && (forall k | 0 <= k < |vs| :: vs[k] <= obj) && at <= |s|
    requires s[at..] == Voffs(obj, vs, i) + post && Voff(obj, vs[j]) < Pow2(8 * 2)
    ensures Unsigned(s, at + 2 * (j - i), 2) == Ok(Voff(obj, vs[j]))
    decreases j - i
  {
    hide Unsigned, ToLE, Voff, Pow2;
    var pre, e, rest := s[..at], ToLE(Voff(obj, vs[i]), 2), Voffs(obj, vs, i + 1);
    assert Voffs(obj, vs, i) + post == e + (rest + post);
    assert s == pre + (e + (rest + post));
    if i == j {
      UnsignedBack(pre, Voff(obj, vs[i]), 2, rest + post);
    } else {
      assert s[at + 2..] == rest + post by { assert s[at..][2..] == s[at + 2..]; }
      VoffRead(s, at + 2, obj, vs, i + 1, j, post);
    }
  }

  lemma {:induction false} Below16(v: nat)
    requires v < 0x1_0000
    ensures v < Pow2(8 * 2)
  {
    Pow2Of8();
    Pow2Add(8, 8);
  }

  /** Through the vtable the reader finds what vslot recorded. */
  lemma {:induction false} FieldFound(st: St, objectEnd: nat, vs: seq<nat>, i: nat)
    requires |vs| <= 16 && objectEnd <= |st.d| <= objectEnd + 256
    requires forall j | 0 <= j < |vs| :: vs[j] == 0 || objectEnd < vs[j] <= |st.d|
    ensures var (q, obj) := EndTable(st, objectEnd, vs);
      FieldPos(q.d, |q.d| - obj, i) == Ok(if i >= |vs| || vs[i] == 0 then 0 else |q.d| - vs[i])
  {
    hide Unsigned, ToLE, Vtable, Extends, FieldPos, Voff;
    var p := Prep(st, 4, 0);
    var (q, obj) := EndTable(st, objectEnd, vs);
    var size := 4 + 2 * |vs|;
    SizesRead(p.d, obj, objectEnd, vs);
    if i < |vs| {
      VoffSmall(obj, objectEnd, vs[i]);
      VoffFound(p.d, obj, objectEnd, vs, i);
      VtableFinds(q.d, size, i, Voff(obj, vs[i]));
    } else {
      VtableFinds(q.d, size, i, 0);
    }
  }

  lemma {:induction false} VoffSmall(obj: nat, objectEnd: nat, v: nat)
    requires v == 0 || objectEnd < v < obj <= objectEnd + 264
    ensures v <= obj && Voff(obj, v) < Pow2(8 * 2) && (Voff(obj, v) == 0 <==> v == 0)
    ensures v > 0 ==> Voff(obj, v) == obj - v
  {
    Below16(Voff(obj, v));
  }

  lemma {:induction false} SizesRead(d: seq<Byte>, obj: nat, objectEnd: nat, vs: seq<nat>)
    requires (forall j | 0 <= j < |vs| :: vs[j] <= obj) && objectEnd <= obj && |vs| <= 16
    ensures var vt := Vtable(obj, objectEnd, vs); var s := vt + (ToLE(|vt|, 4) + d);
      Unsigned(s, |vt|, 4) == Ok(|vt|) && Unsigned(s, 0, 2) == Ok(|vt|)
  {
    hide Unsigned, ToLE, Voffs, Pow2;
    var vt, size := Vtable(obj, objectEnd, vs), 4 + 2 * |vs|;
    var rest, post := ToLE(obj - objectEnd, 2) + Voffs(obj, vs, 0), ToLE(size, 4) + d;
    Below32(size);
    Below16(size);
    UnsignedBack(vt, size, 4, d);
    assert vt + post == ToLE(size, 2) + (rest + post);
    UnsignedFront(size, 2, rest + post);
  }

  lemma {:induction false} VoffFound(d: seq<Byte>, obj: nat, objectEnd: nat, vs: seq<nat>, i: nat)
    requires (forall j | 0 <= j < |vs| :: vs[j] <= obj) && objectEnd <= obj && i < |vs|
    requires Voff(obj, vs[i]) < Pow2(8 * 2)
    ensures var vt := Vtable(obj, objectEnd, vs);
      Unsigned(vt + (ToLE(|vt|, 4) + d), 4 + 2 * i, 2) == Ok(Voff(obj, vs[i]))
  {
    hide Unsigned, ToLE, Voffs, Voff;
    var vt := Vtable(obj, objectEnd, vs);
    var post := ToLE(|vt|, 4) + d;
    assert (vt + post)[4..] == Voffs(obj, vs, 0) + post;
    VoffRead(vt + post, 4, obj, vs, 0, i, post);
  }

  lemma {:induction false} VtableFinds(s: seq<Byte>, size: nat, i: nat, voff: nat)
    requires size <= 36 && size + 4 <= |s|
    requires Unsigned(s, size, 4) == Ok(size) && Unsigned(s, 0, 2) == Ok(size)
    requires 4 + 2 * i < size ==> Unsigned(s, 4 + 2 * i, 2) == Ok(voff)
    ensures FieldPos(s, size, i) == Ok(if 4 + 2 * i >= size || voff == 0 then 0 else size + voff)
  {
    hide Unsigned;
  }

  lemma {:induction false} TableOk(st: St, objectEnd: nat, ss: seq<Slot>, vs: seq<nat>)
    requires |ss| == |vs| <= 16 && objectEnd <= |st.d| <= objectEnd + 256 && |st.d| <= MAX_ALLOC
    requires forall j | 0 <= j < |vs| :: (vs[j] == 0 || objectEnd < vs[j] <= |st.d|) && Held(st.d, vs[j], ss[j])
    ensures var (q, obj) := EndTable(st, objectEnd, vs); Obj(q.d, obj, Table(ss))
  {
    hide Held, EndTable, Obj, SlotAt, FieldPos, Extends;
    var (q, obj) := EndTable(st, objectEnd, vs);
    var tab := |q.d| - obj;
    forall i: nat ensures FieldPos(q.d, tab, i) == Ok(if i >= |vs| || vs[i] == 0 then 0 else |q.d| - vs[i]) {
      FieldFound(st, objectEnd, vs, i);
    }
    forall i | 0 <= i < |ss| ensures SlotAt(q.d, tab, i, ss[i]) {
      HeldKept(q.d, st.d, vs[i], ss[i]);
      HeldIsSlot(q.d, tab, i, ss[i], vs[i]);
    }
    TableIs(q.d, obj, tab, ss);
  }

  lemma {:induction false} HeldIsSlot(s: seq<Byte>, tab: nat, i: nat, slot: Slot, o: nat)
    requires Held(s, o, slot) && tab <= |s| && o < |s|
    requires FieldPos(s, tab, i) == Ok(if o == 0 then 0 else |s| - o)
    ensures SlotAt(s, tab, i, slot)
  {
    hide FieldPos, Unsigned;
  }

  lemma {:induction false} TableIs(s: seq<Byte>, off: nat, tab: nat, ss: seq<Slot>)
    requires 4 <= off && tab + off == |s| && off % 4 == 0
    requires forall i | 0 <= i < |ss| :: SlotAt(s, tab, i, ss[i])
    requires forall i: nat | i >= |ss| :: FieldPos(s, tab, i) == Ok(0)
    ensures Obj(s, off, Table(ss))
  {
    hide FieldPos, SlotAt;
  }
}
