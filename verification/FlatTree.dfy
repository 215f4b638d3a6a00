module FlatTree {
  /** Whole trees, children before parents, and the finished buffer. */

  import opened Prelude
  import opened Bits
  import opened BitPack
  import opened FlatReader
  import opened FlatModel
  import opened FlatBuild

  function Kids(n: Node): nat {
    match n
    case Refs(ns) => |ns|
    case Table(ss) => |ss|
    case _ => 0
  }

  /** Child i of a node that has children; only Ref slots of a table hold one. */
  predicate HasKid(n: Node, i: nat) {
    match n
    case Refs(ns) => i < |ns|
    case Table(ss) => i < |ss| && ss[i].Ref?
    case _ => false
  }

  function Kid(n: Node, i: nat): (k: Node)
    requires HasKid(n, i)
    ensures k < n
  {
    match n
    case Refs(ns) => ns[i]
    case Table(ss) => ss[i].node
  }

  /** In which order a caller builds the children of a node; it may depend on the node and on how
      much has been written, so on every occurrence of the node. */
  type Order = (Node, nat) -> seq<nat>

  predicate Permutes(p: seq<nat>, k: nat) {
    |p| == k && (forall j | 0 <= j < |p| :: p[j] < k) && forall i | 0 <= i < k :: i in p
  }

  /** The caller's order, or slot order where it gives none. */
  function OrderOf(ord: Order, n: Node, written: nat): (p: seq<nat>)
    ensures Permutes(p, Kids(n))
  {
    var p := ord(n, written);
    if Permutes(p, Kids(n)) then p
    else
      var q := seq(Kids(n), i requires 0 <= i < Kids(n) => i);
      assert forall i | 0 <= i < Kids(n) :: i in q by {
        forall i | 0 <= i < Kids(n) ensures i in q { assert q[i] == i; }
      }
      q
  }

  /** Build the first k children in the order p; a slot without one keeps offset 0. */
  function BuildKids(ord: Order, st: St, n: Node, p: seq<nat>, k: nat): (r: (St, seq<nat>))
    requires k <= |p| && forall j | 0 <= j < |p| :: p[j] < Kids(n)
    ensures Extends(r.0.d, st.d) && r.0.m >= st.m && |r.1| == Kids(n) && (ScalarSize(st.m) ==> ScalarSize(r.0.m))
    ensures forall i | 0 <= i < Kids(n) :: r.1[i] <= |r.0.d|
    decreases n, k
  {
    if k == 0 then (st, seq(Kids(n), _ => 0))
    else
      var (q, offs) := BuildKids(ord, st, n, p, k - 1);
      if HasKid(n, p[k - 1]) then
        var (r, off) := Build(ord, q, Kid(n, p[k - 1]));
        ExtendsTrans(r.d, q.d, st.d);
        (r, offs[p[k - 1] := off])
      else (q, offs)
  }

  /** All children. */
  function AllKids(ord: Order, st: St, n: Node): (r: (St, seq<nat>))
    ensures Extends(r.0.d, st.d) && r.0.m >= st.m && |r.1| == Kids(n) && (ScalarSize(st.m) ==> ScalarSize(r.0.m))
    ensures forall i | 0 <= i < Kids(n) :: r.1[i] <= |r.0.d|
    decreases n, Kids(n) + 1
  {
    BuildKids(ord, st, n, OrderOf(ord, n, |st.d|), Kids(n))
  }

  /** Build a node; the offset is its distance from the end. */
  function Build(ord: Order, st: St, n: Node): (r: (St, nat))
    ensures Extends(r.0.d, st.d) && r.0.m >= st.m && r.0.m >= 4 && r.1 <= |r.0.d|
    ensures ScalarSize(st.m) ==> ScalarSize(r.0.m)
    decreases n, Kids(n) + 2
  {
    match n
    case Str(t) =>
      TextExtends(st, t);
      var q := Text(st, t);
      (q, |q.d|)
    case Pairs(ps) =>
      PairsExtends(st, ps);
      var q := VecOfPairs(st, ps);
      (q, |q.d|)
    case Refs(ns) =>
      var (q, offs) := AllKids(ord, st, n);
      var r := VecOfRefs(q, offs);
      ExtendsTrans(r.d, q.d, st.d);
      (r, |r.d|)
    case Table(ss) =>
      var (q, offs) := AllKids(ord, st, n);
      var (e, obj) := TableOf(q, ss, offs);
      ExtendsTrans(e.d, q.d, st.d);
      (e, obj)
  }

  lemma {:induction false} TextExtends(st: St, t: seq<Byte>)
    ensures var r := Text(st, t); Extends(r.d, st.d) && r.m >= st.m && r.m >= 4 && (ScalarSize(st.m) ==> ScalarSize(r.m))
  {
    hide ToLE;
    var q := Prep(st, 4, |t| + 1);
    var head := ToLE(|t|, 4) + t + [0];
    assert Text(st, t).d == head + q.d;
    ExtendsBy(head, q.d);
    ExtendsTrans(head + q.d, q.d, st.d);
  }

  lemma {:induction false} PairsExtends(st: St, ps: seq<(nat, nat)>)
    ensures var r := VecOfPairs(st, ps); Extends(r.d, st.d) && r.m >= st.m && r.m >= 8 && (ScalarSize(st.m) ==> ScalarSize(r.m))
  {
    hide ToLE, PairBytes;
    var q1 := Prep(st, 4, 16 * |ps|);
    var q := Prep(q1, 8, 16 * |ps|);
    var head := ToLE(|ps|, 4) + PairBytes(ps, 0);
    assert VecOfPairs(st, ps).d == head + q.d;
    ExtendsBy(head, q.d);
    ExtendsTrans(head + q.d, q.d, q1.d);
    ExtendsTrans(head + q.d, q1.d, st.d);
  }

  // ----- every built tree reads back

  ghost predicate KidBuilt(s: seq<Byte>, n: Node, offs: seq<nat>, i: nat) {
    i < |offs| && (HasKid(n, i) ==> 4 <= offs[i] && Obj(s, offs[i], Kid(n, i)))
  }

  /** The children p[0], ..., p[k - 1] are where the offsets say. */
  ghost predicate KidsBuilt(s: seq<Byte>, n: Node, p: seq<nat>, k: nat, offs: seq<nat>)
    requires k <= |p|
  {
    forall j | 0 <= j < k :: KidBuilt(s, n, offs, p[j])
  }

  lemma {:induction false} KidsKept(s: seq<Byte>, t: seq<Byte>, n: Node, p: seq<nat>, k: nat, offs: seq<nat>)
    requires Extends(s, t) && k <= |p| && KidsBuilt(t, n, p, k, offs)
    ensures KidsBuilt(s, n, p, k, offs)
  {
    hide Obj, Extends;
    forall j | 0 <= j < k ensures KidBuilt(s, n, offs, p[j]) {
      assert KidBuilt(t, n, offs, p[j]);
      if HasKid(n, p[j]) { ObjKept(s, t, offs[p[j]], Kid(n, p[j])); }
    }
  }

  lemma {:induction false} KidFits(n: Node, i: nat)
    requires Fits(n) && HasKid(n, i)
    ensures Fits(Kid(n, i))
  {
    match n
    case Refs(ns) =>
    case Table(ss) => assert FitsSlot(ss[i]);
  }

  lemma {:induction false} BuildKidsOk(ord: Order, st: St, n: Node, p: seq<nat>, k: nat)
    requires Fits(n) && k <= |p| && (forall j | 0 <= j < |p| :: p[j] < Kids(n)) && |BuildKids(ord, st, n, p, k).0.d| <= MAX_ALLOC
    ensures var (q, offs) := BuildKids(ord, st, n, p, k); KidsBuilt(q.d, n, p, k, offs)
    decreases n, k
  {
    hide Fits, Obj, Build, Extends;
    if k > 0 {
      var (q, offs) := BuildKids(ord, st, n, p, k - 1);
      if HasKid(n, p[k - 1]) {
        var (r, off) := Build(ord, q, Kid(n, p[k - 1]));
        ExtendsShort(r.d, q.d);
        BuildKidsOk(ord, st, n, p, k - 1);
        KidFits(n, p[k - 1]);
        BuildOk(ord, q, Kid(n, p[k - 1]));
        KidsKept(r.d, q.d, n, p, k - 1, offs);
        forall j | 0 <= j < k ensures KidBuilt(r.d, n, offs[p[k - 1] := off], p[j]) {
          assert j < k - 1 ==> KidBuilt(r.d, n, offs, p[j]);
        }
      } else {
        BuildKidsOk(ord, st, n, p, k - 1);
      }
    }
  }

  /** Whatever the order, every child is built. */
  lemma {:induction false} AllKidsOk(ord: Order, st: St, n: Node)
    requires Fits(n) && |AllKids(ord, st, n).0.d| <= MAX_ALLOC
    ensures var (q, offs) := AllKids(ord, st, n); forall i | 0 <= i < Kids(n) :: KidBuilt(q.d, n, offs, i)
    decreases n, Kids(n) + 1
  {
    hide Fits, Obj, BuildKids, KidBuilt;
    var p := OrderOf(ord, n, |st.d|);
    BuildKidsOk(ord, st, n, p, Kids(n));
    var (q, offs) := AllKids(ord, st, n);
    forall i | 0 <= i < Kids(n) ensures KidBuilt(q.d, n, offs, i) {
      assert i in p;
      var j :| 0 <= j < |p| && p[j] == i;
    }
  }

  /** Every tree of tables, vectors and strings is found by the reader where the builder says it is:
      no read raises, every slot holds its value or is absent exactly when it held its default or no
      object, every offset leads to its object, every scalar is aligned; in whatever order the children
      of each node were built. */
  lemma {:induction false} BuildOk(ord: Order, st: St, n: Node)
    requires Fits(n) && |Build(ord, st, n).0.d| <= MAX_ALLOC
    ensures var (q, off) := Build(ord, st, n); 4 <= off && Obj(q.d, off, n)
    decreases n, Kids(n) + 3
  {
    match n
    case Str(t) => TextOk(st, t);
    case Pairs(ps) => VecOfPairsOk(st, ps);
    case Refs(ns) => BuildRefsOk(ord, st, n);
    case Table(ss) => BuildTableOk(ord, st, n);
  }

  lemma {:induction false} BuildRefsOk(ord: Order, st: St, n: Node)
    requires n.Refs? && Fits(n) && |Build(ord, st, n).0.d| <= MAX_ALLOC
    ensures var (q, off) := Build(ord, st, n); 4 <= off && Obj(q.d, off, n)
    decreases n, Kids(n) + 2
  {
    hide Obj, Fits, VecOfRefs, AllKids;
    var (q, offs) := AllKids(ord, st, n);
    AllKidsOk(ord, st, n);
    forall j | 0 <= j < |offs| ensures Obj(q.d, offs[j], n.nodes[j]) { assert HasKid(n, j) && KidBuilt(q.d, n, offs, j); }
    VecOfRefsOk(q, offs, n.nodes);
    ObjLow(VecOfRefs(q, offs).d, |VecOfRefs(q, offs).d|, n);
  }

  lemma {:induction false} ObjLow(s: seq<Byte>, off: nat, n: Node)
    requires Obj(s, off, n)
    ensures 4 <= off <= |s|
  {
  }

  lemma {:induction false} BuildTableOk(ord: Order, st: St, n: Node)
    requires n.Table? && Fits(n) && |Build(ord, st, n).0.d| <= MAX_ALLOC
    ensures var (q, off) := Build(ord, st, n); 4 <= off && Obj(q.d, off, n)
    decreases n, Kids(n) + 2
  {
    hide Obj, AddSlots, EndTable, AllKids, Held, FitsSlot;
    var ss := n.slots;
    var (q, offs) := AllKids(ord, st, n);
    AddSlotsShape(q, ss, offs, |ss|);
    var (a, vs) := AddSlots(q, ss, offs, |ss|);
    var (e, obj) := EndTable(a, |q.d|, vs);
    AllKidsOk(ord, st, n);
    forall j | 0 <= j < |ss| && ss[j].Ref? ensures offs[j] > 0 && Obj(q.d, offs[j], ss[j].node) { assert HasKid(n, j) && KidBuilt(q.d, n, offs, j); }
    forall i | 0 <= i < |ss| ensures Held(a.d, vs[i], ss[i]) { AddSlotsOk(q, ss, offs, |ss|, i); }
    TableOk(a, |q.d|, ss, vs);
  }

  // ----- the finished buffer

  /** Largest scalar the tree holds; 4 covers lengths and offsets. */
  function Align(n: Node): (a: nat)
    ensures a == 4 || a == 8
    decreases n, Kids(n) + 1
  {
    match n
    case Str(_) => 4
    case Pairs(_) => 8
    case _ => AlignKids(n, Kids(n))
  }

  function AlignKids(n: Node, k: nat): (a: nat)
    requires k <= Kids(n)
    ensures a == 4 || a == 8
    decreases n, k
  {
    if k == 0 then 4
    else if HasKid(n, k - 1) && Align(Kid(n, k - 1)) == 8 then 8
    else if n.Table? && WideSlot(n.slots[k - 1]) then 8
    else AlignKids(n, k - 1)
  }

  predicate WideSlot(s: Slot) { s.Scalar? && s.value != s.default && s.size == 8 }

  /** pgc_fb_finish: align the end to everything asked for, then the root offset. */
  function Finish(st: St, root: nat): St
    requires ScalarSize(st.m) && root <= |st.d|
  {
    PushRef(Prep(st, st.m, 4), root)
  }

  /** The buffer is as long as a multiple of the largest alignment, so a position is a multiple of
      a scalar's size exactly when its distance from the end is. */
  lemma {:induction false} FinishAligned(st: St, root: nat)
    requires st.m == 4 || st.m == 8
    requires root <= |st.d|
    ensures |Finish(st, root).d| % st.m == 0
  {
    var q := Prep(st, st.m, 4);
    assert PadFor(|q.d|, 4) == 0;
    assert |Prep(q, 4, 0).d| == |q.d|;
  }

  lemma {:induction false} PositionAligned(len: nat, off: nat, k: nat, m: nat)
    requires ScalarSize(k) && k <= m && (m == 4 || m == 8) && off <= len && len % m == 0 && Mod(off, k) == 0
    ensures Mod(len - off, k) == 0
  {
  }

  lemma {:induction false} KidsAlign(ord: Order, st: St, n: Node, p: seq<nat>, k: nat, i: nat)
    requires i < k <= |p| && (forall j | 0 <= j < |p| :: p[j] < Kids(n)) && HasKid(n, p[i])
    ensures BuildKids(ord, st, n, p, k).0.m >= Align(Kid(n, p[i]))
    decreases n, k
  {
    hide Build, Extends;
    if i == k - 1 { BuildAlign(ord, BuildKids(ord, st, n, p, k - 1).0, Kid(n, p[i])); } else { KidsAlign(ord, st, n, p, k - 1, i); }
  }

  lemma {:induction false} SlotsAlign(st: St, ss: seq<Slot>, offs: seq<nat>, k: nat, i: nat)
    requires |ss| == |offs| && i < k <= |ss| && WideSlot(ss[i]) && forall j | 0 <= j < |offs| :: offs[j] <= |st.d|
    ensures AddSlots(st, ss, offs, k).0.m >= 8
  {
    hide Push, Extends;
    if i < k - 1 { SlotsAlign(st, ss, offs, k - 1, i); }
  }

  ghost predicate WideAt(n: Node, i: nat) {
    (HasKid(n, i) && Align(Kid(n, i)) == 8) || (n.Table? && i < |n.slots| && WideSlot(n.slots[i]))
  }

  lemma {:induction false} AlignWitness(n: Node, k: nat) returns (i: nat)
    requires k <= Kids(n) && AlignKids(n, k) == 8
    ensures i < k && WideAt(n, i)
    decreases k
  {
    if WideAt(n, k - 1) { i := k - 1; } else { i := AlignWitness(n, k - 1); }
  }

  /** The builder's minalign covers every scalar of the tree. */
  lemma {:induction false} BuildAlign(ord: Order, st: St, n: Node)
    ensures Build(ord, st, n).0.m >= Align(n)
    decreases n, Kids(n) + 2
  {
    hide Extends, Push, Text, VecOfPairs, EndTable;
    if Align(n) == 8 && !n.Pairs? {
      var i := AlignWitness(n, Kids(n));
      if HasKid(n, i) {
        var p := OrderOf(ord, n, |st.d|);
        assert i in p;
        var j: nat :| j < |p| && p[j] == i;
        KidsAlign(ord, st, n, p, Kids(n), j);
      } else {
        var (q, offs) := AllKids(ord, st, n);
        AddSlotsShape(q, n.slots, offs, |n.slots|);
        SlotsAlign(q, n.slots, offs, |n.slots|, i);
      }
    }
    if n.Pairs? { PairsExtends(st, n.pairs); }
  }

  /** The finished buffer of a tree: the first four bytes lead to the root, the tree reads back, and
      the length is a multiple of every scalar size in it. */
  lemma {:induction false} FinishedReads(ord: Order, n: Node)
    requires Fits(n)
    requires var (q, off) := Build(ord, St([], 1), n); |Finish(q, off).d| <= MAX_ALLOC
    ensures var (q, off) := Build(ord, St([], 1), n); var s := Finish(q, off).d;
      Indirect(s, 0) == Ok(|s| - off) && Obj(s, off, n) && |s| % Align(n) == 0
  {
    hide Obj, Build, Indirect, Fits, PushRef, Prep, Extends, Align;
    var (q, off) := Build(ord, St([], 1), n);
    var p, s := Prep(q, q.m, 4), Finish(q, off).d;
    ExtendsTrans(s, p.d, q.d);
    ExtendsShort(s, q.d);
    BuildOk(ord, St([], 1), n);
    ObjKept(s, q.d, off, n);
    ExtendsShort(p.d, q.d);
    RootFound(p, off);
    BuildAlign(ord, St([], 1), n);
    FinishAligned(q, off);
    if q.m == 8 { assert |s| % 8 == 0; }
  }

  lemma {:induction false} RootFound(p: St, off: nat)
    requires off <= |p.d| && |PushRef(p, off).d| <= MAX_ALLOC
    ensures var s := PushRef(p, off).d; Indirect(s, 0) == Ok(|s| - off)
  {
    hide Unsigned;
    var v := |Prep(p, 4, 0).d| + 4 - off;
    Below32(v);
    PushedScalar(p, 4, v);
  }
}
