module DeleteVector {
  /**
   src/columnar_delete_vector.c, the buffers: marks are buffered per subtransaction, written by
   a read of the relation, and promoted or discarded when a subtransaction resolves. One
   relation is modelled; a bitmap is the set of rows it marks, and the catalog under nested
   subtransactions is a stack of saved bitmaps.
   */

  type Rowset = set<nat>

  const INVALID: nat := 0

  datatype Buffer = Buffer(owner: nat, flushedUnder: nat, marks: Rowset)

  /** `path`: the open subtransactions, outermost first. `saved[i]`: the catalog when path[i]
      started. `next`: subtransaction ids are never reused. */
  datatype State = State(path: seq<nat>, saved: seq<Rowset>, catalog: Rowset, buffers: seq<Buffer>, next: nat)

  function Current(s: State): nat
    requires |s.path| > 0
  {
    s.path[|s.path| - 1]
  }

  // ----- one event on one buffer

  function FlushOne(b: Buffer, current: nat): Buffer {
    if b.flushedUnder != INVALID then b
    else if b.owner == current then b.(marks := {})
    else if b.marks != {} then b.(flushedUnder := current)
    else b
  }

  function PromoteOne(b: Buffer, sub: nat, parent: nat): Buffer {
    var c := if b.owner == sub then b.(owner := parent) else b;
    if c.flushedUnder != sub then c
    else if parent == c.owner then c.(marks := {}, flushedUnder := INVALID)
    else c.(flushedUnder := parent)
  }

  function DiscardOne(b: Buffer, sub: nat): Buffer {
    if b.flushedUnder == sub then b.(flushedUnder := INVALID) else b
  }

  // ----- one event on the whole state

  function Flushed(bs: seq<Buffer>, current: nat): (r: seq<Buffer>)
    ensures |r| == |bs| && forall i | 0 <= i < |bs| :: r[i] == FlushOne(bs[i], current)
  {
    seq(|bs|, i requires 0 <= i < |bs| => FlushOne(bs[i], current))
  }

  function Emptied(bs: seq<Buffer>, owner: nat): (r: seq<Buffer>)
    ensures |r| == |bs| && forall i | 0 <= i < |bs| :: r[i] == if bs[i].owner == owner then bs[i].(marks := {}) else bs[i]
  {
    seq(|bs|, i requires 0 <= i < |bs| => if bs[i].owner == owner then bs[i].(marks := {}) else bs[i])
  }

  function Promoted(bs: seq<Buffer>, sub: nat, parent: nat): (r: seq<Buffer>)
    ensures |r| == |bs| && forall i | 0 <= i < |bs| :: r[i] == PromoteOne(bs[i], sub, parent)
  {
    seq(|bs|, i requires 0 <= i < |bs| => PromoteOne(bs[i], sub, parent))
  }

  /** What a read writes: the marks of every buffer not already written by one. */
  function Unwritten(bs: seq<Buffer>, k: nat): Rowset
    requires k <= |bs|
  {
    if k == 0 then {} else
      Unwritten(bs, k - 1) + if bs[k - 1].flushedUnder != INVALID then {} else bs[k - 1].marks
  }

  function OwnedMarks(bs: seq<Buffer>, owner: nat, k: nat): Rowset
    requires k <= |bs|
  {
    if k == 0 then {} else OwnedMarks(bs, owner, k - 1) + if bs[k - 1].owner == owner then bs[k - 1].marks else {}
  }

  function Survivors(bs: seq<Buffer>, sub: nat, k: nat): seq<Buffer>
    requires k <= |bs|
  {
    if k == 0 then [] else
      Survivors(bs, sub, k - 1) + if bs[k - 1].owner == sub then [] else [DiscardOne(bs[k - 1], sub)]
  }

  /** Index of the buffer the current subtransaction owns, or |bs|. */
  function Find(bs: seq<Buffer>, owner: nat, k: nat): (i: nat)
    requires k <= |bs|
    ensures i <= |bs| && k <= i && (i < |bs| ==> bs[i].owner == owner)
    ensures forall j | k <= j < i :: bs[j].owner != owner
    decreases |bs| - k
  {
    if k == |bs| || bs[k].owner == owner then k else Find(bs, owner, k + 1)
  }

  datatype Event = Mark(row: nat) | Read | StatementEnd | Start | Commit | Abort

  predicate Enabled(s: State, e: Event) {
    |s.path| > 0 && |s.path| == |s.saved| && (e.Commit? || e.Abort? ==> |s.path| > 1)
  }

  function Step(s: State, e: Event): State
    requires Enabled(s, e)
  {
    var cur := Current(s);
    match e
    case Mark(row) =>
      var i := Find(s.buffers, cur, 0);
      if i < |s.buffers|
      then s.(buffers := s.buffers[i := s.buffers[i].(marks := s.buffers[i].marks + {row})])
      else s.(buffers := s.buffers + [Buffer(cur, INVALID, {row})])
    case Read =>
      s.(catalog := s.catalog + Unwritten(s.buffers, |s.buffers|),
         buffers := Flushed(s.buffers, cur))
    case StatementEnd =>
      s.(catalog := s.catalog + OwnedMarks(s.buffers, cur, |s.buffers|),
         buffers := Emptied(s.buffers, cur))
    case Start =>
      s.(path := s.path + [s.next], saved := s.saved + [s.catalog], next := s.next + 1)
    case Commit =>
      var parent := s.path[|s.path| - 2];
      s.(path := s.path[..|s.path| - 1], saved := s.saved[..|s.path| - 1],
         buffers := Promoted(s.buffers, cur, parent))
    case Abort =>
      s.(path := s.path[..|s.path| - 1], saved := s.saved[..|s.path| - 1],
         catalog := s.saved[|s.path| - 1],
         buffers := Survivors(s.buffers, cur, |s.buffers|))
  }

  // ----- the specification: which marks should count

  /** Per open level, the marks made there or in its committed children. */
  function Ledger(l: seq<Rowset>, e: Event): seq<Rowset>
    requires |l| > 0 && (e.Commit? || e.Abort? ==> |l| > 1)
  {
    var d := |l| - 1;
    match e
    case Mark(row) => l[d := l[d] + {row}]
    case Read => l
    case StatementEnd => l
    case Start => l + [{}]
    case Commit => l[..d][d - 1 := l[d - 1] + l[d]]
    case Abort => l[..d]
  }

  function UpTo(l: seq<Rowset>, k: nat): Rowset
    requires k <= |l|
  {
    if k == 0 then {} else UpTo(l, k - 1) + l[k - 1]
  }

  // ----- the invariant

  /** The catalog after aborting every level above i. */
  function CatalogAt(s: State, i: nat): Rowset
    requires i < |s.path| == |s.saved|
  {
    if i + 1 < |s.path| then s.saved[i + 1] else s.catalog
  }

  /** Depth of an open subtransaction, or |path|. */
  function Depth(path: seq<nat>, id: nat, k: nat): (d: nat)
    requires k <= |path|
    ensures k <= d <= |path| && (d < |path| ==> path[d] == id)
    ensures forall j | k <= j < d :: path[j] != id
    decreases |path| - k
  {
    if k == |path| || path[k] == id then k else Depth(path, id, k + 1)
  }

  function At(s: State, id: nat): nat { Depth(s.path, id, 0) }

  /** Buffer n, of a level 0..i, marks r. */
  predicate Holds(s: State, n: nat, i: nat, r: nat) {
    n < |s.buffers| && At(s, s.buffers[n].owner) <= i && r in s.buffers[n].marks
  }

  /** Some level 0..i has r buffered. */
  ghost predicate Buffered(s: State, i: nat, r: nat) {
    exists n: nat :: Holds(s, n, i, r)
  }

  /** Every owner is open, and a kept buffer's marks are in the catalog of every level from the
      one that wrote them inwards. */
  ghost predicate BufferOk(s: State, b: Buffer)
    requires |s.path| == |s.saved|
  {
    && At(s, b.owner) < |s.path|
    && (b.flushedUnder != INVALID ==>
         && At(s, b.owner) < At(s, b.flushedUnder) < |s.path|
         && forall k: nat | At(s, b.flushedUnder) <= k < |s.path| :: b.marks <= CatalogAt(s, k))
  }

  /** At depth i: base plus the ledger is the catalog there plus what is buffered. */
  ghost predicate Balanced(s: State, base: Rowset, l: seq<Rowset>, i: nat)
    requires i < |s.path| == |s.saved| == |l|
  {
    forall r: nat :: (r in base || r in UpTo(l, i + 1)) <==> (r in CatalogAt(s, i) || Buffered(s, i, r))
  }

  ghost predicate Shape(s: State) {
    && |s.path| == |s.saved| > 0
    && (forall i, j | 0 <= i < j < |s.path| :: s.path[i] < s.path[j])
    && (forall i | 0 <= i < |s.path| :: INVALID < s.path[i] < s.next)
  }

  ghost predicate BuffersOk(s: State)
    requires |s.path| == |s.saved|
  {
    forall n | 0 <= n < |s.buffers| :: BufferOk(s, s.buffers[n])
  }

  ghost predicate Inv(s: State, base: Rowset, l: seq<Rowset>) {
    && Shape(s) && |l| == |s.path| && BuffersOk(s)
    && (forall i: nat | i < |s.path| :: Balanced(s, base, l, i))
  }

  // ----- membership in the folds

  lemma {:induction false} InUnwritten(bs: seq<Buffer>, k: nat, r: nat)
    requires k <= |bs|
    ensures r in Unwritten(bs, k) <==> exists n :: 0 <= n < k && bs[n].flushedUnder == INVALID && r in bs[n].marks
  {
    if k > 0 { InUnwritten(bs, k - 1, r); }
  }

  lemma {:induction false} InOwned(bs: seq<Buffer>, owner: nat, k: nat, r: nat)
    requires k <= |bs|
    ensures r in OwnedMarks(bs, owner, k) <==> exists n :: 0 <= n < k && bs[n].owner == owner && r in bs[n].marks
  {
    if k > 0 { InOwned(bs, owner, k - 1, r); }
  }

  lemma {:induction false} SurvivorFrom(bs: seq<Buffer>, sub: nat, k: nat, m: nat) returns (n: nat)
    requires k <= |bs| && m < |Survivors(bs, sub, k)|
    ensures n < k && bs[n].owner != sub && Survivors(bs, sub, k)[m] == DiscardOne(bs[n], sub)
  {
    if m < |Survivors(bs, sub, k - 1)| {
      n := SurvivorFrom(bs, sub, k - 1, m);
    } else {
      n := k - 1;
    }
  }

  lemma {:induction false} SurvivorTo(bs: seq<Buffer>, sub: nat, k: nat, n: nat) returns (m: nat)
    requires n < k <= |bs| && bs[n].owner != sub
    ensures m < |Survivors(bs, sub, k)| && Survivors(bs, sub, k)[m] == DiscardOne(bs[n], sub)
  {
    if n == k - 1 {
      m := |Survivors(bs, sub, k - 1)|;
    } else {
      m := SurvivorTo(bs, sub, k - 1, n);
    }
  }

  lemma {:induction false} UpToPrefix(l: seq<Rowset>, m: seq<Rowset>, k: nat)
    requires k <= |l| && k <= |m| && forall i | 0 <= i < k :: l[i] == m[i]
    ensures UpTo(l, k) == UpTo(m, k)
  {
    if k > 0 { UpToPrefix(l, m, k - 1); }
  }

  // ----- every event keeps the invariant

  lemma {:induction false} DepthIs(path: seq<nat>, id: nat, k: nat, d: nat)
    requires k <= d < |path| && path[d] == id && forall j | k <= j < d :: path[j] != id
    ensures Depth(path, id, k) == d
    decreases d - k
  {
    if k < d { DepthIs(path, id, k + 1, d); }
  }

  lemma {:induction false} CurrentDepth(s: State)
    requires Shape(s)
    ensures At(s, Current(s)) == |s.path| - 1
  {
    DepthIs(s.path, Current(s), 0, |s.path| - 1);
  }

  /** Depths inside a common prefix of two paths agree. */
  lemma {:induction false} DepthStable(p: seq<nat>, q: seq<nat>, id: nat, m: nat)
    requires m <= |p| && m <= |q| && forall j | 0 <= j < m :: p[j] == q[j]
    requires Depth(p, id, 0) < m
    ensures Depth(q, id, 0) == Depth(p, id, 0)
  {
    DepthIs(q, id, 0, Depth(p, id, 0));
  }

  lemma {:induction false} StartBuffers(s: State)
    requires Shape(s) && BuffersOk(s)
    ensures Shape(Step(s, Start)) && BuffersOk(Step(s, Start))
    ensures forall n | 0 <= n < |s.buffers| :: At(Step(s, Start), s.buffers[n].owner) == At(s, s.buffers[n].owner)
  {
    var s', d := Step(s, Start), |s.path|;
    forall n | 0 <= n < |s.buffers|
      ensures BufferOk(s', s.buffers[n]) && At(s', s.buffers[n].owner) == At(s, s.buffers[n].owner)
    {
      var b := s.buffers[n];
      assert BufferOk(s, b);
      DepthStable(s.path, s'.path, b.owner, d);
      if b.flushedUnder != INVALID {
        DepthStable(s.path, s'.path, b.flushedUnder, d);
        forall k: nat | At(s, b.flushedUnder) <= k < |s'.path| ensures b.marks <= CatalogAt(s', k) {
          if k == d { assert b.marks <= CatalogAt(s, d - 1); } else { assert CatalogAt(s', k) == CatalogAt(s, k); }
        }
      }
    }
  }

  lemma {:induction false} StartKeeps(s: State, base: Rowset, l: seq<Rowset>)
    requires Inv(s, base, l)
    ensures Inv(Step(s, Start), base, Ledger(l, Start))
  {
    var s', l', d := Step(s, Start), Ledger(l, Start), |s.path|;
    StartBuffers(s);
    forall i: nat | i < |s'.path| ensures Balanced(s', base, l', i) {
      var i0 := if i == d then d - 1 else i;
      assert Balanced(s, base, l, i0);
      UpToPrefix(l, l', i0 + 1);
      assert CatalogAt(s', i) == CatalogAt(s, i0);
      forall r: nat ensures Buffered(s', i, r) == Buffered(s, i0, r) {
        forall n: nat ensures Holds(s', n, i, r) == Holds(s, n, i0, r) {
          if n < |s.buffers| { assert BufferOk(s, s.buffers[n]); }
        }
      }
    }
  }

  /** Growing the innermost catalog keeps what is known of a buffer. */
  lemma {:induction false} BufferMonotone(s: State, s': State, b: Buffer)
    requires |s.path| == |s.saved| && s'.path == s.path && s'.saved == s.saved && s.catalog <= s'.catalog
    requires BufferOk(s, b)
    ensures BufferOk(s', b)
  {
    forall k: nat | k < |s.path| ensures CatalogAt(s, k) <= CatalogAt(s', k) {}
  }

  lemma {:induction false} MarkBuffers(s: State, row: nat)
    requires Shape(s) && BuffersOk(s)
    ensures BuffersOk(Step(s, Mark(row)))
  {
    var s' := Step(s, Mark(row));
    CurrentDepth(s);
    forall n | 0 <= n < |s'.buffers| ensures BufferOk(s', s'.buffers[n]) {
      if n < |s.buffers| {
        assert BufferOk(s, s.buffers[n]);
        BufferMonotone(s, s', s.buffers[n]);
      }
    }
  }

  lemma {:induction false} MarkAdds(s: State, row: nat, i: nat, r: nat)
    requires Shape(s) && i < |s.path| && (Buffered(s, i, r) || (i == |s.path| - 1 && r == row))
    ensures Buffered(Step(s, Mark(row)), i, r)
  {
    var s', m := Step(s, Mark(row)), Find(s.buffers, Current(s), 0);
    CurrentDepth(s);
    if Buffered(s, i, r) {
      var n: nat :| Holds(s, n, i, r);
      assert Holds(s', n, i, r);
    } else {
      assert Holds(s', m, i, r);
    }
  }

  lemma {:induction false} MarkBuffered(s: State, row: nat, i: nat, r: nat)
    requires Shape(s) && i < |s.path|
    ensures Buffered(Step(s, Mark(row)), i, r) <==> Buffered(s, i, r) || (i == |s.path| - 1 && r == row)
  {
    var s', m := Step(s, Mark(row)), Find(s.buffers, Current(s), 0);
    if Buffered(s', i, r) {
      CurrentDepth(s);
      var n: nat :| Holds(s', n, i, r);
      assert n != m || r != row ==> Holds(s, n, i, r);
    }
    if Buffered(s, i, r) || (i == |s.path| - 1 && r == row) { MarkAdds(s, row, i, r); }
  }

  lemma {:induction false} MarkKeeps(s: State, base: Rowset, l: seq<Rowset>, row: nat)
    requires Inv(s, base, l)
    ensures Inv(Step(s, Mark(row)), base, Ledger(l, Mark(row)))
  {
    var s', l', d := Step(s, Mark(row)), Ledger(l, Mark(row)), |s.path| - 1;
    MarkBuffers(s, row);
    forall i: nat | i < |s'.path| ensures Balanced(s', base, l', i) {
      assert Balanced(s, base, l, i);
      assert CatalogAt(s', i) == CatalogAt(s, i);
      UpToPrefix(l, l', if i < d then i + 1 else d);
      forall r: nat ensures Buffered(s', i, r) <==> Buffered(s, i, r) || (i == d && r == row) {
        MarkBuffered(s, row, i, r);
      }
    }
  }

  lemma {:induction false} ReadBuffers(s: State)
    requires Shape(s) && BuffersOk(s)
    ensures BuffersOk(Step(s, Read))
  {
    var s', d := Step(s, Read), |s.path| - 1;
    CurrentDepth(s);
    forall n | 0 <= n < |s'.buffers| ensures BufferOk(s', s'.buffers[n]) {
      var b := s.buffers[n];
      assert BufferOk(s, b);
      BufferMonotone(s, s', b);
      if b.flushedUnder == INVALID && b.owner != Current(s) && b.marks != {} {
        assert s.path[At(s, b.owner)] == b.owner;
        forall r | r in b.marks ensures r in s'.catalog { InUnwritten(s.buffers, |s.buffers|, r); }
        assert b.marks <= CatalogAt(s', d);
      }
    }
  }

  lemma {:induction false} ReadWritesBuffered(s: State, n: nat, r: nat)
    requires Shape(s) && BuffersOk(s) && Holds(s, n, |s.path| - 1, r)
    ensures r in Step(s, Read).catalog
  {
    InUnwritten(s.buffers, |s.buffers|, r);
    assert BufferOk(s, s.buffers[n]);
    assert s.buffers[n].flushedUnder != INVALID ==> s.buffers[n].marks <= CatalogAt(s, |s.path| - 1);
  }

  lemma {:induction false} ReadWritesOnlyBuffered(s: State, r: nat)
    requires Shape(s) && BuffersOk(s) && r in Step(s, Read).catalog && r !in s.catalog
    ensures Buffered(s, |s.path| - 1, r)
  {
    InUnwritten(s.buffers, |s.buffers|, r);
    var n: nat :| n < |s.buffers| && s.buffers[n].flushedUnder == INVALID && r in s.buffers[n].marks;
    assert BufferOk(s, s.buffers[n]);
    assert Holds(s, n, |s.path| - 1, r);
  }

  lemma {:induction false} ReadMember(s: State, r: nat)
    requires Shape(s) && BuffersOk(s)
    ensures r in Step(s, Read).catalog <==> r in s.catalog || Buffered(s, |s.path| - 1, r)
  {
    if Buffered(s, |s.path| - 1, r) {
      var n: nat :| Holds(s, n, |s.path| - 1, r);
      ReadWritesBuffered(s, n, r);
    }
    if r in Step(s, Read).catalog && r !in s.catalog { ReadWritesOnlyBuffered(s, r); }
  }

  /** What a read makes visible: exactly the baseline and every mark that should count. */
  lemma {:induction false} ReadShowsLedger(s: State, base: Rowset, l: seq<Rowset>)
    requires Inv(s, base, l)
    ensures Step(s, Read).catalog == base + UpTo(l, |l|)
  {
    assert Balanced(s, base, l, |s.path| - 1);
    forall r: nat ensures r in Step(s, Read).catalog <==> r in base + UpTo(l, |l|) {
      ReadMember(s, r);
    }
  }

  lemma {:induction false} ReadHolds(s: State, n: nat, i: nat, r: nat)
    requires Shape(s) && i < |s.path|
    ensures Holds(Step(s, Read), n, i, r) ==> Holds(s, n, i, r)
    ensures i < |s.path| - 1 && Holds(s, n, i, r) ==> Holds(Step(s, Read), n, i, r)
  {
    CurrentDepth(s);
  }

  lemma {:induction false} ReadMoves(s: State, i: nat, r: nat)
    requires Shape(s) && i < |s.path|
    ensures Buffered(Step(s, Read), i, r) ==> Buffered(s, i, r)
    ensures i < |s.path| - 1 && Buffered(s, i, r) ==> Buffered(Step(s, Read), i, r)
  {
    if Buffered(Step(s, Read), i, r) {
      var n: nat :| Holds(Step(s, Read), n, i, r);
      ReadHolds(s, n, i, r);
    }
    if i < |s.path| - 1 && Buffered(s, i, r) {
      var n: nat :| Holds(s, n, i, r);
      ReadHolds(s, n, i, r);
    }
  }

  lemma {:induction false} ReadKeeps(s: State, base: Rowset, l: seq<Rowset>)
    requires Inv(s, base, l)
    ensures Inv(Step(s, Read), base, Ledger(l, Read))
  {
    var s', d := Step(s, Read), |s.path| - 1;
    ReadBuffers(s);
    ReadShowsLedger(s, base, l);
    forall i: nat | i < |s'.path| ensures Balanced(s', base, l, i) {
      assert Balanced(s, base, l, i);
      assert i < d ==> CatalogAt(s', i) == CatalogAt(s, i);
      forall r: nat ensures Buffered(s', i, r) ==> Buffered(s, i, r)
        ensures i < d && Buffered(s, i, r) ==> Buffered(s', i, r)
      {
        ReadMoves(s, i, r);
      }
    }
  }

  lemma {:induction false} StatementEndBuffers(s: State)
    requires Shape(s) && BuffersOk(s)
    ensures BuffersOk(Step(s, StatementEnd))
  {
    var s' := Step(s, StatementEnd);
    forall n | 0 <= n < |s'.buffers| ensures BufferOk(s', s'.buffers[n]) {
      assert BufferOk(s, s.buffers[n]);
      BufferMonotone(s, s', s.buffers[n]);
    }
  }

  lemma {:induction false} StatementEndKeeps(s: State, base: Rowset, l: seq<Rowset>)
    requires Inv(s, base, l)
    ensures Inv(Step(s, StatementEnd), base, Ledger(l, StatementEnd))
  {
    var s', d, cur := Step(s, StatementEnd), |s.path| - 1, Current(s);
    StatementEndBuffers(s);
    CurrentDepth(s);
    forall i: nat | i < |s'.path| ensures Balanced(s', base, l, i) {
      assert Balanced(s, base, l, i);
      forall r: nat
        ensures (r in CatalogAt(s', i) || Buffered(s', i, r)) <==> (r in CatalogAt(s, i) || Buffered(s, i, r))
      {
        StatementEndMoves(s, i, r);
      }
    }
  }

  lemma {:induction false} StatementEndMoves(s: State, i: nat, r: nat)
    requires Shape(s) && BuffersOk(s) && i < |s.path|
    ensures var s' := Step(s, StatementEnd);
      (r in CatalogAt(s', i) || Buffered(s', i, r)) <==> (r in CatalogAt(s, i) || Buffered(s, i, r))
  {
    var s', cur := Step(s, StatementEnd), Current(s);
    CurrentDepth(s);
    InOwned(s.buffers, cur, |s.buffers|, r);
    forall n: nat | Holds(s, n, i, r) ensures Holds(s', n, i, r) || r in CatalogAt(s', i) {}
    forall n: nat | Holds(s', n, i, r) ensures Holds(s, n, i, r) {}
    if i == |s.path| - 1 && r in OwnedMarks(s.buffers, cur, |s.buffers|) {
      var n: nat :| n < |s.buffers| && s.buffers[n].owner == cur && r in s.buffers[n].marks;
      assert Holds(s, n, i, r);
    }
  }

  lemma {:induction false} CommitBuffer(s: State, b: Buffer)
    requires Shape(s) && |s.path| > 1 && BufferOk(s, b)
    ensures var s' := Step(s, Commit);
      var b' := PromoteOne(b, Current(s), s.path[|s.path| - 2]);
      BufferOk(s', b') && At(s', b'.owner) == (if b.owner == Current(s) then |s.path| - 2 else At(s, b.owner))
  {
    var s', d, cur := Step(s, Commit), |s.path| - 1, Current(s);
    var parent := s.path[d - 1];
    var b' := PromoteOne(b, cur, parent);
    CurrentDepth(s);
    CurrentDepth(s');
    if b.owner == cur {
      assert b.flushedUnder == INVALID;
    } else {
      assert At(s, b.owner) < d by { assert s.path[At(s, b.owner)] == b.owner; }
      DepthStable(s.path, s'.path, b.owner, d);
      if b.flushedUnder != INVALID && b.flushedUnder != cur {
        assert At(s, b.flushedUnder) < d by { assert s.path[At(s, b.flushedUnder)] == b.flushedUnder; }
        DepthStable(s.path, s'.path, b.flushedUnder, d);
      }
      assert forall k: nat | k < d - 1 :: CatalogAt(s', k) == CatalogAt(s, k);
      assert CatalogAt(s', d - 1) == CatalogAt(s, d);
    }
  }

  lemma {:induction false} CommitForward(s: State, i: nat, n: nat, r: nat)
    requires Shape(s) && |s.path| > 1 && BuffersOk(s) && i < |s.path| - 1
    requires Holds(Step(s, Commit), n, i, r)
    ensures Holds(s, n, if i == |s.path| - 2 then i + 1 else i, r)
  {
    assert BufferOk(s, s.buffers[n]);
    CommitBuffer(s, s.buffers[n]);
    CurrentDepth(s);
  }

  lemma {:induction false} CommitBackward(s: State, i: nat, n: nat, r: nat)
    requires Shape(s) && |s.path| > 1 && BuffersOk(s) && i < |s.path| - 1
    requires var i0 := if i == |s.path| - 2 then i + 1 else i;
      Holds(s, n, i0, r) && r !in CatalogAt(s, i0)
    ensures Holds(Step(s, Commit), n, i, r)
  {
    var d := |s.path| - 1;
    var b := s.buffers[n];
    assert BufferOk(s, b);
    CommitBuffer(s, b);
    CurrentDepth(s);
    if b.flushedUnder == Current(s) {
      assert b.marks <= CatalogAt(s, d);
    }
  }

  lemma {:induction false} CommitMoves(s: State, i: nat, r: nat)
    requires Shape(s) && |s.path| > 1 && BuffersOk(s) && i < |s.path| - 1
    ensures var s' := Step(s, Commit);
      var i0 := if i == |s.path| - 2 then i + 1 else i;
      (r in CatalogAt(s', i) || Buffered(s', i, r)) <==> (r in CatalogAt(s, i0) || Buffered(s, i0, r))
  {
    var s', i0 := Step(s, Commit), if i == |s.path| - 2 then i + 1 else i;
    assert CatalogAt(s', i) == CatalogAt(s, i0);
    if Buffered(s', i, r) {
      var n: nat :| Holds(s', n, i, r);
      CommitForward(s, i, n, r);
    }
    if Buffered(s, i0, r) && r !in CatalogAt(s, i0) {
      var n: nat :| Holds(s, n, i0, r);
      CommitBackward(s, i, n, r);
    }
  }

  lemma {:induction false} CommitKeeps(s: State, base: Rowset, l: seq<Rowset>)
    requires Inv(s, base, l) && |s.path| > 1
    ensures Inv(Step(s, Commit), base, Ledger(l, Commit))
  {
    var s', l', d := Step(s, Commit), Ledger(l, Commit), |s.path| - 1;
    forall n | 0 <= n < |s'.buffers| ensures BufferOk(s', s'.buffers[n]) {
      assert BufferOk(s, s.buffers[n]);
      CommitBuffer(s, s.buffers[n]);
    }
    forall i: nat | i < |s'.path| ensures Balanced(s', base, l', i) {
      var i0 := if i == d - 1 then d else i;
      assert Balanced(s, base, l, i0);
      assert UpTo(l', i + 1) == UpTo(l, i0 + 1) by {
        UpToPrefix(l, l', if i == d - 1 then d - 1 else i + 1);
        assert UpTo(l, d + 1) == UpTo(l, d) + l[d] && UpTo(l, d) == UpTo(l, d - 1) + l[d - 1];
      }
      forall r: nat
        ensures (r in CatalogAt(s', i) || Buffered(s', i, r)) <==> (r in CatalogAt(s, i0) || Buffered(s, i0, r))
      {
        CommitMoves(s, i, r);
      }
    }
  }

  lemma {:induction false} AbortBuffer(s: State, b: Buffer)
    requires Shape(s) && |s.path| > 1 && BufferOk(s, b) && b.owner != Current(s)
    ensures var s', b' := Step(s, Abort), DiscardOne(b, Current(s));
      BufferOk(s', b') && At(s', b'.owner) == At(s, b.owner)
  {
    var s', d, cur := Step(s, Abort), |s.path| - 1, Current(s);
    CurrentDepth(s);
    assert At(s, b.owner) < d by { assert s.path[At(s, b.owner)] == b.owner; }
    DepthStable(s.path, s'.path, b.owner, d);
    if b.flushedUnder != INVALID && b.flushedUnder != cur {
      assert At(s, b.flushedUnder) < d by { assert s.path[At(s, b.flushedUnder)] == b.flushedUnder; }
      DepthStable(s.path, s'.path, b.flushedUnder, d);
    }
    assert forall k: nat | k < d :: CatalogAt(s', k) == CatalogAt(s, k);
  }

  lemma {:induction false} AbortMoves(s: State, i: nat, r: nat)
    requires Shape(s) && |s.path| > 1 && BuffersOk(s) && i < |s.path| - 1
    ensures Buffered(Step(s, Abort), i, r) <==> Buffered(s, i, r)
  {
    var s', cur := Step(s, Abort), Current(s);
    CurrentDepth(s);
    if Buffered(s', i, r) {
      var m: nat :| Holds(s', m, i, r);
      var n := SurvivorFrom(s.buffers, cur, |s.buffers|, m);
      assert BufferOk(s, s.buffers[n]);
      AbortBuffer(s, s.buffers[n]);
      assert Holds(s, n, i, r);
    }
    if Buffered(s, i, r) {
      var n: nat :| Holds(s, n, i, r);
      assert s.buffers[n].owner != cur;
      var m := SurvivorTo(s.buffers, cur, |s.buffers|, n);
      assert BufferOk(s, s.buffers[n]);
      AbortBuffer(s, s.buffers[n]);
      assert Holds(s', m, i, r);
    }
  }

  lemma {:induction false} AbortKeeps(s: State, base: Rowset, l: seq<Rowset>)
    requires Inv(s, base, l) && |s.path| > 1
    ensures Inv(Step(s, Abort), base, Ledger(l, Abort))
  {
    var s', l', d := Step(s, Abort), Ledger(l, Abort), |s.path| - 1;
    forall m | 0 <= m < |s'.buffers| ensures BufferOk(s', s'.buffers[m]) {
      var n := SurvivorFrom(s.buffers, Current(s), |s.buffers|, m);
      assert BufferOk(s, s.buffers[n]);
      AbortBuffer(s, s.buffers[n]);
    }
    forall i: nat | i < |s'.path| ensures Balanced(s', base, l', i) {
      assert Balanced(s, base, l, i);
      UpToPrefix(l, l', i + 1);
      assert CatalogAt(s', i) == CatalogAt(s, i);
      forall r: nat ensures Buffered(s', i, r) <==> Buffered(s, i, r) { AbortMoves(s, i, r); }
    }
  }

  lemma {:induction false} StepKeepsInv(s: State, base: Rowset, l: seq<Rowset>, e: Event)
    requires Inv(s, base, l) && Enabled(s, e)
    ensures Inv(Step(s, e), base, Ledger(l, e))
  {
    match e
    case Mark(row) => MarkKeeps(s, base, l, row);
    case Read => ReadKeeps(s, base, l);
    case StatementEnd => StatementEndKeeps(s, base, l);
    case Start => StartKeeps(s, base, l);
    case Commit => CommitKeeps(s, base, l);
    case Abort => AbortKeeps(s, base, l);
  }

  // ----- runs

  /** A transaction starts with its top level open and nothing buffered. */
  function Begin(base: Rowset): State {
    State([1], [base], base, [], 2)
  }

  /** Every commit or abort of the event sequence has an open subtransaction to resolve. */
  predicate Nested(events: seq<Event>, k: nat, depth: nat)
    requires k <= |events|
    decreases |events| - k
  {
    k == |events| ||
    match events[k]
    case Start => Nested(events, k + 1, depth + 1)
    case Commit => depth > 1 && Nested(events, k + 1, depth - 1)
    case Abort => depth > 1 && Nested(events, k + 1, depth - 1)
    case _ => Nested(events, k + 1, depth)
  }

  function Run(s: State, events: seq<Event>, k: nat): State
    requires k <= |events| && |s.path| == |s.saved| > 0 && Nested(events, k, |s.path|)
    decreases |events| - k
  {
    if k == |events| then s else Run(Step(s, events[k]), events, k + 1)
  }

  function RunLedger(l: seq<Rowset>, events: seq<Event>, k: nat): seq<Rowset>
    requires k <= |events| && |l| > 0 && Nested(events, k, |l|)
    decreases |events| - k
  {
    if k == |events| then l else RunLedger(Ledger(l, events[k]), events, k + 1)
  }

  lemma {:induction false} RunKeepsInv(s: State, base: Rowset, l: seq<Rowset>, events: seq<Event>, k: nat)
    requires k <= |events| && Inv(s, base, l) && Nested(events, k, |s.path|)
    ensures Inv(Run(s, events, k), base, RunLedger(l, events, k))
    decreases |events| - k
  {
    if k < |events| {
      StepKeepsInv(s, base, l, events[k]);
      RunKeepsInv(Step(s, events[k]), base, Ledger(l, events[k]), events, k + 1);
    }
  }

  lemma {:induction false} BeginInv(base: Rowset)
    ensures Inv(Begin(base), base, [{}])
  {
    assert UpTo([{}], 1) == UpTo([{}], 0) + {};
  }

  /** For every sequence of marks, reads, statement ends and nested subtransaction commits and
      aborts, a read then sees exactly the baseline plus the marks of levels not aborted. */
  lemma {:induction false} ReadSeesExactlyLiveMarks(base: Rowset, events: seq<Event>)
    requires Nested(events, 0, 1)
    ensures var s, l := Run(Begin(base), events, 0), RunLedger([{}], events, 0);
      Enabled(s, Read) && Step(s, Read).catalog == base + UpTo(l, |l|)
  {
    BeginInv(base);
    RunKeepsInv(Begin(base), base, [{}], events, 0);
    ReadShowsLedger(Run(Begin(base), events, 0), base, RunLedger([{}], events, 0));
  }

  /** PgColumnarFlushAllDeleteVectors: every subtransaction has resolved, no buffer is kept, and
      the flush leaves exactly the baseline plus the surviving marks. */
  lemma {:induction false} PreCommitIsExact(base: Rowset, events: seq<Event>)
    requires Nested(events, 0, 1)
    requires |Run(Begin(base), events, 0).path| == 1
    ensures var s, l := Run(Begin(base), events, 0), RunLedger([{}], events, 0);
      && (forall n | 0 <= n < |s.buffers| :: s.buffers[n].flushedUnder == INVALID)
      && s.catalog + Unwritten(s.buffers, |s.buffers|) == base + UpTo(l, |l|)
  {
    BeginInv(base);
    RunKeepsInv(Begin(base), base, [{}], events, 0);
    var s := Run(Begin(base), events, 0);
    ReadShowsLedger(s, base, RunLedger([{}], events, 0));
    forall n | 0 <= n < |s.buffers| ensures s.buffers[n].flushedUnder == INVALID {
      assert BufferOk(s, s.buffers[n]);
    }
  }

  // ----- the event handlers

  /** The module's static state: the buffer list, with the catalog and the subtransaction stack
      that PostgreSQL keeps for it. */
  class Buffers {
    var path: seq<nat>
    var saved: seq<Rowset>
    var catalog: Rowset
    var buffers: seq<Buffer>
    var next: nat

    ghost function View(): State
      reads this
    {
      State(path, saved, catalog, buffers, next)
    }

    constructor (base: Rowset)
      ensures View() == Begin(base)
    {
      path, saved, catalog, buffers, next := [1], [base], base, [], 2;
    }

    /** PgColumnarMarkRowDeleted, with delete_vector_get_buffer's search. */
    method MarkRowDeleted(row: nat)
      requires Enabled(View(), Mark(row))
      modifies this`buffers
      ensures View() == Step(old(View()), Mark(row))
    {
      var cur := path[|path| - 1];
      var i := 0;
      while i < |buffers| && buffers[i].owner != cur
        invariant 0 <= i <= |buffers| && Find(buffers, cur, i) == Find(buffers, cur, 0)
      {
        i := i + 1;
      }
      if i < |buffers| {
        buffers := buffers[i := buffers[i].(marks := buffers[i].marks + {row})];
      } else {
        buffers := buffers + [Buffer(cur, INVALID, {row})];
      }
    }

    /** delete_vector_flush_buffer: write the marks, and keep or reset the buffer. */
    method FlushBuffer(i: nat, keep: bool)
      requires i < |buffers|
      modifies this`buffers, this`catalog
      ensures catalog == old(catalog) + old(buffers)[i].marks
      ensures buffers == if keep then old(buffers) else old(buffers)[i := old(buffers)[i].(marks := {})]
    {
      if buffers[i].marks == {} {
        assert buffers[i].(marks := {}) == buffers[i];
        return;
      }
      catalog := catalog + buffers[i].marks;
      if !keep {
        buffers := buffers[i := buffers[i].(marks := {})];
      }
    }

    /** PgColumnarFlushDeleteVectorForRelation: a read's flush. */
    method FlushForRelation()
      requires Enabled(View(), Read)
      modifies this`buffers, this`catalog
      ensures View() == Step(old(View()), Read)
    {
      var cur := path[|path| - 1];
      var n := |buffers|;
      for i := 0 to n
        invariant |buffers| == n
        invariant forall k | 0 <= k < n :: buffers[k] == if k < i then FlushOne(old(buffers)[k], cur) else old(buffers)[k]
        invariant catalog == old(catalog) + Unwritten(old(buffers), i)
      {
        if buffers[i].flushedUnder == INVALID {
          var keep := buffers[i].owner != cur;
          FlushBuffer(i, keep);
          if keep && buffers[i].marks != {} {
            buffers := buffers[i := buffers[i].(flushedUnder := cur)];
          }
        }
      }
      assert buffers == Flushed(old(buffers), cur);
    }

    /** PgColumnarFlushDeleteVectorsOfSubXact for the current subtransaction. */
    method FlushOfCurrent()
      requires Enabled(View(), StatementEnd)
      modifies this`buffers, this`catalog
      ensures View() == Step(old(View()), StatementEnd)
    {
      var cur := path[|path| - 1];
      var n := |buffers|;
      for i := 0 to n
        invariant |buffers| == n
        invariant forall k | 0 <= k < n ::
          buffers[k] == if k < i && old(buffers)[k].owner == cur then old(buffers)[k].(marks := {}) else old(buffers)[k]
        invariant catalog == old(catalog) + OwnedMarks(old(buffers), cur, i)
      {
        if buffers[i].owner == cur {
          FlushBuffer(i, false);
        }
      }
      assert buffers == Emptied(old(buffers), cur);
    }

    method StartSub()
      requires Enabled(View(), Start)
      modifies this`path, this`saved, this`next
      ensures View() == Step(old(View()), Start)
    {
      path, saved, next := path + [next], saved + [catalog], next + 1;
    }

    /** PgColumnarDeleteVectorPromoteSubXact, as the subtransaction commits. */
    method PromoteSubXact()
      requires Enabled(View(), Commit)
      modifies this`path, this`saved, this`buffers
      ensures View() == Step(old(View()), Commit)
    {
      var sub, parent := path[|path| - 1], path[|path| - 2];
      var n := |buffers|;
      for i := 0 to n
        invariant |buffers| == n && path == old(path) && saved == old(saved)
        invariant forall k | 0 <= k < n ::
          buffers[k] == if k < i then PromoteOne(old(buffers)[k], sub, parent) else old(buffers)[k]
      {
        var b := buffers[i];
        if b.owner == sub { b := b.(owner := parent); }
        if b.flushedUnder == sub {
          if parent == b.owner {
            b := b.(marks := {}, flushedUnder := INVALID);
          } else {
            b := b.(flushedUnder := parent);
          }
        }
        buffers := buffers[i := b];
      }
      assert buffers == Promoted(old(buffers), sub, parent);
      path, saved := path[..|path| - 1], saved[..|path| - 1];
    }

    /** PgColumnarDeleteVectorDiscardSubXact, as the subtransaction aborts. */
    method DiscardSubXact()
      requires Enabled(View(), Abort)
      modifies this`path, this`saved, this`buffers, this`catalog
      ensures View() == Step(old(View()), Abort)
    {
      var sub := path[|path| - 1];
      var kept: seq<Buffer> := [];
      for i := 0 to |buffers|
        invariant kept == Survivors(buffers, sub, i)
      {
        var b := buffers[i];
        if b.owner != sub {
          if b.flushedUnder == sub { b := b.(flushedUnder := INVALID); }
          kept := kept + [b];
        }
      }
      buffers := kept;
      catalog := saved[|path| - 1];
      path, saved := path[..|path| - 1], saved[..|path| - 1];
    }

    /** PgColumnarFlushAllDeleteVectors, at pre-commit. */
    method FlushAll(ghost base: Rowset, ghost l: seq<Rowset>)
      requires |path| == 1 && Inv(View(), base, l)
      modifies this`buffers, this`catalog
      ensures catalog == base + UpTo(l, |l|)
      ensures forall i | 0 <= i < |buffers| :: buffers[i].marks == {}
    {
      ReadShowsLedger(View(), base, l);
      forall i | 0 <= i < |buffers| ensures buffers[i].flushedUnder == INVALID {
        assert BufferOk(View(), buffers[i]);
      }
      var n := |buffers|;
      for i := 0 to n
        invariant |buffers| == n
        invariant forall k | 0 <= k < n :: if k < i then buffers[k].marks == {} else buffers[k] == old(buffers)[k]
        invariant catalog == old(catalog) + Unwritten(old(buffers), i)
      {
        FlushBuffer(i, false);
      }
    }
  }
}
