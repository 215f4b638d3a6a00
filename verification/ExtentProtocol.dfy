module ExtentProtocol {
  /**
   The commit protocol: any number of transactions flush and retire groups, write their row at
   pre-commit, and under the storage lock replace rows. Every interleaving is a run.
   */

  import opened Prelude
  import opened Extent

  /** More rows than this, with a complete one among them, and a writer merges them. */
  const EXTENT_MERGE_ABOVE := 8

  /** What a transaction has done when it commits. `exclusive`: it replaced rows, or tried
      to, while holding the storage lock. */
  datatype Txn = Txn(tid: nat, added: set<Group>, retired: set<Group>,
                     rowsAdded: set<Row>, rowsDeleted: set<Row>, exclusive: bool)

  datatype Phase = Working | Written | Checked | Locked | Snapped | Ready

  /** `marked`: the storage is to be recomputed. `snap`: the prefix the locked snapshot saw. */
  datatype Active = Active(phase: Phase, txn: Txn, pending: Option<Bound>, marked: bool,
                           sawComplete: bool, snap: nat)

  /** `base`: groups older than the extent catalog or the column. `ordered`: the column's type
      has a btree comparison, so a flushed zone map carries a minimum and a maximum whenever
      the group has values; without one it never does. */
  datatype State = State(ordered: bool, base: set<Group>, history: seq<Txn>, active: map<nat, Active>,
                         lock: Option<nat>)

  /** What the writer flushes: a truthful zone map for every live column. */
  ghost predicate Flushable(ordered: bool, g: Group) {
    && Truthful(g) && g.zone.Some?
    && (if ordered then WellZoned(g) else !g.zone.value.hasMinMax)
  }

  // ----- what a snapshot sees

  ghost function GroupsAt(base: set<Group>, h: seq<Txn>, k: nat): set<Group>
    requires k <= |h|
  {
    if k == 0 then base else (GroupsAt(base, h, k - 1) + h[k - 1].added) - h[k - 1].retired
  }

  ghost function RowsAt(h: seq<Txn>, k: nat): set<Row>
    requires k <= |h|
  {
    if k == 0 then {} else (RowsAt(h, k - 1) - h[k - 1].rowsDeleted) + h[k - 1].rowsAdded
  }

  /** A transaction's view: the prefix, with its own changes. */
  ghost function OwnGroups(s: State, k: nat, t: Txn): set<Group>
    requires k <= |s.history|
  {
    (GroupsAt(s.base, s.history, k) + t.added) - t.retired
  }

  ghost function OwnRows(s: State, k: nat, t: Txn): set<Row>
    requires k <= |s.history|
  {
    (RowsAt(s.history, k) - t.rowsDeleted) + t.rowsAdded
  }

  // ----- actions

  datatype Action =
    | Begin(tid: nat)
    | Flush(tid: nat, group: Group)
    | FlushRolledBack(tid: nat, widened: Bound)
    | Retire(tid: nat, group: Group)
    | WriteRow(tid: nat)
    | Check(tid: nat)
    | Skip(tid: nat)
    | TakeLock(tid: nat)
    | TakeSnapshot(tid: nat)
    | Replace(tid: nat, bound: Bound)
    | GiveUp(tid: nat)
    | Commit(tid: nat)
    | Rollback(tid: nat)

  ghost predicate InPhase(s: State, t: nat, p: Phase) {
    t in s.active && s.active[t].phase == p
  }

  function Upd(s: State, t: nat, a: Active): State {
    s.(active := s.active[t := a])
  }

  /** Zone maps decide the recompute; the rows decide the merge. */
  ghost predicate Merges(s: State, a: Active)
    requires a.snap <= |s.history|
  {
    !a.marked && a.sawComplete && HasComplete(OwnRows(s, a.snap, a.txn))
  }

  ghost predicate Recomputable(gs: set<Group>) {
    forall g | g in gs :: WellZoned(g)
  }

  ghost predicate Enabled(s: State, act: Action) {
    match act
    case Begin(t) => t !in s.active && forall i | 0 <= i < |s.history| :: s.history[i].tid != t
    case Flush(t, g) => InPhase(s, t, Working) && Flushable(s.ordered, g)
    case FlushRolledBack(t, b) => InPhase(s, t, Working)
    case Retire(t, g) => InPhase(s, t, Working)
    case WriteRow(t) => InPhase(s, t, Working)
    case Check(t) => InPhase(s, t, Written) && !s.active[t].marked && s.active[t].pending.Some?
    case Skip(t) =>
      && t in s.active && !s.active[t].marked
      && (s.active[t].phase.Checked? || (s.active[t].phase == Written && s.active[t].pending.None?))
    case TakeLock(t) =>
      && t in s.active && s.lock == None
      && (if s.active[t].marked then s.active[t].phase == Written else s.active[t].phase.Checked?)
    case TakeSnapshot(t) => InPhase(s, t, Locked)
    case Replace(t, b) =>
      && t in s.active && s.active[t].phase.Snapped? && s.active[t].snap <= |s.history|
      && var a := s.active[t];
         if Merges(s, a) then IsFold(b, Bounds(OwnRows(s, a.snap, a.txn)))
         else Recomputable(OwnGroups(s, a.snap, a.txn)) &&
              IsFold(b, ZoneBounds(OwnGroups(s, a.snap, a.txn)))
    case GiveUp(t) =>
      && t in s.active && s.active[t].phase.Snapped? && s.active[t].snap <= |s.history|
      && !Merges(s, s.active[t])
      && !Recomputable(OwnGroups(s, s.active[t].snap, s.active[t].txn))
    case Commit(t) => InPhase(s, t, Ready)
    case Rollback(t) => t in s.active
  }

  ghost function Apply(s: State, act: Action): State
    requires Enabled(s, act)
  {
    match act
    case Begin(t) =>
      Upd(s, t, Active(Working, Txn(t, {}, {}, {}, {}, false), None, false, false, 0))
    case Flush(t, g) =>
      var a := s.active[t];
      var p := if g.zone.value.hasMinMax then Some(Join(PendingBound(a.pending), ZoneBound(g))) else a.pending;
      Upd(s, t, a.(txn := a.txn.(added := a.txn.added + {g}), pending := p))
    case FlushRolledBack(t, b) =>
      var a := s.active[t];
      Upd(s, t, a.(pending := Some(Join(PendingBound(a.pending), b))))
    case Retire(t, g) =>
      var a := s.active[t];
      Upd(s, t, a.(txn := a.txn.(retired := a.txn.retired + {g}), marked := true))
    case WriteRow(t) =>
      var a := s.active[t];
      var rows := if a.marked || a.pending.None? then {} else {Row(t, false, a.pending.value)};
      Upd(s, t, a.(phase := Written, txn := a.txn.(rowsAdded := rows)))
    case Check(t) =>
      var a := s.active[t];
      var seen := OwnRows(s, |s.history|, a.txn);
      if HasComplete(seen) && |seen| <= EXTENT_MERGE_ABOVE
      then Upd(s, t, a.(phase := Ready))
      else Upd(s, t, a.(phase := Checked, sawComplete := HasComplete(seen)))
    case Skip(t) =>
      Upd(s, t, s.active[t].(phase := Ready))
    case TakeLock(t) =>
      var a := s.active[t];
      Upd(s, t, a.(phase := Locked, txn := a.txn.(exclusive := true))).(lock := Some(t))
    case TakeSnapshot(t) =>
      Upd(s, t, s.active[t].(phase := Snapped, snap := |s.history|))
    case Replace(t, b) =>
      var a := s.active[t];
      Upd(s, t, a.(phase := Ready,
        txn := a.txn.(rowsDeleted := RowsAt(s.history, a.snap), rowsAdded := {Row(t, true, b)})))
    case GiveUp(t) =>
      Upd(s, t, s.active[t].(phase := Ready))
    case Commit(t) =>
      s.(history := s.history + [s.active[t].txn], active := s.active - {t},
         lock := if s.lock == Some(t) then None else s.lock)
    case Rollback(t) =>
      s.(active := s.active - {t}, lock := if s.lock == Some(t) then None else s.lock)
  }

  // ----- the invariant

  ghost predicate CoveredBy(g: Group, rows: set<Row>) {
    forall v | v in g.values :: exists r :: r in rows && Covers(r.bound, v)
  }

  /** A snapshot that sees a complete row sees rows that cover every group it sees. */
  ghost predicate Sound(base: set<Group>, h: seq<Txn>, k: nat)
    requires k <= |h|
  {
    HasComplete(RowsAt(h, k)) ==>
      forall g | g in GroupsAt(base, h, k) :: WellZoned(g) && CoveredBy(g, RowsAt(h, k))
  }

  ghost predicate GoodGroups(gs: set<Group>) {
    forall g | g in gs :: Truthful(g) && WellZoned(g)
  }

  /** A transaction that never held the lock only adds, and its row covers what it adds. */
  ghost predicate Plain(t: Txn) {
    && t.retired == {} && t.rowsDeleted == {}
    && (forall r | r in t.rowsAdded :: !r.complete)
    && (forall g | g in t.added :: CoveredBy(g, t.rowsAdded))
  }

  ghost predicate TxnOk(t: Txn) {
    GoodGroups(t.added) && (forall r | r in t.rowsAdded :: r.owner == t.tid) && (!t.exclusive ==> Plain(t))
  }

  ghost predicate HistoryOk(h: seq<Txn>) {
    (forall i | 0 <= i < |h| :: TxnOk(h[i])) &&
    (forall i, j | 0 <= i < j < |h| :: h[i].tid != h[j].tid)
  }

  ghost function OwnRow(t: nat, a: Active): set<Row> {
    if a.marked || a.pending.None? then {} else {Row(t, false, a.pending.value)}
  }

  ghost predicate PendingOk(a: Active) {
    forall g | g in a.txn.added :: CoversGroup(PendingBound(a.pending), g)
  }

  ghost predicate PlainSince(h: seq<Txn>, k: nat) {
    k <= |h| && forall i | k <= i < |h| :: !h[i].exclusive
  }

  /** The replaced row covers everything its snapshot saw. */
  ghost predicate Replaced(s: State, a: Active)
    requires a.snap <= |s.history|
  {
    && a.txn.rowsDeleted == RowsAt(s.history, a.snap)
    && (exists b :: a.txn.rowsAdded == {Row(a.txn.tid, true, b)} &&
         forall g | g in OwnGroups(s, a.snap, a.txn) :: WellZoned(g) && CoversGroup(b, g))
  }

  ghost predicate GaveUp(s: State, a: Active)
    requires a.snap <= |s.history|
  {
    a.txn.rowsDeleted == {} && a.txn.rowsAdded == OwnRow(a.txn.tid, a) && !HasComplete(RowsAt(s.history, a.snap))
  }

  ghost predicate PhaseOk(s: State, t: nat, a: Active) {
    match a.phase
    case Working => !a.txn.exclusive && a.txn.rowsDeleted == {} && a.txn.rowsAdded == {}
    case Written => !a.txn.exclusive && a.txn.rowsDeleted == {} && a.txn.rowsAdded == OwnRow(t, a)
    case Checked => !a.txn.exclusive && a.txn.rowsDeleted == {} && a.txn.rowsAdded == OwnRow(t, a)
    case Locked =>
      a.txn.exclusive && s.lock == Some(t) && a.txn.rowsDeleted == {} && a.txn.rowsAdded == OwnRow(t, a)
    case Snapped =>
      && a.txn.exclusive && s.lock == Some(t) && a.txn.rowsDeleted == {} && a.txn.rowsAdded == OwnRow(t, a)
      && PlainSince(s.history, a.snap)
    case Ready =>
      if a.txn.exclusive
      then s.lock == Some(t) && PlainSince(s.history, a.snap) && (Replaced(s, a) || GaveUp(s, a))
      else !a.marked && a.txn.rowsDeleted == {} && a.txn.rowsAdded == OwnRow(t, a)
  }

  ghost predicate ActiveOk(s: State, t: nat, a: Active) {
    && a.txn.tid == t && GoodGroups(a.txn.added) && PendingOk(a) && (!a.marked ==> a.txn.retired == {})
    && (forall i | 0 <= i < |s.history| :: s.history[i].tid != t)
    && PhaseOk(s, t, a)
  }

  ghost predicate Inv(s: State) {
    && s.ordered
    && (forall g | g in s.base :: Truthful(g))
    && HistoryOk(s.history)
    && (forall k | 0 <= k <= |s.history| :: Sound(s.base, s.history, k))
    && (forall t | t in s.active :: ActiveOk(s, t, s.active[t]))
  }

  ghost predicate Init(s: State) {
    s.history == [] && s.active == map[] && s.lock == None && forall g | g in s.base :: Truthful(g)
  }

  // ----- facts about prefixes

  lemma {:induction false} PrefixStable(base: set<Group>, h: seq<Txn>, t: Txn, k: nat)
    requires k <= |h|
    ensures RowsAt(h + [t], k) == RowsAt(h, k) && GroupsAt(base, h + [t], k) == GroupsAt(base, h, k)
  {
    if k > 0 { PrefixStable(base, h, t, k - 1); }
  }

  lemma {:induction false} RowOwners(h: seq<Txn>, k: nat, r: Row)
    requires k <= |h| && HistoryOk(h) && r in RowsAt(h, k)
    ensures exists i :: 0 <= i < k && h[i].tid == r.owner
  {
    if r in h[k - 1].rowsAdded {
      assert h[k - 1].tid == r.owner;
    } else {
      RowOwners(h, k - 1, r);
    }
  }

  lemma {:induction false} GroupsTruthful(base: set<Group>, h: seq<Txn>, k: nat)
    requires k <= |h| && HistoryOk(h) && forall g | g in base :: Truthful(g)
    ensures forall g | g in GroupsAt(base, h, k) :: Truthful(g)
  {
    if k > 0 {
      GroupsTruthful(base, h, k - 1);
      assert TxnOk(h[k - 1]);
    }
  }

  lemma {:induction false} CoveredMono(g: Group, a: set<Row>, b: set<Row>)
    requires CoveredBy(g, a) && a <= b
    ensures CoveredBy(g, b)
  {
  }

  /** While only plain transactions commit, no row disappears, no complete row appears, and
      every new group is covered by rows the older snapshot does not see. */
  lemma {:induction false} PlainSpan(base: set<Group>, h: seq<Txn>, k: nat, m: nat)
    requires k <= m <= |h| && HistoryOk(h) && forall i | k <= i < m :: !h[i].exclusive
    ensures RowsAt(h, k) <= RowsAt(h, m)
    ensures forall r | r in RowsAt(h, m) - RowsAt(h, k) :: !r.complete
    ensures forall g | g in GroupsAt(base, h, m) && g !in GroupsAt(base, h, k) ::
      WellZoned(g) && CoveredBy(g, RowsAt(h, m) - RowsAt(h, k))
  {
    if k < m {
      PlainSpan(base, h, k, m - 1);
      var t := h[m - 1];
      assert TxnOk(t) && Plain(t);
      var fresh0, fresh1 := RowsAt(h, m - 1) - RowsAt(h, k), RowsAt(h, m) - RowsAt(h, k);
      forall r | r in t.rowsAdded ensures r !in RowsAt(h, k) {
        if r in RowsAt(h, k) { RowOwners(h, k, r); }
      }
      assert t.rowsAdded <= fresh1 && fresh0 <= fresh1;
      forall g | g in GroupsAt(base, h, m) && g !in GroupsAt(base, h, k)
        ensures WellZoned(g) && CoveredBy(g, fresh1)
      {
        if g in t.added {
          CoveredMono(g, t.rowsAdded, fresh1);
        } else {
          CoveredMono(g, fresh0, fresh1);
        }
      }
    }
  }

  // ----- commits keep every snapshot sound

  lemma {:induction false} OwnRowCovers(t: nat, a: Active, g: Group)
    requires PendingOk(a) && g in a.txn.added && !a.marked
    ensures CoveredBy(g, OwnRow(t, a))
  {
    forall v | v in g.values ensures exists r :: r in OwnRow(t, a) && Covers(r.bound, v) {
      assert Covers(PendingBound(a.pending), v);
      assert Row(t, false, a.pending.value) in OwnRow(t, a);
    }
  }

  lemma {:induction false} PlainCommit(s: State, t: nat)
    requires Inv(s) && InPhase(s, t, Ready) && !s.active[t].txn.exclusive
    ensures TxnOk(s.active[t].txn)
    ensures Sound(s.base, s.history + [s.active[t].txn], |s.history| + 1)
  {
    var a, h := s.active[t], s.history;
    var h' := h + [a.txn];
    PrefixStable(s.base, h, a.txn, |h|);
    forall g | g in a.txn.added ensures CoveredBy(g, a.txn.rowsAdded) { OwnRowCovers(t, a, g); }
    assert Sound(s.base, h, |h|);
    if HasComplete(RowsAt(h', |h| + 1)) {
      assert HasComplete(RowsAt(h, |h|));
      forall g | g in GroupsAt(s.base, h', |h| + 1)
        ensures WellZoned(g) && CoveredBy(g, RowsAt(h', |h| + 1))
      {
        if g in a.txn.added {
          CoveredMono(g, a.txn.rowsAdded, RowsAt(h', |h| + 1));
        } else {
          CoveredMono(g, RowsAt(h, |h|), RowsAt(h', |h| + 1));
        }
      }
    }
  }

  lemma {:induction false} ReplaceCommit(s: State, t: nat)
    requires Inv(s) && InPhase(s, t, Ready) && s.active[t].txn.exclusive && Replaced(s, s.active[t])
    ensures Sound(s.base, s.history + [s.active[t].txn], |s.history| + 1)
  {
    var a, h := s.active[t], s.history;
    var h', k := h + [a.txn], a.snap;
    PrefixStable(s.base, h, a.txn, |h|);
    PlainSpan(s.base, h, k, |h|);
    var b :| a.txn.rowsAdded == {Row(a.txn.tid, true, b)} &&
      forall g | g in OwnGroups(s, k, a.txn) :: WellZoned(g) && CoversGroup(b, g);
    var rows := RowsAt(h', |h| + 1);
    assert rows == (RowsAt(h, |h|) - RowsAt(h, k)) + {Row(a.txn.tid, true, b)};
    forall g | g in GroupsAt(s.base, h', |h| + 1) ensures WellZoned(g) && CoveredBy(g, rows) {
      if g in OwnGroups(s, k, a.txn) {
        forall v | v in g.values ensures exists r :: r in rows && Covers(r.bound, v) {
          assert Covers(Row(a.txn.tid, true, b).bound, v);
        }
      } else {
        assert g in GroupsAt(s.base, h, |h|) && g !in GroupsAt(s.base, h, k);
        CoveredMono(g, RowsAt(h, |h|) - RowsAt(h, k), rows);
      }
    }
  }

  lemma {:induction false} GaveUpCommit(s: State, t: nat)
    requires Inv(s) && InPhase(s, t, Ready) && s.active[t].txn.exclusive && GaveUp(s, s.active[t])
    ensures Sound(s.base, s.history + [s.active[t].txn], |s.history| + 1)
  {
    var a, h := s.active[t], s.history;
    PrefixStable(s.base, h, a.txn, |h|);
    PlainSpan(s.base, h, a.snap, |h|);
    assert !HasComplete(RowsAt(h, |h|));
  }

  // ----- replacing covers what the snapshot saw

  lemma {:induction false} FoldCovers(b: Bound, g: Group, rows: set<Row>)
    requires IsFold(b, Bounds(rows)) && CoveredBy(g, rows)
    ensures CoversGroup(b, g)
  {
    forall v | v in g.values ensures Covers(b, v) {
      var r :| r in rows && Covers(r.bound, v);
      assert r.bound in Bounds(rows);
    }
  }

  lemma {:induction false} ReplaceCovers(s: State, t: nat, b: Bound)
    requires Inv(s) && Enabled(s, Action.Replace(t, b))
    ensures var a := s.active[t];
      forall g | g in OwnGroups(s, a.snap, a.txn) :: WellZoned(g) && CoversGroup(b, g)
  {
    var a := s.active[t];
    var gs, rows := OwnGroups(s, a.snap, a.txn), OwnRows(s, a.snap, a.txn);
    assert ActiveOk(s, t, a) && Sound(s.base, s.history, a.snap);
    GroupsTruthful(s.base, s.history, a.snap);
    if Merges(s, a) {
      assert HasComplete(RowsAt(s.history, a.snap));
      forall g | g in gs ensures WellZoned(g) && CoversGroup(b, g) {
        if g in a.txn.added {
          OwnRowCovers(t, a, g);
          CoveredMono(g, OwnRow(t, a), rows);
        } else {
          CoveredMono(g, RowsAt(s.history, a.snap), rows);
        }
        FoldCovers(b, g, rows);
      }
    } else {
      forall g | g in gs ensures WellZoned(g) && CoversGroup(b, g) {
        assert ZoneBound(g) in ZoneBounds(gs);
        assert Truthful(g) && WellZoned(g);
      }
    }
  }

  lemma {:induction false} GiveUpSeesNoComplete(s: State, t: nat)
    requires Inv(s) && Enabled(s, Action.GiveUp(t))
    ensures !HasComplete(RowsAt(s.history, s.active[t].snap))
  {
    var a := s.active[t];
    assert ActiveOk(s, t, a) && Sound(s.base, s.history, a.snap);
  }

  // ----- every step keeps the invariant

  lemma {:induction false} HistoryKept(s: State, s': State, t: nat)
    requires Inv(s) && s'.ordered && s'.base == s.base && s'.history == s.history
    requires forall u | u in s'.active && u != t :: u in s.active && s'.active[u] == s.active[u]
    requires forall u | u in s.active && u != t && s.active[u].txn.exclusive :: s'.lock == s.lock
    requires t in s'.active ==> ActiveOk(s', t, s'.active[t])
    ensures Inv(s')
  {
    forall u | u in s'.active ensures ActiveOk(s', u, s'.active[u]) {
      if u != t { assert ActiveOk(s, u, s.active[u]); }
    }
  }

  lemma {:induction false} CommitKeeps(s: State, t: nat)
    requires Inv(s) && Enabled(s, Action.Commit(t))
    ensures Inv(Apply(s, Action.Commit(t)))
  {
    var s', a, h := Apply(s, Action.Commit(t)), s.active[t], s.history;
    var h' := s'.history;
    assert ActiveOk(s, t, a);
    if !a.txn.exclusive {
      PlainCommit(s, t);
    } else if Replaced(s, a) {
      ReplaceCommit(s, t);
    } else {
      GaveUpCommit(s, t);
    }
    forall k | 0 <= k <= |h'| ensures Sound(s.base, h', k) {
      if k <= |h| {
        PrefixStable(s.base, h, a.txn, k);
        assert Sound(s.base, h, k);
      }
    }
    forall u | u in s'.active ensures ActiveOk(s', u, s'.active[u]) {
      OtherKept(s, t, u);
    }
  }

  /** A commit disturbs no other transaction: the lock holder's snapshot stays followed by
      plain commits only, because the committing one cannot hold the lock as well. */
  lemma {:induction false} OtherKept(s: State, t: nat, u: nat)
    requires Inv(s) && Enabled(s, Action.Commit(t)) && u in s.active && u != t
    ensures ActiveOk(Apply(s, Action.Commit(t)), u, s.active[u])
  {
    var a, h := s.active[u], s.history;
    assert ActiveOk(s, u, a) && ActiveOk(s, t, s.active[t]);
    if a.snap <= |h| {
      PrefixStable(s.base, h, s.active[t].txn, a.snap);
    }
  }

  /** Steps that change only the acting transaction, short of the lock. */
  lemma {:induction false} LocalKeeps(s: State, act: Action)
    requires Inv(s) && Enabled(s, act)
    requires act.Begin? || act.FlushRolledBack? || act.Retire? || act.WriteRow? || act.Check? || act.Skip?
    ensures Inv(Apply(s, act))
  {
    hide ActiveOk, Sound, HistoryOk;
    if act.Begin? || act.WriteRow? || act.Skip? { PhaseStepOk(s, act); } else { WorkStepOk(s, act); }
    HistoryKept(s, Apply(s, act), act.tid);
  }

  lemma {:induction false} PhaseStepOk(s: State, act: Action)
    requires Inv(s) && Enabled(s, act) && (act.Begin? || act.WriteRow? || act.Skip?)
    ensures act.tid in Apply(s, act).active && ActiveOk(Apply(s, act), act.tid, Apply(s, act).active[act.tid])
  {
    hide Sound, GroupsAt, RowsAt;
    assert act.tid in s.active ==> ActiveOk(s, act.tid, s.active[act.tid]);
  }

  lemma {:induction false} WorkStepOk(s: State, act: Action)
    requires Inv(s) && Enabled(s, act) && (act.FlushRolledBack? || act.Retire? || act.Check?)
    ensures act.tid in Apply(s, act).active && ActiveOk(Apply(s, act), act.tid, Apply(s, act).active[act.tid])
  {
    hide Sound, GroupsAt, RowsAt;
    assert ActiveOk(s, act.tid, s.active[act.tid]);
  }

  lemma {:induction false} LockKeeps(s: State, t: nat)
    requires Inv(s) && Enabled(s, Action.TakeLock(t))
    ensures Inv(Apply(s, Action.TakeLock(t)))
  {
    assert ActiveOk(s, t, s.active[t]);
    forall u | u in s.active ensures !s.active[u].txn.exclusive {
      assert ActiveOk(s, u, s.active[u]);
    }
    HistoryKept(s, Apply(s, Action.TakeLock(t)), t);
  }

  lemma {:induction false} SnapshotKeeps(s: State, t: nat)
    requires Inv(s) && Enabled(s, Action.TakeSnapshot(t))
    ensures Inv(Apply(s, Action.TakeSnapshot(t)))
  {
    assert ActiveOk(s, t, s.active[t]);
    HistoryKept(s, Apply(s, Action.TakeSnapshot(t)), t);
  }

  lemma {:induction false} ReplaceKeeps(s: State, t: nat, b: Bound)
    requires Inv(s) && Enabled(s, Action.Replace(t, b))
    ensures Inv(Apply(s, Action.Replace(t, b)))
  {
    var s', a := Apply(s, Action.Replace(t, b)), s.active[t];
    assert ActiveOk(s, t, a);
    ReplaceCovers(s, t, b);
    assert s'.active[t].txn.rowsAdded == {Row(t, true, b)};
    assert OwnGroups(s', a.snap, s'.active[t].txn) == OwnGroups(s, a.snap, a.txn);
    assert Replaced(s', s'.active[t]);
    HistoryKept(s, s', t);
  }

  lemma {:induction false} GiveUpKeeps(s: State, t: nat)
    requires Inv(s) && Enabled(s, Action.GiveUp(t))
    ensures Inv(Apply(s, Action.GiveUp(t)))
  {
    assert ActiveOk(s, t, s.active[t]);
    GiveUpSeesNoComplete(s, t);
    HistoryKept(s, Apply(s, Action.GiveUp(t)), t);
  }

  /** Every action of every transaction keeps the invariant. */
  lemma {:induction false} StepKeepsInv(s: State, act: Action)
    requires Inv(s) && Enabled(s, act)
    ensures Inv(Apply(s, act))
  {
    match act
    case Flush(t, g) => FlushKeeps(s, t, g);
    case TakeLock(t) => LockKeeps(s, t);
    case TakeSnapshot(t) => SnapshotKeeps(s, t);
    case Replace(t, b) => ReplaceKeeps(s, t, b);
    case GiveUp(t) => GiveUpKeeps(s, t);
    case Commit(t) => CommitKeeps(s, t);
    case Rollback(t) => RollbackKeeps(s, t);
    case _ => LocalKeeps(s, act);
  }

  lemma {:induction false} FlushKeeps(s: State, t: nat, g: Group)
    requires Inv(s) && Enabled(s, Action.Flush(t, g))
    ensures Inv(Apply(s, Action.Flush(t, g)))
  {
    var s', a := Apply(s, Action.Flush(t, g)), s.active[t];
    var a' := s'.active[t];
    assert ActiveOk(s, t, a);
    forall x | x in a'.txn.added ensures CoversGroup(PendingBound(a'.pending), x) {
      assert Within(PendingBound(a.pending), PendingBound(a'.pending));
      if x in a.txn.added {
        assert CoversGroup(PendingBound(a.pending), x);
      }
    }
    HistoryKept(s, s', t);
  }

  lemma {:induction false} RollbackKeeps(s: State, t: nat)
    requires Inv(s) && t in s.active
    ensures Inv(Apply(s, Action.Rollback(t)))
  {
    var s' := Apply(s, Action.Rollback(t));
    forall u | u in s.active && u != t && s.active[u].txn.exclusive ensures s'.lock == s.lock {
      assert ActiveOk(s, u, s.active[u]);
    }
    HistoryKept(s, s', t);
  }

  // ----- runs and readers

  ghost predicate IsRun(run: seq<State>, acts: seq<Action>) {
    && |run| == |acts| + 1 && Init(run[0])
    && forall i | 0 <= i < |acts| :: Enabled(run[i], acts[i]) && run[i + 1] == Apply(run[i], acts[i])
  }

  lemma {:induction false} RunInv(run: seq<State>, acts: seq<Action>, i: nat)
    requires IsRun(run, acts) && run[0].ordered && i < |run|
    ensures Inv(run[i])
  {
    if i > 0 {
      RunInv(run, acts, i - 1);
      StepKeepsInv(run[i - 1], acts[i - 1]);
    }
  }

  /** PgColumnarExtentBound is sound when the column's type is ordered: in every run, at every point,
      for every snapshot and every running transaction, a bound the reader trusts covers every value of every group the
      reader sees, its own uncommitted groups included. */
  lemma {:induction false} ReaderBoundIsSound(run: seq<State>, acts: seq<Action>, i: nat, k: nat, t: nat, b: Bound, g: Group)
    requires IsRun(run, acts) && run[0].ordered
    requires i < |run| && k <= |run[i].history| && t in run[i].active
    requires HasComplete(RowsAt(run[i].history, k))
    requires IsFold(b, Bounds(RowsAt(run[i].history, k)) + {PendingBound(run[i].active[t].pending)})
    requires g in OwnGroups(run[i], k, run[i].active[t].txn)
    ensures CoversGroup(b, g)
  {
    RunInv(run, acts, i);
    var s, rows := run[i], RowsAt(run[i].history, k);
    var a := s.active[t];
    assert ActiveOk(s, t, a) && Sound(s.base, s.history, k);
    forall v | v in g.values ensures Covers(b, v) {
      if g in a.txn.added {
        assert Covers(PendingBound(a.pending), v);
      } else {
        var r :| r in rows && Covers(r.bound, v);
        assert r.bound in Bounds(rows);
      }
    }
  }

  /** A running transaction t that reads with snapshot k trusts a bound b, and b misses a value of a
      group g it sees. */
  ghost predicate Misled(s: State, k: nat, t: nat, b: Bound, g: Group) {
    && k <= |s.history| && t in s.active && HasComplete(RowsAt(s.history, k))
    && IsFold(b, Bounds(RowsAt(s.history, k)) + {PendingBound(s.active[t].pending)})
    && g in OwnGroups(s, k, s.active[t].txn) && !CoversGroup(b, g)
  }

  ghost predicate ReaderMisled(s: State) {
    exists k: nat, t: nat, b, g :: Misled(s, k, t, b, g)
  }

  ghost predicate Reachable(s: State) {
    exists run, acts :: IsRun(run, acts) && run[|acts|] == s
  }

  lemma {:induction false} StepReachable(s: State, act: Action, s': State)
    requires Reachable(s) && Enabled(s, act) && s' == Apply(s, act)
    ensures Reachable(s')
  {
    var run, acts :| IsRun(run, acts) && run[|acts|] == s;
    assert IsRun(run + [s'], acts + [act]);
    assert (run + [s'])[|acts + [act]|] == s';
  }

  const OLD_GROUP := Group(0, Some(Zone(false, 0, 0, 0)), {})
  const NEW_GROUP := Group(1, Some(Zone(false, 1, 0, 0)), {5})

  /** An unordered column: a transaction retires the only group, and takes the lock. */
  lemma {:induction false} RetireAndLock() returns (s: State)
    ensures Reachable(s)
    ensures s == State(false, {OLD_GROUP}, [],
      map[1 := Active(Locked, Txn(1, {}, {OLD_GROUP}, {}, {}, true), None, true, false, 0)], Some(1))
  {
    var s0 := State(false, {OLD_GROUP}, [], map[], None);
    var none: seq<Action> := [];
    assert IsRun([s0], none) && [s0][|none|] == s0;
    var t0 := Txn(1, {}, {}, {}, {}, false);
    var t1 := t0.(retired := {OLD_GROUP});
    var s1 := s0.(active := map[1 := Active(Working, t0, None, false, false, 0)]);
    StepReachable(s0, Begin(1), s1);
    var s2 := s0.(active := map[1 := Active(Working, t1, None, true, false, 0)]);
    assert t0.retired + {OLD_GROUP} == t1.retired;
    StepReachable(s1, Retire(1, OLD_GROUP), s2);
    var s3 := s0.(active := map[1 := Active(Written, t1, None, true, false, 0)]);
    StepReachable(s2, WriteRow(1), s3);
    s := s0.(active := map[1 := Active(Locked, t1.(exclusive := true), None, true, false, 0)], lock := Some(1));
    StepReachable(s3, TakeLock(1), s);
  }

  /** Its recompute finds no group, and commits a complete row that says: no values. */
  lemma {:induction false} EmptyRecompute() returns (s: State)
    ensures Reachable(s)
    ensures s == State(false, {OLD_GROUP}, [Txn(1, {}, {OLD_GROUP}, {Row(1, true, Empty)}, {}, true)], map[], None)
  {
    var s4 := RetireAndLock();
    var t2 := s4.active[1].txn;
    var s5 := s4.(active := map[1 := Active(Snapped, t2, None, true, false, 0)]);
    StepReachable(s4, TakeSnapshot(1), s5);
    assert OwnGroups(s5, 0, t2) == {};
    assert ZoneBounds({}) == {} && RowsAt(s5.history, 0) == {};
    var t3 := t2.(rowsAdded := {Row(1, true, Empty)});
    var s6 := s4.(active := map[1 := Active(Ready, t3, None, true, false, 0)]);
    StepReachable(s5, Action.Replace(1, Empty), s6);
    s := State(false, {OLD_GROUP}, [t3], map[], None);
    StepReachable(s6, Commit(1), s);
  }

  /** A later transaction flushes a group with values; it has no bound to note. */
  lemma {:induction false} LateFlush(s0: State) returns (s: State)
    requires Reachable(s0)
    requires s0 == State(false, {OLD_GROUP}, [Txn(1, {}, {OLD_GROUP}, {Row(1, true, Empty)}, {}, true)], map[], None)
    ensures Reachable(s)
    ensures s == s0.(active := map[2 := Active(Written, Txn(2, {NEW_GROUP}, {}, {}, {}, false), None, false, false, 0)])
  {
    var t0 := Txn(2, {}, {}, {}, {}, false);
    var s1 := s0.(active := map[2 := Active(Working, t0, None, false, false, 0)]);
    StepReachable(s0, Begin(2), s1);
    var t1 := t0.(added := {NEW_GROUP});
    var s2 := s0.(active := map[2 := Active(Working, t1, None, false, false, 0)]);
    assert t0.added + {NEW_GROUP} == t1.added;
    StepReachable(s1, Flush(2, NEW_GROUP), s2);
    s := s0.(active := map[2 := Active(Written, t1, None, false, false, 0)]);
    StepReachable(s2, WriteRow(2), s);
  }

  /** For a type with no ordering the property fails: a recompute over groups without values
      writes a complete row that says the column is empty, and a later flush of values notes
      no bound, so nothing contradicts that row. */
  lemma {:induction false} UnorderedTypeMisleads() returns (s: State)
    ensures Reachable(s) && !s.ordered && ReaderMisled(s)
  {
    var s0 := EmptyRecompute();
    var s3 := LateFlush(s0);
    var t1 := Txn(2, {NEW_GROUP}, {}, {}, {}, false);
    var s4 := s0.(active := map[2 := Active(Ready, t1, None, false, false, 0)]);
    StepReachable(s3, Skip(2), s4);
    var s5 := s0.(history := s0.history + [t1]);
    StepReachable(s4, Commit(2), s5);
    s := s5.(active := map[3 := Active(Working, Txn(3, {}, {}, {}, {}, false), None, false, false, 0)]);
    StepReachable(s5, Begin(3), s);
    MisledAtEnd(s);
  }

  /** A reader that begins after both. */
  lemma {:induction false} MisledAtEnd(s: State)
    requires s.base == {OLD_GROUP}
    requires s.history == [Txn(1, {}, {OLD_GROUP}, {Row(1, true, Empty)}, {}, true), Txn(2, {NEW_GROUP}, {}, {}, {}, false)]
    requires s.active == map[3 := Active(Working, Txn(3, {}, {}, {}, {}, false), None, false, false, 0)]
    ensures ReaderMisled(s)
  {
    var h, r := s.history, Row(1, true, Empty);
    assert RowsAt(h, 0) == {} && RowsAt(h, 1) == {r};
    assert RowsAt(h, 2) == {r};
    assert GroupsAt(s.base, h, 0) == {OLD_GROUP} && GroupsAt(s.base, h, 1) == {};
    assert GroupsAt(s.base, h, 2) == {NEW_GROUP};
    assert r in RowsAt(h, 2) && r.complete;
    assert Bounds({r}) + {PendingBound(None)} == {Empty};
    assert IsFold(Empty, {Empty}) by {
      assert Empty in {Empty};
    }
    assert 5 in NEW_GROUP.values && !Covers(Empty, 5);
    assert NEW_GROUP in OwnGroups(s, 2, s.active[3].txn);
    assert Misled(s, 2, 3, Empty, NEW_GROUP);
  }

  lemma {:induction false} OrderedStays(run: seq<State>, acts: seq<Action>, i: nat)
    requires IsRun(run, acts) && i < |run|
    ensures run[i].ordered == run[0].ordered
  {
    hide Enabled, Init;
    if i > 0 { OrderedStays(run, acts, i - 1); }
  }

  /** No reader is ever misled exactly when the column's type has an ordering. */
  lemma {:induction false} SoundIffOrdered(ordered: bool)
    ensures (forall s | Reachable(s) && s.ordered == ordered :: !ReaderMisled(s)) <==> ordered
  {
    hide IsRun, Misled, Enabled, Apply;
    if ordered {
      forall s | Reachable(s) && s.ordered ensures !ReaderMisled(s) { NotMisled(s); }
    } else {
      var s := UnorderedTypeMisleads();
    }
  }

  lemma {:induction false} NotMisled(s: State)
    requires Reachable(s) && s.ordered
    ensures !ReaderMisled(s)
  {
    hide CoversGroup, Enabled, Apply, Init;
    var run, acts :| IsRun(run, acts) && run[|acts|] == s;
    OrderedStays(run, acts, |acts|);
    forall k: nat, t: nat, b, g ensures !Misled(s, k, t, b, g) {
      if k <= |s.history| && t in s.active && HasComplete(RowsAt(s.history, k))
        && IsFold(b, Bounds(RowsAt(s.history, k)) + {PendingBound(s.active[t].pending)})
        && g in OwnGroups(s, k, s.active[t].txn)
      {
        ReaderBoundIsSound(run, acts, |acts|, k, t, b, g);
      }
    }
  }
}
