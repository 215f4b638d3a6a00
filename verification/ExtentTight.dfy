module ExtentTight {
  /**
   src/columnar_extent.c: how tight the extent is. What every transaction did is read off the actions of
   a run; from that alone, and from the groups a snapshot sees, follows which zone ranges the visible
   rows must span. They span exactly those: "a shrink is computed, never guessed".
   */

  import opened Prelude
  import opened Extent
  import opened ExtentProtocol

  // ----- bounds that contain a set of bounds

  ghost predicate Upper(parts: set<Bound>, d: Bound) { forall p | p in parts :: Within(p, d) }

  /** Two sets have the same fold. */
  ghost predicate SameUpper(a: set<Bound>, b: set<Bound>) { forall d :: Upper(a, d) <==> Upper(b, d) }

  /** b spans the parts: it is within exactly the bounds that contain them all. */
  ghost predicate Spans(b: Bound, parts: set<Bound>) { forall d :: Within(b, d) <==> Upper(parts, d) }

  lemma {:induction false} FoldSpans(b: Bound, parts: set<Bound>)
    ensures IsFold(b, parts) <==> Spans(b, parts)
  {
    assert Within(b, b);
    if Spans(b, parts) { assert Upper(parts, b); }
  }

  lemma {:induction false} UpperUnion(a: set<Bound>, b: set<Bound>)
    ensures forall d :: Upper(a + b, d) <==> Upper(a, d) && Upper(b, d)
  {
  }

  lemma {:induction false} BoundsUnion(a: set<Row>, b: set<Row>)
    ensures Bounds(a + b) == Bounds(a) + Bounds(b)
  {
  }

  lemma {:induction false} BoundsOne(r: Row)
    ensures Bounds({r}) == {r.bound} && Bounds({}) == {}
  {
  }

  // ----- what a transaction did

  /** The zone ranges it flushed, whether it retired a group, whether the rows it looked at after
      writing its own held a complete one, and how many commits its locked snapshot saw. */
  datatype Note = Note(noted: set<Bound>, marked: bool, saw: bool, snap: nat)

  /** What an action of the transaction adds, when the history is h. */
  ghost function Noting(n: Note, act: Action, h: seq<Txn>): Note {
    match act
    case Begin(_) => Note({}, false, false, 0)
    case Flush(_, g) => if g.zone.Some? && g.zone.value.hasMinMax then n.(noted := n.noted + {ZoneBound(g)}) else n
    case FlushRolledBack(_, b) => n.(noted := n.noted + {b})
    case Retire(_, _) => n.(marked := true)
    case Check(_) => n.(saw := HasComplete(RowsAt(h, |h|)))
    case TakeSnapshot(_) => n.(snap := |h|)
    case _ => n
  }

  ghost function NoteOf(run: seq<State>, acts: seq<Action>, i: nat, t: nat): Note
    requires i <= |acts| < |run|
  {
    if i == 0 then Note({}, false, false, 0)
    else if acts[i - 1].tid != t then NoteOf(run, acts, i - 1, t)
    else Noting(NoteOf(run, acts, i - 1, t), acts[i - 1], run[i - 1].history)
  }

  /** The notes of the committed transactions, in commit order. */
  ghost function Log(run: seq<State>, acts: seq<Action>, i: nat): seq<Note>
    requires i <= |acts| < |run|
  {
    if i == 0 then []
    else if acts[i - 1].Commit? then Log(run, acts, i - 1) + [NoteOf(run, acts, i - 1, acts[i - 1].tid)]
    else Log(run, acts, i - 1)
  }

  /** The zone ranges noted by the commits a .. b - 1. */
  ghost function NotedBetween(log: seq<Note>, a: nat, b: nat): set<Bound>
    requires b <= |log|
  {
    if b <= a then {} else NotedBetween(log, a, b - 1) + log[b - 1].noted
  }

  /** A transaction that replaced rows merged them, rather than recompute. */
  ghost predicate Merged(h: seq<Txn>, n: Note) {
    n.snap <= |h| && !n.marked && n.saw && HasComplete(RowsAt(h, n.snap))
  }

  /** The zone ranges the rows visible after k commits are to span: since the last recompute, those of
      the groups its snapshot saw and of everything noted by the commits its snapshot did not see. */
  ghost function Parts(base: set<Group>, h: seq<Txn>, log: seq<Note>, k: nat): set<Bound>
    requires k <= |h| == |log|
  {
    if k == 0 then {}
    else
      var n, t, before := log[k - 1], h[k - 1], Parts(base, h, log, k - 1);
      if !HasComplete(t.rowsAdded) then before + if n.marked then {} else n.noted
      else if n.snap >= k then {}
      else if Merged(h, n) then before + n.noted
      else ZoneBounds((GroupsAt(base, h, n.snap) + t.added) - t.retired) + NotedBetween(log, n.snap, k - 1)
  }

  // ----- the invariant

  ghost predicate EntryOk(j: nat, t: Txn, n: Note) {
    && (!t.exclusive ==> t.rowsDeleted == {} && !n.marked && !HasComplete(t.rowsAdded) && SameUpper(Bounds(t.rowsAdded), n.noted))
    && (HasComplete(t.rowsAdded) ==> n.snap <= j)
  }

  /** What the replacing row is to span. */
  ghost function Source(s: State, a: Active, n: Note): set<Bound>
    requires n.snap <= |s.history|
  {
    if Merged(s.history, n) then Bounds(RowsAt(s.history, n.snap)) + n.noted else ZoneBounds(OwnGroups(s, n.snap, a.txn))
  }

  ghost predicate RowSpans(s: State, t: nat, a: Active, n: Note) {
    && n.snap <= |s.history| && a.txn.rowsDeleted == RowsAt(s.history, n.snap)
    && exists b :: a.txn.rowsAdded == {Row(t, true, b)} && Spans(b, Source(s, a, n))
  }

  ghost predicate ActiveTight(s: State, t: nat, a: Active, n: Note) {
    && a.marked == n.marked && Spans(PendingBound(a.pending), n.noted)
    && ((a.phase.Ready? && !a.txn.exclusive) || a.sawComplete == n.saw)
    && (a.phase.Snapped? || (a.phase.Ready? && a.txn.exclusive) ==> a.snap == n.snap)
    && (HasComplete(a.txn.rowsAdded) ==> a.phase.Ready? && RowSpans(s, t, a, n))
    && (a.phase.Ready? && a.txn.exclusive && !HasComplete(a.txn.rowsAdded) ==> Unbounded(s, a, n))
  }

  /** The zone maps its snapshot saw cannot bound the column. */
  ghost predicate Unbounded(s: State, a: Active, n: Note) {
    n.snap <= |s.history| && !Recomputable(OwnGroups(s, n.snap, a.txn))
  }

  ghost predicate Tight(run: seq<State>, acts: seq<Action>, i: nat)
    requires i <= |acts| < |run|
  {
    var s, log := run[i], Log(run, acts, i);
    && |log| == |s.history|
    && (forall k: nat | k <= |s.history| :: SameUpper(Bounds(RowsAt(s.history, k)), Parts(s.base, s.history, log, k)))
    && (forall j: nat | j < |log| :: EntryOk(j, s.history[j], log[j]))
    && (forall t | t in s.active :: ActiveTight(s, t, s.active[t], NoteOf(run, acts, i, t)))
  }

  // ----- commits

  lemma {:induction false} PartsStable(base: set<Group>, h: seq<Txn>, log: seq<Note>, t: Txn, n: Note, k: nat)
    requires k <= |h| == |log|
    ensures Parts(base, h + [t], log + [n], k) == Parts(base, h, log, k)
  {
    hide HasComplete, ZoneBounds;
    if k > 0 {
      PartsStable(base, h, log, t, n, k - 1);
      var m := log[k - 1].snap;
      if m <= |h| { PrefixStable(base, h, t, m); }
      if m < k { BetweenStable(log, n, m, k - 1); }
    }
  }

  lemma {:induction false} BetweenStable(log: seq<Note>, n: Note, a: nat, b: nat)
    requires b <= |log|
    ensures NotedBetween(log + [n], a, b) == NotedBetween(log, a, b)
  {
    if a < b { BetweenStable(log, n, a, b - 1); }
  }

  /** The rows plain commits added since commit k span what they noted. */
  lemma {:induction false} PlainRows(h: seq<Txn>, log: seq<Note>, k: nat, m: nat)
    requires k <= m <= |h| == |log| && HistoryOk(h) && forall j: nat | j < |h| :: EntryOk(j, h[j], log[j])
    requires forall j | k <= j < m :: !h[j].exclusive
    ensures SameUpper(Bounds(RowsAt(h, m) - RowsAt(h, k)), NotedBetween(log, k, m))
    ensures RowsAt(h, k) <= RowsAt(h, m)
  {
    hide SameUpper, Upper, TxnOk, HasComplete;
    if k == m {
      assert RowsAt(h, m) - RowsAt(h, k) == {};
      SameNothing();
    } else {
      PlainRows(h, log, k, m - 1);
      var t := h[m - 1];
      assert EntryOk(m - 1, t, log[m - 1]);
      NotYet(h, k, m - 1);
      assert RowsAt(h, m) - RowsAt(h, k) == (RowsAt(h, m - 1) - RowsAt(h, k)) + t.rowsAdded;
      BoundsUnion(RowsAt(h, m - 1) - RowsAt(h, k), t.rowsAdded);
      SameUnion(Bounds(RowsAt(h, m - 1) - RowsAt(h, k)), NotedBetween(log, k, m - 1), Bounds(t.rowsAdded), log[m - 1].noted);
    }
  }

  lemma {:induction false} SameNothing()
    ensures SameUpper(Bounds({}), {})
  {
    BoundsOne(Row(0, true, Empty));
  }

  lemma {:induction false} SameUnion(a: set<Bound>, b: set<Bound>, c: set<Bound>, d: set<Bound>)
    requires SameUpper(a, b) && SameUpper(c, d)
    ensures SameUpper(a + c, b + d)
  {
    UpperUnion(a, c);
    UpperUnion(b, d);
  }

  /** A transaction's rows are not visible before it commits. */
  lemma {:induction false} NotYet(h: seq<Txn>, k: nat, j: nat)
    requires k <= j < |h| && HistoryOk(h)
    ensures h[j].rowsAdded !! RowsAt(h, k)
  {
    assert TxnOk(h[j]);
    forall r | r in h[j].rowsAdded ensures r !in RowsAt(h, k) {
      if r in RowsAt(h, k) { RowOwners(h, k, r); }
    }
  }

  /** What a transaction writes as its own row spans what it noted. */
  lemma {:induction false} OwnRowSpans(t: nat, a: Active, n: Note)
    requires a.marked == n.marked && Spans(PendingBound(a.pending), n.noted)
    ensures SameUpper(Bounds(OwnRow(t, a)), if n.marked then {} else n.noted)
  {
    BoundsOne(Row(t, false, PendingBound(a.pending)));
  }

  /** A commit that replaced nothing. */
  lemma {:induction false} PlainCommitTight(base: set<Group>, h: seq<Txn>, log: seq<Note>, t: Txn, n: Note)
    requires |log| == |h| && SameUpper(Bounds(RowsAt(h, |h|)), Parts(base, h, log, |h|))
    requires t.rowsDeleted == {} && !HasComplete(t.rowsAdded) && SameUpper(Bounds(t.rowsAdded), if n.marked then {} else n.noted)
    ensures SameUpper(Bounds(RowsAt(h + [t], |h| + 1)), Parts(base, h + [t], log + [n], |h| + 1))
  {
    hide HasComplete, SameUpper, Bounds, ZoneBounds;
    PrefixStable(base, h, t, |h|);
    PartsStable(base, h, log, t, n, |h|);
    assert RowsAt(h + [t], |h| + 1) == RowsAt(h, |h|) + t.rowsAdded;
    BoundsUnion(RowsAt(h, |h|), t.rowsAdded);
    SameUnion(Bounds(RowsAt(h, |h|)), Parts(base, h, log, |h|), Bounds(t.rowsAdded), if n.marked then {} else n.noted);
  }

  /** A commit that replaced the rows of its snapshot. */
  lemma {:induction false} ReplaceCommitTight(s: State, log: seq<Note>, t: nat, n: Note)
    requires Inv(s) && InPhase(s, t, Ready) && s.active[t].txn.exclusive && |log| == |s.history|
    requires SameUpper(Bounds(RowsAt(s.history, |s.history|)), Parts(s.base, s.history, log, |s.history|))
    requires forall j: nat | j < |log| :: EntryOk(j, s.history[j], log[j])
    requires ActiveTight(s, t, s.active[t], n) && HasComplete(s.active[t].txn.rowsAdded)
    ensures var h := s.history;
      SameUpper(Bounds(RowsAt(h + [s.active[t].txn], |h| + 1)), Parts(s.base, h + [s.active[t].txn], log + [n], |h| + 1))
  {
    hide Sound, HistoryOk, EntryOk, SameUpper, Spans, Bounds, ZoneBounds, GroupsAt, GoodGroups, PendingOk;
    var h, a := s.history, s.active[t];
    var h', k := h + [a.txn], n.snap;
    assert ActiveOk(s, t, a) && PlainSince(h, k);
    var b :| a.txn.rowsAdded == {Row(t, true, b)} && Spans(b, Source(s, a, n));
    PrefixStable(s.base, h, a.txn, |h|);
    PrefixStable(s.base, h, a.txn, k);
    PartsStable(s.base, h, log, a.txn, n, |h|);
    PlainRows(h, log, k, |h|);
    BetweenStable(log, n, k, |h|);
    var later := RowsAt(h, |h|) - RowsAt(h, k);
    assert RowsAt(h', |h| + 1) == later + {Row(t, true, b)};
    BoundsUnion(later, {Row(t, true, b)});
    BoundsOne(Row(t, true, b));
    if Merged(h, n) {
      assert RowsAt(h, |h|) == RowsAt(h, k) + later;
      BoundsUnion(RowsAt(h, k), later);
      MergeUpper(Bounds(RowsAt(h, k)), Bounds(later), n.noted, b, Parts(s.base, h, log, |h|));
    } else {
      RecomputeUpper(Bounds(later), NotedBetween(log, k, |h|), b, Source(s, a, n));
    }
  }

  lemma {:induction false} RecomputeUpper(later: set<Bound>, noted: set<Bound>, b: Bound, parts: set<Bound>)
    requires SameUpper(later, noted) && Spans(b, parts)
    ensures SameUpper(later + {b}, parts + noted)
  {
    UpperUnion(later, {b});
    UpperUnion(parts, noted);
    OneBound(b, parts);
  }

  lemma {:induction false} OneBound(b: Bound, parts: set<Bound>)
    ensures SameUpper({b}, parts) <==> Spans(b, parts)
  {
    forall d ensures Upper({b}, d) <==> Within(b, d) { assert b in {b}; }
  }

  lemma {:induction false} MergeUpper(old0: set<Bound>, later: set<Bound>, noted: set<Bound>, b: Bound, parts: set<Bound>)
    requires Spans(b, old0 + noted) && SameUpper(old0 + later, parts)
    ensures SameUpper(later + {b}, parts + noted)
  {
    UpperUnion(old0, noted);
    UpperUnion(old0, later);
    UpperUnion(later, {b});
    UpperUnion(parts, noted);
    OneBound(b, old0 + noted);
  }

  // ----- every step

  /** An action touches its own transaction, and a commit adds it to the history. */
  lemma {:induction false} ActsAlone(s: State, act: Action)
    requires Enabled(s, act)
    ensures var s' := Apply(s, act);
      && s'.base == s.base && (act.Commit? ==> act.tid in s.active)
      && s'.history == (if act.Commit? then s.history + [s.active[act.tid].txn] else s.history)
      && forall u | u != act.tid :: (u in s'.active <==> u in s.active) && (u in s.active ==> s'.active[u] == s.active[u])
  {
    hide IsFold, HasComplete, RowsAt, GroupsAt;
  }

  lemma {:induction false} NoteAlone(run: seq<State>, acts: seq<Action>, i: nat, u: nat)
    requires i < |acts| < |run| && u != acts[i].tid
    ensures NoteOf(run, acts, i + 1, u) == NoteOf(run, acts, i, u)
  {
  }

  /** Nothing changes for the transactions that do not act. */
  lemma {:induction false} OthersTight(s: State, s': State, u: nat, a: Active, n: Note, txns: seq<Txn>)
    requires s'.base == s.base && s'.history == s.history + txns && |txns| <= 1 && ActiveTight(s, u, a, n)
    ensures ActiveTight(s', u, a, n)
  {
    hide Spans, HasComplete, ZoneBounds, Bounds, Recomputable;
    if n.snap <= |s.history| {
      if |txns| == 1 { PrefixStable(s.base, s.history, txns[0], n.snap); }
      assert txns == [] || txns == [txns[0]];
      assert s.history + [] == s.history;
      assert Merged(s'.history, n) == Merged(s.history, n);
      assert Source(s', a, n) == Source(s, a, n);
    }
  }

  /** Flushing, and steps that neither flush nor replace. */
  lemma {:induction false} FlushTight(s: State, act: Action, n: Note)
    requires Inv(s) && Enabled(s, act) && (act.Flush? || act.FlushRolledBack?) && ActiveTight(s, act.tid, s.active[act.tid], n)
    ensures var s' := Apply(s, act); ActiveTight(s', act.tid, s'.active[act.tid], Noting(n, act, s.history))
  {
    hide Sound, Spans, HistoryOk;
    var t := act.tid;
    assert ActiveOk(s, t, s.active[t]);
    NoteMore(s.active[t].pending, n.noted, if act.Flush? then ZoneBound(act.group) else act.widened);
  }

  lemma {:induction false} QuietTight(s: State, act: Action, n: Note)
    requires Inv(s) && Enabled(s, act) && (act.Retire? || act.WriteRow? || act.Skip? || act.TakeLock?)
    requires act.tid in s.active && ActiveTight(s, act.tid, s.active[act.tid], n)
    ensures var s' := Apply(s, act); act.tid in s'.active && ActiveTight(s', act.tid, s'.active[act.tid], Noting(n, act, s.history))
  {
    hide Sound, Spans, HistoryOk, Unbounded, GoodGroups, PendingOk, RowSpans, GroupsAt, RowsAt;
    var t := act.tid;
    assert ActiveOk(s, t, s.active[t]);
    var a := s.active[t];
    assert !a.phase.Ready? ==> !HasComplete(a.txn.rowsAdded);
    assert Apply(s, act).active[t].txn.rowsAdded == (if act.WriteRow? then OwnRow(t, a) else a.txn.rowsAdded);
  }

  /** Steps that look at the rows or the groups. */
  lemma {:induction false} LookTight(s: State, act: Action, n: Note)
    requires Inv(s) && Enabled(s, act) && (act.Check? || act.TakeSnapshot? || act.GiveUp?)
    requires act.tid in s.active && ActiveTight(s, act.tid, s.active[act.tid], n)
    ensures var s' := Apply(s, act); act.tid in s'.active && ActiveTight(s', act.tid, s'.active[act.tid], Noting(n, act, s.history))
  {
    hide Sound, Spans, HistoryOk, Recomputable, GoodGroups, PendingOk, RowSpans, GroupsAt, RowsAt;
    var t, h := act.tid, s.history;
    assert ActiveOk(s, t, s.active[t]);
    var a := s.active[t];
    assert !HasComplete(a.txn.rowsAdded);
    if act.Check? { NoCompleteOwn(RowsAt(h, |h|), t, a); }
  }

  /** A transaction that acts, but for a replace. */
  lemma {:induction false} ActorTight(run: seq<State>, acts: seq<Action>, i: nat)
    requires IsRun(run, acts) && i < |acts| && Inv(run[i]) && Tight(run, acts, i) && !acts[i].Replace?
    ensures acts[i].tid in run[i + 1].active ==>
      ActiveTight(run[i + 1], acts[i].tid, run[i + 1].active[acts[i].tid], NoteOf(run, acts, i + 1, acts[i].tid))
  {
    hide Inv, Parts, Log, ActiveTight, SameUpper;
    var s, act, n := run[i], acts[i], NoteOf(run, acts, i, acts[i].tid);
    match act
    case Begin(t) => FreshTight(s, t, n);
    case Flush(_, _) => FlushTight(s, act, n);
    case FlushRolledBack(_, _) => FlushTight(s, act, n);
    case Commit(_) =>
    case Rollback(_) =>
    case Check(_) => LookTight(s, act, n);
    case TakeSnapshot(_) => LookTight(s, act, n);
    case GiveUp(_) => LookTight(s, act, n);
    case _ => QuietTight(s, act, n);
  }

  lemma {:induction false} FreshTight(s: State, t: nat, n: Note)
    requires Enabled(s, Begin(t))
    ensures var s' := Apply(s, Begin(t)); ActiveTight(s', t, s'.active[t], Noting(n, Begin(t), s.history))
  {
  }

  lemma {:induction false} NoteMore(p: Option<Bound>, noted: set<Bound>, b: Bound)
    requires Spans(PendingBound(p), noted)
    ensures Spans(Join(PendingBound(p), b), noted + {b})
  {
    UpperUnion(noted, {b});
    forall d ensures Within(Join(PendingBound(p), b), d) <==> Within(PendingBound(p), d) && Within(b, d) {}
    OneBound(b, {b});
  }

  /** The row of a recompute spans the zone ranges of its groups, the row of a merge the rows it saw. */
  lemma {:induction false} ReplacerTight(s: State, t: nat, b: Bound, n: Note)
    requires Inv(s) && Enabled(s, Action.Replace(t, b)) && ActiveTight(s, t, s.active[t], n)
    ensures ActiveTight(Apply(s, Action.Replace(t, b)), t, Apply(s, Action.Replace(t, b)).active[t], n)
  {
    hide Sound, IsFold, Spans, HasComplete, Upper;
    var a, h, s' := s.active[t], s.history, Apply(s, Action.Replace(t, b));
    assert ActiveOk(s, t, a);
    var a', rows := s'.active[t], OwnRows(s, a.snap, a.txn);
    assert rows == RowsAt(h, a.snap) + OwnRow(t, a);
    NoCompleteOwn(RowsAt(h, a.snap), t, a);
    assert Merged(h, n) == Merges(s, a);
    if Merges(s, a) {
      FoldSpans(b, Bounds(rows));
      BoundsUnion(RowsAt(h, a.snap), OwnRow(t, a));
      OwnRowSpans(t, a, n);
      SwapNoted(b, Bounds(RowsAt(h, a.snap)), Bounds(OwnRow(t, a)), n.noted);
    } else {
      FoldSpans(b, ZoneBounds(OwnGroups(s, a.snap, a.txn)));
    }
    assert OwnGroups(s', n.snap, a'.txn) == OwnGroups(s, n.snap, a.txn);
    OneComplete(Row(t, true, b));
    assert a'.txn.rowsAdded == {Row(t, true, b)} && Spans(b, Source(s', a', n));
    assert RowSpans(s', t, a', n);
  }

  lemma {:induction false} SwapNoted(b: Bound, rows: set<Bound>, own: set<Bound>, noted: set<Bound>)
    requires Spans(b, rows + own) && SameUpper(own, noted)
    ensures Spans(b, rows + noted)
  {
    UpperUnion(rows, own);
    UpperUnion(rows, noted);
  }

  lemma {:induction false} OneComplete(r: Row)
    requires r.complete
    ensures HasComplete({r})
  {
    assert r in {r};
  }

  lemma {:induction false} NoCompleteOwn(rows: set<Row>, t: nat, a: Active)
    ensures HasComplete(rows + OwnRow(t, a)) == HasComplete(rows)
  {
    if HasComplete(rows) {
      var r :| r in rows && r.complete;
      assert r in rows + OwnRow(t, a);
    }
  }

  lemma {:induction false} ActiveStepTight(run: seq<State>, acts: seq<Action>, i: nat, u: nat)
    requires IsRun(run, acts) && i < |acts| && Inv(run[i]) && Tight(run, acts, i) && u in run[i + 1].active
    ensures ActiveTight(run[i + 1], u, run[i + 1].active[u], NoteOf(run, acts, i + 1, u))
  {
    hide Inv, Enabled, Apply, ActiveTight, NoteOf, Log, Parts, SameUpper;
    var s, act := run[i], acts[i];
    if u != act.tid {
      ActsAlone(s, act);
      NoteAlone(run, acts, i, u);
      var txns := if act.Commit? then [s.active[act.tid].txn] else [];
      assert s.history + [] == s.history;
      OthersTight(s, run[i + 1], u, s.active[u], NoteOf(run, acts, i, u), txns);
    } else if act.Replace? {
      ReplacesActive(s, u, act.bound);
      ReplacerTight(s, u, act.bound, NoteOf(run, acts, i, u));
      NoteOfReplace(run, acts, i);
    } else {
      ActorTight(run, acts, i);
    }
  }

  lemma {:induction false} ReplacesActive(s: State, t: nat, b: Bound)
    requires Enabled(s, Action.Replace(t, b))
    ensures t in s.active
  {
  }

  lemma {:induction false} NoteOfReplace(run: seq<State>, acts: seq<Action>, i: nat)
    requires i < |acts| < |run| && acts[i].Replace?
    ensures NoteOf(run, acts, i + 1, acts[i].tid) == NoteOf(run, acts, i, acts[i].tid)
  {
  }

  lemma {:induction false} CommitTight(run: seq<State>, acts: seq<Action>, i: nat)
    requires IsRun(run, acts) && i < |acts| && acts[i].Commit? && Inv(run[i]) && Tight(run, acts, i)
    ensures var s, t, n, log := run[i], acts[i].tid, NoteOf(run, acts, i, acts[i].tid), Log(run, acts, i);
      && t in s.active && EntryOk(|log|, s.active[t].txn, n)
      && SameUpper(Bounds(RowsAt(s.history + [s.active[t].txn], |s.history| + 1)),
                   Parts(s.base, s.history + [s.active[t].txn], log + [n], |s.history| + 1))
  {
    hide Sound, HistoryOk, SameUpper, Parts, Spans, NoteOf, Log, Upper, CoversGroup;
    var s, t, n, log := run[i], acts[i].tid, NoteOf(run, acts, i, acts[i].tid), Log(run, acts, i);
    assert Enabled(s, acts[i]);
    var a := s.active[t];
    assert ActiveOk(s, t, a) && ActiveTight(s, t, a, n);
    assert SameUpper(Bounds(RowsAt(s.history, |s.history|)), Parts(s.base, s.history, log, |s.history|));
    if HasComplete(a.txn.rowsAdded) {
      ReplaceCommitTight(s, log, t, n);
    } else {
      OwnRowSpans(t, a, n);
      PlainCommitTight(s.base, s.history, log, a.txn, n);
    }
  }

  lemma {:induction false} StepTight(run: seq<State>, acts: seq<Action>, i: nat)
    requires IsRun(run, acts) && i < |acts| && Inv(run[i]) && Tight(run, acts, i)
    ensures Tight(run, acts, i + 1)
  {
    hide Inv, Enabled, Apply, ActiveTight, EntryOk, NoteOf, Parts, SameUpper, Bounds;
    var s, s', act := run[i], run[i + 1], acts[i];
    ActsAlone(s, act);
    forall u | u in s'.active ensures ActiveTight(s', u, s'.active[u], NoteOf(run, acts, i + 1, u)) { ActiveStepTight(run, acts, i, u); }
    if act.Commit? {
      CommitTight(run, acts, i);
      var txn, n, log, h := s.active[act.tid].txn, NoteOf(run, acts, i, act.tid), Log(run, acts, i), s.history;
      forall k: nat | k <= |s'.history| ensures SameUpper(Bounds(RowsAt(s'.history, k)), Parts(s'.base, s'.history, log + [n], k)) {
        if k <= |h| {
          PrefixStable(s.base, h, txn, k);
          PartsStable(s.base, h, log, txn, n, k);
        }
      }
      forall j: nat | j < |log| + 1 ensures EntryOk(j, s'.history[j], (log + [n])[j]) {
        assert j < |log| ==> EntryOk(j, h[j], log[j]);
      }
    }
  }

  lemma {:induction false} RunTight(run: seq<State>, acts: seq<Action>, i: nat)
    requires IsRun(run, acts) && run[0].ordered && i < |run|
    ensures Tight(run, acts, i)
  {
    hide Inv, Enabled, Apply;
    if i == 0 {
      SameNothing();
    } else {
      RunTight(run, acts, i - 1);
      RunInv(run, acts, i - 1);
      StepTight(run, acts, i - 1);
    }
  }

  // ----- what follows

  /** The bound a reader folds is no wider than it must be: in every run, for every snapshot and running
      transaction, it spans exactly the zone ranges of the groups the last recompute saw, of everything
      noted by commits since, and of what the reader itself flushed. */
  lemma {:induction false} ReaderBoundIsTight(run: seq<State>, acts: seq<Action>, i: nat, k: nat, t: nat, b: Bound)
    requires IsRun(run, acts) && run[0].ordered && i < |run| && t in run[i].active && k <= |run[i].history|
    requires IsFold(b, Bounds(RowsAt(run[i].history, k)) + {PendingBound(run[i].active[t].pending)})
    ensures |Log(run, acts, i)| == |run[i].history|
    ensures IsFold(b, Parts(run[i].base, run[i].history, Log(run, acts, i), k) + NoteOf(run, acts, i, t).noted)
  {
    hide Parts, Log, NoteOf, IsFold, SameUpper, Spans;
    RunTight(run, acts, i);
    var s, n, log := run[i], NoteOf(run, acts, i, t), Log(run, acts, i);
    var rows, own, parts := Bounds(RowsAt(s.history, k)), {PendingBound(s.active[t].pending)}, Parts(s.base, s.history, log, k);
    assert ActiveTight(s, t, s.active[t], n);
    OneBound(PendingBound(s.active[t].pending), n.noted);
    SameUnion(rows, parts, own, n.noted);
    FoldSpans(b, rows + own);
    SameSpans(b, rows + own, parts + n.noted);
    FoldSpans(b, parts + n.noted);
  }

  lemma {:induction false} SameSpans(b: Bound, x: set<Bound>, y: set<Bound>)
    requires Spans(b, x) && SameUpper(x, y)
    ensures Spans(b, y)
  {
  }

  /** A transaction that retired groups and commits with nothing committed since its snapshot leaves one
      row, and that row is the hull of the zone ranges of the groups now visible: a retire shrinks the
      bound to what is left. */
  lemma {:induction false} RetireShrinks(run: seq<State>, acts: seq<Action>, i: nat) returns (b: Bound)
    requires IsRun(run, acts) && run[0].ordered && i < |acts| && acts[i].Commit?
    requires var n := NoteOf(run, acts, i, acts[i].tid); n.marked && n.snap == |run[i].history|
    requires var s' := run[i + 1]; Recomputable(GroupsAt(s'.base, s'.history, |s'.history|))
    ensures var s' := run[i + 1];
      && RowsAt(s'.history, |s'.history|) == {Row(acts[i].tid, true, b)}
      && IsFold(b, ZoneBounds(GroupsAt(s'.base, s'.history, |s'.history|)))
  {
    hide Sound, SameUpper, IsFold, Spans, Parts, Log, NoteOf, HistoryOk;
    RunTight(run, acts, i);
    RunInv(run, acts, i);
    var s, s', t, n := run[i], run[i + 1], acts[i].tid, NoteOf(run, acts, i, acts[i].tid);
    assert Enabled(s, acts[i]);
    var a, h := s.active[t], s.history;
    assert ActiveOk(s, t, a) && ActiveTight(s, t, a, n);
    PrefixStable(s.base, h, a.txn, |h|);
    assert GroupsAt(s'.base, s'.history, |h| + 1) == OwnGroups(s, |h|, a.txn);
    assert a.txn.exclusive && HasComplete(a.txn.rowsAdded);
    b :| a.txn.rowsAdded == {Row(t, true, b)} && Spans(b, Source(s, a, n));
    assert RowsAt(s'.history, |h| + 1) == {Row(t, true, b)};
    FoldSpans(b, ZoneBounds(OwnGroups(s, |h|, a.txn)));
  }

  /** Commits that replace nothing add what they noted, and no more: the bound of a later snapshot is the
      join of an earlier one and their zone ranges. */
  lemma {:induction false} LaterBound(run: seq<State>, acts: seq<Action>, i: nat, k: nat, m: nat, b: Bound, c: Bound)
    requires IsRun(run, acts) && run[0].ordered && i < |run| && k <= m <= |run[i].history|
    requires forall j | k <= j < m :: !run[i].history[j].exclusive
    requires IsFold(b, Bounds(RowsAt(run[i].history, k))) && IsFold(c, Bounds(RowsAt(run[i].history, m)))
    ensures |Log(run, acts, i)| == |run[i].history|
    ensures IsFold(c, {b} + NotedBetween(Log(run, acts, i), k, m))
  {
    hide Parts, Log, IsFold, SameUpper, Spans;
    RunTight(run, acts, i);
    RunInv(run, acts, i);
    var h, log := run[i].history, Log(run, acts, i);
    PlainRows(h, log, k, m);
    var rows, later := Bounds(RowsAt(h, k)), RowsAt(h, m) - RowsAt(h, k);
    assert RowsAt(h, m) == RowsAt(h, k) + later;
    BoundsUnion(RowsAt(h, k), later);
    FoldSpans(b, rows);
    OneBound(b, rows);
    SameSym({b}, rows);
    SameUnion(rows, {b}, Bounds(later), NotedBetween(log, k, m));
    FoldSpans(c, Bounds(RowsAt(h, m)));
    SameSpans(c, Bounds(RowsAt(h, m)), {b} + NotedBetween(log, k, m));
    FoldSpans(c, {b} + NotedBetween(log, k, m));
  }

  lemma {:induction false} SameSym(x: set<Bound>, y: set<Bound>)
    requires SameUpper(x, y)
    ensures SameUpper(y, x)
  {
  }

  /** Action c is the look a writer takes at the rows after writing its own; it finds few, and a complete
      one among them. */
  ghost predicate FewRows(run: seq<State>, acts: seq<Action>, c: nat, t: nat)
    requires |acts| < |run|
  {
    && c < |acts| && acts[c] == Check(t) && t in run[c].active
    && (var rows := OwnRows(run[c], |run[c].history|, run[c].active[t].txn); HasComplete(rows) && |rows| <= EXTENT_MERGE_ABOVE)
  }

  /** A writer commits without replacing rows only if they are few and one is complete, or it had nothing
      to write, or another holds the lock. */
  lemma {:induction false} KeepsRowsFew(run: seq<State>, acts: seq<Action>, i: nat, t: nat) returns (c: nat)
    requires IsRun(run, acts) && i < |run| && InPhase(run[i], t, Ready) && !run[i].active[t].txn.exclusive
    requires run[0].ordered
    ensures c < i && (acts[c] == Skip(t) || FewRows(run, acts, c, t))
  {
    hide IsFold, RowsAt, GroupsAt, Inv;
    assert Enabled(run[i - 1], acts[i - 1]) && run[i] == Apply(run[i - 1], acts[i - 1]);
    RunInv(run, acts, i - 1);
    if acts[i - 1].tid != t {
      ActsAlone(run[i - 1], acts[i - 1]);
      c := KeepsRowsFew(run, acts, i - 1, t);
    } else {
      c := i - 1;
      if acts[c].Replace? || acts[c].GiveUp? { LockedReplaces(run[c], acts[c]); }
    }
  }

  /** Replacing and giving up are for the holder of the lock. */
  lemma {:induction false} LockedReplaces(s: State, act: Action)
    requires Inv(s) && Enabled(s, act) && (act.Replace? || act.GiveUp?)
    ensures s.active[act.tid].txn.exclusive
  {
    assert ActiveOk(s, act.tid, s.active[act.tid]);
  }

  /** extent_merge_column and extent_recompute_column over the rows and groups of the locked snapshot:
      the action they amount to, and there is no other. */
  method ReplaceColumn(ghost s: State, ghost t: nat, marked: bool, sawComplete: bool, rows: seq<Row>, groups: seq<Group>) returns (r: Option<Bound>)
    requires t in s.active && s.active[t].phase.Snapped? && s.active[t].snap <= |s.history|
    requires marked == s.active[t].marked && sawComplete == s.active[t].sawComplete
    requires (set x | x in rows) == OwnRows(s, s.active[t].snap, s.active[t].txn)
    requires (set g | g in groups) == OwnGroups(s, s.active[t].snap, s.active[t].txn)
    ensures r.Some? ==> forall b :: Enabled(s, Action.Replace(t, b)) <==> b == r.value
    ensures r.Some? <==> !Enabled(s, Action.GiveUp(t))
    ensures r.None? ==> forall b :: !Enabled(s, Action.Replace(t, b))
  {
    hide IsFold, HasComplete;
    var complete, b := FoldRows(rows);
    if !marked && sawComplete && complete {
      ghost var parts := Bounds(set x | x in rows);
      forall c | IsFold(c, parts) ensures c == b { FoldUnique(b, c, parts); }
      return Some(b);
    }
    r := RecomputeColumn(groups);
    if r.Some? {
      ghost var parts := ZoneBounds(set g | g in groups);
      forall c | IsFold(c, parts) ensures c == r.value { FoldUnique(r.value, c, parts); }
    }
    assert forall g :: g in groups <==> g in (set g | g in groups);
  }
}
