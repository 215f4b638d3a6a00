module Extent {
  /**
   src/columnar_extent.c: the per-column extent. A bound on every value of a column is kept as
   rows that writers add (partial) and that recomputes or merges replace (complete), under
   snapshot isolation. One storage and one column are modelled; values are integers under
   the column type's comparison. The commit history is a sequence and a snapshot is a prefix
   of it, together with what the reading transaction itself has done.
   */

  import opened Prelude

  // ----- bounds

  datatype Bound = Empty | Range(lo: int, hi: int)

  predicate Covers(b: Bound, v: int) {
    b.Range? && b.lo <= v <= b.hi
  }

  predicate Within(a: Bound, b: Bound) {
    a.Range? ==> b.Range? && b.lo <= a.lo && a.hi <= b.hi
  }

  /** The pairwise step of every fold loop: keep the smaller minimum and the larger maximum. */
  function Join(a: Bound, b: Bound): (c: Bound)
    ensures Within(a, c) && Within(b, c)
    ensures forall d :: Within(a, d) && Within(b, d) ==> Within(c, d)
  {
    if a.Empty? then b else if b.Empty? then a
    else Range(if b.lo < a.lo then b.lo else a.lo, if b.hi > a.hi then b.hi else a.hi)
  }

  /** Least bound over a set of bounds: what a fold loop computes in any order. */
  ghost predicate IsFold(b: Bound, parts: set<Bound>) {
    (forall p | p in parts :: Within(p, b)) &&
    (forall d :: (forall p | p in parts :: Within(p, d)) ==> Within(b, d))
  }

  // ----- groups, zone maps and extent rows

  datatype Zone = Zone(hasMinMax: bool, valueCount: nat, lo: int, hi: int)

  datatype Group = Group(id: nat, zone: Option<Zone>, values: set<int>)

  /** A zone map tells the truth about its group. */
  ghost predicate Truthful(g: Group) {
    g.zone.Some? ==>
      var z := g.zone.value;
      (z.valueCount == 0 ==> g.values == {}) &&
      (z.hasMinMax ==> forall v | v in g.values :: z.lo <= v <= z.hi)
  }

  /** A zone map exists, with minimum and maximum whenever the group has values. */
  ghost predicate WellZoned(g: Group) {
    g.zone.Some? && (g.zone.value.hasMinMax || g.zone.value.valueCount == 0)
  }

  function ZoneBound(g: Group): Bound {
    if g.zone.Some? && g.zone.value.hasMinMax then Range(g.zone.value.lo, g.zone.value.hi) else Empty
  }

  /** `owner` is the inserting transaction: it stands for the row's tuple id. */
  datatype Row = Row(owner: nat, complete: bool, bound: Bound)

  ghost function Bounds(rows: set<Row>): set<Bound> {
    set r | r in rows :: r.bound
  }

  ghost function ZoneBounds(gs: set<Group>): set<Bound> {
    set g | g in gs :: ZoneBound(g)
  }

  ghost predicate HasComplete(rows: set<Row>) {
    exists r :: r in rows && r.complete
  }

  ghost predicate CoversGroup(b: Bound, g: Group) {
    forall v | v in g.values :: Covers(b, v)
  }

  // ----- the fold loops

  /** Fold of the first k bounds, in list order. */
  function FoldTo(bs: seq<Bound>, k: nat): Bound
    requires k <= |bs|
  {
    if k == 0 then Empty else Join(FoldTo(bs, k - 1), bs[k - 1])
  }

  lemma {:induction false} FoldToLeast(bs: seq<Bound>, k: nat)
    requires k <= |bs|
    ensures forall j | 0 <= j < k :: Within(bs[j], FoldTo(bs, k))
    ensures forall d :: (forall j | 0 <= j < k :: Within(bs[j], d)) ==> Within(FoldTo(bs, k), d)
  {
    if k > 0 { FoldToLeast(bs, k - 1); }
  }

  /** A fold over a list of bounds is the least bound of their set, whatever the order. */
  lemma {:induction false} FoldIsLeast(bs: seq<Bound>)
    ensures IsFold(FoldTo(bs, |bs|), set b | b in bs)
  {
    FoldToLeast(bs, |bs|);
    var parts := set b | b in bs;
    forall d | forall p | p in parts :: Within(p, d) ensures Within(FoldTo(bs, |bs|), d) {
      forall j | 0 <= j < |bs| ensures Within(bs[j], d) { assert bs[j] in parts; }
    }
  }

  lemma {:induction false} FoldUnique(a: Bound, b: Bound, parts: set<Bound>)
    requires IsFold(a, parts) && IsFold(b, parts)
    ensures a == b
  {
    assert Within(a, b) && Within(b, a);
  }

  /** The catalog scan may return the rows in any order and any number of times: lists of the same
      bounds fold to the same bound. */
  lemma {:induction false} OrderIrrelevant(bs: seq<Bound>, cs: seq<Bound>)
    requires (set b | b in bs) == set c | c in cs
    ensures FoldTo(bs, |bs|) == FoldTo(cs, |cs|)
  {
    FoldIsLeast(bs);
    FoldIsLeast(cs);
    FoldUnique(FoldTo(bs, |bs|), FoldTo(cs, |cs|), set b | b in bs);
  }

  /** The min/max update every loop of the file makes for one candidate bound. */
  method Widen(b: Bound, c: Bound) returns (r: Bound)
    ensures r == Join(b, c)
  {
    if c.Empty? { return b; }
    var lo, hi := c.lo, c.hi;
    if b.Range? && b.lo <= c.lo { lo := b.lo; }
    if b.Range? && b.hi >= c.hi { hi := b.hi; }
    r := Range(lo, hi);
  }

  /** PgColumnarExtentBound and extent_merge_column: fold the visible rows. */
  method FoldRows(rows: seq<Row>) returns (complete: bool, b: Bound)
    ensures complete <==> HasComplete(set r | r in rows)
    ensures IsFold(b, Bounds(set r | r in rows))
  {
    complete, b := false, Empty;
    ghost var bs := seq(|rows|, i requires 0 <= i < |rows| => rows[i].bound);
    for i := 0 to |rows|
      invariant complete <==> exists k :: 0 <= k < i && rows[k].complete
      invariant b == FoldTo(bs, i)
    {
      complete := complete || rows[i].complete;
      b := Widen(b, rows[i].bound);
    }
    FoldIsLeast(bs);
    RowBounds(rows, bs);
  }

  lemma {:induction false} RowBounds(rows: seq<Row>, bs: seq<Bound>)
    requires |bs| == |rows| && forall i | 0 <= i < |rows| :: bs[i] == rows[i].bound
    ensures (set x | x in bs) == Bounds(set r | r in rows)
  {
    forall x | x in Bounds(set r | r in rows) ensures x in bs {
      var r :| r in rows && r.bound == x;
      var k :| 0 <= k < |rows| && rows[k] == r;
      assert bs[k] == x;
    }
    forall x | x in bs ensures x in Bounds(set r | r in rows) {
      var k :| 0 <= k < |bs| && bs[k] == x;
      assert rows[k] in rows;
    }
  }

  lemma {:induction false} GroupBounds(groups: seq<Group>, bs: seq<Bound>)
    requires |bs| == |groups| && forall i | 0 <= i < |groups| :: bs[i] == ZoneBound(groups[i])
    ensures (set x | x in bs) == ZoneBounds(set g | g in groups)
  {
    forall x | x in ZoneBounds(set g | g in groups) ensures x in bs {
      var g :| g in groups && ZoneBound(g) == x;
      var k :| 0 <= k < |groups| && groups[k] == g;
      assert bs[k] == x;
    }
    forall x | x in bs ensures x in ZoneBounds(set g | g in groups) {
      var k :| 0 <= k < |bs| && bs[k] == x;
      assert groups[k] in groups;
    }
  }

  /** extent_recompute_column: fold the zone maps of the visible groups, or give up. */
  method RecomputeColumn(groups: seq<Group>) returns (r: Option<Bound>)
    ensures r.Some? <==> forall g | g in groups :: WellZoned(g)
    ensures r.Some? ==> IsFold(r.value, ZoneBounds(set g | g in groups))
  {
    var zones := 0;
    for i := 0 to |groups|
      invariant 0 <= zones <= i
      invariant zones == i <==> forall k | 0 <= k < i :: groups[k].zone.Some?
    {
      if groups[i].zone.Some? { zones := zones + 1; }
    }
    if zones != |groups| {
      ghost var k :| 0 <= k < |groups| && groups[k].zone.None?;
      assert groups[k] in groups;
      return None;
    }
    var b := Empty;
    ghost var bs := seq(|groups|, i requires 0 <= i < |groups| => ZoneBound(groups[i]));
    for i := 0 to |groups|
      invariant forall k | 0 <= k < i :: WellZoned(groups[k])
      invariant b == FoldTo(bs, i)
    {
      var z := groups[i].zone.value;
      if !z.hasMinMax {
        if z.valueCount != 0 {
          assert groups[i] in groups && !WellZoned(groups[i]);
          return None;
        }
      } else {
        b := Widen(b, Range(z.lo, z.hi));
      }
    }
    FoldIsLeast(bs);
    GroupBounds(groups, bs);
    r := Some(b);
  }

  /** One storage's and column's pending extent of the running transaction. */
  class PendingExtent {
    var pending: Option<Bound>

    constructor ()
      ensures pending == None
    {
      pending := None;
    }

    /** PgColumnarExtentNote: fold one flushed whole-chunk zone map. */
    method Note(z: Zone)
      modifies this
      ensures z.hasMinMax ==> pending == Some(Join(old(PendingBound(pending)), Range(z.lo, z.hi)))
      ensures !z.hasMinMax ==> pending == old(pending)
    {
      if !z.hasMinMax { return; }
      if pending.None? {
        pending := Some(Range(z.lo, z.hi));
      } else {
        var b := Widen(pending.value, Range(z.lo, z.hi));
        pending := Some(b);
      }
    }

    /** PgColumnarExtentBound: the rows the snapshot sees, plus this transaction's own fold. */
    method ExtentBound(rows: seq<Row>) returns (trusted: bool, b: Bound)
      ensures trusted <==> HasComplete(set r | r in rows)
      ensures trusted ==> IsFold(b, Bounds(set r | r in rows) + {PendingBound(pending)})
    {
      trusted, b := FoldRows(rows);
      if trusted && pending.Some? {
        b := Widen(b, pending.value);
      }
      FoldPlus(Bounds(set r | r in rows));
    }

    lemma {:induction false} FoldPlus(parts: set<Bound>)
      ensures forall b | IsFold(b, parts) :: IsFold(Join(b, PendingBound(pending)), parts + {PendingBound(pending)})
    {
      var p0 := PendingBound(pending);
      forall b | IsFold(b, parts) ensures IsFold(Join(b, p0), parts + {p0}) {
        forall p | p in parts + {p0} ensures Within(p, Join(b, p0)) {}
        forall d | forall p | p in parts + {p0} :: Within(p, d) ensures Within(Join(b, p0), d) {
          assert forall p | p in parts :: p in parts + {p0};
          assert p0 in parts + {p0};
        }
      }
    }
  }

  function PendingBound(p: Option<Bound>): Bound {
    if p.Some? then p.value else Empty
  }
}
