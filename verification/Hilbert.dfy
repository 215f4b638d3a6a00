/**
 The Hilbert curve through the n-dimensional grid of side 2^b, by recursion on b, and the
 properties that define it. This is the independent reference for the in-place key code:
 the top bits of a point choose a cell, cells are visited in Gray-code order, and inside a
 cell the curve is the same curve one level down, seen through a symmetry of the cube and
 walked backwards in odd cells.
 */
module Hilbert {
  import opened Bits

  type Point = seq<nat>

  predicate InGrid(p: Point, b: nat) {
    |p| > 0 && forall j | 0 <= j < |p| :: p[j] < Pow2(b)
  }

  // ----- cells of one level: Gray code rank of the n top bits

  /** Exclusive or of the first k bits. */
  predicate Parity(e: seq<bool>, k: nat)
    requires k <= |e|
  {
    k > 0 && Parity(e, k - 1) != e[k - 1]
  }

  /** Position of a cell in Gray-code order, by its first k bits, coordinate 0 most significant. */
  function Rank(e: seq<bool>, k: nat): (w: nat)
    requires k <= |e|
    ensures w < Pow2(k)
  {
    if k == 0 then 0 else 2 * Rank(e, k - 1) + BoolBit(Parity(e, k))
  }

  predicate Odd(e: seq<bool>) { Parity(e, |e|) }

  function Place(e: seq<bool>): (w: nat)
    ensures w < Pow2(|e|)
  {
    Rank(e, |e|)
  }

  predicate SamePrefix(e: seq<bool>, f: seq<bool>, k: nat) {
    k <= |e| && k <= |f| && forall j | 0 <= j < k :: e[j] == f[j]
  }

  lemma {:induction false} PrefixRank(e: seq<bool>, f: seq<bool>, k: nat)
    requires SamePrefix(e, f, k)
    ensures Parity(e, k) == Parity(f, k) && Rank(e, k) == Rank(f, k)
  {
    if k > 0 { PrefixRank(e, f, k - 1); }
  }

  /** The cell of a given rank: the inverse of `Place`. */
  function Unrank(w: nat, n: nat): (e: seq<bool>)
    ensures |e| == n
  {
    if n == 0 then [] else
      var pre := Unrank(w / 2, n - 1);
      pre + [Parity(pre, n - 1) != (w % 2 == 1)]
  }

  lemma {:induction false} PlaceUnrank(w: nat, n: nat)
    requires w < Pow2(n)
    ensures Place(Unrank(w, n)) == w
  {
    if n > 0 {
      PlaceUnrank(w / 2, n - 1);
      PrefixRank(Unrank(w, n), Unrank(w / 2, n - 1), n - 1);
    }
  }

  lemma {:induction false} RankInjective(e: seq<bool>, f: seq<bool>, k: nat)
    requires k <= |e| == |f| && Rank(e, k) == Rank(f, k)
    ensures SamePrefix(e, f, k)
  {
    if k > 0 {
      RankInjective(e, f, k - 1);
      PrefixRank(e, f, k - 1);
    }
  }

  lemma {:induction false} UnrankPlace(e: seq<bool>)
    ensures Unrank(Place(e), |e|) == e
  {
    PlaceUnrank(Place(e), |e|);
    RankInjective(e, Unrank(Place(e), |e|), |e|);
  }

  // ----- the symmetry a cell applies to the coordinates below it

  function Minus(a: nat, b: nat): nat {
    if a >= b then a - b else 0
  }

  /** Invert coordinate 0 when the cell bit is set, else exchange it with coordinate i. */
  function SymStep(p: Point, bit: bool, i: nat, top: nat): (q: Point)
    requires i < |p|
    ensures |q| == |p|
  {
    if bit then p[0 := Minus(top, p[0])] else p[0 := p[i]][i := p[0]]
  }

  predicate Below(p: Point, top: nat) {
    forall j | 0 <= j < |p| :: p[j] <= top
  }

  /** The first k steps of the symmetry of cell e, coordinate 0 first. */
  function Sym(e: seq<bool>, p: Point, top: nat, k: nat): (q: Point)
    requires k <= |e| == |p|
    ensures |q| == |p|
  {
    if k == 0 then p else SymStep(Sym(e, p, top, k - 1), e[k - 1], k - 1, top)
  }

  function Unsym(e: seq<bool>, p: Point, top: nat, k: nat): (q: Point)
    requires k <= |e| == |p|
    ensures |q| == |p|
    decreases k
  {
    if k == 0 then p else Unsym(e, SymStep(p, e[k - 1], k - 1, top), top, k - 1)
  }

  lemma {:induction false} SymBelow(e: seq<bool>, p: Point, top: nat, k: nat)
    requires k <= |e| == |p| && Below(p, top)
    ensures Below(Sym(e, p, top, k), top)
  {
    if k > 0 { SymBelow(e, p, top, k - 1); }
  }

  lemma {:induction false} UnsymBelow(e: seq<bool>, p: Point, top: nat, k: nat)
    requires k <= |e| == |p| && Below(p, top)
    ensures Below(Unsym(e, p, top, k), top)
    decreases k
  {
    if k > 0 { UnsymBelow(e, SymStep(p, e[k - 1], k - 1, top), top, k - 1); }
  }

  /** The first k steps leave the coordinates from k on alone. */
  lemma {:induction false} SymTail(e: seq<bool>, p: Point, top: nat, k: nat, j: nat)
    requires k <= |e| == |p| && 0 < k <= j < |p|
    ensures Sym(e, p, top, k)[j] == p[j]
  {
    if k > 1 { SymTail(e, p, top, k - 1, j); } else { assert Sym(e, p, top, 0) == p; }
  }

  lemma {:induction false} SymStepTwice(p: Point, bit: bool, i: nat, top: nat)
    requires i < |p| && Below(p, top)
    ensures SymStep(SymStep(p, bit, i, top), bit, i, top) == p
  {
  }

  lemma {:induction false} UnsymSym(e: seq<bool>, p: Point, top: nat, k: nat)
    requires k <= |e| == |p| && Below(p, top)
    ensures Unsym(e, Sym(e, p, top, k), top, k) == p
  {
    if k > 0 {
      SymBelow(e, p, top, k - 1);
      SymStepTwice(Sym(e, p, top, k - 1), e[k - 1], k - 1, top);
      UnsymSym(e, p, top, k - 1);
    }
  }

  lemma {:induction false} SymUnsym(e: seq<bool>, p: Point, top: nat, k: nat)
    requires k <= |e| == |p| && Below(p, top)
    ensures Sym(e, Unsym(e, p, top, k), top, k) == p
    decreases k
  {
    if k > 0 {
      SymUnsym(e, SymStep(p, e[k - 1], k - 1, top), top, k - 1);
      SymStepTwice(p, e[k - 1], k - 1, top);
    }
  }

  // ----- the curve

  // Cell arithmetic by repeated addition, so that no proof needs to multiply two variables.

  /** h / m */
  function Quot(h: nat, m: nat): nat
    requires m > 0
  {
    if h < m then 0 else 1 + Quot(h - m, m)
  }

  /** h % m */
  function Rem(h: nat, m: nat): (r: nat)
    requires m > 0
    ensures r < m
  {
    if h < m then h else Rem(h - m, m)
  }

  lemma {:induction false} QuotRemTimes(w: nat, k: nat, m: nat)
    requires k < m
    ensures Quot(Times(w, m) + k, m) == w && Rem(Times(w, m) + k, m) == k
  {
    if w > 0 { QuotRemTimes(w - 1, k, m); }
  }

  lemma {:induction false} TimesQuotRem(h: nat, m: nat)
    requires m > 0
    ensures Times(Quot(h, m), m) + Rem(h, m) == h
  {
    if h >= m { TimesQuotRem(h - m, m); }
  }

  lemma {:induction false} CellBound(w: nat, k: nat, a: nat, m: nat)
    requires w < a && k < m
    ensures Times(w, m) + k < Times(a, m)
  {
    TimesMono(w + 1, a, m);
  }

  lemma {:induction false} SplitIndex(w: nat, k: nat, w': nat, k': nat, m: nat)
    requires k < m && k' < m && Times(w, m) + k == Times(w', m) + k'
    ensures w == w' && k == k'
  {
    QuotRemTimes(w, k, m);
    QuotRemTimes(w', k', m);
  }

  lemma {:induction false} CellNumber(h: nat, a: nat, m: nat)
    requires m > 0 && h < Times(a, m)
    ensures Quot(h, m) < a
  {
    TimesQuotRem(h, m);
    if Quot(h, m) >= a { TimesMono(a, Quot(h, m), m); }
  }

  lemma {:induction false} ConsecutiveCells(w: nat, k: nat, w': nat, k': nat, m: nat)
    requires k < m && k' < m && Times(w', m) + k' == Times(w, m) + k + 1
    ensures (w == w' && k' == k + 1) || (w' == w + 1 && k == m - 1 && k' == 0)
  {
    if k + 1 < m {
      SplitIndex(w', k', w, k + 1, m);
    } else {
      SplitIndex(w', k', w + 1, 0, m);
    }
  }

  /** Number of points of an n-dimensional grid of side 2^b. */
  function Cells(n: nat, b: nat): (m: nat)
    ensures m >= 1
  {
    if b == 0 then 1 else
      TimesMono(1, Pow2(n), Cells(n, b - 1));
      Times(Pow2(n), Cells(n, b - 1))
  }

  function TopBits(p: Point, half: nat): (e: seq<bool>)
    ensures |e| == |p|
  {
    seq(|p|, j requires 0 <= j < |p| => p[j] >= half)
  }

  function LowPart(p: Point, half: nat): (q: Point)
    ensures |q| == |p|
  {
    seq(|p|, j requires 0 <= j < |p| => if p[j] >= half then p[j] - half else p[j])
  }

  /** Walk a cell backwards when its rank is odd. */
  function Walk(odd: bool, r: nat, m: nat): (k: nat)
    requires r < m
    ensures k < m
  {
    if odd then m - 1 - r else r
  }

  /** The cell a point lies in. */
  function Cell(p: Point, b: nat): (e: seq<bool>)
    requires b > 0
    ensures |e| == |p|
  {
    TopBits(p, Pow2(b - 1))
  }

  lemma {:induction false} LowPartBelow(p: Point, b: nat)
    requires b > 0 && InGrid(p, b)
    ensures Below(LowPart(p, Pow2(b - 1)), Pow2(b - 1) - 1)
  {
  }

  /** The point as the curve of its cell sees it, one level down. */
  function Inner(p: Point, b: nat): (q: Point)
    requires b > 0
    ensures |q| == |p|
  {
    Sym(Cell(p, b), LowPart(p, Pow2(b - 1)), Pow2(b - 1) - 1, |p|)
  }

  lemma {:induction false} InnerInGrid(p: Point, b: nat)
    requires b > 0 && InGrid(p, b)
    ensures InGrid(Inner(p, b), b - 1)
  {
    LowPartBelow(p, b);
    SymBelow(Cell(p, b), LowPart(p, Pow2(b - 1)), Pow2(b - 1) - 1, |p|);
  }

  /** The Hilbert index of a point. */
  function Index(p: Point, b: nat): (h: nat)
    ensures h < Cells(|p|, b)
    decreases b
  {
    if b == 0 then 0 else
      var m := Cells(|p|, b - 1);
      var e := Cell(p, b);
      var k := Walk(Odd(e), Index(Inner(p, b), b - 1), m);
      CellBound(Place(e), k, Pow2(|p|), m);
      Times(Place(e), m) + k
  }

  /** A point from its cell and its position inside the cell. */
  function Join(e: seq<bool>, low: Point, half: nat): (p: Point)
    requires |e| == |low|
    ensures |p| == |e|
  {
    seq(|e|, j requires 0 <= j < |e| => low[j] + if e[j] then half else 0)
  }

  lemma {:induction false} JoinSplit(p: Point, half: nat)
    ensures Join(TopBits(p, half), LowPart(p, half), half) == p
  {
  }

  lemma {:induction false} SplitJoin(e: seq<bool>, low: Point, half: nat)
    requires |e| == |low| && forall j | 0 <= j < |low| :: low[j] < half
    ensures TopBits(Join(e, low, half), half) == e
    ensures LowPart(Join(e, low, half), half) == low
  {
  }

  /** The point of cell e whose inner view is `inner`. */
  function PlaceIn(e: seq<bool>, inner: Point, b: nat): (p: Point)
    requires b > 0 && |e| == |inner|
    ensures |p| == |e|
  {
    Join(e, Unsym(e, inner, Pow2(b - 1) - 1, |e|), Pow2(b - 1))
  }

  lemma {:induction false} PlaceInInner(p: Point, b: nat)
    requires b > 0 && InGrid(p, b)
    ensures PlaceIn(Cell(p, b), Inner(p, b), b) == p
  {
    LowPartBelow(p, b);
    UnsymSym(Cell(p, b), LowPart(p, Pow2(b - 1)), Pow2(b - 1) - 1, |p|);
    JoinSplit(p, Pow2(b - 1));
  }

  lemma {:induction false} InnerPlaceIn(e: seq<bool>, inner: Point, b: nat)
    requires b > 0 && |e| == |inner| && InGrid(inner, b - 1)
    ensures InGrid(PlaceIn(e, inner, b), b)
    ensures Cell(PlaceIn(e, inner, b), b) == e && Inner(PlaceIn(e, inner, b), b) == inner
  {
    UnsymBelow(e, inner, Pow2(b - 1) - 1, |e|);
    SplitJoin(e, Unsym(e, inner, Pow2(b - 1) - 1, |e|), Pow2(b - 1));
    SymUnsym(e, inner, Pow2(b - 1) - 1, |e|);
  }

  /** The point of a given index: the inverse of `Index`. */
  function PointAt(h: nat, n: nat, b: nat): (p: Point)
    ensures |p| == n
    decreases b
  {
    if b == 0 then seq(n, j => 0) else
      var m := Cells(n, b - 1);
      var e := Unrank(Quot(h, m), n);
      PlaceIn(e, PointAt(Walk(Odd(e), Rem(h, m), m), n, b - 1), b)
  }

  /** Every point is on the curve at its own index. */
  lemma {:induction false} PointAtIndex(p: Point, b: nat)
    requires InGrid(p, b)
    ensures PointAt(Index(p, b), |p|, b) == p
    decreases b
  {
    hide Place, Cell, Inner, Odd;
    if b > 0 {
      var m, e := Cells(|p|, b - 1), Cell(p, b);
      var r := Index(Inner(p, b), b - 1);
      QuotRemTimes(Place(e), Walk(Odd(e), r, m), m);
      UnrankPlace(e);
      InnerInGrid(p, b);
      PointAtIndex(Inner(p, b), b - 1);
      PlaceInInner(p, b);
    }
  }

  /** Every index below 2^(nb) is taken, by the point the inverse names. */
  lemma {:induction false} IndexPointAt(h: nat, n: nat, b: nat)
    requires n > 0 && h < Cells(n, b)
    ensures InGrid(PointAt(h, n, b), b) && Index(PointAt(h, n, b), b) == h
    decreases b
  {
    if b > 0 {
      var m := Cells(n, b - 1);
      var w, k := Quot(h, m), Rem(h, m);
      TimesQuotRem(h, m);
      CellNumber(h, Pow2(n), m);
      PlaceUnrank(w, n);
      var e := Unrank(w, n);
      IndexPointAt(Walk(Odd(e), k, m), n, b - 1);
      InnerPlaceIn(e, PointAt(Walk(Odd(e), k, m), n, b - 1), b);
    }
  }

  // ----- the two ends of the curve

  /** The vector [a, 0, ..., 0] pulled back through the first k steps of a cell's symmetry. */
  function Corner(e: seq<bool>, a: nat, top: nat, k: nat): (c: Point)
    requires 1 <= k <= |e| && a <= top
    ensures |c| == k
    decreases k
  {
    if k == 1 then [if e[0] then top - a else a]
    else if e[k - 1] then Corner(e, top - a, top, k - 1) + [0]
    else Corner(e, 0, top, k - 1) + [a]
  }

  predicate IsCorner(p: Point, a: nat, k: nat)
    requires 1 <= k <= |p|
  {
    p[0] == a && forall j | 1 <= j < k :: p[j] == 0
  }

  predicate AgreeBelow(p: Point, q: Point, k: nat) {
    k <= |p| && k <= |q| && forall j | 0 <= j < k :: p[j] == q[j]
  }

  lemma {:induction false} CornerPullback(e: seq<bool>, p: Point, a: nat, top: nat, k: nat)
    requires 1 <= k <= |e| == |p| && a <= top && Below(p, top)
    requires IsCorner(Sym(e, p, top, k), a, k)
    ensures AgreeBelow(p, Corner(e, a, top, k), k)
    decreases k
  {
    if k == 1 {
      assert Sym(e, p, top, 0) == p;
    } else {
      var q, s := Sym(e, p, top, k - 1), Sym(e, p, top, k);
      SymTail(e, p, top, k - 1, k - 1);
      SymBelow(e, p, top, k - 1);
      assert s == SymStep(q, e[k - 1], k - 1, top);
      forall j | 1 <= j < k - 1 ensures q[j] == 0 { assert s[j] == 0 && q[j] == s[j]; }
      if e[k - 1] {
        CornerPullback(e, p, top - a, top, k - 1);
        assert q[k - 1] == s[k - 1] == 0;
      } else {
        assert q[k - 1] == a && q[0] == s[k - 1] == 0;
        CornerPullback(e, p, 0, top, k - 1);
      }
    }
  }

  lemma {:induction false} CornerPrefix(e: seq<bool>, f: seq<bool>, a: nat, top: nat, k: nat)
    requires 1 <= k && a <= top && SamePrefix(e, f, k)
    ensures Corner(e, a, top, k) == Corner(f, a, top, k)
    decreases k
  {
    if k > 1 {
      if e[k - 1] { CornerPrefix(e, f, top - a, top, k - 1); }
      else { CornerPrefix(e, f, 0, top, k - 1); }
    }
  }

  lemma {:induction false} RankZero(e: seq<bool>, k: nat)
    requires k <= |e| && Rank(e, k) == 0
    ensures !Parity(e, k) && forall j | 0 <= j < k :: !e[j]
  {
    if k > 0 { RankZero(e, k - 1); }
  }

  lemma {:induction false} RankMax(e: seq<bool>, k: nat)
    requires 1 <= k <= |e| && Rank(e, k) == Pow2(k) - 1
    ensures Parity(e, k) && e[0] && forall j | 1 <= j < k :: !e[j]
  {
    if k > 1 { RankMax(e, k - 1); } else { assert Rank(e, 0) == 0 && !Parity(e, 0); }
  }

  lemma {:induction false} CornerZero(e: seq<bool>, top: nat, k: nat)
    requires 1 <= k <= |e| && forall j | 1 <= j < |e| :: !e[j]
    ensures IsCorner(Corner(e, 0, top, k), if e[0] then top else 0, k)
  {
    if k > 1 { CornerZero(e, top, k - 1); }
  }

  /** A point whose inner view is the corner [a, 0, ..., 0] is that corner pulled back. */
  lemma {:induction false} InnerCorner(p: Point, b: nat, a: nat)
    requires b > 0 && InGrid(p, b) && a < Pow2(b - 1) && IsCorner(Inner(p, b), a, |p|)
    ensures LowPart(p, Pow2(b - 1)) == Corner(Cell(p, b), a, Pow2(b - 1) - 1, |p|)
  {
    var low := LowPart(p, Pow2(b - 1));
    LowPartBelow(p, b);
    SymBelow(Cell(p, b), low, Pow2(b - 1) - 1, |p|);
    CornerPullback(Cell(p, b), low, a, Pow2(b - 1) - 1, |p|);
  }

  /** The curve starts at the origin. */
  lemma {:induction false} StartPoint(p: Point, b: nat)
    requires InGrid(p, b) && Index(p, b) == 0
    ensures IsCorner(p, 0, |p|)
    decreases b
  {
    if b > 0 {
      var e, m := Cell(p, b), Cells(|p|, b - 1);
      SplitIndex(Place(e), Walk(Odd(e), Index(Inner(p, b), b - 1), m), 0, 0, m);
      RankZero(e, |e|);
      InnerInGrid(p, b);
      StartPoint(Inner(p, b), b - 1);
      InnerCorner(p, b, 0);
      CornerZero(e, Pow2(b - 1) - 1, |p|);
      JoinSplit(p, Pow2(b - 1));
    }
  }

  /** The curve ends at the far corner of axis 0. */
  lemma {:induction false} EndPoint(p: Point, b: nat)
    requires InGrid(p, b) && Index(p, b) == Cells(|p|, b) - 1
    ensures IsCorner(p, Pow2(b) - 1, |p|)
    decreases b
  {
    if b > 0 {
      var e, m := Cell(p, b), Cells(|p|, b - 1);
      SplitIndex(Place(e), Walk(Odd(e), Index(Inner(p, b), b - 1), m), Pow2(|p|) - 1, m - 1, m);
      RankMax(e, |e|);
      InnerInGrid(p, b);
      StartPoint(Inner(p, b), b - 1);
      InnerCorner(p, b, 0);
      CornerZero(e, Pow2(b - 1) - 1, |p|);
      JoinSplit(p, Pow2(b - 1));
    }
  }

  // ----- consecutive indices are unit-adjacent

  predicate NextTo(x: nat, y: nat) { x == y + 1 || y == x + 1 }

  /** p and q differ in exactly one coordinate, d, and there by exactly one. */
  predicate AdjacentAt(p: Point, q: Point, d: nat) {
    |p| == |q| && d < |p| && NextTo(p[d], q[d]) && forall j | 0 <= j < |p| && j != d :: p[j] == q[j]
  }

  ghost predicate Adjacent(p: Point, q: Point) {
    exists d: nat :: AdjacentAt(p, q, d)
  }

  lemma {:induction false} AdjacentSym(p: Point, q: Point)
    requires Adjacent(p, q)
    ensures Adjacent(q, p)
  {
    var d: nat :| AdjacentAt(p, q, d);
    assert AdjacentAt(q, p, d);
  }

  lemma {:induction false} SymIsometry(e: seq<bool>, p: Point, q: Point, top: nat, k: nat)
    requires k <= |e| == |p| == |q| && Below(p, top) && Below(q, top)
    requires Adjacent(Sym(e, p, top, k), Sym(e, q, top, k))
    ensures Adjacent(p, q)
  {
    if k > 0 {
      var p1, q1 := Sym(e, p, top, k - 1), Sym(e, q, top, k - 1);
      var p2, q2 := Sym(e, p, top, k), Sym(e, q, top, k);
      var d: nat :| AdjacentAt(p2, q2, d);
      SymBelow(e, p, top, k - 1);
      SymBelow(e, q, top, k - 1);
      var d1 := if e[k - 1] then d else if d == 0 then k - 1 else if d == k - 1 then 0 else d;
      forall j | 0 <= j < |p1| && j != d1 ensures p1[j] == q1[j] {
        var j2 := if e[k - 1] then j else if j == 0 then k - 1 else if j == k - 1 then 0 else j;
        assert p2[j2] == q2[j2];
      }
      assert AdjacentAt(p1, q1, d1);
      SymIsometry(e, p, q, top, k - 1);
    }
  }

  /** In their first k axes, cells e and f differ in one axis d only, and the corners u of e
      and v of f face each other across that axis. */
  predicate Facing(e: seq<bool>, f: seq<bool>, u: Point, v: Point, top: nat, d: nat, k: nat)
    requires k <= |e| && k <= |f| && k <= |u| && k <= |v|
  {
    d < k && e[d] != f[d]
    && u[d] == (if e[d] then 0 else top) && v[d] == (if f[d] then 0 else top)
    && (forall j | 0 <= j < k && j != d :: e[j] == f[j] && u[j] == v[j])
  }

  /** The corner the curve leaves a cell by, and enters the next one by. */
  function Gate(odd: bool, top: nat): (a: nat)
    ensures a <= top
  {
    if odd then 0 else top
  }

  lemma {:induction false} CrossCells(e: seq<bool>, f: seq<bool>, top: nat, k: nat) returns (d: nat)
    requires 1 <= k <= |e| == |f| && Rank(f, k) == Rank(e, k) + 1
    ensures Parity(e, k) != Parity(f, k)
    ensures var a := Gate(Parity(e, k), top);
      Facing(e, f, Corner(e, a, top, k), Corner(f, a, top, k), top, d, k)
  {
    if !Parity(e, k) {
      d := k - 1;
      RankInjective(e, f, k - 1);
      PrefixRank(e, f, k - 1);
      if k > 1 { CornerPrefix(e, f, 0, top, k - 1); }
    } else {
      assert k > 1;
      d := CrossCells(e, f, top, k - 1);
    }
  }

  /** A grid of one cell has no consecutive indices. */
  lemma {:induction false} BitsLeft(p: Point, q: Point, b: nat)
    requires |p| == |q| && InGrid(p, b) && InGrid(q, b) && Index(p, b) != Index(q, b)
    ensures b > 0 && |p| > 0
  {
  }

  /** Consecutive indices are unit-adjacent: they differ in one coordinate, by one. */
  lemma {:induction false} UnitSteps(p: Point, q: Point, b: nat)
    requires |p| == |q| && InGrid(p, b) && InGrid(q, b)
    requires Index(q, b) == Index(p, b) + 1
    ensures Adjacent(p, q)
    decreases b
  {
    hide Cell, Inner, Adjacent, InGrid, Cells;
    BitsLeft(p, q, b);
    var m, e, f := Cells(|p|, b - 1), Cell(p, b), Cell(q, b);
    var ip, iq := Inner(p, b), Inner(q, b);
    InnerInGrid(p, b);
    InnerInGrid(q, b);
    ConsecutiveCells(Place(e), Walk(Odd(e), Index(ip, b - 1), m),
                     Place(f), Walk(Odd(f), Index(iq, b - 1), m), m);
    if Place(e) == Place(f) {
      RankInjective(e, f, |e|);
      assert e == f;
      if Odd(e) {
        UnitSteps(iq, ip, b - 1);
        AdjacentSym(iq, ip);
      } else {
        UnitSteps(ip, iq, b - 1);
      }
      SameCellAdjacent(p, q, b);
    } else {
      NextIsOpposite(e, f);
      NextCell(p, q, b);
    }
  }

  lemma {:induction false} NextCell(p: Point, q: Point, b: nat)
    requires b > 0 && |p| == |q| && InGrid(p, b) && InGrid(q, b)
    requires Place(Cell(q, b)) == Place(Cell(p, b)) + 1
    requires var gate := if Odd(Cell(p, b)) then 0 else Cells(|p|, b - 1) - 1;
      Index(Inner(p, b), b - 1) == gate == Index(Inner(q, b), b - 1)
    ensures Adjacent(p, q)
  {
    var odd := Odd(Cell(p, b));
    GateCorner(p, b, odd);
    GateCorner(q, b, odd);
    NextCellAdjacent(p, q, b, Gate(odd, Pow2(b - 1) - 1));
  }

  lemma {:induction false} NextIsOpposite(e: seq<bool>, f: seq<bool>)
    requires |e| == |f| > 0 && Place(f) == Place(e) + 1
    ensures Odd(f) != Odd(e)
  {
  }

  lemma {:induction false} GateCorner(p: Point, b: nat, odd: bool)
    requires b > 0 && InGrid(p, b)
    requires Index(Inner(p, b), b - 1) == if odd then 0 else Cells(|p|, b - 1) - 1
    ensures IsCorner(Inner(p, b), Gate(odd, Pow2(b - 1) - 1), |p|)
  {
    InnerInGrid(p, b);
    if odd { StartPoint(Inner(p, b), b - 1); } else { EndPoint(Inner(p, b), b - 1); }
  }

  lemma {:induction false} SameCellAdjacent(p: Point, q: Point, b: nat)
    requires b > 0 && |p| == |q| && InGrid(p, b) && InGrid(q, b)
    requires Cell(p, b) == Cell(q, b) && Adjacent(Inner(p, b), Inner(q, b))
    ensures Adjacent(p, q)
  {
    var half := Pow2(b - 1);
    var lp, lq := LowPart(p, half), LowPart(q, half);
    LowPartBelow(p, b);
    LowPartBelow(q, b);
    SymIsometry(Cell(p, b), lp, lq, half - 1, |p|);
    var d: nat :| AdjacentAt(lp, lq, d);
    JoinSplit(p, half);
    JoinSplit(q, half);
    assert AdjacentAt(p, q, d);
  }

  lemma {:induction false} NextCellAdjacent(p: Point, q: Point, b: nat, a: nat)
    requires b > 0 && |p| == |q| && InGrid(p, b) && InGrid(q, b)
    requires Place(Cell(q, b)) == Place(Cell(p, b)) + 1
    requires a == Gate(Odd(Cell(p, b)), Pow2(b - 1) - 1)
    requires IsCorner(Inner(p, b), a, |p|) && IsCorner(Inner(q, b), a, |p|)
    ensures Adjacent(p, q)
  {
    hide Inner, Rank, Corner, Gate, IsCorner;
    var half := Pow2(b - 1);
    InnerCorner(p, b, a);
    InnerCorner(q, b, a);
    var d := CrossCells(Cell(p, b), Cell(q, b), half - 1, |p|);
    JoinSplit(p, half);
    JoinSplit(q, half);
    assert AdjacentAt(p, q, d);
  }

  // ----- coarser grids see prefixes of the index

  lemma {:induction false} TimesAssoc(w: nat, c: nat, k: nat)
    ensures Times(w, Times(c, k)) == Times(Times(w, c), k)
  {
    if w > 0 {
      TimesAssoc(w - 1, c, k);
      TimesAdd(c, Times(w - 1, c), k);
    }
  }

  lemma {:induction false} CellsSplit(n: nat, a: nat, b: nat)
    ensures Cells(n, a + b) == Times(Cells(n, a), Cells(n, b))
  {
    if a > 0 {
      CellsSplit(n, a - 1, b);
      TimesAssoc(Pow2(n), Cells(n, a - 1), Cells(n, b));
    } else {
      assert Times(1, Cells(n, b)) == Cells(n, b) + Times(0, Cells(n, b));
    }
  }

  lemma {:induction false} CellsLast(n: nat, b: nat)
    requires b > 0
    ensures Cells(n, b) == Times(Cells(n, b - 1), Pow2(n))
  {
    CellsSplit(n, b - 1, 1);
    TimesIsMul(Pow2(n), 1);
    assert Cells(n, 1) == Times(Pow2(n), 1);
  }

  lemma {:induction false} QuotShift(w: nat, c: nat, k: nat, h: nat)
    requires k > 0
    ensures Quot(Times(w, Times(c, k)) + h, k) == Times(w, c) + Quot(h, k)
  {
    TimesAssoc(w, c, k);
    TimesQuotRem(h, k);
    TimesAdd(Times(w, c), Quot(h, k), k);
    QuotRemTimes(Times(w, c) + Quot(h, k), Rem(h, k), k);
  }

  lemma {:induction false} QuotWalk(odd: bool, h: nat, c: nat, k: nat)
    requires k > 0 && h < Times(c, k)
    ensures Quot(h, k) < c
    ensures Quot(Walk(odd, h, Times(c, k)), k) == Walk(odd, Quot(h, k), c)
  {
    CellNumber(h, c, k);
    if odd {
      TimesQuotRem(h, k);
      TimesAdd(c - 1 - Quot(h, k), Quot(h, k) + 1, k);
      QuotRemTimes(c - 1 - Quot(h, k), k - 1 - Rem(h, k), k);
    }
  }

  lemma {:induction false} QuotQuot(h: nat, k: nat, l: nat)
    requires k > 0 && l > 0
    ensures Times(l, k) > 0 && Quot(h, Times(l, k)) == Quot(Quot(h, k), l)
  {
    TimesMono(1, l, k);
    assert Times(1, k) == k + Times(0, k);
    var a, r := Quot(h, k), Rem(h, k);
    var q, s := Quot(a, l), Rem(a, l);
    TimesQuotRem(h, k);
    TimesQuotRem(a, l);
    TimesAdd(Times(q, l), s, k);
    TimesAssoc(q, l, k);
    CellBound(s, r, l, k);
    QuotRemTimes(q, Times(s, k) + r, Times(l, k));
  }

  /** Every coordinate halved: the point of the next coarser grid. */
  function Halve(p: Point): (q: Point)
    ensures |q| == |p|
  {
    seq(|p|, j requires 0 <= j < |p| => p[j] / 2)
  }

  lemma {:induction false} SymHalve(e: seq<bool>, p: Point, t: nat, k: nat)
    requires k <= |e| == |p| && Below(p, 2 * t + 1)
    ensures Sym(e, Halve(p), t, k) == Halve(Sym(e, p, 2 * t + 1, k))
  {
    if k > 0 {
      SymHalve(e, p, t, k - 1);
      SymBelow(e, p, 2 * t + 1, k - 1);
    }
  }

  lemma {:induction false} InnerHalve(p: Point, b: nat)
    requires b > 1 && InGrid(p, b)
    ensures Cell(Halve(p), b - 1) == Cell(p, b)
    ensures Inner(Halve(p), b - 1) == Halve(Inner(p, b))
  {
    LowPartBelow(p, b);
    var low := LowPart(p, Pow2(b - 1));
    assert LowPart(Halve(p), Pow2(b - 2)) == Halve(low);
    SymHalve(Cell(p, b), low, Pow2(b - 2) - 1, |p|);
  }

  /** Halving every coordinate drops the last n bits of the index. */
  lemma {:induction false} HalveIndex(p: Point, b: nat)
    requires b > 0 && InGrid(p, b)
    ensures InGrid(Halve(p), b - 1)
    ensures Quot(Index(p, b), Pow2(|p|)) == Index(Halve(p), b - 1)
    decreases b
  {
    var n, e := |p|, Cell(p, b);
    if b == 1 {
      TimesIsMul(Place(e), 1);
    } else {
      var c, k := Cells(n, b - 2), Pow2(n);
      CellsLast(n, b - 1);
      var r := Index(Inner(p, b), b - 1);
      QuotShift(Place(e), c, k, Walk(Odd(e), r, Times(c, k)));
      QuotWalk(Odd(e), r, c, k);
      InnerHalve(p, b);
      InnerInGrid(p, b);
      HalveIndex(Inner(p, b), b - 1);
    }
  }

  /** The cube of side 2^d that holds p, as a point of the coarser grid. */
  function Cube(p: Point, d: nat): (q: Point)
    ensures |q| == |p|
    decreases d
  {
    if d == 0 then p else Cube(Halve(p), d - 1)
  }

  /** Dropping the low d bits of every coordinate drops the low n * d bits of the index. */
  lemma {:induction false} CubeIndex(p: Point, b: nat, d: nat)
    requires d <= b && InGrid(p, b)
    ensures InGrid(Cube(p, d), b - d)
    ensures Quot(Index(p, b), Cells(|p|, d)) == Index(Cube(p, d), b - d)
    decreases d
  {
    if d == 0 {
      QuotRemTimes(Index(p, b), 0, 1);
      TimesIsMul(Index(p, b), 1);
    } else {
      HalveIndex(p, b);
      CubeIndex(Halve(p), b - 1, d - 1);
      CellsLast(|p|, d);
      QuotQuot(Index(p, b), Pow2(|p|), Cells(|p|, d - 1));
    }
  }

  lemma {:induction false} IndexInjective(p: Point, q: Point, b: nat)
    requires |p| == |q| && InGrid(p, b) && InGrid(q, b) && Index(p, b) == Index(q, b)
    ensures p == q
  {
    PointAtIndex(p, b);
    PointAtIndex(q, b);
  }

  lemma {:induction false} QuotMono(x: nat, y: nat, m: nat)
    requires m > 0 && x <= y
    ensures Quot(x, m) <= Quot(y, m)
  {
    if x >= m { QuotMono(x - m, y - m, m); }
  }

  /** The prefix of the index names the cube. */
  lemma {:induction false} CubeFromPrefix(p: Point, b: nat, d: nat)
    requires d <= b && InGrid(p, b)
    ensures Cube(p, d) == PointAt(Quot(Index(p, b), Cells(|p|, d)), |p|, b - d)
  {
    hide Index, PointAt, Quot, InGrid, Cells;
    CubeIndex(p, b, d);
    PointAtIndex(Cube(p, d), b - d);
  }

  /** Two points share a cube exactly when their indices share the prefix. */
  lemma {:induction false} CubeByIndex(p: Point, q: Point, b: nat, d: nat)
    requires d <= b && |p| == |q| && InGrid(p, b) && InGrid(q, b)
    ensures Cube(p, d) == Cube(q, d)
      <==> Quot(Index(p, b), Cells(|p|, d)) == Quot(Index(q, b), Cells(|p|, d))
  {
    hide Index, PointAt, Quot, InGrid, Cells;
    if Cube(p, d) == Cube(q, d) {
      CubeIndex(p, b, d);
      CubeIndex(q, b, d);
    } else {
      CubeFromPrefix(p, b, d);
      CubeFromPrefix(q, b, d);
    }
  }

  /** Every dyadic cube is one contiguous run of the curve: an index between two indices
      of the cube is in the cube. */
  lemma {:induction false} CubeIsContiguous(p: Point, q: Point, z: Point, b: nat, d: nat)
    requires d <= b && |p| == |q| == |z| && InGrid(p, b) && InGrid(q, b) && InGrid(z, b)
    requires Cube(p, d) == Cube(q, d) && Index(p, b) <= Index(z, b) <= Index(q, b)
    ensures Cube(z, d) == Cube(p, d)
  {
    CubeByIndex(p, q, b, d);
    CubeByIndex(z, p, b, d);
    QuotMono(Index(p, b), Index(z, b), Cells(|p|, d));
    QuotMono(Index(z, b), Index(q, b), Cells(|p|, d));
  }

  /** In one dimension the curve is the identity. */
  lemma {:induction false} OneDimension(x: nat, b: nat)
    requires x < Pow2(b)
    ensures Index([x], b) == x && Cells(1, b) == Pow2(b)
    decreases b
  {
    if b > 0 {
      var half := Pow2(b - 1);
      var low := if x >= half then x - half else x;
      var y := if x >= half then half - 1 - low else low;
      assert Pow2(1) == 2 && Times(2, half) == half + Times(1, half) && Times(1, half) == half + Times(0, half);
      var e := Cell([x], b);
      assert e == [x >= half] && LowPart([x], half) == [low];
      assert Parity(e, 1) == e[0] && !Parity(e, 0) && Rank(e, 0) == 0;
      assert Sym(e, [low], half - 1, 0) == [low];
      assert Inner([x], b) == [y];
      OneDimension(y, b - 1);
    }
  }
}
