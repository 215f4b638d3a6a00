/**
 src/columnar_curve.c: the in-place Hilbert transpose of n ordinals of b bits (the source
 fixes b at 64) and the bit interleaver that turns it into a byte key. The two loops are
 proved to compute the big-endian expansion of the Hilbert index of module `Hilbert`.
 */
module Curve {
  import opened Bits
  import opened Hilbert

  type Words = seq<nat>

  // ----- word identities used by the loops

  /** 2^q - 1, the `P` of the inverse-undo loop. */
  function Ones(q: nat): nat { Pow2(q) - 1 }

  lemma {:induction false} BitPow2(q: nat, i: nat)
    ensures Bit(Pow2(q), i) == (i == q)
  {
    if q == 0 {
      if i > 0 { BitZero(i - 1); }
    } else if i > 0 {
      BitPow2(q - 1, i - 1);
    }
  }

  lemma {:induction false} BitOnes(q: nat, i: nat)
    ensures Bit(Ones(q), i) == (i < q)
  {
    if q == 0 {
      BitZero(i);
    } else if i > 0 {
      assert Ones(q) / 2 == Ones(q - 1);
      BitOnes(q - 1, i - 1);
    }
  }

  /** `X & Q` is non-zero exactly when bit q is set. */
  lemma {:induction false} AndPow2(v: nat, q: nat)
    ensures (And(v, Pow2(q)) != 0) == Bit(v, q)
  {
    BitAnd(v, Pow2(q), q);
    BitPow2(q, q);
    if !Bit(v, q) {
      forall i: nat ensures Bit(And(v, Pow2(q)), i) == Bit(0, i) {
        BitAnd(v, Pow2(q), i);
        BitPow2(q, i);
        BitZero(i);
      }
      BitExt(And(v, Pow2(q)), 0);
    } else {
      BitZero(q);
    }
  }

  lemma {:induction false} LowFlip(v: nat, q: nat)
    ensures Low(Xor(v, Ones(q)), q) == Ones(q) - Low(v, q)
  {
    LowBound(v, q);
    if q > 0 {
      assert Ones(q) / 2 == Ones(q - 1) && Ones(q) % 2 == 1;
      assert Xor(v, Ones(q)) / 2 == Xor(v / 2, Ones(q - 1));
      LowFlip(v / 2, q - 1);
    }
  }

  /** The low bits `exchange` swaps: t = (a ^ b) & P, then a ^ t. */
  function Exchanged(a: nat, b: nat, q: nat): nat {
    Xor(a, And(Xor(a, b), Ones(q)))
  }

  lemma {:induction false} ExchangedBits(a: nat, b: nat, q: nat, i: nat)
    ensures Bit(Exchanged(a, b, q), i) == if i < q then Bit(b, i) else Bit(a, i)
  {
    BitXor(a, And(Xor(a, b), Ones(q)), i);
    BitAnd(Xor(a, b), Ones(q), i);
    BitXor(a, b, i);
    BitOnes(q, i);
  }

  lemma {:induction false} ExchangedLow(a: nat, b: nat, q: nat)
    ensures Low(Exchanged(a, b, q), q) == Low(b, q)
  {
    forall i: nat ensures Bit(Low(Exchanged(a, b, q), q), i) == Bit(Low(b, q), i) {
      BitLow(Exchanged(a, b, q), q, i);
      BitLow(b, q, i);
      ExchangedBits(a, b, q, i);
    }
    BitExt(Low(Exchanged(a, b, q), q), Low(b, q));
  }

  lemma {:induction false} XorCommutes(a: nat, b: nat)
    ensures Xor(a, b) == Xor(b, a)
  {
    forall i: nat ensures Bit(Xor(a, b), i) == Bit(Xor(b, a), i) {
      BitXor(a, b, i);
      BitXor(b, a, i);
    }
    BitExt(Xor(a, b), Xor(b, a));
  }

  lemma {:induction false} LowTopBit(v: nat, b: nat)
    requires b > 0
    ensures Low(v, b) == Low(v, b - 1) + if Bit(v, b - 1) then Pow2(b - 1) else 0
  {
    if b > 1 { LowTopBit(v / 2, b - 1); }
  }

  // ----- the inverse-undo loop, one word operation at a time

  function Step(x: Words, q: nat, i: nat): (y: Words)
    requires i < |x|
    ensures |y| == |x|
  {
    if Bit(x[i], q) then x[0 := Xor(x[0], Ones(q))]
    else if i == 0 then x
    else x[0 := Exchanged(x[0], x[i], q)][i := Exchanged(x[i], x[0], q)]
  }

  function Round(x: Words, q: nat, k: nat): (y: Words)
    requires k <= |x|
    ensures |y| == |x|
  {
    if k == 0 then x else Step(Round(x, q, k - 1), q, k - 1)
  }

  /** Rounds q, q - 1, ..., 1. */
  function Undo(x: Words, q: nat): (y: Words)
    ensures |y| == |x|
    decreases q
  {
    if q == 0 then x else Undo(Round(x, q, |x|), q - 1)
  }

  /** Bit r of every word. */
  function Level(x: Words, r: nat): (e: seq<bool>)
    ensures |e| == |x|
  {
    seq(|x|, j requires 0 <= j < |x| => Bit(x[j], r))
  }

  function Lows(x: Words, b: nat): (p: Point)
    ensures |p| == |x|
  {
    seq(|x|, j requires 0 <= j < |x| => Low(x[j], b))
  }

  lemma {:induction false} StepHigh(x: Words, q: nat, i: nat, r: nat)
    requires i < |x| && r >= q
    ensures Level(Step(x, q, i), r) == Level(x, r)
  {
    BitXor(x[0], Ones(q), r);
    BitOnes(q, r);
    ExchangedBits(x[0], x[i], q, r);
    ExchangedBits(x[i], x[0], q, r);
  }

  lemma {:induction false} StepLow(x: Words, q: nat, i: nat)
    requires i < |x|
    ensures Lows(Step(x, q, i), q) == SymStep(Lows(x, q), Bit(x[i], q), i, Ones(q))
  {
    LowFlip(x[0], q);
    LowBound(x[0], q);
    ExchangedLow(x[0], x[i], q);
    ExchangedLow(x[i], x[0], q);
  }

  lemma {:induction false} RoundHigh(x: Words, q: nat, k: nat, r: nat)
    requires k <= |x| && r >= q
    ensures Level(Round(x, q, k), r) == Level(x, r)
  {
    if k > 0 {
      RoundHigh(x, q, k - 1, r);
      StepHigh(Round(x, q, k - 1), q, k - 1, r);
    }
  }

  lemma {:induction false} RoundLow(x: Words, q: nat, k: nat)
    requires k <= |x|
    ensures Lows(Round(x, q, k), q) == Sym(Level(x, q), Lows(x, q), Ones(q), k)
  {
    if k > 0 {
      RoundLow(x, q, k - 1);
      RoundHigh(x, q, k - 1, q);
      StepLow(Round(x, q, k - 1), q, k - 1);
      assert Level(Round(x, q, k - 1), q)[k - 1] == Level(x, q)[k - 1];
    }
  }

  lemma {:induction false} UndoHigh(x: Words, q: nat, r: nat)
    requires r >= q
    ensures Level(Undo(x, q), r) == Level(x, r)
    decreases q
  {
    if q > 0 {
      RoundHigh(x, q, |x|, r);
      UndoHigh(Round(x, q, |x|), q - 1, r);
    }
  }

  lemma {:induction false} LevelIsCell(x: Words, b: nat)
    requires b > 0
    ensures Cell(Lows(x, b), b) == Level(x, b - 1)
    ensures LowPart(Lows(x, b), Pow2(b - 1)) == Lows(x, b - 1)
  {
    var p, half := Lows(x, b), Pow2(b - 1);
    forall j | 0 <= j < |x|
      ensures (p[j] >= half) == Bit(x[j], b - 1)
      ensures (if p[j] >= half then p[j] - half else p[j]) == Low(x[j], b - 1)
    {
      LowTopBit(x[j], b);
      LowBound(x[j], b - 1);
    }
    assert LowPart(p, half) == Lows(x, b - 1);
  }

  /** The Hilbert index read off the levels of the undone words. */
  function LevelIndex(u: Words, b: nat): (h: nat)
    ensures h < Cells(|u|, b)
  {
    if b == 0 then 0 else
      var e, m := Level(u, b - 1), Cells(|u|, b - 1);
      CellBound(Place(e), Walk(Odd(e), LevelIndex(u, b - 1), m), Pow2(|u|), m);
      Times(Place(e), m) + Walk(Odd(e), LevelIndex(u, b - 1), m)
  }

  lemma {:induction false} UndoIndexStep(x: Words, u: Words, b: nat)
    requires b > 0 && |u| == |x| && Level(u, b - 1) == Level(x, b - 1)
    requires LevelIndex(u, b - 1) == Index(Inner(Lows(x, b), b), b - 1)
    ensures LevelIndex(u, b) == Index(Lows(x, b), b)
  {
    LevelIsCell(x, b);
  }

  lemma {:induction false} InnerIsRound(x: Words, b: nat)
    requires b > 0
    ensures Inner(Lows(x, b), b) == Lows(Round(x, b - 1, |x|), b - 1)
  {
    LevelIsCell(x, b);
    RoundLow(x, b - 1, |x|);
  }

  /** Each round is the symmetry of the cell it has just settled. */
  lemma {:induction false} UndoIndex(x: Words, b: nat)
    requires b > 0
    ensures LevelIndex(Undo(x, b - 1), b) == Index(Lows(x, b), b)
    decreases b
  {
    UndoHigh(x, b - 1, b - 1);
    if b > 1 {
      InnerIsRound(x, b);
      UndoIndex(Round(x, b - 1, |x|), b - 1);
    }
    UndoIndexStep(x, Undo(x, b - 1), b);
  }

  // ----- Gray encoding and the final exclusive or

  /** The Gray loop: every word xored with the already encoded word before it. */
  function Gray(x: Words, k: nat): (y: Words)
    requires 1 <= k <= |x|
    ensures |y| == |x|
  {
    if k == 1 then x else Gray(x, k - 1)[k - 1 := Xor(x[k - 1], Gray(x, k - 1)[k - 2])]
  }

  lemma {:induction false} GrayBits(x: Words, k: nat, j: nat, r: nat)
    requires 1 <= k <= |x| && j < |x|
    ensures Bit(Gray(x, k)[j], r) == if j < k then Parity(Level(x, r), j + 1) else Bit(x[j], r)
    decreases k
  {
    if k == 1 {
      if j == 0 { assert !Parity(Level(x, r), 0); }
    } else if j != k - 1 {
      GrayBits(x, k - 1, j, r);
    } else {
      GrayBits(x, k - 1, k - 2, r);
      BitXor(x[k - 1], Gray(x, k - 1)[k - 2], r);
    }
  }

  /** The t loop: xor of Q - 1 over the set bits Q = 2^s of v with s from b - 1 down to q. */
  function Fold(v: nat, q: nat, b: nat): nat
    decreases b - q
  {
    if q >= b then 0
    else if Bit(v, q) then Xor(Fold(v, q + 1, b), Ones(q)) else Fold(v, q + 1, b)
  }

  /** Whether level r is complemented: an odd number of odd cells above it. */
  predicate Turned(u: Words, r: nat, b: nat)
    decreases b - r
  {
    r + 1 < b && Turned(u, r + 1, b) != Odd(Level(u, r + 1))
  }

  lemma {:induction false} FoldBits(v: nat, q: nat, b: nat, r: nat)
    requires r < q
    ensures Bit(Fold(v, q, b), r) == (q < b && Bit(Fold(v, q + 1, b), r) != Bit(v, q))
  {
    if q >= b {
      BitZero(r);
    } else {
      BitXor(Fold(v, q + 1, b), Ones(q), r);
      BitOnes(q, r);
    }
  }

  /** Bit r of the fold counts the set bits above r only. */
  lemma {:induction false} FoldAbove(v: nat, q: nat, b: nat, r: nat)
    requires 1 <= q <= r + 1
    ensures Bit(Fold(v, q, b), r) == Bit(Fold(v, r + 1, b), r)
    decreases r + 1 - q
  {
    if q <= r {
      FoldAbove(v, q + 1, b, r);
      if q < b {
        BitXor(Fold(v, q + 1, b), Ones(q), r);
        BitOnes(q, r);
      } else {
        BitZero(r);
      }
    }
  }

  /** Below its lowest contributing bit the fold has equal bits. */
  lemma {:induction false} FoldBelow(v: nat, q: nat, b: nat, r: nat)
    requires r + 2 <= q
    ensures Bit(Fold(v, q, b), r) == Bit(Fold(v, q, b), r + 1)
    decreases b - q
  {
    FoldBits(v, q, b, r);
    FoldBits(v, q, b, r + 1);
    if q < b { FoldBelow(v, q + 1, b, r); }
  }

  lemma {:induction false} FoldTurned(u: Words, v: nat, r: nat, b: nat)
    requires |u| > 0 && r < b
    requires forall s | r < s < b :: Bit(v, s) == Odd(Level(u, s))
    ensures Bit(Fold(v, r + 1, b), r) == Turned(u, r, b)
    decreases b - r
  {
    FoldBits(v, r + 1, b, r);
    if r + 1 < b {
      FoldTurned(u, v, r + 1, b);
      FoldBelow(v, r + 2, b, r);
    }
  }

  lemma {:induction false} FoldFits(v: nat, q: nat, b: nat, i: nat)
    requires i >= b
    ensures !Bit(Fold(v, q, b), i)
    decreases b - q
  {
    if q >= b {
      BitZero(i);
    } else {
      FoldFits(v, q + 1, b, i);
      BitXor(Fold(v, q + 1, b), Ones(q), i);
      BitOnes(q, i);
    }
  }

  function XorAll(x: Words, t: nat): (y: Words)
    ensures |y| == |x|
  {
    seq(|x|, j requires 0 <= j < |x| => Xor(x[j], t))
  }

  /** cluster_hilbert_transpose as a function of the words it is given. */
  function Transpose(x: Words, b: nat): (y: Words)
    requires |x| > 0 && b > 0
    ensures |y| == |x|
  {
    var g := Gray(Undo(x, b - 1), |x|);
    XorAll(g, Fold(g[|x| - 1], 1, b))
  }

  lemma {:induction false} TransposeBits(x: Words, b: nat, j: nat, r: nat)
    requires j < |x| && r < b
    ensures var u := Undo(x, b - 1);
      Bit(Transpose(x, b)[j], r) == (Parity(Level(u, r), j + 1) != Turned(u, r, b))
  {
    var u := Undo(x, b - 1);
    var g := Gray(u, |x|);
    var v := g[|x| - 1];
    BitXor(g[j], Fold(v, 1, b), r);
    GrayBits(u, |x|, j, r);
    forall s | r < s < b ensures Bit(v, s) == Odd(Level(u, s)) {
      GrayBits(u, |x|, |x| - 1, s);
    }
    FoldAbove(v, 1, b, r);
    FoldTurned(u, v, r, b);
  }

  // ----- the number spelled by the interleaved words

  /** The first k bits of e as a binary number, most significant first. */
  function Num(e: seq<bool>, k: nat): (w: nat)
    requires k <= |e|
    ensures w < Pow2(k)
  {
    if k == 0 then 0 else 2 * Num(e, k - 1) + BoolBit(e[k - 1])
  }

  /** The number spelled by levels k - 1, ..., 0, each word by word. */
  function Interleaved(x: Words, k: nat): (h: nat)
    ensures h < Cells(|x|, k)
  {
    if k == 0 then 0 else
      var m := Cells(|x|, k - 1);
      CellBound(Num(Level(x, k - 1), |x|), Interleaved(x, k - 1), Pow2(|x|), m);
      Times(Num(Level(x, k - 1), |x|), m) + Interleaved(x, k - 1)
  }

  lemma {:induction false} NumIsRank(e: seq<bool>, v: seq<bool>, turned: bool, k: nat)
    requires k <= |e| == |v| && forall j | 0 <= j < k :: v[j] == (Parity(e, j + 1) != turned)
    ensures Num(v, k) == if turned then Pow2(k) - 1 - Rank(e, k) else Rank(e, k)
  {
    if k > 0 { NumIsRank(e, v, turned, k - 1); }
  }

  /** v is u Gray-decoded level by level, complemented where the walk has turned. */
  ghost predicate Decoded(u: Words, v: Words, b: nat) {
    |u| == |v| > 0 && forall j, r | 0 <= j < |u| && 0 <= r < b ::
      Bit(v[j], r) == (Parity(Level(u, r), j + 1) != Turned(u, r, b))
  }

  lemma {:induction false} LevelNum(u: Words, v: Words, b: nat, r: nat)
    requires Decoded(u, v, b) && r < b
    ensures Num(Level(v, r), |v|)
      == if Turned(u, r, b) then Pow2(|u|) - 1 - Place(Level(u, r)) else Place(Level(u, r))
  {
    NumIsRank(Level(u, r), Level(v, r), Turned(u, r, b), |u|);
  }

  lemma {:induction false} InterleavedStep(u: Words, v: Words, b: nat, k: nat)
    requires 0 < k <= b && Decoded(u, v, b)
    requires Interleaved(v, k - 1)
      == Walk(Turned(u, k - 1, b) != Odd(Level(u, k - 1)), LevelIndex(u, k - 1), Cells(|u|, k - 1))
    ensures Interleaved(v, k) == Walk(Turned(u, k - 1, b), LevelIndex(u, k), Cells(|u|, k))
  {
    var e := Level(u, k - 1);
    LevelNum(u, v, b, k - 1);
    WalkTurned(Place(e), Odd(e), Turned(u, k - 1, b), LevelIndex(u, k - 1), Interleaved(v, k - 1),
               Pow2(|u|), Cells(|u|, k - 1));
  }

  lemma {:induction false} InterleavedIsLevelIndex(u: Words, v: Words, b: nat, k: nat)
    requires 0 < k <= b && Decoded(u, v, b)
    ensures Interleaved(v, k) == Walk(Turned(u, k - 1, b), LevelIndex(u, k), Cells(|u|, k))
    decreases k
  {
    if k > 1 {
      InterleavedIsLevelIndex(u, v, b, k - 1);
      assert Turned(u, k - 2, b) == (Turned(u, k - 1, b) != Odd(Level(u, k - 1)));
    }
    InterleavedStep(u, v, b, k);
  }

  lemma {:induction false} WalkTurned(w: nat, odd: bool, turned: bool, r: nat, s: nat, a: nat, m: nat)
    requires w < a && r < m && s == Walk(turned != odd, r, m)
    ensures Times(w, m) + Walk(odd, r, m) < Times(a, m)
    ensures Times(if turned then a - 1 - w else w, m) + s
      == Walk(turned, Times(w, m) + Walk(odd, r, m), Times(a, m))
  {
    CellBound(w, Walk(odd, r, m), a, m);
    TimesAdd(a - 1 - w, w + 1, m);
  }

  lemma {:induction false} LowsIdentity(x: Words, b: nat)
    requires InGrid(x, b)
    ensures Lows(x, b) == x
  {
    forall j | 0 <= j < |x| ensures Low(x[j], b) == x[j] {
      LowIdentity(x[j], b);
    }
  }

  /** The transposed words spell the Hilbert index of the given point. */
  lemma {:induction false} TransposeSpellsIndex(x: Words, b: nat)
    requires b > 0 && InGrid(x, b)
    ensures Interleaved(Transpose(x, b), b) == Index(x, b)
  {
    var u := Undo(x, b - 1);
    forall j, r | 0 <= j < |x| && 0 <= r < b
      ensures Bit(Transpose(x, b)[j], r) == (Parity(Level(u, r), j + 1) != Turned(u, r, b))
    {
      TransposeBits(x, b, j, r);
    }
    InterleavedIsLevelIndex(u, Transpose(x, b), b, b);
    UndoIndex(x, b);
    LowsIdentity(x, b);
  }

  // ----- bijection and prefixes

  lemma {:induction false} HighBitsFit(v: nat, w: nat)
    requires forall i: nat | i >= w :: !Bit(v, i)
    ensures v < Pow2(w)
  {
    forall i: nat ensures Bit(v, i) == Bit(Low(v, w), i) { BitLow(v, w, i); }
    BitExt(v, Low(v, w));
    LowBound(v, w);
  }

  lemma {:induction false} ParityClear(e: seq<bool>, k: nat)
    requires k <= |e| && forall j | 0 <= j < k :: !e[j]
    ensures !Parity(e, k)
  {
    if k > 0 { ParityClear(e, k - 1); }
  }

  /** The transform stays inside b-bit words. */
  lemma {:induction false} TransposeWords(x: Words, b: nat)
    requires b > 0 && InGrid(x, b)
    ensures InGrid(Transpose(x, b), b)
  {
    var u := Undo(x, b - 1);
    var g := Gray(u, |x|);
    forall j | 0 <= j < |x| ensures Transpose(x, b)[j] < Pow2(b) {
      forall i: nat | i >= b ensures !Bit(Transpose(x, b)[j], i) {
        UndoHigh(x, b - 1, i);
        forall k | 0 <= k < |x| ensures !Level(u, i)[k] {
          HighBitsClear(x[k], b, i);
          assert Level(u, i)[k] == Level(x, i)[k];
        }
        GrayBits(u, |x|, j, i);
        ParityClear(Level(u, i), j + 1);
        FoldFits(g[|x| - 1], 1, b, i);
        BitXor(g[j], Fold(g[|x| - 1], 1, b), i);
      }
      HighBitsFit(Transpose(x, b)[j], b);
    }
  }

  lemma {:induction false} NumInjective(e: seq<bool>, f: seq<bool>, k: nat)
    requires k <= |e| == |f| && Num(e, k) == Num(f, k)
    ensures SamePrefix(e, f, k)
  {
    if k > 0 { NumInjective(e, f, k - 1); }
  }

  lemma {:induction false} SameLevels(x: Words, y: Words, b: nat, r: nat)
    requires |x| == |y| && r < b && Interleaved(x, b) == Interleaved(y, b)
    ensures Level(x, r) == Level(y, r)
    decreases b
  {
    var m := Cells(|x|, b - 1);
    SplitIndex(Num(Level(x, b - 1), |x|), Interleaved(x, b - 1),
               Num(Level(y, b - 1), |x|), Interleaved(y, b - 1), m);
    if r == b - 1 {
      NumInjective(Level(x, r), Level(y, r), |x|);
    } else {
      SameLevels(x, y, b - 1, r);
    }
  }

  lemma {:induction false} InterleavedInjective(x: Words, y: Words, b: nat)
    requires |x| == |y| && InGrid(x, b) && InGrid(y, b) && Interleaved(x, b) == Interleaved(y, b)
    ensures x == y
  {
    forall j | 0 <= j < |x| ensures x[j] == y[j] {
      forall i: nat ensures Bit(x[j], i) == Bit(y[j], i) {
        if i < b {
          SameLevels(x, y, b, i);
          assert Level(x, i)[j] == Level(y, i)[j];
        } else {
          HighBitsClear(x[j], b, i);
          HighBitsClear(y[j], b, i);
        }
      }
      BitExt(x[j], y[j]);
    }
  }

  /** The inverse transform: the point whose index the words spell. */
  function Axes(v: Words, b: nat): (x: Words)
    ensures |x| == |v|
  {
    PointAt(Interleaved(v, b), |v|, b)
  }

  /** The transform is a bijection on n-tuples of b-bit words, with inverse `Axes`. */
  lemma {:induction false} TransposeBijection(x: Words, b: nat)
    requires b > 0 && InGrid(x, b)
    ensures InGrid(Transpose(x, b), b) && Axes(Transpose(x, b), b) == x
    ensures InGrid(Axes(x, b), b) && Transpose(Axes(x, b), b) == x
  {
    TransposeWords(x, b);
    TransposeSpellsIndex(x, b);
    PointAtIndex(x, b);
    IndexPointAt(Interleaved(x, b), |x|, b);
    TransposeWords(Axes(x, b), b);
    TransposeSpellsIndex(Axes(x, b), b);
    InterleavedInjective(Transpose(Axes(x, b), b), x, b);
  }

  lemma {:induction false} InterleavedOne(v: nat, b: nat)
    ensures Interleaved([v], b) == Low(v, b) && Cells(1, b) == Pow2(b)
  {
    if b > 0 {
      InterleavedOne(v, b - 1);
      LowTopBit(v, b);
      var m := Pow2(b - 1);
      assert Pow2(1) == 2 && Times(2, m) == m + Times(1, m) && Times(1, m) == m + Times(0, m);
      assert Num(Level([v], b - 1), 1) == 2 * Num(Level([v], b - 1), 0) + BoolBit(Bit(v, b - 1));
    }
  }

  /** One column: the transform is the identity. */
  lemma {:induction false} TransposeOneColumn(v: nat, b: nat)
    requires b > 0 && v < Pow2(b)
    ensures Transpose([v], b) == [v]
  {
    TransposeWords([v], b);
    TransposeSpellsIndex([v], b);
    OneDimension(v, b);
    InterleavedOne(v, b);
    LowIdentity(v, b);
    InterleavedInjective(Transpose([v], b), [v], b);
  }

  lemma {:induction false} InterleavedHalve(v: Words, b: nat)
    requires b > 0
    ensures Quot(Interleaved(v, b), Pow2(|v|)) == Interleaved(Halve(v), b - 1)
    decreases b
  {
    if b == 1 {
      TimesIsMul(Num(Level(v, 0), |v|), 1);
    } else {
      CellsLast(|v|, b - 1);
      QuotShift(Num(Level(v, b - 1), |v|), Cells(|v|, b - 2), Pow2(|v|), Interleaved(v, b - 1));
      InterleavedHalve(v, b - 1);
      assert Level(Halve(v), b - 2) == Level(v, b - 1);
    }
  }

  lemma {:induction false} InterleavedCube(v: Words, b: nat, d: nat)
    requires d <= b
    ensures Quot(Interleaved(v, b), Cells(|v|, d)) == Interleaved(Cube(v, d), b - d)
    decreases d
  {
    if d == 0 {
      QuotRemTimes(Interleaved(v, b), 0, 1);
      TimesIsMul(Interleaved(v, b), 1);
    } else {
      InterleavedHalve(v, b);
      InterleavedCube(Halve(v), b - 1, d - 1);
      CellsLast(|v|, d);
      QuotQuot(Interleaved(v, b), Pow2(|v|), Cells(|v|, d - 1));
    }
  }

  lemma {:induction false} CubeWords(x: Words, b: nat, d: nat)
    requires d <= b && InGrid(x, b)
    ensures InGrid(Cube(x, d), b - d)
    decreases d
  {
    if d > 0 { CubeWords(Halve(x), b - 1, d - 1); }
  }

  lemma {:induction false} CubeFromSpelling(v: Words, w: Words, b: nat, d: nat)
    requires d <= b && |v| == |w| && InGrid(v, b) && InGrid(w, b)
    requires Interleaved(Cube(v, d), b - d) == Interleaved(Cube(w, d), b - d)
    ensures Cube(v, d) == Cube(w, d)
  {
    CubeWords(v, b, d);
    CubeWords(w, b, d);
    InterleavedInjective(Cube(v, d), Cube(w, d), b - d);
  }

  /** Words share their top bits exactly when the numbers they spell share the prefix. */
  lemma {:induction false} CubeByInterleaved(v: Words, w: Words, b: nat, d: nat)
    requires d <= b && |v| == |w| && InGrid(v, b) && InGrid(w, b)
    ensures Cube(v, d) == Cube(w, d)
      <==> Quot(Interleaved(v, b), Cells(|v|, d)) == Quot(Interleaved(w, b), Cells(|v|, d))
  {
    InterleavedCube(v, b, d);
    InterleavedCube(w, b, d);
    if Interleaved(Cube(v, d), b - d) == Interleaved(Cube(w, d), b - d) {
      CubeFromSpelling(v, w, b, d);
    }
  }

  /** For every r = b - d, the top r bits of all outputs determine, and are determined by,
      the top r bits of all inputs. */
  lemma {:induction false} TopBitsDetermineTopBits(x: Words, y: Words, b: nat, d: nat)
    requires 0 < b && d <= b && |x| == |y| && InGrid(x, b) && InGrid(y, b)
    ensures Cube(x, d) == Cube(y, d) <==> Cube(Transpose(x, b), d) == Cube(Transpose(y, b), d)
  {
    TransposeSpellsIndex(x, b);
    TransposeSpellsIndex(y, b);
    TransposeWords(x, b);
    TransposeWords(y, b);
    CubeByIndex(x, y, b, d);
    CubeByInterleaved(Transpose(x, b), Transpose(y, b), b, d);
  }

  // ----- the in-place transform

  lemma {:induction false} SelfExchange(a: nat, q: nat)
    ensures Xor(a, And(Xor(a, a), Ones(q))) == a && And(Xor(a, a), Ones(q)) == 0
  {
    forall i: nat ensures Bit(And(Xor(a, a), Ones(q)), i) == Bit(0, i) {
      BitAnd(Xor(a, a), Ones(q), i);
      BitXor(a, a, i);
      BitZero(i);
    }
    BitExt(And(Xor(a, a), Ones(q)), 0);
    XorZero(a);
  }

  /** One pass of the inner loop body. */
  method TransposeStep(X: array<nat>, Q: nat, i: nat, ghost q: nat)
    requires i < X.Length && Q == Pow2(q)
    modifies X
    ensures X[..] == Step(old(X[..]), q, i)
  {
    var P := Q - 1;
    AndPow2(X[i], q);
    if And(X[i], Q) != 0 {
      X[0] := Xor(X[0], P);
    } else {
      var t := And(Xor(X[0], X[i]), P);
      SelfExchange(X[0], q);
      XorCommutes(X[0], X[i]);
      X[0] := Xor(X[0], t);
      X[i] := Xor(X[i], t);
    }
  }

  method InverseUndo(X: array<nat>, b: nat)
    requires X.Length > 0 && b > 0
    modifies X
    ensures X[..] == Undo(old(X[..]), b - 1)
  {
    var Q := Shl(1, b - 1);
    ghost var q: nat := b - 1;
    ShlIsMul(1, b - 1);
    while Q > 1
      invariant Q == Pow2(q)
      invariant Undo(X[..], q) == Undo(old(X[..]), b - 1)
    {
      ghost var x := X[..];
      for i := 0 to X.Length
        invariant X[..] == Round(x, q, i)
      {
        TransposeStep(X, Q, i, q);
      }
      Q := Q / 2;
      q := q - 1;
    }
  }

  method FoldTop(v: nat, b: nat) returns (t: nat)
    requires b > 0
    ensures t == Fold(v, 1, b)
  {
    t := 0;
    var Q := Shl(1, b - 1);
    ghost var q: nat := b - 1;
    ShlIsMul(1, b - 1);
    while Q > 1
      invariant q < b && Q == Pow2(q) && t == Fold(v, q + 1, b)
    {
      AndPow2(v, q);
      if And(v, Q) != 0 {
        t := Xor(t, Q - 1);
      }
      Q := Q / 2;
      q := q - 1;
    }
  }

  method GrayEncode(X: array<nat>)
    requires X.Length > 0
    modifies X
    ensures X[..] == Gray(old(X[..]), X.Length)
  {
    for i := 1 to X.Length
      invariant X[..] == Gray(old(X[..]), i)
    {
      GrayTail(old(X[..]), i, i);
      assert X[i] == X[..][i] && X[i - 1] == X[..][i - 1];
      X[i] := Xor(X[i], X[i - 1]);
    }
  }

  /** cluster_hilbert_transpose: axes to Hilbert transpose, in place. */
  method HilbertTranspose(X: array<nat>, b: nat)
    requires X.Length > 0 && b > 0
    modifies X
    ensures X[..] == Transpose(old(X[..]), b)
  {
    InverseUndo(X, b);
    GrayEncode(X);
    ghost var g := X[..];
    var t := FoldTop(X[X.Length - 1], b);
    for i := 0 to X.Length
      invariant forall j | 0 <= j < X.Length :: X[j] == if j < i then Xor(g[j], t) else g[j]
    {
      X[i] := Xor(X[i], t);
    }
    assert X[..] == XorAll(g, t);
  }

  lemma {:induction false} GrayTail(x: Words, k: nat, j: nat)
    requires 1 <= k <= j < |x|
    ensures Gray(x, k)[j] == x[j]
  {
    if k > 1 { GrayTail(x, k - 1, j); }
  }

  // ----- the packer

  /** Bit o of a byte string read most significant bit first. */
  predicate MsbBit(s: seq<Byte>, o: nat)
    requires o < 8 * |s|
  {
    Bit(s[o / 8], 7 - o % 8)
  }

  /** Big-endian value of the first k bytes. */
  function BigEndian(s: seq<Byte>, k: nat): nat
    requires k <= |s|
  {
    if k == 0 then 0 else 256 * BigEndian(s, k - 1) + s[k - 1]
  }

  lemma {:induction false} Mask80(k: nat)
    requires k < 8
    ensures Shr(128, k) == Pow2(7 - k) && Shr(128, k) < 256
  {
    if k == 0 { assert Shr(128, 0) == 128; }
    else if k == 1 { assert Shr(128, 1) == Shr(64, 0); }
    else if k == 2 { assert Shr(128, 2) == Shr(64, 1) == Shr(32, 0); }
    else if k == 3 { assert Shr(128, 3) == Shr(64, 2) == Shr(32, 1) == Shr(16, 0); }
    else if k == 4 { assert Shr(128, 4) == Shr(64, 3) == Shr(32, 2) == Shr(16, 1) == Shr(8, 0); }
    else if k == 5 { assert Shr(128, 5) == Shr(64, 4) == Shr(32, 3) == Shr(16, 2) == Shr(8, 1) == Shr(4, 0); }
    else if k == 6 { assert Shr(128, 6) == Shr(64, 5) == Shr(32, 4) == Shr(16, 3) == Shr(8, 2) == Shr(4, 1) == Shr(2, 0); }
    else { assert Shr(128, 7) == Shr(64, 6) == Shr(32, 5) == Shr(16, 4) == Shr(8, 3) == Shr(4, 2) == Shr(2, 1) == Shr(1, 0); }
    Pow2Of8();
    assert Pow2(4) == 16;
    Pow2Add(7 - k, k);
  }

  /** `b | (0x80 >> k)` */
  function WithBit(b: Byte, k: nat): (r: Byte)
    requires k < 8
  {
    WithBitFits(b, k);
    Or(b, Shr(128, k))
  }

  lemma {:induction false} WithBitFits(b: Byte, k: nat)
    requires k < 8
    ensures Or(b, Shr(128, k)) < 256
  {
    Mask80(k);
    forall r: nat | r >= 8 ensures !Bit(Or(b, Shr(128, k)), r) {
      BitOr(b, Shr(128, k), r);
      BitPow2(7 - k, r);
      ByteHighBits(b, r);
    }
    HighBitsFit(Or(b, Shr(128, k)), 8);
    Pow2Of8();
  }

  lemma {:induction false} WithBitBits(b: Byte, k: nat, i: nat)
    requires k < 8
    ensures Bit(WithBit(b, k), i) == (Bit(b, i) || i == 7 - k)
  {
    Mask80(k);
    BitOr(b, Shr(128, k), i);
    BitPow2(7 - k, i);
  }

  lemma {:induction false} SetStreamBit(s: seq<Byte>, t: seq<Byte>, p: nat, b: bool)
    requires p < 8 * |s| && !MsbBit(s, p)
    requires t == if b then s[p / 8 := WithBit(s[p / 8], p % 8)] else s
    ensures forall o: nat | o < 8 * |s| :: MsbBit(t, o) == if o == p then b else MsbBit(s, o)
  {
    forall o: nat | o < 8 * |s| ensures MsbBit(t, o) == if o == p then b else MsbBit(s, o) {
      if o / 8 == p / 8 {
        WithBitBits(s[p / 8], p % 8, 7 - o % 8);
      }
    }
  }

  /** Shifting out a bit at a time: the top i bits of a byte as a number. */
  lemma {:induction false} ShrStep(v: nat, s: nat)
    ensures Shr(v, s) == 2 * Shr(v, s + 1) + BoolBit(Bit(v, s))
  {
    if s > 0 { ShrStep(v / 2, s - 1); } else { assert Shr(v, 1) == Shr(v / 2, 0); }
  }

  lemma {:induction false} ShrByte(v: Byte)
    ensures Shr(v, 8) == 0
  {
    Pow2Of8();
    var q := LowQuotient(v, 8);
    LowIdentity(v, 8);
  }

  ghost predicate BitsOf(bits: seq<bool>, s: seq<Byte>) {
    |bits| == 8 * |s| && forall o | 0 <= o < |bits| :: bits[o] == MsbBit(s, o)
  }

  lemma {:induction false} ByteNum(s: seq<Byte>, bits: seq<bool>, k: nat, i: nat)
    requires k < |s| && i <= 8 && BitsOf(bits, s)
    ensures Num(bits, 8 * k + i) == Times(Num(bits, 8 * k), Pow2(i)) + Shr(s[k], 8 - i)
  {
    hide Shr, Bit, Times;
    if i == 0 {
      ShrByte(s[k]);
      TimesIsMul(Num(bits, 8 * k), 1);
    } else {
      ByteNum(s, bits, k, i - 1);
      var o := 8 * k + i - 1;
      assert o / 8 == k && o % 8 == i - 1;
      assert bits[o] == Bit(s[k], 8 - i);
      ShrStep(s[k], 8 - i);
      TimesDouble(Num(bits, 8 * k), Pow2(i - 1));
    }
  }

  lemma {:induction false} BigEndianIsNum(s: seq<Byte>, bits: seq<bool>, k: nat)
    requires k <= |s| && BitsOf(bits, s)
    ensures BigEndian(s, k) == Num(bits, 8 * k)
  {
    if k > 0 {
      BigEndianIsNum(s, bits, k - 1);
      ByteNum(s, bits, k - 1, 8);
      Pow2Of8();
      TimesIsMul(Num(bits, 8 * (k - 1)), 256);
      assert Shr(s[k - 1], 0) == s[k - 1];
    }
  }

  /** The number spelled by levels b - 1, ..., r. */
  function Spelled(x: Words, r: nat, b: nat): nat
    decreases b - r
  {
    if r >= b then 0 else Times(Spelled(x, r + 1, b), Pow2(|x|)) + Num(Level(x, r), |x|)
  }

  lemma {:induction false} SpelledRest(x: Words, r: nat, b: nat)
    requires r <= b
    ensures Times(Spelled(x, r, b), Cells(|x|, r)) + Interleaved(x, r) == Interleaved(x, b)
    decreases b - r
  {
    if r < b {
      SpelledRest(x, r + 1, b);
      TimesAdd(Times(Spelled(x, r + 1, b), Pow2(|x|)), Num(Level(x, r), |x|), Cells(|x|, r));
      TimesAssoc(Spelled(x, r + 1, b), Pow2(|x|), Cells(|x|, r));
    }
  }

  lemma {:induction false} NumAppend(bits: seq<bool>, b: bool, k: nat)
    requires k <= |bits|
    ensures Num(bits + [b], k) == Num(bits, k)
  {
    if k > 0 { NumAppend(bits, b, k - 1); }
  }

  lemma {:induction false} TimesDouble(a: nat, m: nat)
    ensures Times(a, 2 * m) == 2 * Times(a, m)
  {
    TimesIsMul(a, m);
    TimesIsMul(a, 2 * m);
    assert a * (2 * m) == 2 * (a * m);
  }

  /** The bits written so far are `bits`; the rest of the buffer is clear. */
  ghost predicate Filled(s: seq<Byte>, bits: seq<bool>) {
    |bits| <= 8 * |s| && forall o: nat | o < 8 * |s| :: MsbBit(s, o) == (o < |bits| && bits[o])
  }

  lemma {:induction false} AppendBit(bits: seq<bool>, bit: bool, head: nat, e: seq<bool>, c: nat)
    requires c < |e| && e[c] == bit && Num(bits, |bits|) == Times(head, Pow2(c)) + Num(e, c)
    ensures Num(bits + [bit], |bits| + 1) == Times(head, Pow2(c + 1)) + Num(e, c + 1)
  {
    NumAppend(bits, bit, |bits|);
    TimesDouble(head, Pow2(c));
  }

  /** Set or leave one bit of the output, as the loop body does. */
  method PackBit(word: nat, r: nat, out: array<Byte>, outbit: nat, ghost bits: seq<bool>)
    requires |bits| == outbit < 8 * out.Length && Filled(out[..], bits)
    modifies out
    ensures Filled(out[..], bits + [Bit(word, r)])
  {
    ghost var before := out[..];
    BitShr(word, r, 0);
    if Shr(word, r) % 2 == 1 {
      out[outbit / 8] := WithBit(out[outbit / 8], outbit % 8);
    }
    SetStreamBit(before, out[..], outbit, Bit(word, r));
  }

  /** One level of the interleaver: bit r of every ordinal, in column order. */
  method PackLevel(ord: seq<nat>, r: nat, out: array<Byte>, start: nat, ghost bits: seq<bool>)
    returns (outbit: nat, ghost bits': seq<bool>)
    requires |bits| == start && start + |ord| <= 8 * out.Length && Filled(out[..], bits)
    modifies out
    ensures outbit == start + |ord| == |bits'| && Filled(out[..], bits')
    ensures Num(bits', outbit) == Times(Num(bits, start), Pow2(|ord|)) + Num(Level(ord, r), |ord|)
  {
    outbit, bits' := start, bits;
    ghost var head := Num(bits, start);
    TimesIsMul(head, 1);
    for c := 0 to |ord|
      invariant outbit == start + c == |bits'| && Filled(out[..], bits')
      invariant Num(bits', outbit) == Times(head, Pow2(c)) + Num(Level(ord, r), c)
    {
      PackBit(ord[c], r, out, outbit, bits');
      AppendBit(bits', Bit(ord[c], r), head, Level(ord, r), c);
      bits' := bits' + [Bit(ord[c], r)];
      outbit := outbit + 1;
    }
  }

  method ClearBuffer(out: array<Byte>)
    modifies out
    ensures Filled(out[..], [])
  {
    for i := 0 to out.Length
      invariant forall k | 0 <= k < i :: out[k] == 0
    {
      out[i] := 0;
    }
    forall o: nat | o < 8 * out.Length ensures !MsbBit(out[..], o) { BitZero(7 - o % 8); }
  }

  lemma {:induction false} FilledSpells(s: seq<Byte>, bits: seq<bool>, x: Words, b: nat)
    requires |bits| == 8 * |s| && Filled(s, bits) && Num(bits, |bits|) == Spelled(x, 0, b)
    ensures BigEndian(s, |s|) == Interleaved(x, b)
  {
    BigEndianIsNum(s, bits, |s|);
    SpelledRest(x, 0, b);
    TimesIsMul(Spelled(x, 0, b), 1);
  }

  /** cluster_pack_interleave: interleave the ordinals MSB-first; every byte is established,
      whatever the buffer held. The source has b = 64 and a buffer of 8 * n bytes. */
  method PackInterleave(ord: seq<nat>, b: nat, out: array<Byte>)
    requires 8 * out.Length == b * |ord|
    modifies out
    ensures BigEndian(out[..], out.Length) == Interleaved(ord, b)
  {
    ClearBuffer(out);
    var outbit: nat, r: nat := 0, b;
    ghost var bits: seq<bool> := [];
    TimesIsMul(b, |ord|);
    while r > 0
      invariant |bits| == outbit && outbit + Times(r, |ord|) == 8 * out.Length
      invariant Filled(out[..], bits) && Num(bits, outbit) == Spelled(ord, r, b)
    {
      r := r - 1;
      outbit, bits := PackLevel(ord, r, out, outbit, bits);
    }
    FilledSpells(out[..], bits, ord, b);
  }

  // ----- memcmp order

  predicate FirstDifference(a: seq<Byte>, c: seq<Byte>, i: nat) {
    |a| == |c| && i < |a| && a[i] != c[i] && forall j | 0 <= j < i :: a[j] == c[j]
  }

  /** memcmp(a, c) < 0 on strings of one length. */
  ghost predicate LexLess(a: seq<Byte>, c: seq<Byte>) {
    exists i: nat :: FirstDifference(a, c, i) && a[i] < c[i]
  }

  lemma {:induction false} BigEndianDiffers(a: seq<Byte>, c: seq<Byte>, i: nat, k: nat)
    requires FirstDifference(a, c, i) && k <= |a|
    ensures k <= i ==> BigEndian(a, k) == BigEndian(c, k)
    ensures k > i ==> (BigEndian(a, k) < BigEndian(c, k) <==> a[i] < c[i])
    ensures k > i ==> BigEndian(a, k) != BigEndian(c, k)
  {
    if k > 0 { BigEndianDiffers(a, c, i, k - 1); }
  }

  lemma {:induction false} FindDifference(a: seq<Byte>, c: seq<Byte>, k: nat) returns (i: nat)
    requires k <= |a| == |c|
    ensures i < k ==> FirstDifference(a, c, i)
    ensures i >= k ==> forall j | 0 <= j < k :: a[j] == c[j]
  {
    if k == 0 {
      i := 0;
    } else {
      i := FindDifference(a, c, k - 1);
      if i >= k - 1 { i := if a[k - 1] == c[k - 1] then k else k - 1; }
    }
  }

  /** memcmp order of two keys of one length is the order of the numbers they spell. */
  lemma {:induction false} LexIsNumeric(a: seq<Byte>, c: seq<Byte>)
    requires |a| == |c|
    ensures LexLess(a, c) <==> BigEndian(a, |a|) < BigEndian(c, |c|)
  {
    var i := FindDifference(a, c, |a|);
    if i < |a| {
      BigEndianDiffers(a, c, i, |a|);
      if LexLess(a, c) {
        var j: nat :| FirstDifference(a, c, j) && a[j] < c[j];
        assert i == j;
      }
    } else {
      assert a == c;
    }
  }

  /** A byte string is the key of x: it spells the transposed words of x. */
  ghost predicate KeyOf(key: seq<Byte>, x: Words, b: nat)
    requires |x| > 0 && b > 0
  {
    BigEndian(key, |key|) == Interleaved(Transpose(x, b), b)
  }

  /** Sorting keys with memcmp walks the Hilbert curve. */
  lemma {:induction false} KeyOrderIsCurveOrder(x: Words, y: Words, b: nat, kx: seq<Byte>, ky: seq<Byte>)
    requires b > 0 && |x| == |y| && InGrid(x, b) && InGrid(y, b)
    requires |kx| == |ky| && KeyOf(kx, x, b) && KeyOf(ky, y, b)
    ensures LexLess(kx, ky) <==> Index(x, b) < Index(y, b)
    ensures kx == ky <==> x == y
  {
    TransposeSpellsIndex(x, b);
    TransposeSpellsIndex(y, b);
    LexIsNumeric(kx, ky);
    LexIsNumeric(ky, kx);
    var i := FindDifference(kx, ky, |kx|);
    if i < |kx| { BigEndianDiffers(kx, ky, i, |kx|); }
    if kx == ky { IndexInjective(x, y, b); }
  }

  /** The key a caller builds: transpose in place, then pack. */
  method HilbertKey(X: array<nat>, b: nat, out: array<Byte>)
    requires X.Length > 0 && b > 0 && 8 * out.Length == b * X.Length
    modifies X, out
    ensures KeyOf(out[..], old(X[..]), b)
  {
    HilbertTranspose(X, b);
    PackInterleave(X[..], b, out);
    assert out[..out.Length] == out[..];
  }
}
