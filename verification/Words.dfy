/**
 src/columnar_encoding.c, what the value encodings share: a chunk is a list of values, its raw
 stream their concatenation; fixed-width values are loaded into and stored from 64-bit words,
 and words are packed with just enough bits for the largest.
 */
module Words {
  import opened Prelude
  import opened Bits
  import opened BitPack

  const TWO63: nat := 0x8000_0000_0000_0000

  // ----- raw streams

  type Values = seq<seq<Byte>>

  /** The raw stream of the first k values. */
  function Concat(vals: Values, k: nat): seq<Byte>
    requires k <= |vals|
  {
    if k == 0 then [] else Concat(vals, k - 1) + vals[k - 1]
  }

  function Raw(vals: Values): seq<Byte> { Concat(vals, |vals|) }

  ghost predicate Fixed(vals: Values, w: nat) { forall i | 0 <= i < |vals| :: |vals[i]| == w }

  // ----- lists of values parsed from bytes

  /** The values read, and where the next byte is. */
  datatype Parsed = Parsed(entries: Values, pos: nat)

  /** Values read already, then what the rest parses to. */
  function AfterValues(read: Values, rest: Result<Parsed>): Result<Parsed> {
    if rest.Err? then Err else Ok(Parsed(read + rest.value.entries, rest.value.pos))
  }

  lemma {:induction false} AfterNoValues(r: Result<Parsed>)
    ensures AfterValues([], r) == r
  {
    if r.Ok? { assert [] + r.value.entries == r.value.entries; }
  }

  lemma {:induction false} AfterOneMore(read: Values, v: seq<Byte>, rest: Result<Parsed>)
    ensures AfterValues(read, AfterValues([v], rest)) == AfterValues(read + [v], rest)
  {
    if rest.Ok? { assert read + ([v] + rest.value.entries) == read + [v] + rest.value.entries; }
  }

  lemma {:induction false} FixedLength(vals: Values, w: nat, k: nat)
    requires Fixed(vals, w) && k <= |vals|
    ensures |Concat(vals, k)| == Times(k, w)
  {
    if k > 0 { FixedLength(vals, w, k - 1); }
  }

  /** The words of a fixed-width stream (`load_uint` of every value). */
  function Loads(vals: Values): (ws: seq<nat>)
    ensures |ws| == |vals|
  {
    seq(|vals|, i requires 0 <= i < |vals| => FromLE(vals[i]))
  }

  /** `store_uint` of the first k words, w bytes each. */
  function Stores(ws: seq<nat>, w: nat, k: nat): (s: seq<Byte>)
    requires k <= |ws|
    ensures |s| == Times(k, w)
  {
    if k == 0 then [] else Stores(ws, w, k - 1) + ToLE(ws[k - 1], w)
  }

  /** Storing what was loaded gives the stream back. */
  lemma {:induction false} StoresLoads(vals: Values, w: nat, k: nat)
    requires Fixed(vals, w) && k <= |vals|
    ensures Stores(Loads(vals), w, k) == Concat(vals, k)
  {
    if k > 0 {
      StoresLoads(vals, w, k - 1);
      FromToLE(vals[k - 1]);
    }
  }

  lemma {:induction false} LoadsAreWords(vals: Values, w: nat, i: nat)
    requires Fixed(vals, w) && w <= 8 && i < |vals|
    ensures Loads(vals)[i] < TWO64
  {
    FromLEBound(vals[i]);
    Pow2Mono(8 * w, 64);
    Pow2Of64();
  }

  ghost predicate AreWords(ws: seq<nat>) { forall i | 0 <= i < |ws| :: ws[i] < TWO64 }

  lemma {:induction false} LoadsWords(vals: Values, w: nat)
    requires Fixed(vals, w) && w <= 8
    ensures AreWords(Loads(vals))
  {
    forall i | 0 <= i < |vals| ensures Loads(vals)[i] < TWO64 { LoadsAreWords(vals, w, i); }
  }

  /** A decoder's result once `done` has been produced and `rest` is what remains. */
  function After(done: seq<Byte>, rest: Result<seq<Byte>>): Result<seq<Byte>> {
    if rest.Err? then Err else Ok(done + rest.value)
  }

  /** An encoder keeps its output only when it is shorter than the raw stream. */
  function Shrunk(out: seq<Byte>, rawLen: nat): Option<seq<Byte>> {
    if |out| >= rawLen then None else Some(out)
  }

  // ----- arithmetic modulo 2^64 and the zigzag map

  function Add(a: nat, b: nat): (r: nat)
    ensures r < TWO64
  {
    (a + b) % TWO64
  }

  function Sub(a: nat, b: nat): (r: nat)
    ensures r < TWO64
  {
    (a - b) % TWO64
  }

  lemma {:induction false} AddSub(a: nat, b: nat)
    requires a < TWO64 && b < TWO64
    ensures Add(b, Sub(a, b)) == a && Add(Sub(a, b), b) == a
  {
  }

  /** `(x << 1) ^ (x >> 63)`, the second shift arithmetic. */
  function ZigZag(x: nat): nat
    requires x < TWO64
  {
    Xor(2 * x % TWO64, if x >= TWO63 then TWO64 - 1 else 0)
  }

  /** `(z >> 1) ^ -(z & 1)`. */
  function UnZigZag(z: nat): nat
    requires z < TWO64
  {
    Xor(z / 2, if z % 2 == 1 then TWO64 - 1 else 0)
  }

  lemma {:induction false} XorOnes(v: nat, w: nat)
    requires v < Pow2(w)
    ensures Xor(v, Pow2(w) - 1) == Pow2(w) - 1 - v
  {
    if w > 0 {
      var ones, half := Pow2(w) - 1, Pow2(w - 1) - 1;
      assert ones == 2 * half + 1 && ones / 2 == half && ones % 2 == 1;
      XorOnes(v / 2, w - 1);
      assert Xor(v, ones) == BoolBit(v % 2 == 0) + 2 * Xor(v / 2, half);
    }
  }

  lemma {:induction false} Complement(v: nat)
    requires v < TWO64
    ensures Xor(v, TWO64 - 1) == TWO64 - 1 - v
  {
    Pow2Of64();
    XorOnes(v, 64);
  }

  lemma {:induction false} ZigZagValue(x: nat)
    requires x < TWO64
    ensures ZigZag(x) == if x < TWO63 then 2 * x else 2 * (TWO64 - x) - 1
  {
    var d := 2 * x % TWO64;
    if x >= TWO63 {
      assert d == 2 * x - TWO64;
      Complement(d);
    } else {
      assert d == 2 * x;
      XorZero(d);
    }
  }

  lemma {:induction false} UnZigZagValue(z: nat)
    requires z < TWO64
    ensures UnZigZag(z) == if z % 2 == 0 then z / 2 else TWO64 - 1 - z / 2
  {
    if z % 2 == 1 { Complement(z / 2); } else { XorZero(z / 2); }
  }

  /** The map is undone exactly, for every 64-bit difference. */
  lemma {:induction false} ZigZagBack(x: nat)
    requires x < TWO64
    ensures ZigZag(x) < TWO64 && UnZigZag(ZigZag(x)) == x
  {
    ZigZagValue(x);
    UnZigZagValue(ZigZag(x));
  }

  /** A count as four bytes. */
  function Count(v: nat): (s: seq<Byte>)
    ensures |s| == 4
  {
    ToLE(v, 4)
  }

  lemma {:induction false} CountBack(v: nat)
    requires v < TWO32
    ensures FromLE(Count(v)) == v
  {
    Pow2Of8();
    Pow2Add(8, 8);
    Pow2Add(16, 16);
    ToFromLE(v, 4);
  }

  /** A word as eight bytes. */
  function Word(v: nat): (s: seq<Byte>)
    ensures |s| == 8
  {
    ToLE(v, 8)
  }

  lemma {:induction false} WordBack(v: nat)
    requires v < TWO64
    ensures FromLE(Word(v)) == v
  {
    Pow2Of64();
    ToFromLE(v, 8);
  }

  // ----- just enough bits

  function BitsNeeded(v: nat): (n: nat) {
    if v == 0 then 0 else 1 + BitsNeeded(v / 2)
  }

  lemma {:induction false} BitsNeededFits(v: nat, m: nat)
    requires v <= m
    ensures v < Pow2(BitsNeeded(m))
  {
    if m > 0 { BitsNeededFits(v / 2, m / 2); }
  }

  lemma {:induction false} BitsNeededMost(m: nat, w: nat)
    requires m < Pow2(w)
    ensures BitsNeeded(m) <= w
  {
    if m > 0 { BitsNeededMost(m / 2, w - 1); }
  }

  lemma {:induction false} BitsNeededLeast(m: nat)
    requires m > 0
    ensures m >= Pow2(BitsNeeded(m) - 1)
  {
    if m > 1 { BitsNeededLeast(m / 2); }
  }

  /** bits_needed: no smaller width holds maxval. */
  method CountBits(maxval: nat) returns (n: nat)
    ensures n == BitsNeeded(maxval)
    ensures maxval < Pow2(n) && (n > 0 ==> Pow2(n - 1) <= maxval)
  {
    BitsNeededFits(maxval, maxval);
    if maxval > 0 { BitsNeededLeast(maxval); }
    var m := maxval;
    n := 0;
    while m > 0
      invariant n + BitsNeeded(m) == BitsNeeded(maxval)
    {
      n := n + 1;
      m := m / 2;
    }
  }

  function MaxOf(ws: seq<nat>, k: nat): nat
    requires k <= |ws|
  {
    if k == 0 then 0 else if ws[k - 1] > MaxOf(ws, k - 1) then ws[k - 1] else MaxOf(ws, k - 1)
  }

  lemma {:induction false} MaxOfBound(ws: seq<nat>, k: nat, i: nat)
    requires i < k <= |ws|
    ensures ws[i] <= MaxOf(ws, k)
  {
    if i < k - 1 { MaxOfBound(ws, k - 1, i); }
  }

  lemma {:induction false} MaxOfWord(ws: seq<nat>, k: nat)
    requires k <= |ws| && AreWords(ws)
    ensures MaxOf(ws, k) < TWO64
  {
    if k > 0 { MaxOfWord(ws, k - 1); }
  }

  function WidthOf(ws: seq<nat>): nat { BitsNeeded(MaxOf(ws, |ws|)) }

  lemma {:induction false} WidthOfWord(ws: seq<nat>)
    requires AreWords(ws)
    ensures WidthOf(ws) <= 64
  {
    MaxOfWord(ws, |ws|);
    Pow2Of64();
    BitsNeededMost(MaxOf(ws, |ws|), 64);
  }

  ghost predicate FitIn(ws: seq<nat>, w: nat) { forall i | 0 <= i < |ws| :: ws[i] < Pow2(w) }

  /** Words packed at a width that holds them come back whole, whatever follows them. */
  lemma {:induction false} PackedAt(ws: seq<nat>, w: nat, rest: seq<Byte>)
    requires w <= 64 && FitIn(ws, w)
    ensures Unpacked(Pack(ws, w) + rest, |ws|, w) == Ok(ws)
  {
    UnpackPack(ws, w, rest);
    forall i: nat | i < |ws| ensures Low(ws[i], w) == ws[i] { LowIdentity(ws[i], w); }
    assert Unpack(Pack(ws, w) + rest, |ws|, w) == ws;
  }

  lemma {:induction false} WidthFits(ws: seq<nat>)
    ensures FitIn(ws, WidthOf(ws))
  {
    forall i: nat | i < |ws| ensures ws[i] < Pow2(WidthOf(ws)) {
      MaxOfBound(ws, |ws|, i);
      BitsNeededFits(ws[i], MaxOf(ws, |ws|));
    }
  }

  lemma {:induction false} PackedBack(ws: seq<nat>, rest: seq<Byte>)
    requires AreWords(ws)
    ensures Unpacked(Pack(ws, WidthOf(ws)) + rest, |ws|, WidthOf(ws)) == Ok(ws)
  {
    WidthOfWord(ws);
    WidthFits(ws);
    PackedAt(ws, WidthOf(ws), rest);
  }

  /** Every unpacked value is a word. */
  lemma {:induction false} UnpackedWords(s: seq<Byte>, n: nat, w: nat)
    requires Unpacked(s, n, w).Ok?
    ensures AreWords(Unpacked(s, n, w).value) && |Unpacked(s, n, w).value| == n
  {
    var ws := Unpack(s, n, w);
    forall i | 0 <= i < n ensures ws[i] < TWO64 {
      TimesMono(i + 1, n, w);
      FieldBound(s, Times(i, w), w);
      Pow2Mono(w, 64);
      Pow2Of64();
      assert ws[i] == FieldAt(s, n, w, i);
    }
  }
}
