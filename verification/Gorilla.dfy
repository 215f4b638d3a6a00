module Gorilla {
  /**
   src/columnar_encoding.c, GORILLA: each float is stored as the exclusive or with its
   predecessor, cut to its meaningful bits. A value has `total` bits and the two length fields
   have `field` bits: 32 and 5 for float4, 64 and 6 for float8.
   */

  import opened Prelude
  import opened Bits
  import opened BitPack
  import opened BitStream
  import opened Words

  /** Leading zeros of x within a window of `total` bits. */
  function Lz(x: nat, total: nat): nat
    requires BitsNeeded(x) <= total
  {
    total - BitsNeeded(x)
  }

  /** Trailing zeros of x. */
  function Tz(x: nat): nat
    requires x > 0
  {
    if x % 2 == 1 then 0 else 1 + Tz(x / 2)
  }

  /** Cutting the trailing zeros off x loses nothing and leaves BitsNeeded(x) - Tz(x) bits. */
  lemma {:induction false} CutZeros(x: nat)
    requires x > 0
    ensures Tz(x) < BitsNeeded(x)
    ensures Shl(Shr(x, Tz(x)), Tz(x)) == x && Shr(x, Tz(x)) < Pow2(BitsNeeded(x) - Tz(x))
  {
    if x % 2 == 1 {
      BitsNeededFits(x, x);
    } else {
      CutZeros(x / 2);
    }
  }

  lemma {:induction false} TopBit(x: nat, i: nat)
    ensures BitsNeeded(x) > 0 && i == BitsNeeded(x) - 1 ==> Bit(x, i)
    ensures i >= BitsNeeded(x) ==> !Bit(x, i)
  {
    if x == 0 {
      BitZero(i);
    } else if i > 0 {
      TopBit(x / 2, i - 1);
    }
  }

  /** ref_clz_in: the loop the bit-scan replaced. */
  method RefLeadingZeros(x: nat, total: nat) returns (n: nat)
    requires BitsNeeded(x) <= total
    ensures n == Lz(x, total)
  {
    n := 0;
    while n < total && Shr(x, total - 1 - n) % 2 == 0
      invariant n <= Lz(x, total)
    {
      BitShr(x, total - 1 - n, 0);
      TopBit(x, total - 1 - n);
      n := n + 1;
    }
    if n < total {
      BitShr(x, total - 1 - n, 0);
      TopBit(x, total - 1 - n);
    }
  }

  // ----- one value

  /** A difference cut to its meaningful bits. */
  datatype Cut = Cut(lz: nat, mlen: nat, bits: nat)

  function CutOf(x: nat, total: nat): Cut
    requires x > 0 && BitsNeeded(x) <= total
  {
    CutZeros(x);
    Cut(Lz(x, total), total - Lz(x, total) - Tz(x), Shr(x, Tz(x)))
  }

  ghost predicate GoodCut(c: Cut, total: nat) {
    0 < c.mlen && c.lz + c.mlen <= total && c.bits < Pow2(c.mlen)
  }

  function Uncut(c: Cut, total: nat): nat
    requires c.lz + c.mlen <= total
  {
    Shl(c.bits, total - c.lz - c.mlen)
  }

  lemma {:induction false} UncutCut(x: nat, total: nat)
    requires x > 0 && BitsNeeded(x) <= total
    ensures GoodCut(CutOf(x, total), total) && Uncut(CutOf(x, total), total) == x
  {
    CutZeros(x);
  }

  function CutFields(c: Cut, field: nat): (f: seq<bool>)
    requires c.mlen > 0
    ensures |f| == field + field + c.mlen
  {
    FieldBits(c.lz, field) + (FieldBits(c.mlen - 1, field) + FieldBits(c.bits, c.mlen))
  }

  function CutBits(c: Cut, field: nat): seq<bool>
    requires c.mlen > 0
  {
    FieldBits(1, 1) + CutFields(c, field)
  }

  function XorBits(x: nat, field: nat, total: nat): seq<bool>
    requires BitsNeeded(x) <= total
  {
    if x == 0 then FieldBits(0, 1) else (UncutCut(x, total); CutBits(CutOf(x, total), field))
  }

  datatype Step = Step(value: nat, bitpos: nat)

  /** One turn of the decoder loop. */
  function DecodeStep(enc: seq<Byte>, pos: nat, prev: nat, field: nat, total: nat): Result<Step> {
    var c := Get(enc, pos, 1);
    if c.Err? then Err
    else if c.value == 0 then Ok(Step(prev, pos + 1))
    else DecodeCut(enc, pos + 1, prev, field, total)
  }

  function DecodeCut(enc: seq<Byte>, pos: nat, prev: nat, field: nat, total: nat): Result<Step> {
    var lz := Get(enc, pos, field);
    if lz.Err? then Err
    else
      var m := Get(enc, pos + field, field);
      if m.Err? then Err else Meaningful(enc, pos + field + field, prev, total, lz.value, m.value + 1)
  }

  function Meaningful(enc: seq<Byte>, pos: nat, prev: nat, total: nat, lz: nat, mlen: nat): Result<Step> {
    if lz + mlen > total then Err
    else
      var bits := Get(enc, pos, mlen);
      if bits.Err? then Err
      else Ok(Step(Xor(prev, Uncut(Cut(lz, mlen, bits.value), total)), pos + mlen))
  }

  lemma {:induction false} GetBack(enc: seq<Byte>, pos: nat, v: nat, w: nat)
    requires w <= 64 && v < Pow2(w) && Reads(enc, pos, FieldBits(v, w))
    ensures Get(enc, pos, w) == Ok(v)
  {
    ReadsField(enc, pos, v, w);
    LowIdentity(v, w);
  }

  lemma {:induction false} XorSelf(v: nat, prev: nat)
    ensures Xor(prev, Xor(v, prev)) == v
  {
    forall i: nat ensures Bit(Xor(prev, Xor(v, prev)), i) == Bit(v, i) {
      BitXor(v, prev, i);
      BitXor(prev, Xor(v, prev), i);
    }
    BitExt(Xor(prev, Xor(v, prev)), v);
  }

  lemma {:induction false} TakeField(s: seq<Byte>, p: nat, v: nat, w: nat, rest: seq<bool>)
    requires Reads(s, p, FieldBits(v, w) + rest) && v < Pow2(w) && w <= 64
    ensures Get(s, p, w) == Ok(v) && Reads(s, p + w, rest)
  {
    ReadsSplit(s, p, FieldBits(v, w), rest);
    GetBack(s, p, v, w);
  }

  lemma {:induction false} LengthsGot(enc: seq<Byte>, pos: nat, c: Cut, field: nat, total: nat)
    requires GoodCut(c, total) && field <= 64 && total <= Pow2(field)
    requires Reads(enc, pos, CutFields(c, field))
    ensures Get(enc, pos, field) == Ok(c.lz) && Get(enc, pos + field, field) == Ok(c.mlen - 1)
    ensures Reads(enc, pos + field + field, FieldBits(c.bits, c.mlen))
  {
    hide Get, FieldBits, Reads;
    TakeField(enc, pos, c.lz, field, FieldBits(c.mlen - 1, field) + FieldBits(c.bits, c.mlen));
    TakeField(enc, pos + field, c.mlen - 1, field, FieldBits(c.bits, c.mlen));
  }

  lemma {:induction false} CutBack(enc: seq<Byte>, pos: nat, prev: nat, c: Cut, field: nat, total: nat)
    requires GoodCut(c, total) && field <= 64 && total <= Pow2(field) && total <= 64
    requires Reads(enc, pos, CutFields(c, field))
    ensures DecodeCut(enc, pos, prev, field, total)
         == Ok(Step(Xor(prev, Uncut(c, total)), pos + field + field + c.mlen))
  {
    hide Get, FieldBits, Reads, CutFields;
    LengthsGot(enc, pos, c, field, total);
    GetBack(enc, pos + field + field, c.bits, c.mlen);
  }

  lemma {:induction false} StepBackCut(enc: seq<Byte>, pos: nat, prev: nat, c: Cut, field: nat, total: nat)
    requires GoodCut(c, total) && field <= 64 && total <= Pow2(field) && total <= 64
    requires Reads(enc, pos, CutBits(c, field))
    ensures DecodeStep(enc, pos, prev, field, total) == Ok(Step(Xor(prev, Uncut(c, total)), pos + |CutBits(c, field)|))
  {
    hide Get, Reads, CutFields, DecodeCut, FieldBits;
    assert Pow2(1) == 2;
    TakeField(enc, pos, 1, 1, CutFields(c, field));
    CutBack(enc, pos + 1, prev, c, field, total);
  }

  lemma {:induction false} StepBackSame(enc: seq<Byte>, pos: nat, prev: nat, field: nat, total: nat)
    requires Reads(enc, pos, FieldBits(0, 1))
    ensures DecodeStep(enc, pos, prev, field, total) == Ok(Step(prev, pos + 1))
  {
    GetBack(enc, pos, 0, 1);
  }

  lemma {:induction false} OneBit()
    ensures |FieldBits(0, 1)| == 1
  {
  }

  /** Reading one encoded difference gives the next value. */
  lemma {:induction false} StepBack(enc: seq<Byte>, pos: nat, prev: nat, v: nat, field: nat, total: nat)
    requires field <= 64 && total <= Pow2(field) && total <= 64
    requires BitsNeeded(Xor(v, prev)) <= total && Reads(enc, pos, XorBits(Xor(v, prev), field, total))
    ensures DecodeStep(enc, pos, prev, field, total) == Ok(Step(v, pos + |XorBits(Xor(v, prev), field, total)|))
  {
    hide Get, Reads, DecodeStep, CutBits, Xor, FieldBits, BitsNeeded, Pow2, CutOf, Uncut;
    var x := Xor(v, prev);
    XorSelf(v, prev);
    if x == 0 {
      XorZero(prev);
      assert XorBits(x, field, total) == FieldBits(0, 1);
      OneBit();
      StepBackSame(enc, pos, prev, field, total);
    } else {
      UncutCut(x, total);
      StepBackCut(enc, pos, prev, CutOf(x, total), field, total);
    }
  }

  // ----- a whole vector

  ghost predicate FitWords(ws: seq<nat>, total: nat) { forall i | 0 <= i < |ws| :: ws[i] < Pow2(total) }

  lemma {:induction false} XorBound(a: nat, b: nat, w: nat)
    requires a < Pow2(w) && b < Pow2(w)
    ensures Xor(a, b) < Pow2(w)
  {
    if w > 0 { XorBound(a / 2, b / 2, w - 1); }
  }

  lemma {:induction false} XorFits(a: nat, b: nat, total: nat)
    requires a < Pow2(total) && b < Pow2(total)
    ensures BitsNeeded(Xor(a, b)) <= total
  {
    XorBound(a, b, total);
    BitsNeededMost(Xor(a, b), total);
  }

  /** The bits that turn value k - 1 into value k. */
  function DiffBits(ws: seq<nat>, field: nat, total: nat, k: nat): seq<bool>
    requires 0 < k < |ws| && FitWords(ws, total)
  {
    XorFits(ws[k], ws[k - 1], total);
    XorBits(Xor(ws[k], ws[k - 1]), field, total)
  }

  /** The bits of the first k values. */
  function StreamBits(ws: seq<nat>, field: nat, total: nat, k: nat): seq<bool>
    requires 0 < k <= |ws| && FitWords(ws, total)
  {
    if k == 1 then FieldBits(ws[0], total)
    else StreamBits(ws, field, total, k - 1) + DiffBits(ws, field, total, k - 1)
  }

  datatype State = State(ws: seq<nat>, bitpos: nat)

  /** The decoder after k values. */
  function DecodeTo(enc: seq<Byte>, field: nat, total: nat, k: nat): (r: Result<State>)
    requires k > 0
    ensures r.Ok? ==> |r.value.ws| == k
  {
    if k == 1 then
      var first := Get(enc, 0, total);
      if first.Err? then Err else Ok(State([first.value], total))
    else
      var before := DecodeTo(enc, field, total, k - 1);
      if before.Err? then Err
      else
        var s := DecodeStep(enc, before.value.bitpos, before.value.ws[k - 2], field, total);
        if s.Err? then Err else Ok(State(before.value.ws + [s.value.value], s.value.bitpos))
  }

  lemma {:induction false} DiffBack(enc: seq<Byte>, pos: nat, ws: seq<nat>, field: nat, total: nat, k: nat)
    requires 0 < k < |ws| && FitWords(ws, total) && field <= 64 && total <= Pow2(field) && total <= 64
    requires Reads(enc, pos, DiffBits(ws, field, total, k))
    ensures DecodeStep(enc, pos, ws[k - 1], field, total) == Ok(Step(ws[k], pos + |DiffBits(ws, field, total, k)|))
  {
    hide Get, Reads, DecodeStep, XorBits, Xor, BitsNeeded;
    XorFits(ws[k], ws[k - 1], total);
    StepBack(enc, pos, ws[k - 1], ws[k], field, total);
  }

  lemma {:induction false} OneMore(enc: seq<Byte>, ws: seq<nat>, field: nat, total: nat, k: nat, at: nat, end: nat)
    requires 0 < k < |ws| && DecodeTo(enc, field, total, k) == Ok(State(ws[..k], at))
    requires DecodeStep(enc, at, ws[k - 1], field, total) == Ok(Step(ws[k], end))
    ensures DecodeTo(enc, field, total, k + 1) == Ok(State(ws[..k + 1], end))
  {
    hide DecodeStep, Get;
    assert ws[..k + 1] == ws[..k] + [ws[k]];
  }

  lemma {:induction false} ExtendBack(enc: seq<Byte>, ws: seq<nat>, field: nat, total: nat, k: nat, at: nat)
    requires 0 < k < |ws| && FitWords(ws, total) && field <= 64 && total <= Pow2(field) && total <= 64
    requires Reads(enc, at, DiffBits(ws, field, total, k)) && DecodeTo(enc, field, total, k) == Ok(State(ws[..k], at))
    ensures DecodeTo(enc, field, total, k + 1) == Ok(State(ws[..k + 1], at + |DiffBits(ws, field, total, k)|))
  {
    DiffBack(enc, at, ws, field, total, k);
    OneMore(enc, ws, field, total, k, at, at + |DiffBits(ws, field, total, k)|);
  }

  lemma {:induction false} FirstBack(enc: seq<Byte>, ws: seq<nat>, field: nat, total: nat)
    requires |ws| > 0 && FitWords(ws, total) && total <= 64 && Reads(enc, 0, FieldBits(ws[0], total))
    ensures DecodeTo(enc, field, total, 1) == Ok(State(ws[..1], total))
  {
    assert ws[..1] == [ws[0]];
    GetBack(enc, 0, ws[0], total);
  }

  lemma {:induction false} DecodeBack(enc: seq<Byte>, ws: seq<nat>, field: nat, total: nat, k: nat)
    requires 0 < k <= |ws| && FitWords(ws, total) && field <= 64 && total <= Pow2(field) && total <= 64
    requires Reads(enc, 0, StreamBits(ws, field, total, k))
    ensures DecodeTo(enc, field, total, k) == Ok(State(ws[..k], |StreamBits(ws, field, total, k)|))
  {
    hide Get, DecodeStep, DiffBits, FieldBits;
    if k == 1 {
      FirstBack(enc, ws, field, total);
    } else {
      var before, diff := StreamBits(ws, field, total, k - 1), DiffBits(ws, field, total, k - 1);
      ReadsSplit(enc, 0, before, diff);
      DecodeBack(enc, ws, field, total, k - 1);
      ExtendBack(enc, ws, field, total, k - 1, |before|);
    }
  }

  function FieldOf(w: nat): nat { if w == 8 then 6 else 5 }

  /** Field widths 5 and 6 can count the bits of float4 and float8. */
  lemma {:induction false} Sizes(w: nat)
    requires w == 4 || w == 8
    ensures 8 * w <= Pow2(FieldOf(w))
  {
    assert Pow2(3) == 8;
    Pow2Add(3, 2);
    Pow2Add(3, 3);
  }

  lemma {:induction false} LoadsFit(vals: Values, w: nat)
    requires Fixed(vals, w)
    ensures FitWords(Loads(vals), 8 * w)
  {
    forall i | 0 <= i < |vals| ensures Loads(vals)[i] < Pow2(8 * w) { FromLEBound(vals[i]); }
  }

  function Body(vals: Values, w: nat): seq<Byte>
    requires |vals| > 0 && Fixed(vals, w)
  {
    LoadsFit(vals, w);
    Spelled(StreamBits(Loads(vals), FieldOf(w), 8 * w, |vals|))
  }

  function Encode(vals: Values, w: nat): Option<seq<Byte>>
    requires |vals| > 0 && Fixed(vals, w)
  {
    Shrunk(Body(vals, w), |Raw(vals)|)
  }

  /** The first value is read before the count is looked at. */
  function Decode(enc: seq<Byte>, w: nat, n: nat): Result<seq<Byte>> {
    var r := DecodeTo(enc, FieldOf(w), 8 * w, if n == 0 then 1 else n);
    if r.Err? then Err else Ok(Stores(r.value.ws, w, n))
  }

  lemma {:induction false} DecodeLength(enc: seq<Byte>, w: nat, n: nat)
    requires Decode(enc, w, n).Ok?
    ensures |Decode(enc, w, n).value| == Times(n, w)
  {
  }

  lemma {:induction false} RoundTrip(vals: Values, w: nat)
    requires |vals| > 0 && Fixed(vals, w) && (w == 4 || w == 8)
    ensures Decode(Body(vals, w), w, |vals|) == Ok(Raw(vals))
  {
    var ws, field := Loads(vals), FieldOf(w);
    Sizes(w);
    LoadsFit(vals, w);
    var f := StreamBits(ws, field, 8 * w, |ws|);
    SpelledReads(f, []);
    assert Spelled(f) + [] == Spelled(f);
    DecodeBack(Spelled(f), ws, field, 8 * w, |ws|);
    assert ws[..|ws|] == ws;
    StoresLoads(vals, w, |vals|);
  }

  // ----- the loops

  method PutCut(bw: BitWriter, c: Cut, field: nat)
    requires bw.Valid() && field <= 64 && 0 < c.mlen <= 64 && c.lz < TWO64 && c.bits < TWO64
    modifies bw
    ensures bw.Valid() && bw.Contents() == old(bw.Contents()) + CutBits(c, field)
  {
    ghost var start := bw.Contents();
    bw.Put(1, 1);
    bw.Put(c.lz, field);
    bw.Put(c.mlen - 1, field);
    bw.Put(c.bits, c.mlen);
    Append4(start, FieldBits(1, 1), FieldBits(c.lz, field), FieldBits(c.mlen - 1, field), FieldBits(c.bits, c.mlen));
  }

  method PutXor(bw: BitWriter, x: nat, field: nat, total: nat)
    requires bw.Valid() && x < TWO64 && field <= 64 && BitsNeeded(x) <= total <= 64
    modifies bw
    ensures bw.Valid() && bw.Contents() == old(bw.Contents()) + XorBits(x, field, total)
  {
    if x == 0 {
      bw.Put(0, 1);
    } else {
      UncutCut(x, total);
      ShrWord(x, Tz(x));
      PutCut(bw, CutOf(x, total), field);
    }
  }

  lemma {:induction false} ShrWord(x: nat, s: nat)
    ensures Shr(x, s) <= x
  {
    if s > 0 { ShrWord(x / 2, s - 1); }
  }

  lemma {:induction false} Append4(start: seq<bool>, a: seq<bool>, b: seq<bool>, c: seq<bool>, d: seq<bool>)
    ensures start + (a + (b + (c + d))) == start + a + b + c + d
  {
  }

  method PutAll(ws: seq<nat>, field: nat, total: nat) returns (out: seq<Byte>)
    requires |ws| > 0 && FitWords(ws, total) && field <= 64 && total <= 64 && AreWords(ws)
    ensures out == Spelled(StreamBits(ws, field, total, |ws|))
  {
    var bw := new BitWriter();
    var prev := ws[0];
    bw.Put(prev, total);
    for i := 1 to |ws|
      invariant bw.Valid() && prev == ws[i - 1] && bw.Contents() == StreamBits(ws, field, total, i)
    {
      XorFits(ws[i], prev, total);
      XorWord(ws[i], prev);
      PutXor(bw, Xor(ws[i], prev), field, total);
      prev := ws[i];
    }
    bw.Flush();
    out := bw.buf;
  }

  lemma {:induction false} XorWord(a: nat, b: nat)
    requires a < TWO64 && b < TWO64
    ensures Xor(a, b) < TWO64
  {
    Pow2Of64();
    XorBound(a, b, 64);
  }

  method EncodeGorilla(vals: Values, w: nat, rawLen: nat) returns (out: Option<seq<Byte>>)
    requires |vals| > 0 && Fixed(vals, w) && (w == 4 || w == 8) && rawLen == |Raw(vals)|
    ensures out == Encode(vals, w)
  {
    var ws := seq(|vals|, i requires 0 <= i < |vals| => FromLE(vals[i]));
    LoadsFit(vals, w);
    LoadsWords(vals, w);
    var buf := PutAll(ws, FieldOf(w), 8 * w);
    out := if |buf| >= rawLen then None else Some(buf);
  }

  method ReadStep(br: BitReader, prev: nat, field: nat, total: nat) returns (r: Result<nat>)
    modifies br
    ensures var s := DecodeStep(br.data, old(br.bitpos), prev, field, total);
      r.Ok? == s.Ok? && (r.Ok? ==> r.value == s.value.value && br.bitpos == s.value.bitpos)
  {
    var c := br.Read(1);
    if c.Err? { return Err; }
    if c.value == 0 { return Ok(prev); }
    r := ReadCut(br, prev, field, total);
  }

  method ReadCut(br: BitReader, prev: nat, field: nat, total: nat) returns (r: Result<nat>)
    modifies br
    ensures var s := DecodeCut(br.data, old(br.bitpos), prev, field, total);
      r.Ok? == s.Ok? && (r.Ok? ==> r.value == s.value.value && br.bitpos == s.value.bitpos)
  {
    var lz := br.Read(field);
    if lz.Err? { return Err; }
    var m := br.Read(field);
    if m.Err? { return Err; }
    r := ReadMeaningful(br, prev, total, lz.value, m.value + 1);
  }

  method ReadMeaningful(br: BitReader, prev: nat, total: nat, lz: nat, mlen: nat) returns (r: Result<nat>)
    modifies br
    ensures var s := Meaningful(br.data, old(br.bitpos), prev, total, lz, mlen);
      r.Ok? == s.Ok? && (r.Ok? ==> r.value == s.value.value && br.bitpos == s.value.bitpos)
  {
    if lz + mlen > total { return Err; }
    var bits := br.Read(mlen);
    if bits.Err? { return Err; }
    r := Ok(Xor(prev, Shl(bits.value, total - lz - mlen)));
  }

  method DecodeGorilla(enc: seq<Byte>, w: nat, n: nat) returns (r: Result<seq<Byte>>)
    ensures r == Decode(enc, w, n)
  {
    var ws := ReadAll(enc, FieldOf(w), 8 * w, if n == 0 then 1 else n);
    if ws.Err? { return Err; }
    var raw := [];
    for i := 0 to n
      invariant raw == Stores(ws.value, w, i)
    {
      raw := raw + ToLE(ws.value[i], w);
    }
    r := Ok(raw);
  }

  method ReadAll(enc: seq<Byte>, field: nat, total: nat, n: nat) returns (r: Result<seq<nat>>)
    requires n > 0
    ensures var d := DecodeTo(enc, field, total, n); r == if d.Err? then Err else Ok(d.value.ws)
  {
    var br := new BitReader(enc);
    var prev := br.Read(total);
    if prev.Err? {
      DecodeErr(enc, field, total, 1, n);
      return Err;
    }
    var ws := [prev.value];
    for i := 1 to n
      invariant br.data == enc && DecodeTo(enc, field, total, i) == Ok(State(ws, br.bitpos))
    {
      var v := ReadStep(br, ws[i - 1], field, total);
      if v.Err? {
        DecodeErr(enc, field, total, i + 1, n);
        return Err;
      }
      ws := ws + [v.value];
    }
    r := Ok(ws);
  }

  lemma {:induction false} DecodeErr(enc: seq<Byte>, field: nat, total: nat, j: nat, k: nat)
    requires 0 < j <= k && DecodeTo(enc, field, total, j).Err?
    ensures DecodeTo(enc, field, total, k).Err?
  {
    if j < k { DecodeErr(enc, field, total, j, k - 1); }
  }
}
