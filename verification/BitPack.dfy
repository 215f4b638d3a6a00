/**
 src/columnar_encoding.c, the bit-packing layer. A packed body is a list of bits, least
 significant first; the word-at-a-time packers and readers are proved to write and read
 exactly that list, as the per-bit loops kept as their references do.
 */
module BitPack {
  import opened Prelude
  import opened Bits

  /** The low w bits of v, least significant first. */
  function FieldBits(v: nat, w: nat): (f: seq<bool>)
    ensures |f| == w
  {
    seq(w, i requires 0 <= i < w => Bit(v, i))
  }

  /** The bits of the first k values, w bits each. */
  function PackedBits(vals: seq<nat>, w: nat, k: nat): (f: seq<bool>)
    requires k <= |vals|
    ensures |f| == Times(k, w)
  {
    if k == 0 then [] else PackedBits(vals, w, k - 1) + FieldBits(vals[k - 1], w)
  }

  /** The bytes spell the bits, and the rest of the last byte is clear. */
  ghost predicate Spells(out: seq<Byte>, f: seq<bool>) {
    |f| <= 8 * |out| && forall p: nat | p < 8 * |out| :: StreamBit(out, p) == (p < |f| && f[p])
  }

  lemma {:induction false} SpellsUnique(a: seq<Byte>, b: seq<Byte>, f: seq<bool>)
    requires Spells(a, f) && Spells(b, f) && |a| == |b|
    ensures a == b
  {
    StreamExt(a, b);
  }

  predicate ReadsAt(s: seq<Byte>, p: nat, f: seq<bool>, i: nat)
    requires p + |f| <= 8 * |s| && i < |f|
  {
    StreamBit(s, p + i) == f[i]
  }

  /** The stream continues at bit p with the bits f. */
  ghost predicate Reads(s: seq<Byte>, p: nat, f: seq<bool>) {
    p + |f| <= 8 * |s| && forall i: nat | i < |f| :: ReadsAt(s, p, f, i)
  }

  lemma {:induction false} ReadsSplit(s: seq<Byte>, p: nat, f: seq<bool>, g: seq<bool>)
    requires Reads(s, p, f + g)
    ensures Reads(s, p, f) && Reads(s, p + |f|, g)
  {
    forall i: nat | i < |f| ensures ReadsAt(s, p, f, i) { assert ReadsAt(s, p, f + g, i); }
    var q := p + |f|;
    forall i: nat | i < |g| ensures ReadsAt(s, q, g, i) { assert ReadsAt(s, p, f + g, |f| + i); }
  }

  lemma {:induction false} ReadsPrefix(s: seq<Byte>, rest: seq<Byte>, p: nat, f: seq<bool>)
    requires Reads(s, p, f)
    ensures Reads(s + rest, p, f)
  {
    forall i: nat | i < |f| ensures ReadsAt(s + rest, p, f, i) {
      assert ReadsAt(s, p, f, i);
      assert (s + rest)[(p + i) / 8] == s[(p + i) / 8];
    }
  }

  /** Reading a field back gives its low bits. */
  lemma {:induction false} ReadsField(s: seq<Byte>, p: nat, v: nat, w: nat)
    requires Reads(s, p, FieldBits(v, w))
    ensures Field(s, p, w) == Low(v, w)
  {
    forall i: nat ensures Bit(Field(s, p, w), i) == Bit(Low(v, w), i) {
      BitField(s, p, w, i);
      BitLow(v, w, i);
      if i < w { assert ReadsAt(s, p, FieldBits(v, w), i); }
    }
    BitExt(Field(s, p, w), Low(v, w));
  }

  lemma {:induction false} PackedBitsAt(vals: seq<nat>, w: nat, k: nat, i: nat, b: nat)
    requires i < k <= |vals| && b < w
    ensures Times(i, w) + b < Times(k, w) && PackedBits(vals, w, k)[Times(i, w) + b] == Bit(vals[i], b)
  {
    if i == k - 1 {
      assert PackedBits(vals, w, k)[Times(i, w) + b] == FieldBits(vals[i], w)[b];
    } else {
      PackedBitsAt(vals, w, k - 1, i, b);
    }
  }

  // ----- the packed format as functions

  function Bytes(bits: nat): nat { (bits + 7) / 8 }

  /** Value of up to eight bits starting at f[p]; bits past the end are clear. */
  function ByteAt(f: seq<bool>, p: nat, k: nat): (b: nat)
    ensures b < Pow2(k)
    decreases k
  {
    if k == 0 then 0 else BoolBit(p < |f| && f[p]) + 2 * ByteAt(f, p + 1, k - 1)
  }

  lemma {:induction false} ByteAtBits(f: seq<bool>, p: nat, k: nat, i: nat)
    ensures Bit(ByteAt(f, p, k), i) == (i < k && p + i < |f| && f[p + i])
    decreases k
  {
    if k == 0 {
      BitZero(i);
    } else {
      assert ByteAt(f, p, k) / 2 == ByteAt(f, p + 1, k - 1);
      if i > 0 { ByteAtBits(f, p + 1, k - 1, i - 1); }
    }
  }

  /** The byte string that spells f. */
  function Spelled(f: seq<bool>): (s: seq<Byte>)
    ensures |s| == Bytes(|f|)
  {
    Pow2Of8();
    seq(Bytes(|f|), i requires 0 <= i < Bytes(|f|) => ByteAt(f, 8 * i, 8))
  }

  lemma {:induction false} SpelledSpells(f: seq<bool>)
    ensures Spells(Spelled(f), f)
  {
    forall p: nat | p < 8 * Bytes(|f|) ensures StreamBit(Spelled(f), p) == (p < |f| && f[p]) {
      ByteAtBits(f, 8 * (p / 8), 8, p % 8);
    }
  }

  /** bitpack: n values of w bits. */
  function Pack(vals: seq<nat>, w: nat): (s: seq<Byte>)
    ensures |s| == Bytes(Times(|vals|, w))
  {
    Spelled(PackedBits(vals, w, |vals|))
  }

  /** Value i of n fields of w bits. */
  function FieldAt(s: seq<Byte>, n: nat, w: nat, i: nat): nat
    requires Times(n, w) <= 8 * |s| && i < n
  {
    TimesMono(i + 1, n, w);
    Field(s, Times(i, w), w)
  }

  /** bitunpack: n values of w bits; the body must be long enough. */
  function Unpack(s: seq<Byte>, n: nat, w: nat): (vals: seq<nat>)
    requires Times(n, w) <= 8 * |s|
    ensures |vals| == n
  {
    seq(n, i requires 0 <= i < n && Times(n, w) <= 8 * |s| => FieldAt(s, n, w, i))
  }

  lemma {:induction false} PackedBit(vals: seq<nat>, w: nat, i: nat, b: nat)
    requires i < |vals| && b < w
    ensures Times(i, w) + b < 8 * |Pack(vals, w)| && StreamBit(Pack(vals, w), Times(i, w) + b) == Bit(vals[i], b)
  {
    var f := PackedBits(vals, w, |vals|);
    SpelledSpells(f);
    PackedBitsAt(vals, w, |vals|, i, b);
    assert StreamBit(Spelled(f), Times(i, w) + b) == f[Times(i, w) + b];
  }

  lemma {:induction false} PackReads(vals: seq<nat>, w: nat, rest: seq<Byte>, i: nat)
    requires i < |vals|
    ensures Reads(Pack(vals, w) + rest, Times(i, w), FieldBits(vals[i], w))
  {
    var s, f := Pack(vals, w), FieldBits(vals[i], w);
    TimesMono(i + 1, |vals|, w);
    forall b: nat | b < |f| ensures ReadsAt(s, Times(i, w), f, b) { PackedBit(vals, w, i, b); }
    assert Reads(s, Times(i, w), f);
    ReadsPrefix(s, rest, Times(i, w), f);
  }

  /** bitunpack inverts bitpack on masked values, whatever bytes follow the body. */
  lemma {:induction false} UnpackPack(vals: seq<nat>, w: nat, rest: seq<Byte>)
    ensures Times(|vals|, w) <= 8 * |Pack(vals, w) + rest|
    ensures Unpack(Pack(vals, w) + rest, |vals|, w) == seq(|vals|, i requires 0 <= i < |vals| => Low(vals[i], w))
  {
    var s := Pack(vals, w) + rest;
    forall i: nat | i < |vals| ensures Unpack(s, |vals|, w)[i] == Low(vals[i], w) {
      PackReads(vals, w, rest, i);
      ReadsField(s, Times(i, w), vals[i], w);
    }
  }

  // ----- 64-bit words

  lemma {:induction false} ModBits(v: nat, w: nat, m: nat, i: nat)
    requires m == Pow2(w)
    ensures Bit(v % m, i) == (i < w && Bit(v, i))
  {
    LowIsMod(v, w);
    BitLow(v, w, i);
  }

  lemma {:induction false} Mod64Bits(v: nat, i: nat)
    ensures Bit(v % TWO64, i) == (i < 64 && Bit(v, i))
  {
    Pow2Of64();
    ModBits(v, 64, TWO64, i);
  }

  lemma {:induction false} Mod256Bits(v: nat, i: nat)
    ensures Bit(v % 256, i) == (i < 8 && Bit(v, i))
  {
    Pow2Of8();
    ModBits(v, 8, 256, i);
  }

  // ----- writing into a zeroed buffer

  /** Bit p of the list f followed by the bits of the w-bit field v up to position `end`. */
  predicate Want(f: seq<bool>, v: nat, w: nat, end: nat, p: nat) {
    if p < |f| then f[p] else p < end && p - |f| < w && Bit(v, p - |f|)
  }

  /** The buffer holds f, then the bits of the w-bit field v up to stream position `end`. */
  ghost predicate Partly(s: seq<Byte>, f: seq<bool>, v: nat, w: nat, end: nat) {
    |f| + w <= 8 * |s| && forall p: nat | p < 8 * |s| :: StreamBit(s, p) == Want(f, v, w, end, p)
  }

  lemma {:induction false} PartlyStart(s: seq<Byte>, f: seq<bool>, v: nat, w: nat, end: nat)
    requires Spells(s, f) && |f| + w <= 8 * |s| && end <= |f|
    ensures Partly(s, f, v, w, end)
  {
  }

  lemma {:induction false} PartlyEnd(s: seq<Byte>, f: seq<bool>, v: nat, w: nat, end: nat)
    requires Partly(s, f, v, w, end) && end >= |f| + w
    ensures Spells(s, f + FieldBits(v, w))
  {
  }

  /** or-ing in the next byte of the shifted field moves `end` to the end of that byte. */
  lemma {:induction false} OrByteStep(s: seq<Byte>, t: seq<Byte>, f: seq<bool>, v: nat, w: nat, j: nat, byte: Byte)
    requires j < |s| && Partly(s, f, v, w, 8 * j) && |f| < 8 * (j + 1)
    requires forall i: nat | i < 8 ::
      Bit(byte, i) == (|f| <= 8 * j + i < |f| + w && Bit(v, 8 * j + i - |f|))
    requires Or(s[j], byte) < 256 && t == s[j := Or(s[j], byte)]
    ensures Partly(t, f, v, w, 8 * (j + 1))
  {
    forall p: nat | p < 8 * |t|
      ensures StreamBit(t, p) == Want(f, v, w, 8 * (j + 1), p)
    {
      assert StreamBit(s, p) == Want(f, v, w, 8 * j, p);
      if p / 8 == j {
        BitOr(s[j], byte, p % 8);
        assert p == 8 * j + p % 8;
      }
    }
  }

  ghost predicate BitAdded(s: seq<Byte>, t: seq<Byte>, q: nat, bit: bool) {
    |t| == |s| && forall p: nat | p < 8 * |s| :: StreamBit(t, p) == (StreamBit(s, p) || (p == q && bit))
  }

  /** or-ing in one bit of the field moves `end` by one. */
  lemma {:induction false} OrBitStep(s: seq<Byte>, t: seq<Byte>, f: seq<bool>, v: nat, w: nat, b: nat)
    requires b < w && Partly(s, f, v, w, |f| + b) && BitAdded(s, t, |f| + b, Bit(v, b))
    ensures Partly(t, f, v, w, |f| + b + 1)
  {
    forall p: nat | p < 8 * |t| ensures StreamBit(t, p) == Want(f, v, w, |f| + b + 1, p) {
      WantMore(f, v, w, b, p);
      assert StreamBit(s, p) == Want(f, v, w, |f| + b, p);
    }
  }

  lemma {:induction false} WantMore(f: seq<bool>, v: nat, w: nat, b: nat, p: nat)
    requires b < w
    ensures Want(f, v, w, |f| + b + 1, p) == (Want(f, v, w, |f| + b, p) || (p == |f| + b && Bit(v, b)))
  {
  }

  lemma {:induction false} SetBit(s: seq<Byte>, t: seq<Byte>, q: nat)
    requires q < 8 * |s| && Or(s[q / 8], Shl(1, q % 8)) < 256 && t == s[q / 8 := Or(s[q / 8], Shl(1, q % 8))]
    ensures BitAdded(s, t, q, true)
  {
    forall p: nat | p < 8 * |s| ensures StreamBit(t, p) == (StreamBit(s, p) || p == q) {
      if p / 8 == q / 8 {
        BitOr(s[q / 8], Shl(1, q % 8), p % 8);
        BitOne(q % 8, p % 8);
      }
    }
  }

  /** Byte k of the field v shifted up by the sub-byte offset, taken from the low word and,
      for the ninth byte, from the bits shifted out of it. */
  function ShiftedByte(v: nat, off: nat, k: nat): (b: Byte)
    requires off < 8 && k < 9
  {
    var lo := Shl(v, off) % TWO64;
    var hi := if off > 0 then Shr(v, 64 - off) else 0;
    if k < 8 then Shr(lo, 8 * k) % 256 else Shr(hi, 8 * (k - 8)) % 256
  }

  lemma {:induction false} ShiftedByteBits(v: nat, off: nat, k: nat, i: nat)
    requires off < 8 && k < 9 && i < 8 && v < TWO64
    ensures Bit(ShiftedByte(v, off, k), i) == (8 * k + i >= off && Bit(v, 8 * k + i - off))
  {
    var lo := Shl(v, off) % TWO64;
    if k < 8 {
      Mod256Bits(Shr(lo, 8 * k), i);
      BitShr(lo, 8 * k, i);
      Mod64Bits(Shl(v, off), i + 8 * k);
      BitShl(v, off, i + 8 * k);
    } else if off > 0 {
      Mod256Bits(Shr(v, 64 - off), i);
      BitShr(v, 64 - off, i);
    } else {
      BitZero(i);
      Pow2Of64();
      HighBitsClear(v, 64, 8 * k + i);
    }
  }

  /** One field of bitpack: at most nine bytes are or-ed in. */
  method PackField(buf: array<Byte>, v: nat, width: nat, ghost f: seq<bool>, bitpos: nat)
    requires width <= 64 && v < TWO64 && v < Pow2(width)
    requires bitpos == |f| && |f| + width <= 8 * buf.Length && Spells(buf[..], f)
    modifies buf
    ensures Spells(buf[..], f + FieldBits(v, width))
  {
    var bytepos, bitoff := bitpos / 8, bitpos % 8;
    var nb := (bitoff + width + 7) / 8;
    PartlyStart(buf[..], f, v, width, 8 * bytepos);
    for k := 0 to nb
      invariant Partly(buf[..], f, v, width, 8 * (bytepos + k))
    {
      var byte := ShiftedByte(v, bitoff, k);
      forall i: nat | i < 8
        ensures Bit(byte, i) == (|f| <= 8 * (bytepos + k) + i < |f| + width && Bit(v, 8 * (bytepos + k) + i - |f|))
      {
        ShiftedByteBits(v, bitoff, k, i);
        if 8 * k + i >= bitoff + width { HighBitsClear(v, width, 8 * k + i - bitoff); }
      }
      OrFits(buf[bytepos + k], byte);
      ghost var before := buf[..];
      buf[bytepos + k] := Or(buf[bytepos + k], byte);
      OrByteStep(before, buf[..], f, v, width, bytepos + k, byte);
    }
    PartlyEnd(buf[..], f, v, width, 8 * (bytepos + nb));
  }

  /** One field of the per-bit reference packer. */
  method RefPackField(buf: array<Byte>, v: nat, width: nat, ghost f: seq<bool>, bitpos: nat)
    requires bitpos == |f| && |f| + width <= 8 * buf.Length && Spells(buf[..], f)
    modifies buf
    ensures Spells(buf[..], f + FieldBits(v, width))
  {
    PartlyStart(buf[..], f, v, width, bitpos);
    for b := 0 to width
      invariant Partly(buf[..], f, v, width, bitpos + b)
    {
      ghost var before := buf[..];
      BitShr(v, b, 0);
      if Shr(v, b) % 2 == 1 {
        var q := bitpos + b;
        ShlBound(q % 8, 8);
        Pow2Of8();
        OrFits(buf[q / 8], Shl(1, q % 8));
        buf[q / 8] := Or(buf[q / 8], Shl(1, q % 8));
        SetBit(before, buf[..], q);
      }
      OrBitStep(before, buf[..], f, v, width, b);
    }
    PartlyEnd(buf[..], f, v, width, bitpos + width);
  }

  lemma {:induction false} FieldBitsLow(v: nat, w: nat)
    ensures FieldBits(Low(v, w), w) == FieldBits(v, w)
  {
    forall i: nat | i < w ensures FieldBits(Low(v, w), w)[i] == FieldBits(v, w)[i] { BitLow(v, w, i); }
  }

  method PackMasked(buf: array<Byte>, v: nat, width: nat, ghost f: seq<bool>, bitpos: nat)
    requires width <= 64 && bitpos == |f| && |f| + width <= 8 * buf.Length && Spells(buf[..], f)
    modifies buf
    ensures Spells(buf[..], f + FieldBits(v, width))
  {
    LowWord(v, width);
    FieldBitsLow(v, width);
    PackField(buf, Low(v, width), width, f, bitpos);
  }

  lemma {:induction false} ZerosSpell(s: seq<Byte>)
    requires forall k | 0 <= k < |s| :: s[k] == 0
    ensures Spells(s, [])
  {
    forall p: nat | p < 8 * |s| ensures !StreamBit(s, p) { BitZero(p % 8); }
  }

  lemma {:induction false} SpellsPack(s: seq<Byte>, vals: seq<nat>, w: nat)
    requires Spells(s, PackedBits(vals, w, |vals|)) && |s| == Bytes(Times(|vals|, w))
    ensures s == Pack(vals, w)
  {
    SpelledSpells(PackedBits(vals, w, |vals|));
    SpellsUnique(s, Pack(vals, w), PackedBits(vals, w, |vals|));
  }

  lemma {:induction false} LowWord(v: nat, w: nat)
    requires w <= 64
    ensures Low(v, w) < TWO64 && Low(v, w) < Pow2(w)
  {
    LowBound(v, w);
    Pow2Mono(w, 64);
    Pow2Of64();
  }

  lemma {:induction false} NothingToPack(n: nat, w: nat)
    requires w == 0 || n == 0
    ensures Times(n, w) == 0
  {
    if n > 0 { NothingToPack(n - 1, w); }
  }

  /** bitpack: a field at a time, a byte at a time within the field. */
  method BitPackWords(vals: seq<nat>, width: nat) returns (out: seq<Byte>)
    requires width <= 64
    ensures out == Pack(vals, width)
  {
    if width == 0 || |vals| == 0 {
      NothingToPack(|vals|, width);
      return [];
    }
    TimesIsMul(|vals|, width);
    var buf := new Byte[Bytes(|vals| * width)](_ => 0);
    ZerosSpell(buf[..]);
    var bitpos := 0;
    for i := 0 to |vals|
      invariant bitpos == Times(i, width) && Spells(buf[..], PackedBits(vals, width, i))
    {
      TimesMono(i + 1, |vals|, width);
      PackMasked(buf, vals[i], width, PackedBits(vals, width, i), bitpos);
      bitpos := bitpos + width;
    }
    SpellsPack(buf[..], vals, width);
    out := buf[..];
  }

  /** ref_bitpack: the per-bit loop the word-at-a-time packer replaced. */
  method RefBitPack(vals: seq<nat>, width: nat) returns (out: seq<Byte>)
    requires width <= 64
    ensures out == Pack(vals, width)
  {
    if width == 0 || |vals| == 0 {
      NothingToPack(|vals|, width);
      return [];
    }
    TimesIsMul(|vals|, width);
    var buf := new Byte[Bytes(|vals| * width)](_ => 0);
    ZerosSpell(buf[..]);
    var bitpos := 0;
    for i := 0 to |vals|
      invariant bitpos == Times(i, width) && Spells(buf[..], PackedBits(vals, width, i))
    {
      TimesMono(i + 1, |vals|, width);
      RefPackField(buf, vals[i], width, PackedBits(vals, width, i), bitpos);
      bitpos := bitpos + width;
    }
    SpellsPack(buf[..], vals, width);
    out := buf[..];
  }

  // ----- reading

  /** One wide load: eight bytes and, where the field crosses them, a ninth. */
  function WideLoad(s: seq<Byte>, bitpos: nat, width: nat): nat
    requires bitpos / 8 + 9 <= |s| && width <= 64
  {
    var at, shift := bitpos / 8, bitpos % 8;
    var v := Shr(FromLE(s[at..at + 8]), shift);
    Low(if shift + width > 64 then Or(v, Shl(s[at + 8], 64 - shift)) else v, width)
  }

  lemma {:induction false} LoadBit(s: seq<Byte>, at: nat, p: nat)
    requires at + 8 <= |s|
    ensures Bit(FromLE(s[at..at + 8]), p) == (p < 64 && StreamBit(s, 8 * at + p))
  {
    BitFromLE(s[at..at + 8], p);
    if p < 64 { assert s[at..at + 8][p / 8] == s[(8 * at + p) / 8]; }
  }

  lemma {:induction false} WideLoadBit(s: seq<Byte>, bitpos: nat, width: nat, i: nat)
    requires bitpos / 8 + 9 <= |s| && width <= 64 && i < width
    ensures Bit(WideLoad(s, bitpos, width), i) == StreamBit(s, bitpos + i)
  {
    var at, shift := bitpos / 8, bitpos % 8;
    var lo := FromLE(s[at..at + 8]);
    var v := Shr(lo, shift);
    BitShr(lo, shift, i);
    LoadBit(s, at, i + shift);
    if shift + width > 64 {
      BitLow(Or(v, Shl(s[at + 8], 64 - shift)), width, i);
      BitOr(v, Shl(s[at + 8], 64 - shift), i);
      BitShl(s[at + 8], 64 - shift, i);
    } else {
      BitLow(v, width, i);
    }
  }

  /** The wide load reads the field the per-bit loop reads. */
  lemma {:induction false} WideLoadIsField(s: seq<Byte>, bitpos: nat, width: nat)
    requires bitpos / 8 + 9 <= |s| && width <= 64 && bitpos + width <= 8 * |s|
    ensures WideLoad(s, bitpos, width) == Field(s, bitpos, width)
  {
    var a, b := WideLoad(s, bitpos, width), Field(s, bitpos, width);
    forall i: nat ensures Bit(a, i) == Bit(b, i) {
      BitField(s, bitpos, width, i);
      if i < width { WideLoadBit(s, bitpos, width, i); } else {
        var shift := bitpos % 8;
        var v := Shr(FromLE(s[bitpos / 8..bitpos / 8 + 8]), shift);
        BitLow(if shift + width > 64 then Or(v, Shl(s[bitpos / 8 + 8], 64 - shift)) else v, width, i);
      }
    }
    BitExt(a, b);
  }

  /** The bits below position b of a field read so far. */
  lemma {:induction false} FieldGrows(s: seq<Byte>, p: nat, b: nat, v: nat)
    requires p + b + 1 <= 8 * |s| && v == Field(s, p, b)
    ensures Field(s, p, b + 1) == if StreamBit(s, p + b) then Or(v, Shl(1, b)) else v
  {
    var v' := if StreamBit(s, p + b) then Or(v, Shl(1, b)) else v;
    forall i: nat ensures Bit(v', i) == Bit(Field(s, p, b + 1), i) {
      BitField(s, p, b, i);
      BitField(s, p, b + 1, i);
      BitOr(v, Shl(1, b), i);
      BitOne(b, i);
    }
    BitExt(v', Field(s, p, b + 1));
  }

  /** The per-bit field read shared by the tail of bitunpack, ref_bitunpack and br_get. */
  method ReadField(s: seq<Byte>, bitpos: nat, width: nat) returns (v: nat)
    requires bitpos + width <= 8 * |s|
    ensures v == Field(s, bitpos, width)
  {
    v := 0;
    for b := 0 to width
      invariant v == Field(s, bitpos, b)
    {
      var q := bitpos + b;
      BitShr(s[q / 8], q % 8, 0);
      FieldGrows(s, bitpos, b, v);
      if Shr(s[q / 8], q % 8) % 2 == 1 {
        v := Or(v, Shl(1, b));
      }
    }
  }

  /** bitunpack as a function: the two conditions it raises on, and the fields otherwise. */
  function Unpacked(s: seq<Byte>, n: nat, w: nat): Result<seq<nat>> {
    if w > 64 || Times(n, w) > 8 * |s| then Err else Ok(Unpack(s, n, w))
  }

  /** How many values the wide load can serve without reading past the packed body. */
  function FastCount(nbytes: nat, n: nat, width: nat): (c: nat)
    requires width > 0
    ensures c <= n
  {
    if nbytes < 9 then 0
    else
      var maxIdx := 8 * (nbytes - 9) / width;
      if maxIdx + 1 < n then maxIdx + 1 else n
  }

  lemma {:induction false} QuotientBound(x: nat, width: nat, i: nat)
    requires width > 0 && i <= x / width
    ensures i * width <= x
  {
    var q := x / width;
    assert x == q * width + x % width;
    assert (q - i) * width >= 0;
    assert q * width == i * width + (q - i) * width;
  }

  lemma {:induction false} FastInBody(nbytes: nat, n: nat, width: nat, i: nat)
    requires width > 0 && i < FastCount(nbytes, n, width)
    ensures Times(i, width) / 8 + 9 <= nbytes
  {
    TimesIsMul(i, width);
    QuotientBound(8 * (nbytes - 9), width, i);
  }

  /** bitunpack: wide loads while nine bytes of the body remain, then bit by bit.
      Every access is inside the first Bytes(n * width) bytes of the input. */
  method BitUnpackWords(s: seq<Byte>, n: nat, width: nat) returns (r: Result<seq<nat>>)
    ensures r == Unpacked(s, n, width)
  {
    if width > 64 {
      return Err;
    }
    TimesIsMul(n, width);
    if width == 0 {
      ZeroWidth(s, n);
      return Ok(seq(n, _ => 0));
    }
    var nbytes := Bytes(n * width);
    if nbytes > |s| {
      return Err;
    }
    var body := s[..nbytes];
    var nFast := FastCount(nbytes, n, width);
    var out, bitpos := [], 0;
    assert Times(n, width) <= 8 * |body|;
    for i := 0 to nFast
      invariant bitpos == Times(i, width) && Read(body, n, width, out, i)
    {
      FastInBody(nbytes, n, width, i);
      ReadMore(body, n, width, out, i);
      WideLoadIsField(body, bitpos, width);
      out := out + [WideLoad(body, bitpos, width)];
      bitpos := bitpos + width;
    }
    for i := nFast to n
      invariant bitpos == Times(i, width) && Read(body, n, width, out, i)
    {
      ReadMore(body, n, width, out, i);
      var v := ReadField(body, bitpos, width);
      out := out + [v];
      bitpos := bitpos + width;
    }
    ReadAll(s, nbytes, n, width, out);
    r := Ok(out);
  }

  /** The first k values of the body have been read. */
  ghost predicate Read(s: seq<Byte>, n: nat, w: nat, out: seq<nat>, k: nat) {
    Times(n, w) <= 8 * |s| && |out| == k <= n && forall i | 0 <= i < k :: out[i] == Unpack(s, n, w)[i]
  }

  lemma {:induction false} ZeroWidth(s: seq<Byte>, n: nat)
    ensures Unpacked(s, n, 0) == Ok(seq(n, _ => 0))
  {
    NothingToPack(n, 0);
    var a := Unpack(s, n, 0);
    forall i | 0 <= i < n ensures a[i] == 0 { TimesMono(i + 1, n, 0); }
    assert a == seq(n, _ => 0);
  }

  lemma {:induction false} ReadAll(s: seq<Byte>, m: nat, n: nat, w: nat, out: seq<nat>)
    requires m <= |s| && Read(s[..m], n, w, out, n)
    ensures Times(n, w) <= 8 * |s| && out == Unpack(s, n, w)
  {
    UnpackPrefix(s, m, n, w);
    assert out == Unpack(s[..m], n, w);
  }

  lemma {:induction false} ReadMore(s: seq<Byte>, n: nat, w: nat, out: seq<nat>, k: nat)
    requires k < n && Read(s, n, w, out, k)
    ensures Times(k, w) + w <= 8 * |s| && Read(s, n, w, out + [Field(s, Times(k, w), w)], k + 1)
  {
    TimesMono(k + 1, n, w);
    assert Unpack(s, n, w)[k] == FieldAt(s, n, w, k);
  }

  /** Bytes past the body do not matter. */
  lemma {:induction false} UnpackPrefix(s: seq<Byte>, m: nat, n: nat, w: nat)
    requires m <= |s| && Times(n, w) <= 8 * m
    ensures Unpack(s, n, w) == Unpack(s[..m], n, w)
  {
    forall i | 0 <= i < n ensures Unpack(s, n, w)[i] == Unpack(s[..m], n, w)[i] {
      TimesMono(i + 1, n, w);
      FieldPrefix(s, m, Times(i, w), w);
    }
  }

  lemma {:induction false} FieldPrefix(s: seq<Byte>, m: nat, p: nat, w: nat)
    requires m <= |s| && p + w <= 8 * m
    ensures Field(s, p, w) == Field(s[..m], p, w)
    decreases w
  {
    if w > 0 { FieldPrefix(s, m, p + 1, w - 1); }
  }

  /** ref_bitunpack: the per-bit loop the word-at-a-time reader replaced. */
  method RefBitUnpack(s: seq<Byte>, n: nat, width: nat) returns (out: seq<nat>)
    requires Times(n, width) <= 8 * |s|
    ensures out == Unpack(s, n, width)
  {
    if width == 0 {
      ZeroWidth(s, n);
      return seq(n, _ => 0);
    }
    var bitpos := 0;
    out := [];
    for i := 0 to n
      invariant bitpos == Times(i, width) && Read(s, n, width, out, i)
    {
      ReadMore(s, n, width, out, i);
      var v := ReadField(s, bitpos, width);
      out := out + [v];
      bitpos := bitpos + width;
    }
    assert s[..|s|] == s;
    ReadAll(s, |s|, n, width, out);
  }
}
