/**
 src/columnar_encoding.c, the streaming bit writer and reader for fields of varying width.
 The writer's buffer, carry byte and carry count are one list of bits; the batched and the
 per-bit `bw_put` both append the field to that list, so they agree in the carry state too.
 */
module BitStream {
  import opened Prelude
  import opened Bits
  import opened BitPack

  /** The bits of `buf` followed by the low `have` bits of `acc`. */
  function StreamOf(buf: seq<Byte>, acc: nat, have: nat): (f: seq<bool>)
    ensures |f| == 8 * |buf| + have
  {
    seq(8 * |buf| + have, p requires 0 <= p < 8 * |buf| + have =>
      if p < 8 * |buf| then StreamBit(buf, p) else Bit(acc, p - 8 * |buf|))
  }

  lemma {:induction false} StreamBitAppend(buf: seq<Byte>, b: Byte, p: nat)
    requires p < 8 * |buf| + 8
    ensures StreamBit(buf + [b], p) == if p < 8 * |buf| then StreamBit(buf, p) else Bit(b, p - 8 * |buf|)
  {
  }

  /** Moving a whole byte from the accumulator to the buffer keeps the stream. */
  lemma {:induction false} EmitByte(buf: seq<Byte>, acc: nat, have: nat)
    requires have >= 8
    ensures StreamOf(buf + [acc % 256], acc / 256, have - 8) == StreamOf(buf, acc, have)
  {
    var n := 8 * |buf|;
    forall p: nat | p < n + have
      ensures StreamOf(buf + [acc % 256], acc / 256, have - 8)[p] == StreamOf(buf, acc, have)[p]
    {
      if p < n + 8 {
        StreamBitAppend(buf, acc % 256, p);
        if p >= n { Mod256Bits(acc, p - n); }
      } else {
        BitStep8(acc / 256, acc % 256, p - n);
      }
    }
  }

  /** A field placed above the carried bits extends the stream. */
  lemma {:induction false} PlaceAbove(buf: seq<Byte>, cur: nat, nbits: nat, chunk: nat, take: nat)
    requires cur < Pow2(nbits) && nbits + take <= 64
    ensures StreamOf(buf, Or(cur, Shl(chunk, nbits) % TWO64), nbits + take)
         == StreamOf(buf, cur, nbits) + FieldBits(chunk, take)
  {
    var n, acc := 8 * |buf|, Or(cur, Shl(chunk, nbits) % TWO64);
    forall p: nat | p < n + nbits + take
      ensures StreamOf(buf, acc, nbits + take)[p] == (StreamOf(buf, cur, nbits) + FieldBits(chunk, take))[p]
    {
      if p >= n {
        BitOr(cur, Shl(chunk, nbits) % TWO64, p - n);
        Mod64Bits(Shl(chunk, nbits), p - n);
        BitShl(chunk, nbits, p - n);
        if p - n >= nbits { HighBitsClear(cur, nbits, p - n); }
      }
    }
  }

  lemma {:induction false} AccBound(cur: nat, nbits: nat, chunk: nat, take: nat)
    requires cur < Pow2(nbits) && chunk < Pow2(take) && nbits + take <= 64
    ensures Or(cur, Shl(chunk, nbits) % TWO64) < Pow2(nbits + take)
  {
    var x := Shl(chunk, nbits);
    ShiftFits(chunk, nbits, take);
    Pow2Mono(nbits + take, 64);
    Pow2Of64();
    assert x % TWO64 == x;
    Pow2Mono(nbits, nbits + take);
    OrBound(cur, x, nbits + take);
  }

  lemma {:induction false} ShiftFits(chunk: nat, s: nat, take: nat)
    requires chunk < Pow2(take)
    ensures Shl(chunk, s) < Pow2(s + take)
  {
    if s > 0 { ShiftFits(chunk, s - 1, take); }
  }

  lemma {:induction false} DivPow2(v: nat, k: nat)
    requires k >= 8 && v < Pow2(k)
    ensures v / 256 < Pow2(k - 8)
  {
    Pow2Add(8, k - 8);
    Pow2Of8();
  }

  lemma {:induction false} FieldBitsSplit(v: nat, a: nat, b: nat)
    ensures FieldBits(v, a + b) == FieldBits(v, a) + FieldBits(Shr(v, a), b)
  {
    forall i: nat | i < a + b
      ensures FieldBits(v, a + b)[i] == (FieldBits(v, a) + FieldBits(Shr(v, a), b))[i]
    {
      if i >= a { BitShr(v, a, i - a); }
    }
  }

  lemma {:induction false} StreamIsShort(cur: nat, have: nat)
    requires have < 8 && cur < Pow2(have)
    ensures cur < 256 && cur % 256 == cur
  {
    Pow2Mono(have, 8);
    Pow2Of8();
  }

  /** The writer state is a function of the bits written. */
  lemma {:induction false} WriterStateUnique(b1: seq<Byte>, c1: nat, n1: nat, b2: seq<Byte>, c2: nat, n2: nat)
    requires n1 < 8 && n2 < 8 && c1 < Pow2(n1) && c2 < Pow2(n2)
    requires StreamOf(b1, c1, n1) == StreamOf(b2, c2, n2)
    ensures b1 == b2 && c1 == c2 && n1 == n2
  {
    assert |StreamOf(b1, c1, n1)| == |StreamOf(b2, c2, n2)|;
    BufferUnique(b1, c1, b2, c2, n1);
    CarryUnique(b1, c1, c2, n1);
  }

  lemma {:induction false} BufferUnique(b1: seq<Byte>, c1: nat, b2: seq<Byte>, c2: nat, n: nat)
    requires |b1| == |b2| && StreamOf(b1, c1, n) == StreamOf(b2, c2, n)
    ensures b1 == b2
  {
    forall p: nat | p < 8 * |b1| ensures StreamBit(b1, p) == StreamBit(b2, p) {
      assert StreamOf(b1, c1, n)[p] == StreamOf(b2, c2, n)[p];
    }
    StreamExt(b1, b2);
  }

  lemma {:induction false} CarryUnique(b: seq<Byte>, c1: nat, c2: nat, n: nat)
    requires c1 < Pow2(n) && c2 < Pow2(n) && StreamOf(b, c1, n) == StreamOf(b, c2, n)
    ensures c1 == c2
  {
    forall i: nat ensures Bit(c1, i) == Bit(c2, i) {
      if i < n {
        assert StreamOf(b, c1, n)[8 * |b| + i] == StreamOf(b, c2, n)[8 * |b| + i];
      } else {
        HighBitsClear(c1, n, i);
        HighBitsClear(c2, n, i);
      }
    }
    BitExt(c1, c2);
  }

  class BitWriter {
    var buf: seq<Byte>
    var cur: nat
    var nbits: nat

    ghost predicate Valid() reads this { nbits < 8 && cur < Pow2(nbits) }

    /** The bits written so far. */
    ghost function Contents(): seq<bool> reads this { StreamOf(buf, cur, nbits) }

    constructor ()
      ensures Valid() && Contents() == []
    {
      buf, cur, nbits := [], 0, 0;
    }

    /** Merge up to 57 bits into the accumulator and flush its whole bytes. */
    method PutChunk(chunk: nat, take: nat)
      requires Valid() && take <= 57 && chunk < Pow2(take)
      modifies this
      ensures Valid() && Contents() == old(Contents()) + FieldBits(chunk, take)
    {
      var acc: nat, have: nat := Or(cur, Shl(chunk, nbits) % TWO64), nbits + take;
      PlaceAbove(buf, cur, nbits, chunk, take);
      AccBound(cur, nbits, chunk, take);
      while have >= 8
        modifies `buf
        invariant acc < Pow2(have)
        invariant StreamOf(buf, acc, have) == old(Contents()) + FieldBits(chunk, take)
      {
        EmitByte(buf, acc, have);
        DivPow2(acc, have);
        buf := buf + [acc % 256];
        acc := acc / 256;
        have := have - 8;
      }
      StreamIsShort(acc, have);
      cur := acc % 256;
      nbits := have;
    }

    /** bw_put: append the low `bits` bits of v, batched 57 bits at a time. */
    method Put(v: nat, bits: nat)
      requires Valid() && v < TWO64 && bits <= 64
      modifies this
      ensures Valid() && Contents() == old(Contents()) + FieldBits(v, bits)
    {
      FieldBitsLow(v, bits);
      PutBatches(if bits < 64 then Low(v, bits) else v, bits);
    }

    method PutBatches(v: nat, bits: nat)
      requires Valid()
      modifies this
      ensures Valid() && Contents() == old(Contents()) + FieldBits(v, bits)
    {
      ghost var f := Contents();
      var rest, done := v, 0;
      while done < bits
        invariant Valid() && done <= bits && rest == Shr(v, done)
        invariant Contents() == f + FieldBits(v, done)
      {
        var take := if bits - done < 57 then bits - done else 57;
        LowBound(rest, take);
        PutChunk(Low(rest, take), take);
        ChunkDone(f, v, done, take);
        rest := Shr(rest, take);
        done := done + take;
      }
    }

    /** ref_bw_put: one bit at a time. */
    method RefPut(v: nat, bits: nat)
      requires Valid()
      modifies this
      ensures Valid() && Contents() == old(Contents()) + FieldBits(v, bits)
    {
      ghost var f := Contents();
      for i := 0 to bits
        invariant Valid() && Contents() == f + FieldBits(v, i)
      {
        RefPutBit(Shr(v, i) % 2);
        BitShr(v, i, 0);
        FieldBitsSplit(v, i, 1);
      }
    }

    method RefPutBit(b: nat)
      requires Valid() && b < 2
      modifies this
      ensures Valid() && Contents() == old(Contents()) + FieldBits(b, 1)
    {
      ghost var start := cur;
      SetCarryBit(buf, cur, nbits, b);
      if b == 1 { cur := Or(cur, Shl(1, nbits)); }
      nbits := nbits + 1;
      if nbits == 8 {
        StreamIsShort8(cur);
        EmitByte(buf, cur, 8);
        buf := buf + [cur];
        cur, nbits := 0, 0;
      }
    }

    /** bw_flush: the buffer is the bits written, padded with clear bits to a byte. */
    method Flush()
      requires Valid()
      modifies this
      ensures Valid() && buf == Spelled(old(Contents())) && cur == 0 && nbits == 0
    {
      FlushSpells(buf, cur, nbits);
      if nbits > 0 {
        StreamIsShort(cur, nbits);
        buf := buf + [cur];
        cur := 0;
        nbits := 0;
      }
    }
  }

  lemma {:induction false} ChunkDone(f: seq<bool>, w: nat, a: nat, take: nat)
    ensures f + FieldBits(w, a) + FieldBits(Low(Shr(w, a), take), take) == f + FieldBits(w, a + take)
    ensures Shr(Shr(w, a), take) == Shr(w, a + take)
  {
    FieldBitsLow(Shr(w, a), take);
    FieldBitsSplit(w, a, take);
    ShrShr(w, a, take);
  }

  lemma {:induction false} StreamIsShort8(cur: nat)
    requires cur < Pow2(8)
    ensures cur < 256 && cur % 256 == cur && cur / 256 == 0
  {
    Pow2Of8();
  }

  lemma {:induction false} ShrShr(v: nat, a: nat, b: nat)
    ensures Shr(Shr(v, a), b) == Shr(v, a + b)
  {
    if a > 0 { ShrShr(v / 2, a - 1, b); }
  }

  lemma {:induction false} SetCarryBit(buf: seq<Byte>, cur: nat, nbits: nat, b: nat)
    requires cur < Pow2(nbits) && b < 2
    ensures var c := if b == 1 then Or(cur, Shl(1, nbits)) else cur;
      && c < Pow2(nbits + 1)
      && StreamOf(buf, c, nbits + 1) == StreamOf(buf, cur, nbits) + FieldBits(b, 1)
  {
    var c := if b == 1 then Or(cur, Shl(1, nbits)) else cur;
    var n := 8 * |buf|;
    Pow2Mono(nbits, nbits + 1);
    ShlBound(nbits, nbits + 1);
    OrBound(cur, Shl(1, nbits), nbits + 1);
    forall p: nat | p < n + nbits + 1
      ensures StreamOf(buf, c, nbits + 1)[p] == (StreamOf(buf, cur, nbits) + FieldBits(b, 1))[p]
    {
      if p >= n {
        BitOr(cur, Shl(1, nbits), p - n);
        BitOne(nbits, p - n);
        if p - n == nbits { HighBitsClear(cur, nbits, nbits); }
      }
    }
  }

  lemma {:induction false} FlushBit(buf: seq<Byte>, cur: nat, nbits: nat, p: nat)
    requires nbits < 8 && cur < Pow2(nbits) && cur < 256 && p < 8 * |buf| + 8
    ensures var f := StreamOf(buf, cur, nbits); StreamBit(buf + [cur], p) == (p < |f| && f[p])
  {
    StreamBitAppend(buf, cur, p);
    if p >= 8 * |buf| + nbits { HighBitsClear(cur, nbits, p - 8 * |buf|); }
  }

  lemma {:induction false} FlushSpells(buf: seq<Byte>, cur: nat, nbits: nat)
    requires nbits < 8 && cur < Pow2(nbits)
    ensures cur < 256 && (if nbits > 0 then buf + [cur] else buf) == Spelled(StreamOf(buf, cur, nbits))
  {
    StreamIsShort(cur, nbits);
    var f := StreamOf(buf, cur, nbits);
    SpelledSpells(f);
    if nbits > 0 {
      forall p: nat | p < 8 * |buf + [cur]| ensures StreamBit(buf + [cur], p) == (p < |f| && f[p]) {
        FlushBit(buf, cur, nbits, p);
      }
      SpellsUnique(buf + [cur], Spelled(f), f);
    } else {
      WholeSpells(buf, cur);
      SpellsUnique(buf, Spelled(f), f);
    }
  }

  lemma {:induction false} WholeSpells(buf: seq<Byte>, cur: nat)
    ensures Spells(buf, StreamOf(buf, cur, 0))
  {
    var f := StreamOf(buf, cur, 0);
    forall p: nat | p < 8 * |buf| ensures StreamBit(buf, p) == f[p] {}
  }

  /** br_get as a function of the reader state. */
  function Get(data: seq<Byte>, bitpos: nat, bits: nat): Result<nat> {
    if bits > 64 || bitpos + bits > 8 * |data| then Err else Ok(Field(data, bitpos, bits))
  }

  class BitReader {
    const data: seq<Byte>
    var bitpos: nat

    constructor (bytes: seq<Byte>)
      ensures data == bytes && bitpos == 0
    {
      data, bitpos := bytes, 0;
    }

    /** br_get: refuses a field past the data, otherwise reads it and moves past it. */
    method Read(bits: nat) returns (r: Result<nat>)
      modifies this
      ensures r == Get(data, old(bitpos), bits)
      ensures bitpos == old(bitpos) + if r.Ok? then bits else 0
    {
      if bits > 64 || bitpos + bits > 8 * |data| {
        return Err;
      }
      var v := ReadField(data, bitpos, bits);
      bitpos := bitpos + bits;
      r := Ok(v);
    }
  }

  // ----- what is written is read back

  datatype BitField = BitField(value: nat, width: nat)

  /** The stream of the first k fields. */
  function FieldsBits(fs: seq<BitField>, k: nat): seq<bool>
    requires k <= |fs|
  {
    if k == 0 then [] else FieldsBits(fs, k - 1) + FieldBits(fs[k - 1].value, fs[k - 1].width)
  }

  lemma {:induction false} FieldsPrefix(fs: seq<BitField>, j: nat, k: nat)
    requires j <= k <= |fs|
    ensures |FieldsBits(fs, j)| <= |FieldsBits(fs, k)|
    ensures FieldsBits(fs, j) == FieldsBits(fs, k)[..|FieldsBits(fs, j)|]
  {
    if j < k { FieldsPrefix(fs, j, k - 1); }
  }

  /** br_get with the widths of the writer reads back every masked field, from any byte string
      that starts with the flushed stream. */
  lemma {:induction false} FieldsReadBack(fs: seq<BitField>, j: nat, rest: seq<Byte>)
    requires j < |fs| && fs[j].width <= 64
    ensures Get(Spelled(FieldsBits(fs, |fs|)) + rest, |FieldsBits(fs, j)|, fs[j].width)
         == Ok(Low(fs[j].value, fs[j].width))
  {
    FieldReads(fs, j, rest);
    ReadsField(Spelled(FieldsBits(fs, |fs|)) + rest, |FieldsBits(fs, j)|, fs[j].value, fs[j].width);
  }

  lemma {:induction false} FieldReads(fs: seq<BitField>, j: nat, rest: seq<Byte>)
    requires j < |fs|
    ensures Reads(Spelled(FieldsBits(fs, |fs|)) + rest, |FieldsBits(fs, j)|, FieldBits(fs[j].value, fs[j].width))
  {
    var f := FieldsBits(fs, |fs|);
    FieldsPrefix(fs, j + 1, |fs|);
    SpelledReads(f, rest);
    ReadsWithin(Spelled(f) + rest, f, FieldsBits(fs, j), FieldBits(fs[j].value, fs[j].width));
  }

  lemma {:induction false} ReadsWithin(s: seq<Byte>, f: seq<bool>, g: seq<bool>, h: seq<bool>)
    requires Reads(s, 0, f) && |g + h| <= |f| && g + h == f[..|g + h|]
    ensures Reads(s, |g|, h)
  {
    assert f == g + h + f[|g + h|..];
    ReadsSplit(s, 0, g + h, f[|g + h|..]);
    ReadsSplit(s, 0, g, h);
  }

  lemma {:induction false} SpelledReads(f: seq<bool>, rest: seq<Byte>)
    ensures Reads(Spelled(f) + rest, 0, f)
  {
    SpelledSpells(f);
    forall i: nat | i < |f| ensures ReadsAt(Spelled(f), 0, f, i) { assert StreamBit(Spelled(f), i) == f[i]; }
    ReadsPrefix(Spelled(f), rest, 0, f);
  }
}
