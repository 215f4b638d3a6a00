/**
 Machine words as natural numbers. A word is a `nat`; `Bit(v, i)` is its i-th binary
 digit, and the C operators `>>`, `<<`, `|`, `^`, `&` and masking are defined by recursion
 on the binary expansion. Every bit-level proof of the project is by extensionality:
 two words with the same bits are the same number.
 */
module Bits {
  type Byte = b: int | 0 <= b < 256

  const TWO64: nat := 0x1_0000_0000_0000_0000
  const TWO32: nat := 0x1_0000_0000
  const TWO31: nat := 0x8000_0000

  function Pow2(k: nat): (p: nat)
    ensures p >= 1
  {
    if k == 0 then 1 else 2 * Pow2(k - 1)
  }

  predicate Bit(v: nat, i: nat) {
    if i == 0 then v % 2 == 1 else Bit(v / 2, i - 1)
  }

  function BoolBit(b: bool): (r: nat)
    ensures r < 2
  {
    if b then 1 else 0
  }

  function Shr(v: nat, s: nat): nat {
    if s == 0 then v else Shr(v / 2, s - 1)
  }

  function Shl(v: nat, s: nat): nat {
    if s == 0 then v else 2 * Shl(v, s - 1)
  }

  /** `v & ((1 << w) - 1)`: the low w bits. `Low(v, 64)` is truncation to uint64. */
  function Low(v: nat, w: nat): nat {
    if w == 0 then 0 else v % 2 + 2 * Low(v / 2, w - 1)
  }

  function Or(a: nat, b: nat): nat {
    if a == 0 && b == 0 then 0 else BoolBit(a % 2 == 1 || b % 2 == 1) + 2 * Or(a / 2, b / 2)
  }

  function Xor(a: nat, b: nat): nat {
    if a == 0 && b == 0 then 0 else BoolBit((a % 2 == 1) != (b % 2 == 1)) + 2 * Xor(a / 2, b / 2)
  }

  lemma {:induction false} XorZero(a: nat)
    ensures Xor(a, 0) == a
  {
    if a > 0 { XorZero(a / 2); }
  }

  function And(a: nat, b: nat): nat {
    if a == 0 || b == 0 then 0 else BoolBit(a % 2 == 1 && b % 2 == 1) + 2 * And(a / 2, b / 2)
  }

  // ----- what each operator does to one bit

  lemma {:induction false} BitZero(i: nat)
    ensures !Bit(0, i)
  {
    if i > 0 { BitZero(i - 1); }
  }

  lemma {:induction false} BitShr(v: nat, s: nat, i: nat)
    ensures Bit(Shr(v, s), i) == Bit(v, i + s)
  {
    if s > 0 { BitShr(v / 2, s - 1, i); }
  }

  lemma {:induction false} BitShl(v: nat, s: nat, i: nat)
    ensures Bit(Shl(v, s), i) == (i >= s && Bit(v, i - s))
  {
    if s > 0 {
      assert Shl(v, s) / 2 == Shl(v, s - 1);
      if i > 0 { BitShl(v, s - 1, i - 1); }
    }
  }

  lemma {:induction false} BitLow(v: nat, w: nat, i: nat)
    ensures Bit(Low(v, w), i) == (i < w && Bit(v, i))
  {
    if w == 0 {
      BitZero(i);
    } else {
      assert Low(v, w) / 2 == Low(v / 2, w - 1);
      if i > 0 { BitLow(v / 2, w - 1, i - 1); }
    }
  }

  lemma {:induction false} BitOr(a: nat, b: nat, i: nat)
    ensures Bit(Or(a, b), i) == (Bit(a, i) || Bit(b, i))
  {
    if a == 0 && b == 0 {
      BitZero(i);
    } else {
      assert Or(a, b) / 2 == Or(a / 2, b / 2);
      if i > 0 { BitOr(a / 2, b / 2, i - 1); }
    }
  }

  lemma {:induction false} BitXor(a: nat, b: nat, i: nat)
    ensures Bit(Xor(a, b), i) == (Bit(a, i) != Bit(b, i))
  {
    if a == 0 && b == 0 {
      BitZero(i);
    } else {
      assert Xor(a, b) / 2 == Xor(a / 2, b / 2);
      if i > 0 { BitXor(a / 2, b / 2, i - 1); }
    }
  }

  lemma {:induction false} BitAnd(a: nat, b: nat, i: nat)
    ensures Bit(And(a, b), i) == (Bit(a, i) && Bit(b, i))
  {
    if a == 0 || b == 0 {
      BitZero(i);
    } else {
      assert And(a, b) / 2 == And(a / 2, b / 2);
      if i > 0 { BitAnd(a / 2, b / 2, i - 1); }
    }
  }

  // ----- extensionality

  ghost predicate SameBits(a: nat, b: nat) {
    forall i: nat :: Bit(a, i) == Bit(b, i)
  }

  /** Two words with the same bits are equal. */
  lemma {:induction false} BitExt(a: nat, b: nat)
    requires SameBits(a, b)
    ensures a == b
    decreases a + b
  {
    if a > 0 || b > 0 {
      forall i: nat ensures Bit(a / 2, i) == Bit(b / 2, i) {
        assert Bit(a, i + 1) == Bit(b, i + 1);
      }
      BitExt(a / 2, b / 2);
      assert Bit(a, 0) == Bit(b, 0);
    }
  }

  /** Below 2^w means no bit at or above w. */
  lemma {:induction false} HighBitsClear(v: nat, w: nat, i: nat)
    requires v < Pow2(w) && i >= w
    ensures !Bit(v, i)
  {
    if w == 0 {
      BitZero(i);
    } else {
      HighBitsClear(v / 2, w - 1, i - 1);
    }
  }

  lemma {:induction false} LowBound(v: nat, w: nat)
    ensures Low(v, w) < Pow2(w)
  {
    if w > 0 { LowBound(v / 2, w - 1); }
  }

  lemma {:induction false} LowIdentity(v: nat, w: nat)
    requires v < Pow2(w)
    ensures Low(v, w) == v
  {
    if w > 0 { LowIdentity(v / 2, w - 1); }
  }

  /** Masking to w bits is the remainder modulo 2^w. */
  lemma {:induction false} LowIsMod(v: nat, w: nat)
    ensures Low(v, w) == v % Pow2(w)
  {
    var q := LowQuotient(v, w);
    LowBound(v, w);
    ModUnique(v, Pow2(w), q, Low(v, w));
  }

  lemma {:induction false} LowQuotient(v: nat, w: nat) returns (q: nat)
    ensures v == Pow2(w) * q + Low(v, w)
    ensures q == Shr(v, w)
  {
    if w == 0 {
      q := v;
    } else {
      q := LowQuotient(v / 2, w - 1);
      assert v == 2 * (v / 2) + v % 2;
      assert 2 * (Pow2(w - 1) * q) == Pow2(w) * q;
    }
  }

  lemma {:induction false} ModUnique(v: nat, m: nat, q: nat, r: nat)
    requires m > 0 && r < m && v == m * q + r
    ensures v % m == r && v / m == q
  {
    DivModUnique(m, v / m, v % m, q, r);
  }

  lemma {:induction false} DivModUnique(m: nat, a: int, s: nat, b: int, r: nat)
    requires s < m && r < m && m * a + s == m * b + r
    ensures a == b && s == r
  {
    assert m * (a - b) == r - s;
    if a - b >= 1 {
      MulAtLeast(m, a - b);
    } else if b - a >= 1 {
      assert m * (b - a) == s - r;
      MulAtLeast(m, b - a);
    }
  }

  lemma {:induction false} MulAtLeast(m: nat, k: int)
    requires k >= 1
    ensures m * k >= m
  {
    assert m * k == m * (k - 1) + m;
  }

  lemma {:induction false} Pow2Add(a: nat, b: nat)
    ensures Pow2(a + b) == Pow2(a) * Pow2(b)
  {
    if a > 0 {
      Pow2Add(a - 1, b);
      assert 2 * (Pow2(a - 1) * Pow2(b)) == Pow2(a) * Pow2(b);
    }
  }

  lemma {:induction false} Pow2Mono(a: nat, b: nat)
    requires a <= b
    ensures Pow2(a) <= Pow2(b)
  {
    if a < b { Pow2Mono(a, b - 1); }
  }

  lemma {:induction false} ShlIsMul(v: nat, s: nat)
    ensures Shl(v, s) == v * Pow2(s)
  {
    if s > 0 {
      ShlIsMul(v, s - 1);
      assert 2 * (v * Pow2(s - 1)) == v * Pow2(s);
    }
  }

  lemma {:induction false} Pow2Of8()
    ensures Pow2(8) == 256
  {
    assert Pow2(4) == 16;
    Pow2Add(4, 4);
  }

  lemma {:induction false} Pow2Of64()
    ensures Pow2(64) == TWO64
  {
    Pow2Of8();
    Pow2Add(8, 8);
    Pow2Add(16, 16);
    Pow2Add(32, 32);
  }

  // ----- products

  /** w * k, by repeated addition. */
  function Times(k: nat, w: nat): nat {
    if k == 0 then 0 else Times(k - 1, w) + w
  }

  lemma {:induction false} TimesIsMul(k: nat, w: nat)
    ensures Times(k, w) == k * w
  {
    if k > 0 {
      TimesIsMul(k - 1, w);
      assert (k - 1) * w + w == k * w;
    }
  }

  lemma {:induction false} TimesMono(j: nat, k: nat, w: nat)
    requires j <= k
    ensures Times(j, w) <= Times(k, w)
  {
    if j < k { TimesMono(j, k - 1, w); }
  }

  lemma {:induction false} TimesAdd(a: nat, b: nat, w: nat)
    ensures Times(a + b, w) == Times(a, w) + Times(b, w)
  {
    if a > 0 { TimesAdd(a - 1, b, w); }
  }

  // ----- or-ing bits into a byte

  lemma {:induction false} BitOne(k: nat, i: nat)
    ensures Bit(Shl(1, k), i) == (i == k)
  {
    BitShl(1, k, i);
    if i > k { assert Bit(1, i - k) == Bit(0, i - k - 1); BitZero(i - k - 1); }
  }

  lemma {:induction false} OrFits(a: Byte, b: nat)
    requires b < 256
    ensures Or(a, b) < 256
  {
    OrBound(a, b, 8);
    Pow2Of8();
  }

  lemma {:induction false} OrBound(a: nat, b: nat, w: nat)
    requires a < Pow2(w) && b < Pow2(w)
    ensures Or(a, b) < Pow2(w)
  {
    if w > 0 { OrBound(a / 2, b / 2, w - 1); }
  }

  lemma {:induction false} ShlBound(k: nat, w: nat)
    requires k < w
    ensures Shl(1, k) < Pow2(w)
  {
    if k > 0 { ShlBound(k - 1, w - 1); } else { Pow2Mono(1, w); assert Pow2(1) == 2; }
  }

  function Zeros(n: nat): (z: seq<Byte>)
    ensures |z| == n
  {
    seq(n, _ => 0)
  }

  // ----- byte streams, least significant bit first

  /** Bit p of a byte string: bit p % 8 of byte p / 8. */
  predicate StreamBit(s: seq<Byte>, p: nat)
    requires p < 8 * |s|
  {
    Bit(s[p / 8], p % 8)
  }

  lemma {:induction false} ByteHighBits(b: Byte, i: nat)
    requires i >= 8
    ensures !Bit(b, i)
  {
    Pow2Of8();
    HighBitsClear(b, 8, i);
  }

  ghost predicate SameStream(a: seq<Byte>, b: seq<Byte>)
  {
    |a| == |b| && forall p: nat :: p < 8 * |a| ==> StreamBit(a, p) == StreamBit(b, p)
  }

  /** A byte string is determined by its bits. */
  lemma {:induction false} StreamExt(a: seq<Byte>, b: seq<Byte>)
    requires SameStream(a, b)
    ensures a == b
  {
    forall k | 0 <= k < |a| ensures a[k] == b[k] {
      forall i: nat ensures Bit(a[k], i) == Bit(b[k], i) {
        if i < 8 {
          var p := 8 * k + i;
          assert p / 8 == k && p % 8 == i;
          assert StreamBit(a, p) == StreamBit(b, p);
        } else {
          ByteHighBits(a[k], i);
          ByteHighBits(b[k], i);
        }
      }
      BitExt(a[k], b[k]);
    }
  }

  /** The w-bit field at bit position p, one bit at a time. */
  function Field(s: seq<Byte>, p: nat, w: nat): nat
    requires p + w <= 8 * |s|
    decreases w
  {
    if w == 0 then 0 else BoolBit(StreamBit(s, p)) + 2 * Field(s, p + 1, w - 1)
  }

  lemma {:induction false} BitField(s: seq<Byte>, p: nat, w: nat, i: nat)
    requires p + w <= 8 * |s|
    ensures Bit(Field(s, p, w), i) == (i < w && StreamBit(s, p + i))
    decreases w
  {
    if w == 0 {
      BitZero(i);
    } else {
      assert Field(s, p, w) / 2 == Field(s, p + 1, w - 1);
      if i > 0 { BitField(s, p + 1, w - 1, i - 1); }
    }
  }

  lemma {:induction false} FieldBound(s: seq<Byte>, p: nat, w: nat)
    requires p + w <= 8 * |s|
    ensures Field(s, p, w) < Pow2(w)
    decreases w
  {
    if w > 0 { FieldBound(s, p + 1, w - 1); }
  }

  /** Little-endian value of a byte string (`memcpy` into a zeroed integer). */
  function FromLE(s: seq<Byte>): nat {
    if s == [] then 0 else s[0] + 256 * FromLE(s[1..])
  }

  /** The low k bytes of a word, little-endian (`memcpy` out of an integer). */
  function ToLE(v: nat, k: nat): (s: seq<Byte>)
    ensures |s| == k
  {
    if k == 0 then [] else [v % 256] + ToLE(v / 256, k - 1)
  }

  lemma {:induction false} FromToLE(s: seq<Byte>)
    ensures ToLE(FromLE(s), |s|) == s
  {
    if s != [] {
      var v := FromLE(s);
      assert v % 256 == s[0] && v / 256 == FromLE(s[1..]);
      FromToLE(s[1..]);
      assert s == [s[0]] + s[1..];
    }
  }

  lemma {:induction false} ToFromLE(v: nat, k: nat)
    requires v < Pow2(8 * k)
    ensures FromLE(ToLE(v, k)) == v
  {
    if k > 0 {
      Pow2Of8();
      Pow2Add(8, 8 * (k - 1));
      assert v / 256 < Pow2(8 * (k - 1));
      ToFromLE(v / 256, k - 1);
      assert ToLE(v, k)[1..] == ToLE(v / 256, k - 1);
    }
  }

  lemma {:induction false} FromLEBound(s: seq<Byte>)
    ensures FromLE(s) < Pow2(8 * |s|)
  {
    if s != [] {
      FromLEBound(s[1..]);
      Pow2Of8();
      Pow2Add(8, 8 * |s[1..]|);
      assert 8 * |s| == 8 + 8 * |s[1..]|;
    }
  }

  lemma {:induction false} BitStep8(v: nat, b: Byte, i: nat)
    ensures Bit(b + 256 * v, i) == if i < 8 then Bit(b, i) else Bit(v, i - 8)
  {
    var x := b + 256 * v;
    assert x == b + Shl(v, 8) by {
      Pow2Of8();
      ShlIsMul(v, 8);
    }
    AddIsOr(b, v, 8);
    BitOr(b, Shl(v, 8), i);
    BitShl(v, 8, i);
    if i >= 8 { ByteHighBits(b, i); }
  }

  /** Adding above a clear low part is bitwise or. */
  lemma {:induction false} AddIsOr(a: nat, v: nat, s: nat)
    requires a < Pow2(s)
    ensures a + Shl(v, s) == Or(a, Shl(v, s))
  {
    if s == 0 {
      OrZero(v);
    } else {
      AddIsOr(a / 2, v, s - 1);
      assert Shl(v, s) / 2 == Shl(v, s - 1) && Shl(v, s) % 2 == 0;
    }
  }

  lemma {:induction false} OrZero(v: nat)
    ensures Or(0, v) == v && Or(v, 0) == v
  {
    if v > 0 { OrZero(v / 2); }
  }

  /** Bit p of the little-endian value is bit p of the stream. */
  lemma {:induction false} BitFromLE(s: seq<Byte>, p: nat)
    ensures Bit(FromLE(s), p) == (p < 8 * |s| && StreamBit(s, p))
  {
    if s == [] {
      BitZero(p);
    } else {
      BitStep8(FromLE(s[1..]), s[0], p);
      if p >= 8 {
        BitFromLE(s[1..], p - 8);
        if p < 8 * |s| {
          assert s[1..][(p - 8) / 8] == s[p / 8];
        }
      }
    }
  }
}
