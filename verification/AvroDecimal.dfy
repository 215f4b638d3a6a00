module AvroDecimal {
  /**
   src/columnar_avro.c, av_append_decimal: a big-endian two's-complement integer printed over a power
   of ten. The text is read back by an independent reader as exactly that integer with `scale`
   fractional digits.
   */

  import opened Prelude
  import opened Bits

  const MAX_BYTES: nat := 64

  // ----- the integer

  /** Big-endian value of the first k bytes. */
  function Big(s: seq<Byte>, k: nat): nat
    requires k <= |s|
  {
    if k == 0 then 0 else 256 * Big(s, k - 1) + s[k - 1]
  }

  /** 256^k */
  function Radix(k: nat): (r: nat)
    ensures r > 0
  {
    if k == 0 then 1 else 256 * Radix(k - 1)
  }

  /** The two's-complement value. */
  function Value(p: seq<Byte>): int {
    Big(p, |p|) - if |p| > 0 && p[0] >= 128 then Radix(|p|) else 0
  }

  function Magnitude(p: seq<Byte>): nat {
    if Value(p) < 0 then -Value(p) else Value(p)
  }

  lemma {:induction false} BigBound(s: seq<Byte>, k: nat)
    requires k <= |s|
    ensures Big(s, k) < Radix(k)
  {
    if k > 0 { BigBound(s, k - 1); }
  }

  /** A set top bit is the sign. */
  lemma {:induction false} SignBit(s: seq<Byte>, k: nat)
    requires 0 < k <= |s|
    ensures s[0] >= 128 ==> 2 * Big(s, k) >= Radix(k)
  {
    if k == 1 {
      assert Big(s, 0) == 0;
      assert Radix(1) == 256 * Radix(0);
    } else {
      SignBit(s, k - 1);
    }
  }

  /** Value of the bytes from i on. */
  function Tail(s: seq<Byte>, i: nat): nat
    requires i <= |s|
    decreases |s| - i
  {
    if i == |s| then 0 else s[i] * Radix(|s| - 1 - i) + Tail(s, i + 1)
  }

  lemma {:induction false} TailIsBig(s: seq<Byte>, i: nat)
    requires i <= |s|
    ensures Big(s, i) * Radix(|s| - i) + Tail(s, i) == Big(s, |s|)
    decreases |s| - i
  {
    if i == |s| {
      assert Radix(0) == 1;
    } else {
      TailIsBig(s, i + 1);
      var b, r, w := Big(s, i), Radix(|s| - 1 - i), s[i];
      assert Radix(|s| - i) == 256 * r;
      TailStep(b, r, w);
    }
  }

  lemma {:induction false} TailStep(b: nat, r: nat, w: nat)
    ensures (256 * b + w) * r == b * (256 * r) + w * r
  {
  }

  /** Digit i of a positive number of decimal digits, least significant first. */
  function Digit(ds: seq<nat>, i: nat): nat { if i < |ds| then ds[i] else 0 }

  /** c * 10^k */
  function Scale(c: nat, k: nat): nat {
    if k == 0 then c else 10 * Scale(c, k - 1)
  }

  lemma {:induction false} ScaleStep(c: nat, r: nat, k: nat)
    ensures Scale(10 * c + r, k) == Scale(c, k + 1) + Scale(r, k)
  {
    if k > 0 { ScaleStep(c, r, k - 1); }
  }

  lemma {:induction false} ScaleMono(a: nat, b: nat, k: nat)
    requires a <= b
    ensures Scale(a, k) <= Scale(b, k)
  {
    if k > 0 { ScaleMono(a, b, k - 1); }
  }

  /** The number the first k digits spell. */
  function Spelled(ds: seq<nat>, k: nat): nat {
    if k == 0 then 0 else Spelled(ds, k - 1) + Scale(Digit(ds, k - 1), k - 1)
  }

  lemma {:induction false} SpelledAppend(ds: seq<nat>, d: nat, k: nat)
    requires k <= |ds|
    ensures Spelled(ds + [d], k) == Spelled(ds, k)
  {
    if k > 0 { SpelledAppend(ds, d, k - 1); }
  }

  // ----- the text

  function DigitChar(d: nat): char
    requires d < 10
  {
    '0' + d as char
  }

  /** What a reader makes of a text: its digits as one number, how many stand before and how many
      after the point, and whether there is a point. */
  datatype Reading = Reading(number: nat, whole: nat, fraction: nat, point: bool)

  /** A decimal number: digits, with at most one point and that after some digit. Anything else is
      not a number. */
  function Read(t: string): Option<Reading> {
    if t == "" then Some(Reading(0, 0, 0, false))
    else
      var r := Read(t[..|t| - 1]);
      if r.None? then None else ReadChar(r.value, t[|t| - 1])
  }

  function ReadChar(r: Reading, c: char): Option<Reading> {
    if c == '.' then if r.point || r.whole == 0 then None else Some(r.(point := true))
    else if '0' <= c <= '9' then Some(WithDigit(r, (c - '0') as int))
    else None
  }

  function WithDigit(r: Reading, d: nat): Reading {
    var n := 10 * r.number + d;
    if r.point then r.(number := n, fraction := r.fraction + 1) else r.(number := n, whole := r.whole + 1)
  }

  lemma {:induction false} ReadsDigit(r: Reading, d: nat)
    requires d < 10
    ensures ReadChar(r, DigitChar(d)) == Some(WithDigit(r, d)) && (DigitChar(d) == '0' <==> d == 0)
  {
  }

  predicate Digits(ds: seq<nat>) { forall i | 0 <= i < |ds| :: ds[i] < 10 }

  /** How many digits are printed: at least one before the point. */
  function Width(ds: seq<nat>, scale: nat): nat { if |ds| <= scale then scale + 1 else |ds| }

  /** The first j printed digits, with the point in its place. */
  function Printed(ds: seq<nat>, scale: nat, j: nat): string
    requires Digits(ds) && j <= Width(ds, scale)
  {
    if j == 0 then ""
    else
      var w := Width(ds, scale);
      Printed(ds, scale, j - 1) + [DigitChar(Digit(ds, w - j))] + if j == w - scale && scale > 0 then "." else ""
  }

  /** The number spelled by the j most significant of the printed digits. */
  function Top(ds: seq<nat>, w: nat, j: nat): nat
    requires j <= w
  {
    if j == 0 then 0 else 10 * Top(ds, w, j - 1) + Digit(ds, w - j)
  }

  lemma {:induction false} TopSpells(ds: seq<nat>, w: nat, j: nat)
    requires j <= w
    ensures Scale(Top(ds, w, j), w - j) + Spelled(ds, w - j) == Spelled(ds, w)
  {
    if j == 0 {
      ScaleZero(w);
    } else {
      TopSpells(ds, w, j - 1);
      ScaleStep(Top(ds, w, j - 1), Digit(ds, w - j), w - j);
    }
  }

  lemma {:induction false} ScaleZero(k: nat)
    ensures Scale(0, k) == 0
  {
    if k > 0 { ScaleZero(k - 1); }
  }

  lemma {:induction false} SpelledPadded(ds: seq<nat>, w: nat)
    requires w >= |ds|
    ensures Spelled(ds, w) == Spelled(ds, |ds|)
  {
    if w > |ds| {
      SpelledPadded(ds, w - 1);
      ScaleZero(w - 1);
    }
  }

  lemma {:induction false} ReadPush(t: string, c: char)
    requires Read(t).Some?
    ensures Read(t + [c]) == ReadChar(Read(t).value, c)
  {
    assert (t + [c])[..|t|] == t;
  }

  lemma {:induction false} ReadNothing()
    ensures Read("") == Some(Reading(0, 0, 0, false))
  {
  }

  lemma {:induction false} DigitSmall(ds: seq<nat>, i: nat)
    requires Digits(ds)
    ensures Digit(ds, i) < 10
  {
  }

  /** The first j printed digits stand before the point up to the w - scale of them. */
  lemma {:induction false} PrintedReads(ds: seq<nat>, scale: nat, j: nat)
    requires Digits(ds) && j <= Width(ds, scale)
    ensures var w := Width(ds, scale); var before := w - scale;
      Read(Printed(ds, scale, j))
      == Some(if j < before then Reading(Top(ds, w, j), j, 0, false) else Reading(Top(ds, w, j), before, j - before, scale > 0))
  {
    hide Read, DigitChar, Digit;
    if j == 0 {
      ReadNothing();
    } else {
      PrintedReads(ds, scale, j - 1);
      var w := Width(ds, scale);
      var t, d := Printed(ds, scale, j - 1), Digit(ds, w - j);
      DigitSmall(ds, w - j);
      var c := DigitChar(d);
      ReadPush(t, c);
      ReadsDigit(Read(t).value, d);
      if j == w - scale && scale > 0 {
        ReadPush(t + [c], '.');
        assert Printed(ds, scale, j) == t + [c] + ['.'];
      } else {
        assert Printed(ds, scale, j) == t + [c];
      }
    }
  }

  /** The text begins with its most significant digit. */
  lemma {:induction false} PrintedFirst(ds: seq<nat>, scale: nat, j: nat)
    requires Digits(ds) && 0 < j <= Width(ds, scale)
    ensures var t := Printed(ds, scale, j); t != "" && t[0] == DigitChar(Digit(ds, Width(ds, scale) - 1))
  {
    if j > 1 { PrintedFirst(ds, scale, j - 1); } else { assert Printed(ds, scale, 0) == ""; }
  }

  /** No zero in front, unless it is the number. */
  predicate Canonical(ds: seq<nat>) { |ds| > 0 && (|ds| > 1 ==> ds[|ds| - 1] != 0) }

  /** The text that av_append_decimal appends. */
  function Text(neg: bool, ds: seq<nat>, scale: nat): string
    requires Digits(ds)
  {
    (if neg then "-" else "") + Printed(ds, scale, Width(ds, scale))
  }

  /** The text, sign apart, is a number: the digits as one number are `number`, `scale` of them after
      the point, no point for scale 0, at least one digit before it, a leading zero only alone. */
  predicate Unsigned(t: string, number: nat, scale: nat) {
    match Read(t)
    case None => false
    case Some(r) =>
      && r.number == number && r.fraction == scale && r.point == (scale > 0)
      && r.whole >= 1 && (r.whole > 1 ==> t[0] != '0')
  }

  /** The printed digits are such a text. */
  lemma {:induction false} TextDenotes(ds: seq<nat>, scale: nat)
    requires Digits(ds) && Canonical(ds)
    ensures Unsigned(Printed(ds, scale, Width(ds, scale)), Spelled(ds, |ds|), scale)
  {
    var w := Width(ds, scale);
    PrintedReads(ds, scale, w);
    PrintedFirst(ds, scale, w);
    ReadsDigit(Reading(0, 0, 0, false), Digit(ds, w - 1));
    TopSpells(ds, w, w);
    SpelledPadded(ds, w);
  }

  // ----- one text per number

  /** A text that reads as so many digits is below the power of ten, and at least the power below
      when its first digit is not zero. */
  lemma {:induction false} ReadBounds(t: string)
    requires Read(t).Some? && t != ""
    ensures var r := Read(t).value;
      && r.whole > 0 && r.number < Scale(1, r.whole + r.fraction)
      && (t[0] != '0' ==> Scale(1, r.whole + r.fraction - 1) <= r.number)
  {
    var before := t[..|t| - 1];
    if before == "" {
      assert Read(before) == Some(Reading(0, 0, 0, false));
      assert Scale(1, 0) == 1;
    } else {
      ReadBounds(before);
    }
  }

  lemma {:induction false} NoPointNoFraction(t: string)
    requires Read(t).Some? && !Read(t).value.point
    ensures Read(t).value.fraction == 0
  {
    if t != "" { NoPointNoFraction(t[..|t| - 1]); }
  }

  /** The reading determines the text. */
  lemma {:induction false} ReadingDetermines(t: string, u: string)
    requires Read(t).Some? && Read(t) == Read(u)
    ensures t == u
    decreases |t|
  {
    if t != "" { ReadBounds(t); }
    if u != "" { ReadBounds(u); }
    if t != "" && u != "" {
      var a, b := t[..|t| - 1], u[..|u| - 1];
      assert t == a + [t[|t| - 1]] && u == b + [u[|u| - 1]];
      if !Read(a).value.point { NoPointNoFraction(a); }
      if !Read(b).value.point { NoPointNoFraction(b); }
      LastChar(Read(a).value, t[|t| - 1], Read(b).value, u[|u| - 1]);
      ReadingDetermines(a, b);
    }
  }

  lemma {:induction false} LastChar(r: Reading, c: char, q: Reading, d: char)
    requires ReadChar(r, c).Some? && ReadChar(r, c) == ReadChar(q, d)
    requires (!r.point ==> r.fraction == 0) && (!q.point ==> q.fraction == 0)
    ensures r == q && c == d
  {
    assert c != '.' ==> ReadChar(r, c).value.number % 10 == (c - '0') as int;
    assert d != '.' ==> ReadChar(q, d).value.number % 10 == (d - '0') as int;
  }

  /** There is one such text for a number and a scale. */
  lemma {:induction false} UnsignedUnique(t: string, u: string, number: nat, scale: nat)
    requires Unsigned(t, number, scale) && Unsigned(u, number, scale)
    ensures t == u
  {
    WholeUnique(t, u, number, scale);
    WholeUnique(u, t, number, scale);
    ReadingDetermines(t, u);
  }

  lemma {:induction false} WholeUnique(t: string, u: string, number: nat, scale: nat)
    requires Unsigned(t, number, scale) && Unsigned(u, number, scale)
    ensures Read(t).value.whole <= Read(u).value.whole
  {
    var a, b := Read(t).value.whole, Read(u).value.whole;
    ReadBounds(t);
    ReadBounds(u);
    if a > b { ScaleGrows(1, b + scale, a + scale - 1); }
  }

  /** 10^(3n) covers every n-byte number. */
  lemma {:induction false} DigitsSuffice(n: nat)
    ensures Radix(n) <= Scale(1, 3 * n)
  {
    if n > 0 {
      DigitsSuffice(n - 1);
      var s := Scale(1, 3 * (n - 1));
      assert Scale(1, 3 * n) == 10 * Scale(1, 3 * n - 1) == 100 * Scale(1, 3 * n - 2) == 1000 * s;
    }
  }

  lemma {:induction false} ScaleGrows(c: nat, j: nat, k: nat)
    requires j <= k
    ensures Scale(c, j) <= Scale(c, k)
  {
    if j < k { ScaleGrows(c, j, k - 1); }
  }

  // ----- the loops

  /** Invert and add one, from the last byte up. */
  method Negate(mag: array<Byte>)
    requires mag.Length > 0 && Big(mag[..], mag.Length) > 0
    modifies mag
    ensures Big(mag[..], mag.Length) == Radix(mag.Length) - old(Big(mag[..], mag.Length))
  {
    ghost var start := mag[..];
    var n, carry := mag.Length, 1;
    var i := n;
    assert Radix(0) == 1;
    while i > 0
      invariant 0 <= i <= n && 0 <= carry <= 1
      invariant mag[..i] == start[..i]
      invariant carry * Radix(n - i) + Tail(mag[..], i) == Radix(n - i) - Tail(start, i)
    {
      i := i - 1;
      ghost var before := mag[..];
      var v := 255 - mag[i] + carry;
      assert mag[i] == start[i];
      mag[i] := v % 256;
      TailAfter(before, mag[..], i + 1);
      NegateStep(start[i], carry, v, Radix(n - 1 - i), Tail(before, i + 1), Tail(start, i + 1));
      carry := v / 256;
    }
    TailIsBig(start, 0);
    TailIsBig(mag[..], 0);
    BigBound(mag[..], n);
  }

  lemma {:induction false} TailAfter(s: seq<Byte>, t: seq<Byte>, i: nat)
    requires |s| == |t| && i <= |s| && forall k | i <= k < |s| :: s[k] == t[k]
    ensures Tail(s, i) == Tail(t, i)
    decreases |s| - i
  {
    if i < |s| { TailAfter(s, t, i + 1); }
  }

  lemma {:induction false} NegateStep(b: Byte, carry: nat, v: nat, w: nat, tail: nat, was: nat)
    requires carry <= 1 && v == 255 - b + carry && carry * w + tail == w - was
    ensures (v / 256) * (256 * w) + ((v % 256) * w + tail) == 256 * w - (b * w + was)
  {
    assert v == 256 * (v / 256) + v % 256;
    assert (v / 256) * (256 * w) + (v % 256) * w == (256 * (v / 256) + v % 256) * w;
    assert v * w == 255 * w - b * w + carry * w;
  }

  /** One long division by ten; the remainder is the next digit. */
  method DivideByTen(mag: array<Byte>, start: nat) returns (rem: nat)
    requires start <= mag.Length && forall k | 0 <= k < start :: mag[k] == 0
    modifies mag
    ensures rem < 10 && old(Big(mag[..], mag.Length)) == 10 * Big(mag[..], mag.Length) + rem
    ensures forall k | 0 <= k < start :: mag[k] == 0
  {
    rem := 0;
    ghost var was := mag[..];
    ZeroPrefix(was, start);
    for i := start to mag.Length
      invariant rem < 10 && Big(was, i) == 10 * Big(mag[..], i) + rem
      invariant (forall k | 0 <= k < start :: mag[k] == 0) && mag[i..] == was[i..]
    {
      var cur := 256 * rem + mag[i];
      assert mag[i] == was[i];
      ghost var before := mag[..];
      mag[i] := cur / 10;
      BigAfter(before, mag[..], i);
      rem := cur % 10;
    }
  }

  lemma {:induction false} ZeroPrefix(s: seq<Byte>, k: nat)
    requires k <= |s| && forall i | 0 <= i < k :: s[i] == 0
    ensures Big(s, k) == 0
  {
    if k > 0 { ZeroPrefix(s, k - 1); }
  }

  lemma {:induction false} BigAfter(s: seq<Byte>, t: seq<Byte>, k: nat)
    requires k <= |s| && k <= |t| && forall i | 0 <= i < k :: s[i] == t[i]
    ensures Big(s, k) == Big(t, k)
  {
    if k > 0 { BigAfter(s, t, k - 1); }
  }

  lemma {:induction false} NonZero(s: seq<Byte>, i: nat, k: nat)
    requires i < k <= |s| && s[i] != 0
    ensures Big(s, k) > 0
  {
    if i < k - 1 { NonZero(s, i, k - 1); }
  }

  method SkipZeros(mag: array<Byte>, from: nat) returns (start: nat)
    requires from <= mag.Length && forall k | 0 <= k < from :: mag[k] == 0
    ensures from <= start <= mag.Length && forall k | 0 <= k < start :: mag[k] == 0
    ensures start < mag.Length ==> Big(mag[..], mag.Length) > 0
    ensures start == mag.Length ==> Big(mag[..], mag.Length) == 0
  {
    start := from;
    while start < mag.Length && mag[start] == 0
      invariant from <= start <= mag.Length && forall k | 0 <= k < start :: mag[k] == 0
    {
      start := start + 1;
    }
    if start < mag.Length { NonZero(mag[..], start, mag.Length); } else { ZeroPrefix(mag[..], mag.Length); }
  }

  /** The digits of the magnitude, least significant first; they fit the 3 * 64 + 1 byte buffer. */
  method ToDigits(mag: array<Byte>) returns (ds: seq<nat>)
    requires mag.Length <= MAX_BYTES
    modifies mag
    ensures Digits(ds) && Spelled(ds, |ds|) == old(Big(mag[..], mag.Length))
    ensures Canonical(ds) && |ds| <= 3 * MAX_BYTES + 1
  {
    hide Scale, Spelled, Big, Radix;
    ghost var m := Big(mag[..], mag.Length);
    BigBound(mag[..], mag.Length);
    NoDigits(m);
    ZeroSpelled();
    DigitsSuffice(mag.Length);
    ds := [];
    var start := SkipZeros(mag, 0);
    while start < mag.Length
      invariant start <= mag.Length && forall k | 0 <= k < start :: mag[k] == 0
      invariant (start < mag.Length <==> Big(mag[..], mag.Length) > 0)
      invariant Digits(ds) && Scale(Big(mag[..], mag.Length), |ds|) + Spelled(ds, |ds|) == m
      invariant |ds| <= 3 * mag.Length
      invariant |ds| > 0 && start == mag.Length ==> ds[|ds| - 1] != 0
      decreases Big(mag[..], mag.Length)
    {
      FewDigits(Big(mag[..], mag.Length), |ds|, m, mag.Length);
      ghost var was := Big(mag[..], mag.Length);
      var rem := DivideByTen(mag, start);
      DigitStep(Big(mag[..], mag.Length), rem, ds);
      ds := ds + [rem];
      start := SkipZeros(mag, start);
    }
    ScaleZero(|ds|);
    if |ds| == 0 { ds := [0]; }
  }

  lemma {:induction false} DigitStep(q: nat, rem: nat, ds: seq<nat>)
    ensures Scale(q, |ds| + 1) + Spelled(ds + [rem], |ds| + 1) == Scale(10 * q + rem, |ds|) + Spelled(ds, |ds|)
  {
    ScaleStep(q, rem, |ds|);
    SpelledAppend(ds, rem, |ds|);
  }

  lemma {:induction false} NoDigits(q: nat)
    ensures Scale(q, 0) + Spelled([], 0) == q
  {
  }

  lemma {:induction false} ZeroSpelled()
    ensures Spelled([0], 1) == Spelled([], 0)
  {
    assert Scale(0, 0) == 0 && Spelled([0], 0) == 0;
  }

  /** While a positive quotient is left, the digits so far are below the bound. */
  lemma {:induction false} FewDigits(q: nat, k: nat, m: nat, n: nat)
    requires q > 0 && Scale(q, k) <= m < Scale(1, 3 * n)
    ensures k < 3 * n
  {
    ScaleMono(1, q, k);
    if k >= 3 * n { ScaleGrows(1, 3 * n, k); }
  }

  function Hex(p: seq<Byte>, k: nat): string
    requires k <= |p|
  {
    if k == 0 then "\\x" else Hex(p, k - 1) + [HexDigit(p[k - 1] / 16), HexDigit(p[k - 1] % 16)]
  }

  function HexDigit(d: nat): char
    requires d < 16
  {
    "0123456789abcdef"[d]
  }

  method AppendHex(p: seq<Byte>) returns (out: string)
    ensures out == Hex(p, |p|)
  {
    out := "\\x";
    for i := 0 to |p|
      invariant out == Hex(p, i)
    {
      out := out + [HexDigit(p[i] / 16)];
      out := out + [HexDigit(p[i] % 16)];
    }
  }

  /** The printing loops. */
  method AppendDigits(ds: seq<nat>, scale: nat) returns (out: string)
    requires Digits(ds) && |ds| > 0
    ensures out == Printed(ds, scale, Width(ds, scale))
  {
    var nd, w := |ds|, if |ds| <= scale then scale + 1 else |ds|;
    out := "";
    if nd <= scale {
      out := "0.";
      assert Printed(ds, scale, 0) == "";
      assert out == Printed(ds, scale, 1);
      for i := 0 to scale - nd
        invariant out == Printed(ds, scale, 1 + i)
      {
        out := out + "0";
      }
      var i := nd;
      while i > 0
        invariant 0 <= i <= nd && out == Printed(ds, scale, w - i)
      {
        i := i - 1;
        out := out + [DigitChar(ds[i])];
      }
    } else {
      var i := nd;
      while i > 0
        invariant 0 <= i <= nd && out == Printed(ds, scale, w - i)
      {
        i := i - 1;
        out := out + [DigitChar(ds[i])];
        if i == scale && scale > 0 { out := out + "."; }
      }
    }
  }

  /** av_append_decimal: the text of a value of at most 64 bytes, hex beyond that. */
  method AppendDecimal(p: seq<Byte>, scale: nat) returns (out: string)
    ensures |p| > MAX_BYTES ==> out == Hex(p, |p|)
    ensures |p| <= MAX_BYTES ==> Denotes(out, Value(p), scale)
  {
    if |p| > MAX_BYTES {
      out := AppendHex(p);
      return;
    }
    var neg := |p| > 0 && p[0] >= 128;
    var mag := new Byte[|p|](i requires 0 <= i < |p| => p[i]);
    assert mag[..] == p;
    BigBound(p, |p|);
    if neg {
      SignBit(p, |p|);
      Negate(mag);
    }
    var digits := ToDigits(mag);
    out := AppendDigits(digits, scale);
    if neg { out := "-" + out; }
    DecimalDenotes(p, scale, digits);
    assert out == Text(Value(p) < 0, digits, scale);
  }

  /** The text is a sign for a negative value only, then the exact number with `scale` fractional
      digits: the value is that number over 10^scale. */
  predicate Denotes(t: string, v: int, scale: nat) {
    if v < 0 then t != "" && t[0] == '-' && Unsigned(t[1..], -v, scale) else Unsigned(t, v, scale)
  }

  /** Nothing but the printed text denotes the value. */
  lemma {:induction false} DenotesUnique(t: string, u: string, v: int, scale: nat)
    requires Denotes(t, v, scale) && Denotes(u, v, scale)
    ensures t == u
  {
    if v < 0 {
      UnsignedUnique(t[1..], u[1..], -v, scale);
      assert t == ['-'] + t[1..] && u == ['-'] + u[1..];
    } else {
      UnsignedUnique(t, u, v, scale);
    }
  }

  /** Put together: sign, exact number and number of fractional digits, for every value and scale. */
  lemma {:induction false} DecimalDenotes(p: seq<Byte>, scale: nat, ds: seq<nat>)
    requires Digits(ds) && Canonical(ds) && Spelled(ds, |ds|) == Magnitude(p)
    ensures Denotes(Text(Value(p) < 0, ds, scale), Value(p), scale)
  {
    TextDenotes(ds, scale);
    var t := Text(Value(p) < 0, ds, scale);
    var printed := Printed(ds, scale, Width(ds, scale));
    if Value(p) < 0 { assert t[1..] == printed; } else { assert t == printed; }
  }
}
