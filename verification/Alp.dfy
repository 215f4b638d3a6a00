module Alp {
  /**
   src/columnar_encoding.c, ALP: floats that are decimals in disguise become small integers,
   the rest are exceptions stored verbatim. Floating point enters only through two functions
   the encoder and the decoder share, so the round trip is exact whatever they compute.
   */

  import opened Prelude
  import opened Bits
  import opened BitPack
  import opened Words

  const MAX_EXP: nat := 18

  type Int64 = x: int | -0x8000_0000_0000_0000 <= x < 0x8000_0000_0000_0000

  /** An exponent and factor the selection may choose. */
  type Scale = s: (nat, nat) | s.1 <= s.0 <= MAX_EXP witness (0, 0)

  /** The float arithmetic: `round` is llround(value * 10^e * 10^-f) where that is finite and in
      range; `rebuild` is the bit pattern of (float) (integer * 10^f * 10^-e) at the given width. */
  datatype Float = Float(round: (seq<Byte>, nat, nat) -> Option<Int64>, rebuild: (Int64, nat, nat, nat) -> nat)

  function Rebuilt(fl: Float, x: Int64, sc: (nat, nat), w: nat): (s: seq<Byte>)
    ensures |s| == w
  {
    ToLE(fl.rebuild(x, sc.0, sc.1, w), w)
  }

  /** alp_try: the integer, when it gives the value back byte for byte. */
  function Try(fl: Float, v: seq<Byte>, sc: (nat, nat)): (r: Option<Int64>)
    ensures r.Some? ==> Rebuilt(fl, r.value, sc, |v|) == v
  {
    var x := fl.round(v, sc.0, sc.1);
    if x.Some? && Rebuilt(fl, x.value, sc, |v|) == v then x else None
  }

  type Tries = seq<Option<Int64>>

  function TryAll(fl: Float, vals: Values, sc: (nat, nat)): (ts: Tries)
    ensures |ts| == |vals|
  {
    seq(|vals|, i requires 0 <= i < |vals| => Try(fl, vals[i], sc))
  }

  /** Smallest integer among the first k; None when all are exceptions. */
  function Least(ts: Tries, k: nat): Option<Int64>
    requires k <= |ts|
  {
    if k == 0 then None
    else
      var m := Least(ts, k - 1);
      if ts[k - 1].None? then m
      else if m.None? || ts[k - 1].value < m.value then ts[k - 1]
      else m
  }

  lemma {:induction false} LeastBound(ts: Tries, k: nat, i: nat)
    requires i < k <= |ts| && ts[i].Some?
    ensures Least(ts, k).Some? && Least(ts, k).value <= ts[i].value
  {
    if i < k - 1 { LeastBound(ts, k - 1, i); }
  }

  function Unsigned(x: Int64): (u: nat)
    ensures u < TWO64
  {
    x % TWO64
  }

  function Signed(u: nat): (x: Int64)
    requires u < TWO64
  {
    if u < TWO63 then u else u - TWO64
  }

  /** Adding the offset back to the base, in 64-bit arithmetic. */
  lemma {:induction false} OffsetBack(x: Int64, base: Int64)
    requires base <= x
    ensures x - base < TWO64 && Signed(Add(Unsigned(base), x - base)) == x
  {
  }

  function Offset(t: Option<Int64>, base: Int64): (o: nat)
    ensures o < TWO64
  {
    if t.None? || t.value < base then 0 else t.value - base
  }

  function Offsets(ts: Tries, base: Int64): (os: seq<nat>)
    ensures |os| == |ts| && AreWords(os)
  {
    seq(|ts|, i requires 0 <= i < |ts| => Offset(ts[i], base))
  }

  /** How many exceptions from i on. */
  function Exceptions(ts: Tries, i: nat): nat
    requires i <= |ts|
    decreases |ts| - i
  {
    if i == |ts| then 0 else (if ts[i].None? then 1 else 0) + Exceptions(ts, i + 1)
  }

  /** [uint32 pos][original bytes] per exception from i on. */
  function Patches(ts: Tries, vals: Values, i: nat): seq<Byte>
    requires |ts| == |vals| && i <= |ts|
    decreases |ts| - i
  {
    if i == |ts| then []
    else if ts[i].None? then Count(i) + vals[i] + Patches(ts, vals, i + 1)
    else Patches(ts, vals, i + 1)
  }

  function Header(sc: Scale, width: Byte, base: Int64, nExc: nat): (h: seq<Byte>)
    ensures |h| == 16
  {
    [sc.0, sc.1, width, 0] + ToLE(Unsigned(base), 8) + Count(nExc)
  }

  function Body(ts: Tries, vals: Values, sc: Scale, base: Int64): seq<Byte>
    requires |ts| == |vals|
  {
    var os := Offsets(ts, base);
    WidthOfWord(os);
    Header(sc, WidthOf(os), base, Exceptions(ts, 0)) + (Pack(os, WidthOf(os)) + Patches(ts, vals, 0))
  }

  /** encode_alp under the chosen scale; no scale was found when nothing is encodable. */
  function Encode(fl: Float, vals: Values, sc: Option<Scale>): Option<seq<Byte>> {
    if sc.None? then None
    else
      var ts := TryAll(fl, vals, sc.value);
      var base := Least(ts, |ts|);
      if base.None? then None else Shrunk(Body(ts, vals, sc.value, base.value), |Raw(vals)|)
  }

  // ----- decoding

  datatype Head = Head(e: nat, f: nat, width: nat, base: nat, nExc: nat)

  function ParseHead(enc: seq<Byte>): Head
    requires |enc| >= 16
  {
    Head(enc[0], enc[1], enc[2], FromLE(enc[4..12]), FromLE(enc[12..16]))
  }

  /** The values the integers give, before patching. */
  function RebuildAll(fl: Float, os: seq<nat>, h: Head, w: nat): (vals: Values)
    ensures |vals| == |os|
  {
    seq(|os|, i requires 0 <= i < |os| => Rebuilt(fl, Signed(Add(h.base, os[i])), (h.e, h.f), w))
  }

  /** Apply n patches found at p. */
  function Patch(enc: seq<Byte>, p: nat, n: nat, w: nat, vals: Values): Result<Values>
    decreases n
  {
    if n == 0 then Ok(vals)
    else if p + 4 + w > |enc| then Err
    else
      var pos := FromLE(enc[p..p + 4]);
      if pos >= |vals| then Err else Patch(enc, p + 4 + w, n - 1, w, vals[pos := enc[p + 4..p + 4 + w]])
  }

  function DecodeBody(fl: Float, enc: seq<Byte>, w: nat, n: nat): Result<Values>
    requires |enc| >= 16
  {
    var h := ParseHead(enc);
    if h.e > MAX_EXP || h.f > h.e then Err
    else
      var os := Unpacked(enc[16..], n, h.width);
      if os.Err? then Err
      else Patch(enc, 16 + Bytes(Times(n, h.width)), h.nExc, w, RebuildAll(fl, os.value, h, w))
  }

  function Decode(fl: Float, enc: seq<Byte>, w: nat, n: nat, rawLen: nat): Result<seq<Byte>> {
    if (w != 4 && w != 8) || Times(n, w) != rawLen || |enc| < 16 then Err
    else
      var vals := DecodeBody(fl, enc, w, n);
      if vals.Err? then Err else Ok(Raw(vals.value))
  }

  lemma {:induction false} PatchKeeps(enc: seq<Byte>, p: nat, n: nat, w: nat, vals: Values)
    requires Fixed(vals, w) && Patch(enc, p, n, w, vals).Ok?
    ensures var r := Patch(enc, p, n, w, vals).value; |r| == |vals| && Fixed(r, w)
    decreases n
  {
    if n > 0 {
      var pos := FromLE(enc[p..p + 4]);
      PatchKeeps(enc, p + 4 + w, n - 1, w, vals[pos := enc[p + 4..p + 4 + w]]);
    }
  }

  /** On arbitrary bytes the decoder raises or fills exactly rawLen bytes. */
  lemma {:induction false} DecodeLength(fl: Float, enc: seq<Byte>, w: nat, n: nat, rawLen: nat)
    requires Decode(fl, enc, w, n, rawLen).Ok?
    ensures |Decode(fl, enc, w, n, rawLen).value| == rawLen
  {
    hide Rebuilt, Signed;
    var h := ParseHead(enc);
    UnpackedWords(enc[16..], n, h.width);
    var vals := RebuildAll(fl, Unpacked(enc[16..], n, h.width).value, h, w);
    PatchKeeps(enc, 16 + Bytes(Times(n, h.width)), h.nExc, w, vals);
    FixedLength(DecodeBody(fl, enc, w, n).value, w, n);
  }

  // ----- round trip

  lemma {:induction false} HeaderBack(sc: Scale, width: Byte, base: Int64, nExc: nat, rest: seq<Byte>)
    requires nExc < TWO32
    ensures ParseHead(Header(sc, width, base, nExc) + rest) == Head(sc.0, sc.1, width, Unsigned(base), nExc)
  {
    hide Unsigned, FromLE, ToLE, Count;
    var enc, u := Header(sc, width, base, nExc) + rest, Unsigned(base);
    assert enc[4..12] == ToLE(u, 8) && enc[12..16] == Count(nExc);
    CountBack(nExc);
    Pow2Of64();
    ToFromLE(u, 8);
  }

  /** Every value that is no exception is rebuilt. */
  lemma {:induction false} RebuildBack(fl: Float, vals: Values, sc: Scale, w: nat, base: Int64, h: Head, i: nat)
    requires Fixed(vals, w) && i < |vals| && h.e == sc.0 && h.f == sc.1 && h.base == Unsigned(base)
    requires var ts := TryAll(fl, vals, sc); Least(ts, |ts|) == Some(base) && ts[i].Some?
    ensures RebuildAll(fl, Offsets(TryAll(fl, vals, sc), base), h, w)[i] == vals[i]
  {
    hide Rebuilt, Least, Signed, Unsigned;
    var ts := TryAll(fl, vals, sc);
    LeastBound(ts, |ts|, i);
    OffsetBack(ts[i].value, base);
  }

  lemma {:induction false} PatchStep(enc: seq<Byte>, p: nat, i: nat, v: seq<Byte>, tail: seq<Byte>)
    requires p <= |enc| && enc[p..] == Count(i) + v + tail && i < TWO32
    ensures p + 4 + |v| <= |enc| && FromLE(enc[p..p + 4]) == i
    ensures enc[p + 4..p + 4 + |v|] == v && enc[p + 4 + |v|..] == tail
  {
    hide Count, FromLE;
    var s, m := enc[p..], 4 + |v|;
    assert s[..4] == Count(i) && s[4..m] == v && s[m..] == tail;
    assert enc[p..p + 4] == s[..4] && enc[p + 4..p + m] == s[4..m] && enc[p + m..] == s[m..];
    CountBack(i);
  }

  /** Values before i and all that are no exceptions are already right. */
  ghost predicate Patched(ts: Tries, vals: Values, cur: Values, i: nat) {
    |ts| == |vals| == |cur| && forall j | 0 <= j < |vals| && (j < i || ts[j].Some?) :: cur[j] == vals[j]
  }

  lemma {:induction false} PatchBack(enc: seq<Byte>, p: nat, ts: Tries, vals: Values, w: nat, cur: Values, i: nat)
    requires Fixed(vals, w) && i <= |vals| < TWO32 && Patched(ts, vals, cur, i)
    requires p <= |enc| && enc[p..] == Patches(ts, vals, i)
    ensures Patch(enc, p, Exceptions(ts, i), w, cur) == Ok(vals)
    decreases |vals| - i
  {
    hide Count, FromLE;
    if i == |vals| {
      assert cur == vals;
    } else if ts[i].None? {
      PatchStep(enc, p, i, vals[i], Patches(ts, vals, i + 1));
      PatchBack(enc, p + 4 + w, ts, vals, w, cur[i := vals[i]], i + 1);
    } else {
      PatchBack(enc, p, ts, vals, w, cur, i + 1);
    }
  }

  lemma {:induction false} ExceptionsFew(ts: Tries, i: nat)
    requires i <= |ts|
    ensures Exceptions(ts, i) <= |ts| - i
    decreases |ts| - i
  {
    if i < |ts| { ExceptionsFew(ts, i + 1); }
  }

  lemma {:induction false} BodyBack(fl: Float, vals: Values, w: nat, sc: Scale, base: Int64)
    requires Fixed(vals, w) && |vals| < TWO32
    requires var ts := TryAll(fl, vals, sc); Least(ts, |ts|) == Some(base)
    ensures DecodeBody(fl, Body(TryAll(fl, vals, sc), vals, sc, base), w, |vals|) == Ok(vals)
  {
    hide Header, ParseHead, TryAll, Offsets, Patches, Pack, RebuildAll, Unpacked, Patch, Exceptions, Least, Times, WidthOf;
    var ts := TryAll(fl, vals, sc);
    var os, enc := Offsets(ts, base), Body(ts, vals, sc, base);
    var width, nExc := WidthOf(os), Exceptions(ts, 0);
    WidthOfWord(os);
    ExceptionsFew(ts, 0);
    var body, tail := Pack(os, width), Patches(ts, vals, 0);
    HeaderBack(sc, width, base, nExc, body + tail);
    assert enc[16..] == body + tail;
    PackedBack(os, tail);
    var h := ParseHead(enc);
    var cur := RebuildAll(fl, os, h, w);
    forall j | 0 <= j < |vals| && ts[j].Some? ensures cur[j] == vals[j] { RebuildBack(fl, vals, sc, w, base, h, j); }
    assert enc[16 + |body|..] == tail;
    PatchBack(enc, 16 + |body|, ts, vals, w, cur, 0);
  }

  lemma {:induction false} RoundTrip(fl: Float, vals: Values, w: nat, sc: Option<Scale>)
    requires Fixed(vals, w) && (w == 4 || w == 8) && |vals| < TWO32 && Encode(fl, vals, sc).Some?
    ensures Decode(fl, Encode(fl, vals, sc).value, w, |vals|, |Raw(vals)|) == Ok(Raw(vals))
  {
    hide TryAll, Header, Offsets, Patches, Pack, DecodeBody, Least, Times;
    var ts := TryAll(fl, vals, sc.value);
    BodyBack(fl, vals, w, sc.value, Least(ts, |ts|).value);
    FixedLength(vals, w, |vals|);
  }

  // ----- the loops

  method TryEvery(fl: Float, vals: Values, sc: Scale) returns (ts: Tries, base: Option<Int64>, nExc: nat)
    ensures ts == TryAll(fl, vals, sc) && base == Least(ts, |ts|) && nExc == Exceptions(ts, 0)
  {
    hide Try;
    ghost var all := TryAll(fl, vals, sc);
    ts, base, nExc := [], None, 0;
    for i := 0 to |vals|
      invariant |ts| == i && forall j | 0 <= j < i :: ts[j] == all[j]
      invariant base == Least(all, i) && nExc + Exceptions(all, i) == Exceptions(all, 0)
    {
      var t := Try(fl, vals[i], sc);
      if t.Some? {
        if base.None? || t.value < base.value { base := t; }
      } else {
        nExc := nExc + 1;
      }
      ts := ts + [t];
    }
    assert ts == all;
  }

  method PutPatches(ts: Tries, vals: Values) returns (out: seq<Byte>)
    requires |ts| == |vals|
    ensures out == Patches(ts, vals, 0)
  {
    hide Count;
    out := [];
    for i := 0 to |vals|
      invariant out + Patches(ts, vals, i) == Patches(ts, vals, 0)
    {
      ghost var rest := Patches(ts, vals, i + 1);
      if ts[i].None? {
        assert out + (Count(i) + vals[i] + rest) == out + Count(i) + vals[i] + rest;
        out := out + Count(i) + vals[i];
      }
    }
    assert out + [] == out;
  }

  method PutOffsets(ts: Tries, base: Int64) returns (os: seq<nat>, max: nat)
    ensures os == Offsets(ts, base) && max == MaxOf(os, |os|)
  {
    ghost var all := Offsets(ts, base);
    os, max := [], 0;
    for i := 0 to |ts|
      invariant |os| == i && (forall j | 0 <= j < i :: os[j] == all[j]) && max == MaxOf(all, i)
    {
      var off := Offset(ts[i], base);
      os := os + [off];
      if off > max { max := off; }
    }
    assert os == all;
  }

  method EncodeAlp(fl: Float, vals: Values, sc: Option<Scale>, rawLen: nat) returns (out: Option<seq<Byte>>)
    requires rawLen == |Raw(vals)|
    ensures out == Encode(fl, vals, sc)
  {
    hide TryAll, Offsets, Patches, Pack, Least, Exceptions, Header, MaxOf;
    if sc.None? { return None; }
    var ts, base, nExc := TryEvery(fl, vals, sc.value);
    if base.None? { return None; }
    var os, max := PutOffsets(ts, base.value);
    WidthOfWord(os);
    var width := CountBits(max);
    var body := BitPackWords(os, width);
    var patches := PutPatches(ts, vals);
    var buf := Header(sc.value, width, base.value, nExc) + (body + patches);
    out := if |buf| >= rawLen then None else Some(buf);
  }

  method ApplyPatches(enc: seq<Byte>, start: nat, nExc: nat, w: nat, vals0: Values) returns (r: Result<Values>)
    ensures r == Patch(enc, start, nExc, w, vals0)
  {
    var p: nat, vals := start, vals0;
    for i := 0 to nExc
      invariant Patch(enc, start, nExc, w, vals0) == Patch(enc, p, nExc - i, w, vals)
    {
      if p + 4 + w > |enc| { return Err; }
      var pos := FromLE(enc[p..p + 4]);
      if pos >= |vals| { return Err; }
      vals := vals[pos := enc[p + 4..p + 4 + w]];
      p := p + 4 + w;
    }
    r := Ok(vals);
  }

  method RebuildEvery(fl: Float, os: seq<nat>, h: Head, w: nat) returns (vals: Values)
    ensures vals == RebuildAll(fl, os, h, w)
  {
    hide Rebuilt, Signed;
    ghost var all := RebuildAll(fl, os, h, w);
    vals := [];
    for i := 0 to |os|
      invariant |vals| == i && forall j | 0 <= j < i :: vals[j] == all[j]
    {
      vals := vals + [Rebuilt(fl, Signed(Add(h.base, os[i])), (h.e, h.f), w)];
    }
    assert vals == all;
  }

  method DecodeAlp(fl: Float, enc: seq<Byte>, w: nat, n: nat, rawLen: nat) returns (r: Result<seq<Byte>>)
    ensures r == Decode(fl, enc, w, n, rawLen)
  {
    hide Patch, RebuildAll, Unpacked, ParseHead;
    if w != 4 && w != 8 { return Err; }
    TimesIsMul(n, w);
    if n * w != rawLen || |enc| < 16 { return Err; }
    var h := ParseHead(enc);
    if h.e > MAX_EXP || h.f > h.e { return Err; }
    var os := BitUnpackWords(enc[16..], n, h.width);
    if os.Err? { return Err; }
    TimesIsMul(n, h.width);
    var vals := RebuildEvery(fl, os.value, h, w);
    var patched := ApplyPatches(enc, 16 + Bytes(n * h.width), h.nExc, w, vals);
    if patched.Err? { return Err; }
    r := Ok(Raw(patched.value));
  }
}
