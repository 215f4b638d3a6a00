module FrameOfReference {
  /** src/columnar_encoding.c, FOR: the offsets from the minimum, packed. */

  import opened Prelude
  import opened Bits
  import opened BitPack
  import opened Words
  import opened Frames

  function MinOf(ws: seq<nat>, k: nat): nat
    requires 0 < k <= |ws|
  {
    if k == 1 || ws[k - 1] < MinOf(ws, k - 1) then ws[k - 1] else MinOf(ws, k - 1)
  }

  lemma {:induction false} MinOfBound(ws: seq<nat>, k: nat, i: nat)
    requires i < k <= |ws|
    ensures MinOf(ws, k) <= ws[i]
  {
    if i < k - 1 { MinOfBound(ws, k - 1, i); }
  }

  lemma {:induction false} MinOfIn(ws: seq<nat>, k: nat)
    requires 0 < k <= |ws| && AreWords(ws)
    ensures MinOf(ws, k) < TWO64
  {
    if k > 1 { MinOfIn(ws, k - 1); }
  }

  function Offsets(ws: seq<nat>, base: nat): (os: seq<nat>)
    ensures |os| == |ws| && AreWords(os)
  {
    seq(|ws|, i requires 0 <= i < |ws| => Sub(ws[i], base))
  }

  function Shifted(os: seq<nat>, base: nat): (ws: seq<nat>)
    ensures |ws| == |os|
  {
    seq(|os|, i requires 0 <= i < |os| => Add(os[i], base))
  }

  function Body(vals: Values, w: Byte): seq<Byte>
    requires |vals| > 0
  {
    var ws := Loads(vals);
    var base := MinOf(ws, |ws|);
    Framed(w, Word(base), Offsets(ws, base))
  }

  function Encode(vals: Values, w: Byte): Option<seq<Byte>>
    requires |vals| > 0
  {
    Shrunk(Body(vals, w), |Raw(vals)|)
  }

  function Decode(enc: seq<Byte>, n: nat, rawLen: nat): Result<seq<Byte>> {
    var f := Unframe(enc, 8, n, n, rawLen, true);
    if f.Err? then Err
    else
      UnframeWords(enc, 8, n, n, rawLen, true);
      Ok(Stores(Shifted(f.value.ws, FromLE(f.value.head)), f.value.w, n))
  }

  lemma {:induction false} DecodeLength(enc: seq<Byte>, n: nat, rawLen: nat)
    requires Decode(enc, n, rawLen).Ok?
    ensures |Decode(enc, n, rawLen).value| == rawLen
  {
    UnframeWords(enc, 8, n, n, rawLen, true);
  }

  lemma {:induction false} ShiftedBack(ws: seq<nat>, base: nat)
    requires AreWords(ws) && base < TWO64
    ensures Shifted(Offsets(ws, base), base) == ws
  {
    forall i | 0 <= i < |ws| ensures Add(Sub(ws[i], base), base) == ws[i] { AddSub(ws[i], base); }
  }

  lemma {:induction false} RoundTrip(vals: Values, w: Byte)
    requires |vals| > 0 && Fixed(vals, w) && IntWidth(w)
    ensures Decode(Body(vals, w), |vals|, |Raw(vals)|) == Ok(Raw(vals))
  {
    var ws := Loads(vals);
    var base := MinOf(ws, |ws|);
    LoadsWords(vals, w);
    MinOfIn(ws, |ws|);
    FixedLength(vals, w, |vals|);
    FrameBack(w, Word(base), Offsets(ws, base), |vals|, |Raw(vals)|, true);
    WordBack(base);
    ShiftedBack(ws, base);
    StoresLoads(vals, w, |vals|);
  }

  /** The packed offsets are the plain differences from the minimum. */
  lemma {:induction false} OffsetsFromMin(ws: seq<nat>, i: nat)
    requires AreWords(ws) && i < |ws|
    ensures Offsets(ws, MinOf(ws, |ws|))[i] == ws[i] - MinOf(ws, |ws|)
  {
    MinOfBound(ws, |ws|, i);
    SubExact(ws[i], MinOf(ws, |ws|));
  }

  lemma {:induction false} SubExact(a: nat, b: nat)
    requires b <= a < TWO64
    ensures Sub(a, b) == a - b
  {
  }

  method EncodeFor(vals: Values, w: Byte, rawLen: nat) returns (out: Option<seq<Byte>>)
    requires |vals| > 0 && Fixed(vals, w) && w <= 8 && rawLen == |Raw(vals)|
    ensures out == Encode(vals, w)
  {
    var ws := LoadAll(vals);
    LoadsWords(vals, w);
    var minv := ws[0];
    for i := 1 to |ws|
      invariant minv == MinOf(ws, i)
    {
      if ws[i] < minv { minv := ws[i]; }
    }
    ghost var all := Offsets(ws, minv);
    var offs, maxoff := [], 0;
    for i := 0 to |ws|
      invariant IsPrefix(offs, all, i) && maxoff == MaxOf(all, i)
    {
      OffsetsFromMin(ws, i);
      var off := ws[i] - minv;
      offs := offs + [off];
      if off > maxoff { maxoff := off; }
    }
    assert offs == all;
    var buf := Frame1(w, Word(minv), offs, maxoff);
    out := if |buf| >= rawLen then None else Some(buf);
  }

  method DecodeFor(enc: seq<Byte>, n: nat, rawLen: nat) returns (r: Result<seq<Byte>>)
    ensures r == Decode(enc, n, rawLen)
  {
    var f := ParseFrame(enc, 8, n, n, rawLen, true);
    if f.Err? { return Err; }
    UnframeWords(enc, 8, n, n, rawLen, true);
    var raw := StoreShifted(f.value.ws, FromLE(f.value.head), f.value.w);
    r := Ok(raw);
  }

  method StoreShifted(os: seq<nat>, minv: nat, w: nat) returns (raw: seq<Byte>)
    ensures raw == Stores(Shifted(os, minv), w, |os|)
  {
    raw := [];
    for i := 0 to |os|
      invariant raw == Stores(Shifted(os, minv), w, i)
    {
      raw := raw + ToLE(Add(os[i], minv), w);
    }
  }
}
