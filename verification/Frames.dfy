module Frames {
  /**
   src/columnar_encoding.c, FOR, DELTA and DOD: a header and a bit-packed body of words.
   */

  import opened Prelude
  import opened Bits
  import opened BitPack
  import opened Words

  datatype Frame = Frame(w: nat, head: seq<Byte>, ws: seq<nat>)

  predicate IntWidth(w: nat) { w == 1 || w == 2 || w == 4 || w == 8 }

  /** [uint8 w][uint8 width][head][packed words] */
  function Framed(w: Byte, head: seq<Byte>, ws: seq<nat>): seq<Byte>
    requires AreWords(ws)
  {
    WidthOfWord(ws);
    [w, WidthOf(ws)] + head + Pack(ws, WidthOf(ws))
  }

  /** The checks and the unpacking the three decoders share; m words are expected. FOR calls
      the unpacker even for no words, so only FOR then checks the width. */
  function Unframe(enc: seq<Byte>, headLen: nat, n: nat, m: nat, rawLen: nat, always: bool): Result<Frame> {
    if |enc| < 2 + headLen || !IntWidth(enc[0]) || Times(n, enc[0]) != rawLen then Err
    else
      var head := enc[2..2 + headLen];
      if m == 0 && !always then Ok(Frame(enc[0], head, []))
      else
        var ws := Unpacked(enc[2 + headLen..], m, enc[1]);
        if ws.Err? then Err else Ok(Frame(enc[0], head, ws.value))
  }

  lemma {:induction false} FrameBack(w: Byte, head: seq<Byte>, ws: seq<nat>, n: nat, rawLen: nat, always: bool)
    requires AreWords(ws) && IntWidth(w) && Times(n, w) == rawLen
    ensures Unframe(Framed(w, head, ws), |head|, n, |ws|, rawLen, always) == Ok(Frame(w, head, ws))
  {
    var enc, body := Framed(w, head, ws), Pack(ws, WidthOf(ws));
    assert enc[2..2 + |head|] == head && enc[2 + |head|..] == body;
    assert body + [] == body;
    PackedBack(ws, []);
  }

  lemma {:induction false} UnframeWords(enc: seq<Byte>, headLen: nat, n: nat, m: nat, rawLen: nat, always: bool)
    requires Unframe(enc, headLen, n, m, rawLen, always).Ok?
    ensures var f := Unframe(enc, headLen, n, m, rawLen, always).value;
      |f.ws| == m && AreWords(f.ws) && |f.head| == headLen && Times(n, f.w) == rawLen
  {
    if m > 0 || always { UnpackedWords(enc[2 + headLen..], m, enc[1]); }
  }

  method ParseFrame(enc: seq<Byte>, headLen: nat, n: nat, m: nat, rawLen: nat, always: bool)
    returns (r: Result<Frame>)
    ensures r == Unframe(enc, headLen, n, m, rawLen, always)
  {
    if |enc| < 2 + headLen { return Err; }
    var w, width := enc[0], enc[1];
    if w != 1 && w != 2 && w != 4 && w != 8 { return Err; }
    TimesIsMul(n, w);
    if n * w != rawLen { return Err; }
    var ws := Ok([]);
    if m > 0 || always { ws := BitUnpackWords(enc[2 + headLen..], m, width); }
    if ws.Err? { return Err; }
    r := Ok(Frame(w, enc[2..2 + headLen], ws.value));
  }

  ghost predicate IsPrefix(ws: seq<nat>, all: seq<nat>, k: nat) {
    |ws| == k <= |all| && forall i | 0 <= i < k :: ws[i] == all[i]
  }

  method LoadAll(vals: Values) returns (ws: seq<nat>)
    ensures ws == Loads(vals)
  {
    ws := [];
    for i := 0 to |vals|
      invariant IsPrefix(ws, Loads(vals), i)
    {
      ws := ws + [FromLE(vals[i])];
    }
  }

  method Frame1(w: Byte, head: seq<Byte>, ws: seq<nat>, max: nat) returns (out: seq<Byte>)
    requires AreWords(ws) && max == MaxOf(ws, |ws|)
    ensures out == Framed(w, head, ws)
  {
    WidthOfWord(ws);
    var width := CountBits(max);
    var body := BitPackWords(ws, width);
    out := [w, width] + head + body;
  }
}
