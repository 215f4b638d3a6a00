module Delta {
  /** src/columnar_encoding.c, DELTA: the first value, then zigzag differences, packed. */

  import opened Prelude
  import opened Bits
  import opened BitPack
  import opened Words
  import opened Frames

  /** zigzag(ws[i + 1] - ws[i]), modulo 2^64. */
  function Deltas(ws: seq<nat>): (ds: seq<nat>)
    ensures |ds| == if |ws| == 0 then 0 else |ws| - 1
  {
    seq(if |ws| == 0 then 0 else |ws| - 1, i requires 0 <= i < |ws| - 1 => ZigZag(Sub(ws[i + 1], ws[i])))
  }

  lemma {:induction false} DeltasAreWords(ws: seq<nat>)
    ensures AreWords(Deltas(ws))
  {
    forall i | 0 <= i < |ws| - 1 ensures Deltas(ws)[i] < TWO64 { ZigZagBack(Sub(ws[i + 1], ws[i])); }
  }

  /** Running sum of the first k deltas. */
  function Sum(base: nat, ds: seq<nat>, k: nat): nat
    requires k <= |ds| && AreWords(ds)
  {
    if k == 0 then base else Add(Sum(base, ds, k - 1), UnZigZag(ds[k - 1]))
  }

  function Sums(base: nat, ds: seq<nat>): (ws: seq<nat>)
    requires AreWords(ds)
    ensures |ws| == |ds| + 1
  {
    seq(|ds| + 1, k requires 0 <= k <= |ds| && AreWords(ds) => Sum(base, ds, k))
  }

  lemma {:induction false} SumBack(ws: seq<nat>, k: nat)
    requires AreWords(ws) && k < |ws| && AreWords(Deltas(ws))
    ensures Sum(ws[0], Deltas(ws), k) == ws[k]
  {
    if k > 0 {
      SumBack(ws, k - 1);
      ZigZagBack(Sub(ws[k], ws[k - 1]));
      AddSub(ws[k], ws[k - 1]);
    }
  }

  lemma {:induction false} SumsBack(ws: seq<nat>)
    requires AreWords(ws) && |ws| > 0 && AreWords(Deltas(ws))
    ensures Sums(ws[0], Deltas(ws)) == ws
  {
    forall k | 0 <= k < |ws| ensures Sums(ws[0], Deltas(ws))[k] == ws[k] { SumBack(ws, k); }
  }

  function Body(vals: Values, w: Byte): seq<Byte>
    requires |vals| > 0
  {
    var ws := Loads(vals);
    DeltasAreWords(ws);
    Framed(w, Word(ws[0]), Deltas(ws))
  }

  function Encode(vals: Values, w: Byte): Option<seq<Byte>>
    requires |vals| > 0
  {
    Shrunk(Body(vals, w), |Raw(vals)|)
  }

  function Decode(enc: seq<Byte>, n: nat, rawLen: nat): Result<seq<Byte>> {
    var m := if n == 0 then 0 else n - 1;
    var f := Unframe(enc, 8, n, m, rawLen, false);
    if f.Err? then Err
    else
      UnframeWords(enc, 8, n, m, rawLen, false);
      if n == 0 then Ok([]) else Ok(Stores(Sums(FromLE(f.value.head), f.value.ws), f.value.w, n))
  }

  lemma {:induction false} DecodeLength(enc: seq<Byte>, n: nat, rawLen: nat)
    requires Decode(enc, n, rawLen).Ok?
    ensures |Decode(enc, n, rawLen).value| == rawLen
  {
    UnframeWords(enc, 8, n, if n == 0 then 0 else n - 1, rawLen, false);
  }

  lemma {:induction false} RoundTrip(vals: Values, w: Byte)
    requires |vals| > 0 && Fixed(vals, w) && IntWidth(w)
    ensures Decode(Body(vals, w), |vals|, |Raw(vals)|) == Ok(Raw(vals))
  {
    var ws := Loads(vals);
    LoadsWords(vals, w);
    DeltasAreWords(ws);
    FixedLength(vals, w, |vals|);
    FrameBack(w, Word(ws[0]), Deltas(ws), |vals|, |Raw(vals)|, false);
    WordBack(ws[0]);
    SumsBack(ws);
    StoresLoads(vals, w, |vals|);
  }

  method AllDeltas(ws: seq<nat>) returns (deltas: seq<nat>, maxz: nat)
    requires |ws| > 0
    ensures deltas == Deltas(ws) && maxz == MaxOf(deltas, |deltas|)
  {
    ghost var all := Deltas(ws);
    deltas, maxz := [], 0;
    for i := 1 to |ws|
      invariant IsPrefix(deltas, all, i - 1) && maxz == MaxOf(all, i - 1)
    {
      var z := ZigZag(Sub(ws[i], ws[i - 1]));
      assert z == all[i - 1];
      deltas := deltas + [z];
      if z > maxz { maxz := z; }
    }
    assert deltas == all;
  }

  method EncodeDelta(vals: Values, w: Byte, rawLen: nat) returns (out: Option<seq<Byte>>)
    requires |vals| > 0 && rawLen == |Raw(vals)|
    ensures out == Encode(vals, w)
  {
    var ws := LoadAll(vals);
    DeltasAreWords(ws);
    var deltas, maxz := AllDeltas(ws);
    var buf := Frame1(w, Word(ws[0]), deltas, maxz);
    out := if |buf| >= rawLen then None else Some(buf);
  }

  method DecodeDelta(enc: seq<Byte>, n: nat, rawLen: nat) returns (r: Result<seq<Byte>>)
    ensures r == Decode(enc, n, rawLen)
  {
    var m := if n == 0 then 0 else n - 1;
    var f := ParseFrame(enc, 8, n, m, rawLen, false);
    if f.Err? { return Err; }
    UnframeWords(enc, 8, n, m, rawLen, false);
    if n == 0 { return Ok([]); }
    var raw := StoreSums(FromLE(f.value.head), f.value.ws, f.value.w);
    r := Ok(raw);
  }

  method StoreSums(base: nat, ds: seq<nat>, w: nat) returns (raw: seq<Byte>)
    requires AreWords(ds)
    ensures raw == Stores(Sums(base, ds), w, |ds| + 1)
  {
    ghost var all := Sums(base, ds);
    var cur := base;
    raw := ToLE(cur, w);
    assert raw == Stores(all, w, 1) by { assert Stores(all, w, 0) == []; }
    for i := 1 to |ds| + 1
      invariant cur == Sum(base, ds, i - 1) && raw == Stores(all, w, i)
    {
      cur := Add(cur, UnZigZag(ds[i - 1]));
      assert cur == all[i];
      raw := raw + ToLE(cur, w);
    }
  }
}
