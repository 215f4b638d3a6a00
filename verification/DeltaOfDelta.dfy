module DeltaOfDelta {
  /** src/columnar_encoding.c, DOD: first value and first difference, then zigzag second differences, packed. */

  import opened Prelude
  import opened Bits
  import opened BitPack
  import opened Words
  import opened Frames

  /** ws[i + 1] - ws[i] modulo 2^64. */
  function Step(ws: seq<nat>, i: nat): (d: nat)
    requires i + 1 < |ws|
    ensures d < TWO64
  {
    Sub(ws[i + 1], ws[i])
  }

  function FirstStep(ws: seq<nat>): (d: nat)
    ensures d < TWO64
  {
    if |ws| > 1 then Step(ws, 0) else 0
  }

  function Dods(ws: seq<nat>): (ds: seq<nat>)
    ensures |ds| == if |ws| <= 2 then 0 else |ws| - 2
  {
    seq(if |ws| <= 2 then 0 else |ws| - 2, i requires 0 <= i < |ws| - 2 => ZigZag(Sub(Step(ws, i + 1), Step(ws, i))))
  }

  lemma {:induction false} DodsAreWords(ws: seq<nat>)
    ensures AreWords(Dods(ws))
  {
    forall i | 0 <= i < |ws| - 2 ensures Dods(ws)[i] < TWO64 { ZigZagBack(Sub(Step(ws, i + 1), Step(ws, i))); }
  }

  /** The difference applied at position k + 1. */
  function StepAt(first: nat, ds: seq<nat>, k: nat): nat
    requires k <= |ds| && AreWords(ds)
  {
    if k == 0 then first else Add(StepAt(first, ds, k - 1), UnZigZag(ds[k - 1]))
  }

  function ValueAt(base: nat, first: nat, ds: seq<nat>, k: nat): nat
    requires k <= |ds| + 1 && AreWords(ds)
  {
    if k == 0 then base else Add(ValueAt(base, first, ds, k - 1), StepAt(first, ds, k - 1))
  }

  function AllValues(base: nat, first: nat, ds: seq<nat>, n: nat): (ws: seq<nat>)
    requires AreWords(ds) && n <= |ds| + 2
    ensures |ws| == n
  {
    seq(n, k requires 0 <= k < n && n <= |ds| + 2 && AreWords(ds) => ValueAt(base, first, ds, k))
  }

  lemma {:induction false} StepBack(ws: seq<nat>, k: nat)
    requires AreWords(ws) && k + 1 < |ws| && AreWords(Dods(ws))
    ensures StepAt(FirstStep(ws), Dods(ws), k) == Step(ws, k)
  {
    if k > 0 {
      StepBack(ws, k - 1);
      ZigZagBack(Sub(Step(ws, k), Step(ws, k - 1)));
      AddSub(Step(ws, k), Step(ws, k - 1));
    }
  }

  lemma {:induction false} ValueBack(ws: seq<nat>, k: nat)
    requires AreWords(ws) && k < |ws| && AreWords(Dods(ws))
    ensures ValueAt(ws[0], FirstStep(ws), Dods(ws), k) == ws[k]
  {
    if k > 0 {
      ValueBack(ws, k - 1);
      StepBack(ws, k - 1);
      AddSub(ws[k], ws[k - 1]);
    }
  }

  lemma {:induction false} ValuesBack(ws: seq<nat>)
    requires AreWords(ws) && |ws| > 0 && AreWords(Dods(ws))
    ensures AllValues(ws[0], FirstStep(ws), Dods(ws), |ws|) == ws
  {
    forall k | 0 <= k < |ws| ensures AllValues(ws[0], FirstStep(ws), Dods(ws), |ws|)[k] == ws[k] { ValueBack(ws, k); }
  }

  function Body(vals: Values, w: Byte): seq<Byte>
    requires |vals| > 0
  {
    var ws := Loads(vals);
    DodsAreWords(ws);
    Framed(w, Word(ws[0]) + Word(FirstStep(ws)), Dods(ws))
  }

  function Encode(vals: Values, w: Byte): Option<seq<Byte>>
    requires |vals| > 0
  {
    Shrunk(Body(vals, w), |Raw(vals)|)
  }

  function Decode(enc: seq<Byte>, n: nat, rawLen: nat): Result<seq<Byte>> {
    var m := if n <= 2 then 0 else n - 2;
    var f := Unframe(enc, 16, n, m, rawLen, false);
    if f.Err? then Err
    else
      UnframeWords(enc, 16, n, m, rawLen, false);
      var head := f.value.head;
      Ok(Stores(AllValues(FromLE(head[..8]), FromLE(head[8..]), f.value.ws, n), f.value.w, n))
  }

  lemma {:induction false} DecodeLength(enc: seq<Byte>, n: nat, rawLen: nat)
    requires Decode(enc, n, rawLen).Ok?
    ensures |Decode(enc, n, rawLen).value| == rawLen
  {
    UnframeWords(enc, 16, n, if n <= 2 then 0 else n - 2, rawLen, false);
  }

  lemma {:induction false} RoundTrip(vals: Values, w: Byte)
    requires |vals| > 0 && Fixed(vals, w) && IntWidth(w)
    ensures Decode(Body(vals, w), |vals|, |Raw(vals)|) == Ok(Raw(vals))
  {
    var ws := Loads(vals);
    LoadsWords(vals, w);
    DodsAreWords(ws);
    FixedLength(vals, w, |vals|);
    var head := Word(ws[0]) + Word(FirstStep(ws));
    FrameBack(w, head, Dods(ws), |vals|, |Raw(vals)|, false);
    assert head[..8] == Word(ws[0]) && head[8..] == Word(FirstStep(ws));
    WordBack(ws[0]);
    WordBack(FirstStep(ws));
    ValuesBack(ws);
    StoresLoads(vals, w, |vals|);
  }

  method AllDods(ws: seq<nat>) returns (dods: seq<nat>, maxz: nat)
    requires |ws| >= 2
    ensures dods == Dods(ws) && maxz == MaxOf(dods, |dods|)
  {
    ghost var all := Dods(ws);
    dods, maxz := [], 0;
    for i := 2 to |ws|
      invariant IsPrefix(dods, all, i - 2) && maxz == MaxOf(all, i - 2)
    {
      var d := Sub(ws[i], ws[i - 1]);
      var z := ZigZag(Sub(d, Sub(ws[i - 1], ws[i - 2])));
      assert z == all[i - 2];
      dods := dods + [z];
      if z > maxz { maxz := z; }
    }
    assert dods == all;
  }

  method EncodeDod(vals: Values, w: Byte, rawLen: nat) returns (out: Option<seq<Byte>>)
    requires |vals| > 0 && rawLen == |Raw(vals)|
    ensures out == Encode(vals, w)
  {
    var ws := LoadAll(vals);
    DodsAreWords(ws);
    var firstDelta := if |ws| > 1 then Sub(ws[1], ws[0]) else 0;
    var dods, maxz := [], 0;
    if |ws| > 2 { dods, maxz := AllDods(ws); }
    assert dods == Dods(ws);
    var buf := Frame1(w, Word(ws[0]) + Word(firstDelta), dods, maxz);
    out := if |buf| >= rawLen then None else Some(buf);
  }

  method DecodeDod(enc: seq<Byte>, n: nat, rawLen: nat) returns (r: Result<seq<Byte>>)
    ensures r == Decode(enc, n, rawLen)
  {
    var m := if n <= 2 then 0 else n - 2;
    var f := ParseFrame(enc, 16, n, m, rawLen, false);
    if f.Err? { return Err; }
    UnframeWords(enc, 16, n, m, rawLen, false);
    var head := f.value.head;
    var raw := StoreValues(FromLE(head[..8]), FromLE(head[8..]), f.value.ws, f.value.w, n);
    r := Ok(raw);
  }

  method StoreValues(base: nat, first: nat, ds: seq<nat>, w: nat, n: nat) returns (raw: seq<Byte>)
    requires AreWords(ds) && n <= |ds| + 2
    ensures raw == Stores(AllValues(base, first, ds, n), w, n)
  {
    ghost var all := AllValues(base, first, ds, n);
    if n == 0 { return []; }
    var cur, delta := base, first;
    raw := ToLE(cur, w);
    assert raw == Stores(all, w, 1) by { assert Stores(all, w, 0) == []; }
    for i := 1 to n
      invariant cur == ValueAt(base, first, ds, i - 1) && raw == Stores(all, w, i)
      invariant delta == StepAt(first, ds, if i == 1 then 0 else i - 2)
    {
      if i >= 2 { delta := Add(delta, UnZigZag(ds[i - 2])); }
      cur := Add(cur, delta);
      assert cur == ValueAt(base, first, ds, i) == all[i];
      raw := raw + ToLE(cur, w);
    }
  }
}
