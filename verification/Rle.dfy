module Rle {
  /**
   src/columnar_encoding.c, RLE: [uint32 count][w bytes] per run of equal values.
   */

  import opened Prelude
  import opened Bits
  import opened BitPack
  import opened Words

  /** Length of the maximal run of vals[i] that starts at i. */
  function RunLength(vals: Values, i: nat, run: nat): (r: nat)
    requires i < |vals| && i + run <= |vals|
    ensures run <= r && i + r <= |vals|
    decreases |vals| - run
  {
    if i + run < |vals| && vals[i + run] == vals[i] then RunLength(vals, i, run + 1) else run
  }

  lemma {:induction false} RunIsEqual(vals: Values, i: nat, run: nat, j: nat)
    requires i < |vals| && i + run <= |vals| && run <= j < RunLength(vals, i, run)
    ensures vals[i + j] == vals[i]
    decreases |vals| - run
  {
    if run < j { RunIsEqual(vals, i, run + 1, j); }
  }

  /** The runs of vals[i..]. */
  function Runs(vals: Values, i: nat): seq<Byte>
    requires i <= |vals|
    decreases |vals| - i
  {
    if i == |vals| then []
    else var r := RunLength(vals, i, 1); Count(r) + vals[i] + Runs(vals, i + r)
  }

  function Encode(vals: Values): Option<seq<Byte>> { Shrunk(Runs(vals, 0), |Raw(vals)|) }

  function Copies(v: seq<Byte>, c: nat): seq<Byte> {
    if c == 0 then [] else Copies(v, c - 1) + v
  }

  lemma {:induction false} CopiesLength(v: seq<Byte>, c: nat)
    ensures |Copies(v, c)| == Times(c, |v|)
  {
    if c > 0 { CopiesLength(v, c - 1); }
  }

  /** decode_rle from offset p, with `left` values still to produce. */
  function Decode(enc: seq<Byte>, p: nat, w: nat, left: nat): Result<seq<Byte>>
    decreases |enc| - p
  {
    if left == 0 then Ok([])
    else if p + 4 + w > |enc| then Err
    else
      var run, v := FromLE(enc[p..p + 4]), enc[p + 4..p + 4 + w];
      var c := if run < left then run else left;
      var rest := Decode(enc, p + 4 + w, w, left - c);
      if rest.Err? then Err else Ok(Copies(v, c) + rest.value)
  }

  lemma {:induction false} DecodeLength(enc: seq<Byte>, p: nat, w: nat, left: nat)
    requires Decode(enc, p, w, left).Ok?
    ensures |Decode(enc, p, w, left).value| == Times(left, w)
    decreases |enc| - p
  {
    if left > 0 {
      var run, v := FromLE(enc[p..p + 4]), enc[p + 4..p + 4 + w];
      var c := if run < left then run else left;
      DecodeLength(enc, p + 4 + w, w, left - c);
      CopiesLength(v, c);
      TimesAdd(c, left - c, w);
    }
  }

  /** Values i .. i + c - 1 are equal. */
  ghost predicate Equal(vals: Values, i: nat, c: nat) {
    i + c <= |vals| && forall k | i <= k < i + c :: vals[k] == vals[i]
  }

  lemma {:induction false} RunCopies(vals: Values, i: nat, c: nat)
    requires Equal(vals, i, c)
    ensures Concat(vals, i + c) == Concat(vals, i) + if c == 0 then [] else Copies(vals[i], c)
  {
    if c > 0 {
      RunCopies(vals, i, c - 1);
    }
  }

  /** The bytes of values i, i + 1, ... */
  function From(vals: Values, i: nat): seq<Byte>
    requires i <= |vals|
  {
    ConcatGrows(vals, i, |vals|);
    Raw(vals)[|Concat(vals, i)|..]
  }

  lemma {:induction false} ConcatGrows(vals: Values, i: nat, k: nat)
    requires i <= k <= |vals|
    ensures |Concat(vals, i)| <= |Concat(vals, k)| && Concat(vals, k)[..|Concat(vals, i)|] == Concat(vals, i)
  {
    if i < k { ConcatGrows(vals, i, k - 1); }
  }

  lemma {:induction false} FromRun(vals: Values, i: nat, c: nat)
    requires Equal(vals, i, c) && c > 0
    ensures From(vals, i) == Copies(vals[i], c) + From(vals, i + c)
  {
    RunCopies(vals, i, c);
    ConcatGrows(vals, i + c, |vals|);
    ConcatGrows(vals, i, |vals|);
    DropPrefix(Raw(vals), Concat(vals, i), Copies(vals[i], c), Concat(vals, i + c));
  }

  lemma {:induction false} DropPrefix(raw: seq<Byte>, a: seq<Byte>, m: seq<Byte>, b: seq<Byte>)
    requires b == a + m && |b| <= |raw| && raw[..|b|] == b
    ensures raw[|a|..] == m + raw[|b|..]
  {
    assert raw == a + m + raw[|b|..];
  }

  lemma {:induction false} OneRun(enc: seq<Byte>, p: nat, r: nat, v: seq<Byte>, tail: seq<Byte>)
    requires p <= |enc| && enc[p..] == Count(r) + v + tail && r < TWO32
    ensures p + 4 + |v| <= |enc| && FromLE(enc[p..p + 4]) == r
    ensures enc[p + 4..p + 4 + |v|] == v && enc[p + 4 + |v|..] == tail
  {
    var s := enc[p..];
    assert s[..4] == Count(r) && s[4..4 + |v|] == v && s[4 + |v|..] == tail;
    assert enc[p..p + 4] == s[..4] && enc[p + 4..p + 4 + |v|] == s[4..4 + |v|];
    CountBack(r);
  }

  lemma {:induction false} WholeRun(vals: Values, i: nat)
    requires i < |vals|
    ensures Equal(vals, i, RunLength(vals, i, 1))
  {
    var r := RunLength(vals, i, 1);
    forall k | i <= k < i + r ensures vals[k] == vals[i] { if k > i { RunIsEqual(vals, i, 1, k - i); } }
  }

  /** Decoding the runs gives the values back. */
  lemma {:induction false} DecodeRuns(vals: Values, w: nat, enc: seq<Byte>, p: nat, i: nat)
    requires Fixed(vals, w) && |vals| < TWO32 && i <= |vals| && p <= |enc| && enc[p..] == Runs(vals, i)
    ensures Decode(enc, p, w, |vals| - i) == Ok(From(vals, i))
    decreases |vals| - i
  {
    if i < |vals| {
      var r := RunLength(vals, i, 1);
      OneRun(enc, p, r, vals[i], Runs(vals, i + r));
      DecodeRuns(vals, w, enc, p + 4 + w, i + r);
      WholeRun(vals, i);
      FromRun(vals, i, r);
    }
  }

  lemma {:induction false} RoundTrip(vals: Values, w: nat)
    requires Fixed(vals, w) && |vals| < TWO32 && Encode(vals).Some?
    ensures Decode(Encode(vals).value, 0, w, |vals|) == Ok(Raw(vals))
  {
    var enc := Encode(vals).value;
    assert enc[0..] == Runs(vals, 0);
    DecodeRuns(vals, w, enc, 0, 0);
  }

  lemma {:induction false} RunsStep(vals: Values, i: nat, buf: seq<Byte>)
    requires i < |vals|
    ensures var r := RunLength(vals, i, 1); buf + Runs(vals, i) == buf + Count(r) + vals[i] + Runs(vals, i + r)
  {
    var r := RunLength(vals, i, 1);
    var count, rest := Count(r), Runs(vals, i + r);
    assert buf + (count + vals[i] + rest) == buf + count + vals[i] + rest;
  }

  method FindRun(vals: Values, i: nat) returns (run: nat)
    requires i < |vals|
    ensures run == RunLength(vals, i, 1)
  {
    run := 1;
    while i + run < |vals| && vals[i + run] == vals[i]
      invariant i + run <= |vals| && RunLength(vals, i, run) == RunLength(vals, i, 1)
    {
      run := run + 1;
    }
  }

  /** encode_rle; it gives up as soon as the output is no shorter than the input. */
  method EncodeRle(vals: Values, rawLen: nat) returns (out: Option<seq<Byte>>)
    requires |vals| > 0 && rawLen == |Raw(vals)|
    ensures out == Encode(vals)
  {
    var buf, i := [], 0;
    while i < |vals|
      invariant i <= |vals| && buf + Runs(vals, i) == Runs(vals, 0)
      invariant i == |vals| ==> |buf| < rawLen
    {
      var run := FindRun(vals, i);
      RunsStep(vals, i, buf);
      buf := buf + Count(run) + vals[i];
      i := i + run;
      if |buf| >= rawLen {
        return None;
      }
    }
    assert buf + [] == buf;
    out := Some(buf);
  }

  lemma {:induction false} DecodeStep(enc: seq<Byte>, p: nat, w: nat, left: nat, raw: seq<Byte>)
    requires left > 0 && p + 4 + w <= |enc|
    ensures var run, v := FromLE(enc[p..p + 4]), enc[p + 4..p + 4 + w];
      var c := if run < left then run else left;
      After(raw, Decode(enc, p, w, left)) == After(raw + Copies(v, c), Decode(enc, p + 4 + w, w, left - c))
  {
    var run, v := FromLE(enc[p..p + 4]), enc[p + 4..p + 4 + w];
    var c := if run < left then run else left;
    var rest := Decode(enc, p + 4 + w, w, left - c);
    if rest.Ok? { assert raw + (Copies(v, c) + rest.value) == raw + Copies(v, c) + rest.value; }
  }

  /** decode_rle: never reads past the encoded bytes, never writes past n values. */
  method DecodeRle(enc: seq<Byte>, w: nat, n: nat) returns (r: Result<seq<Byte>>)
    ensures r == Decode(enc, 0, w, n)
  {
    var raw, p, produced := [], 0, 0;
    assert Decode(enc, 0, w, n) == After([], Decode(enc, 0, w, n)) by {
      if Decode(enc, 0, w, n).Ok? { assert [] + Decode(enc, 0, w, n).value == Decode(enc, 0, w, n).value; }
    }
    while produced < n
      invariant produced <= n && Decode(enc, 0, w, n) == After(raw, Decode(enc, p, w, n - produced))
      decreases |enc| - p
    {
      if p + 4 > |enc| { return Err; }
      var run := FromLE(enc[p..p + 4]);
      if p + 4 + w > |enc| { return Err; }
      DecodeStep(enc, p, w, n - produced, raw);
      var c;
      raw, c := CopyRun(raw, enc[p + 4..p + 4 + w], run, n - produced);
      produced := produced + c;
      p := p + 4 + w;
    }
    assert raw + [] == raw;
    r := Ok(raw);
  }

  method CopyRun(start: seq<Byte>, v: seq<Byte>, run: nat, left: nat) returns (raw: seq<Byte>, c: nat)
    ensures c == (if run < left then run else left) && raw == start + Copies(v, c)
  {
    raw, c := start, 0;
    while c < run && c < left
      invariant c <= run && c <= left && raw == start + Copies(v, c)
    {
      raw := raw + v;
      c := c + 1;
    }
  }
}
