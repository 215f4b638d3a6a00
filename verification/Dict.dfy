module Dict {
  /**
   src/columnar_encoding.c, DICT: the distinct values in first-seen order, then one bit-packed
   code per position. [uint32 nDistinct][dictionary][uint8 codeWidth][codes]
   */

  import opened Prelude
  import opened Bits
  import opened BitPack
  import opened Words
  import opened OpenHash

  const MAX_DISTINCT: nat := 1024
  const HASH_SLOTS: nat := 2048

  /** Distinct values among the first k, in first-seen order. */
  function Dictionary(vals: Values, k: nat): (d: Values)
    requires k <= |vals|
    ensures |d| <= k
  {
    if k == 0 then []
    else
      var d := Dictionary(vals, k - 1);
      if Find(d, vals[k - 1], 0) < |d| then d else d + [vals[k - 1]]
  }

  lemma {:induction false} FindAppend(d: Values, more: Values, v: seq<Byte>)
    ensures Find(d, v, 0) < |d| ==> Find(d + more, v, 0) == Find(d, v, 0)
    ensures Find(d, v, 0) == |d| && |more| > 0 && more[0] == v ==> Find(d + more, v, 0) == |d|
  {
    var c := Find(d, v, 0);
    FindFinds(d, v, 0);
    if c < |d| || (|more| > 0 && more[0] == v) { FindIsFirst(d + more, v, 0, c); }
  }

  lemma {:induction false} DictionaryGrows(vals: Values, i: nat, k: nat)
    requires i <= k <= |vals|
    ensures |Dictionary(vals, i)| <= |Dictionary(vals, k)|
    ensures Dictionary(vals, k)[..|Dictionary(vals, i)|] == Dictionary(vals, i)
  {
    if i < k { DictionaryGrows(vals, i, k - 1); }
  }

  /** Value i has a code below the dictionary size, and the entry there is the value. */
  lemma {:induction false} CodeIsKnown(vals: Values, i: nat)
    requires i < |vals|
    ensures var d := Dictionary(vals, |vals|); Find(d, vals[i], 0) < |d| && d[Find(d, vals[i], 0)] == vals[i]
    ensures Find(Dictionary(vals, |vals|), vals[i], 0) == Find(Dictionary(vals, i), vals[i], 0)
  {
    var before, d := Dictionary(vals, i), Dictionary(vals, i + 1);
    DictionaryGrows(vals, i + 1, |vals|);
    var all := Dictionary(vals, |vals|);
    assert all == d + all[|d|..];
    FindAppend(before, [vals[i]], vals[i]);
    FindAppend(d, all[|d|..], vals[i]);
    FindFinds(all, vals[i], 0);
  }

  function Codes(vals: Values): (cs: seq<nat>)
    ensures |cs| == |vals|
  {
    seq(|vals|, i requires 0 <= i < |vals| => Find(Dictionary(vals, |vals|), vals[i], 0))
  }

  function CodeWidth(nd: nat): nat { BitsNeeded(if nd > 0 then nd - 1 else 0) }

  lemma {:induction false} CodeWidthSmall(nd: nat)
    requires nd <= MAX_DISTINCT
    ensures CodeWidth(nd) <= 64
  {
    Pow2Of64();
    BitsNeededMost(if nd > 0 then nd - 1 else 0, 64);
  }

  lemma {:induction false} CodesFit(vals: Values)
    ensures FitIn(Codes(vals), CodeWidth(|Dictionary(vals, |vals|)|))
  {
    var d := Dictionary(vals, |vals|);
    forall i | 0 <= i < |vals| ensures Codes(vals)[i] < Pow2(CodeWidth(|d|)) {
      CodeIsKnown(vals, i);
      BitsNeededFits(Codes(vals)[i], |d| - 1);
    }
  }

  /** One dictionary entry; w > 0 is a fixed width, otherwise the length is stored. */
  function Entry(v: seq<Byte>, w: int): seq<Byte> { if w > 0 then v else Count(|v|) + v }

  /** The entries from j on. */
  function Entries(d: Values, w: int, j: nat): seq<Byte>
    requires j <= |d|
    decreases |d| - j
  {
    if j == |d| then [] else Entry(d[j], w) + Entries(d, w, j + 1)
  }

  function Body(vals: Values, w: int): seq<Byte>
    requires |Dictionary(vals, |vals|)| <= MAX_DISTINCT
  {
    var d := Dictionary(vals, |vals|);
    CodeWidthSmall(|d|);
    Count(|d|) + Entries(d, w, 0) + [CodeWidth(|d|)] + Pack(Codes(vals), CodeWidth(|d|))
  }

  function Encode(vals: Values, w: int): Option<seq<Byte>> {
    if |Dictionary(vals, |vals|)| > MAX_DISTINCT then None else Shrunk(Body(vals, w), |Raw(vals)|)
  }

  // ----- decoding

  /** One entry at p. */
  function ParseEntry(enc: seq<Byte>, p: nat, w: int): Result<(seq<Byte>, nat)> {
    if w > 0 then if p + w > |enc| then Err else Ok((enc[p..p + w], p + w))
    else if p + 4 > |enc| then Err
    else
      var len := FromLE(enc[p..p + 4]);
      if p + 4 + len > |enc| then Err else Ok((enc[p + 4..p + 4 + len], p + 4 + len))
  }

  /** nd entries from p on. */
  function ParseEntries(enc: seq<Byte>, p: nat, nd: nat, w: int): Result<Parsed>
    decreases nd
  {
    if nd == 0 then Ok(Parsed([], p))
    else
      var e := ParseEntry(enc, p, w);
      if e.Err? then Err else AfterValues([e.value.0], ParseEntries(enc, e.value.1, nd - 1, w))
  }

  /** The output of the first k codes. */
  function Emit(codes: seq<nat>, d: Values, rawLen: nat, k: nat): Result<seq<Byte>>
    requires k <= |codes|
  {
    if k == 0 then Ok([])
    else
      var before, code := Emit(codes, d, rawLen, k - 1), codes[k - 1] % TWO32;
      if before.Err? || code >= |d| || |d[code]| > rawLen - |before.value| then Err
      else Ok(before.value + d[code])
  }

  function Decode(enc: seq<Byte>, w: int, n: nat, rawLen: nat): Result<seq<Byte>> {
    if |enc| < 4 then Err
    else
      var ps := ParseEntries(enc, 4, FromLE(enc[..4]), w);
      if ps.Err? then Err else DecodeCodes(enc, ps.value, n, rawLen)
  }

  function DecodeCodes(enc: seq<Byte>, ps: Parsed, n: nat, rawLen: nat): Result<seq<Byte>> {
    if ps.pos + 1 > |enc| then Err
    else
      var codes := Unpacked(enc[ps.pos + 1..], n, enc[ps.pos]);
      if codes.Err? then Err
      else
        UnpackedWords(enc[ps.pos + 1..], n, enc[ps.pos]);
        var out := Emit(codes.value, ps.entries, rawLen, n);
        if out.Err? || |out.value| != rawLen then Err else out
  }

  lemma {:induction false} DecodeLength(enc: seq<Byte>, w: int, n: nat, rawLen: nat)
    requires Decode(enc, w, n, rawLen).Ok?
    ensures |Decode(enc, w, n, rawLen).value| == rawLen
  {
  }

  // ----- round trip

  /** A value the entry format can carry: of the fixed width, or of a length that fits uint32. */
  ghost predicate Storable(v: seq<Byte>, w: int) { if w > 0 then |v| == w else |v| < TWO32 }

  lemma {:induction false} ParseEntryBack(enc: seq<Byte>, p: nat, v: seq<Byte>, w: int, tail: seq<Byte>)
    requires p <= |enc| && enc[p..] == Entry(v, w) + tail && Storable(v, w)
    ensures ParseEntry(enc, p, w) == Ok((v, p + |Entry(v, w)|)) && enc[p + |Entry(v, w)|..] == tail
  {
    hide Count, FromLE;
    var s := enc[p..];
    if w > 0 {
      assert s[..w] == v && s[w..] == tail;
      assert enc[p..p + w] == s[..w] && enc[p + w..] == s[w..];
    } else {
      var n := 4 + |v|;
      assert s[..4] == Count(|v|) && s[4..n] == v && s[n..] == tail;
      assert enc[p..p + 4] == s[..4] && enc[p + 4..p + n] == s[4..n] && enc[p + n..] == s[n..];
      CountBack(|v|);
    }
  }

  lemma {:induction false} ParseBack(enc: seq<Byte>, p: nat, d: Values, w: int, j: nat, tail: seq<Byte>)
    requires j <= |d| && p <= |enc| && enc[p..] == Entries(d, w, j) + tail
    requires forall i | 0 <= i < |d| :: Storable(d[i], w)
    ensures ParseEntries(enc, p, |d| - j, w) == Ok(Parsed(d[j..], p + |Entries(d, w, j)|))
    ensures enc[p + |Entries(d, w, j)|..] == tail
    decreases |d| - j
  {
    hide Entry, ParseEntry, Storable;
    if j < |d| {
      var e, rest := Entry(d[j], w), Entries(d, w, j + 1);
      assert Entries(d, w, j) + tail == e + (rest + tail);
      ParseEntryBack(enc, p, d[j], w, rest + tail);
      ParseBack(enc, p + |e|, d, w, j + 1, tail);
      assert [d[j]] + d[j + 1..] == d[j..];
    }
  }

  lemma {:induction false} EmitBack(vals: Values, k: nat)
    requires k <= |vals| && |Dictionary(vals, |vals|)| <= MAX_DISTINCT
    ensures Emit(Codes(vals), Dictionary(vals, |vals|), |Raw(vals)|, k) == Ok(Concat(vals, k))
  {
    hide Dictionary, Find;
    if k > 0 {
      EmitBack(vals, k - 1);
      CodeIsKnown(vals, k - 1);
      ConcatShort(vals, k);
    }
  }

  lemma {:induction false} ConcatShort(vals: Values, k: nat)
    requires k <= |vals|
    ensures |Concat(vals, k)| <= |Raw(vals)|
    decreases |vals| - k
  {
    if k < |vals| { ConcatShort(vals, k + 1); }
  }

  ghost predicate AllStorable(vals: Values, w: int) { forall i | 0 <= i < |vals| :: Storable(vals[i], w) }

  lemma {:induction false} DictionaryStorable(vals: Values, w: int, k: nat)
    requires AllStorable(vals, w) && k <= |vals|
    ensures AllStorable(Dictionary(vals, k), w)
  {
    hide Storable, Find;
    if k > 0 { DictionaryStorable(vals, w, k - 1); }
  }

  lemma {:induction false} CodesBack(enc: seq<Byte>, pos: nat, vals: Values)
    requires var d := Dictionary(vals, |vals|);
      && |d| <= MAX_DISTINCT
      && pos <= |enc| && CodeWidth(|d|) <= 64 && enc[pos..] == [CodeWidth(|d|)] + Pack(Codes(vals), CodeWidth(|d|))
    ensures DecodeCodes(enc, Parsed(Dictionary(vals, |vals|), pos), |vals|, |Raw(vals)|) == Ok(Raw(vals))
  {
    hide Dictionary, CodeWidth, Pack, Codes, Unpacked, Emit;
    var d := Dictionary(vals, |vals|);
    var w, cs := CodeWidth(|d|), Codes(vals);
    CodesFit(vals);
    PackedAt(cs, w, []);
    assert Pack(cs, w) + [] == Pack(cs, w);
    assert enc[pos..][0] == enc[pos] && enc[pos..][1..] == enc[pos + 1..];
    EmitBack(vals, |vals|);
  }

  /** Every value comes back, fixed-width or variable-length. */
  lemma {:induction false} RoundTrip(vals: Values, w: int)
    requires AllStorable(vals, w) && |Dictionary(vals, |vals|)| <= MAX_DISTINCT
    ensures Decode(Body(vals, w), w, |vals|, |Raw(vals)|) == Ok(Raw(vals))
  {
    hide Dictionary, CodeWidth, Pack, Codes, DecodeCodes, Entries, ParseEntries, Storable, Count;
    var d, enc := Dictionary(vals, |vals|), Body(vals, w);
    CodeWidthSmall(|d|);
    var es, tail := Entries(d, w, 0), [CodeWidth(|d|)] + Pack(Codes(vals), CodeWidth(|d|));
    assert enc[..4] == Count(|d|) && enc[4..] == es + tail;
    CountBack(|d|);
    DictionaryStorable(vals, w, |vals|);
    ParseBack(enc, 4, d, w, 0, tail);
    assert d[0..] == d;
    CodesBack(enc, 4 + |es|, vals);
  }

  // ----- the loops

  /** The probing loop of encode_dict; None when there are too many distinct values. */
  method AssignCodes(vals: Values, hash: Key -> nat) returns (r: Option<(Values, seq<nat>)>)
    ensures r.None? <==> |Dictionary(vals, |vals|)| > MAX_DISTINCT
    ensures r.Some? ==> r.value == (Dictionary(vals, |vals|), Codes(vals))
  {
    var table := new Table(HASH_SLOTS, hash);
    var codes := [];
    for i := 0 to |vals|
      invariant fresh(table) && fresh(table.slots) && table.Valid() && table.slots.Length == HASH_SLOTS
      invariant table.keys == Dictionary(vals, i) && |table.keys| <= MAX_DISTINCT
      invariant |codes| == i && forall k | 0 <= k < i :: codes[k] == Codes(vals)[k]
    {
      var code, s := table.Lookup(vals[i]);
      CodeIsKnown(vals, i);
      DictionaryGrows(vals, i + 1, |vals|);
      if code == |table.keys| {
        if |table.keys| >= MAX_DISTINCT { return None; }
        table.Insert(vals[i], s);
      }
      codes := codes + [code];
    }
    assert codes == Codes(vals);
    r := Some((table.keys, codes));
  }

  method PutEntries(d: Values, w: int) returns (entries: seq<Byte>)
    ensures entries == Entries(d, w, 0)
  {
    entries := [];
    for j := 0 to |d|
      invariant entries + Entries(d, w, j) == Entries(d, w, 0)
    {
      assert entries + (Entry(d[j], w) + Entries(d, w, j + 1)) == entries + Entry(d[j], w) + Entries(d, w, j + 1);
      entries := entries + if w > 0 then d[j] else Count(|d[j]|) + d[j];
    }
    assert entries + [] == entries;
  }

  method EncodeDict(vals: Values, w: int, rawLen: nat, hash: Key -> nat) returns (out: Option<seq<Byte>>)
    requires rawLen == |Raw(vals)|
    ensures out == Encode(vals, w)
  {
    var r := AssignCodes(vals, hash);
    if r.None? { return None; }
    var (d, codes) := r.value;
    CodeWidthSmall(|d|);
    var width := CountBits(if |d| > 0 then |d| - 1 else 0);
    var entries := PutEntries(d, w);
    var body := BitPackWords(codes, width);
    var buf := Count(|d|) + entries + [width] + body;
    out := if |buf| >= rawLen then None else Some(buf);
  }

  method ReadEntries(enc: seq<Byte>, start: nat, nd: nat, w: int) returns (r: Result<Parsed>)
    ensures r == ParseEntries(enc, start, nd, w)
  {
    var d: Values, p: nat := [], start;
    AfterNoValues(ParseEntries(enc, start, nd, w));
    for j := 0 to nd
      invariant ParseEntries(enc, start, nd, w) == AfterValues(d, ParseEntries(enc, p, nd - j, w))
    {
      EntryStep(enc, p, nd - j, w, d);
      if w > 0 {
        if p + w > |enc| { return Err; }
        d := d + [enc[p..p + w]];
        p := p + w;
      } else {
        if p + 4 > |enc| { return Err; }
        var len := FromLE(enc[p..p + 4]);
        p := p + 4;
        if len > |enc| - p { return Err; }
        d := d + [enc[p..p + len]];
        p := p + len;
      }
    }
    assert d + [] == d;
    r := Ok(Parsed(d, p));
  }

  lemma {:induction false} EntryStep(enc: seq<Byte>, p: nat, left: nat, w: int, d: Values)
    requires left > 0
    ensures var e := ParseEntry(enc, p, w);
      AfterValues(d, ParseEntries(enc, p, left, w))
      == if e.Err? then Err else AfterValues(d + [e.value.0], ParseEntries(enc, e.value.1, left - 1, w))
  {
    var e := ParseEntry(enc, p, w);
    if e.Ok? { AfterOneMore(d, e.value.0, ParseEntries(enc, e.value.1, left - 1, w)); }
  }

  lemma {:induction false} EmitErr(codes: seq<nat>, d: Values, rawLen: nat, j: nat, k: nat)
    requires j <= k <= |codes| && Emit(codes, d, rawLen, j).Err?
    ensures Emit(codes, d, rawLen, k).Err?
  {
    if j < k { EmitErr(codes, d, rawLen, j, k - 1); }
  }

  method EmitAll(codes: seq<nat>, d: Values, rawLen: nat) returns (r: Result<seq<Byte>>)
    ensures r == Emit(codes, d, rawLen, |codes|)
  {
    var raw := [];
    for i := 0 to |codes|
      invariant |raw| <= rawLen && Emit(codes, d, rawLen, i) == Ok(raw)
    {
      var code := codes[i] % TWO32;
      if code >= |d| || |d[code]| > rawLen - |raw| {
        EmitErr(codes, d, rawLen, i + 1, |codes|);
        return Err;
      }
      raw := raw + d[code];
    }
    r := Ok(raw);
  }

  method DecodeDict(enc: seq<Byte>, w: int, n: nat, rawLen: nat) returns (r: Result<seq<Byte>>)
    ensures r == Decode(enc, w, n, rawLen)
  {
    if |enc| < 4 { return Err; }
    var ps := ReadEntries(enc, 4, FromLE(enc[..4]), w);
    if ps.Err? { return Err; }
    var p := ps.value.pos;
    if p + 1 > |enc| { return Err; }
    var codes := BitUnpackWords(enc[p + 1..], n, enc[p]);
    if codes.Err? { return Err; }
    UnpackedWords(enc[p + 1..], n, enc[p]);
    var out := EmitAll(codes.value, ps.value.entries, rawLen);
    if out.Err? || |out.value| != rawLen { return Err; }
    r := out;
  }
}
