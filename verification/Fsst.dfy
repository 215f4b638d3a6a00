module Fsst {
  /**
   src/columnar_encoding.c, FSST: a table of at most 255 symbols of 1 to 8 bytes; the raw stream
   becomes one-byte codes, 255 escaping a literal byte. Greedy longest-match encoding against any
   parseable table is undone exactly by the decoder, whose fixed 8-byte stores stay in its slack.
   */

  import opened Prelude
  import opened Bits
  import opened BitPack
  import opened Words
  import opened OpenHash

  const ESCAPE: Byte := 255
  const MAX_SYMLEN: nat := 8
  const MIN_RAWLEN: nat := 64
  const SLACK: nat := 8

  predicate GoodSymbol(s: seq<Byte>) { 1 <= |s| <= MAX_SYMLEN }

  ghost predicate ValidTable(t: Values) { |t| <= 255 && forall i | 0 <= i < |t| :: GoodSymbol(t[i]) }

  // ----- the serialized table: [uint8 nSym] then [uint8 len][len bytes] per symbol

  function Symbols(t: Values, j: nat): seq<Byte>
    requires j <= |t| && forall i | 0 <= i < |t| :: GoodSymbol(t[i])
    decreases |t| - j
  {
    if j == |t| then [] else [|t[j]|] + t[j] + Symbols(t, j + 1)
  }

  function Serialize(t: Values): seq<Byte>
    requires ValidTable(t)
  {
    [|t|] + Symbols(t, 0)
  }

  function ParseSymbols(s: seq<Byte>, p: nat, n: nat): (r: Result<Parsed>)
    ensures r.Ok? ==> |r.value.entries| == n && forall i | 0 <= i < n :: GoodSymbol(r.value.entries[i])
    decreases n
  {
    if n == 0 then Ok(Parsed([], p))
    else if p >= |s| || s[p] < 1 || s[p] > MAX_SYMLEN || p + 1 + s[p] > |s| then Err
    else AfterValues([s[p + 1..p + 1 + s[p]]], ParseSymbols(s, p + 1 + s[p], n - 1))
  }

  /** fsst_deserialize_table: every table it accepts is valid; bytes after the symbols are ignored. */
  function Parse(s: seq<Byte>): (r: Result<Values>)
    ensures r.Ok? ==> ValidTable(r.value)
  {
    if |s| < 1 then Err
    else
      var t := ParseSymbols(s, 1, s[0]);
      if t.Err? then Err else Ok(t.value.entries)
  }

  lemma {:induction false} SymbolBack(s: seq<Byte>, p: nat, sym: seq<Byte>, tail: seq<Byte>)
    requires p <= |s| && GoodSymbol(sym) && s[p..] == [|sym|] + sym + tail
    ensures p < |s| && s[p] == |sym| && p + 1 + |sym| <= |s|
    ensures s[p + 1..p + 1 + |sym|] == sym && s[p + 1 + |sym|..] == tail
  {
    var u, n := s[p..], 1 + |sym|;
    assert u[0] == |sym| && u[1..n] == sym && u[n..] == tail;
    assert s[p + 1..p + n] == u[1..n] && s[p + n..] == u[n..];
  }

  lemma {:induction false} SymbolsBack(s: seq<Byte>, p: nat, t: Values, j: nat)
    requires ValidTable(t) && j <= |t| && p <= |s| && s[p..] == Symbols(t, j)
    ensures ParseSymbols(s, p, |t| - j) == Ok(Parsed(t[j..], |s|))
    decreases |t| - j
  {
    if j < |t| {
      SymbolBack(s, p, t[j], Symbols(t, j + 1));
      SymbolsBack(s, p + 1 + |t[j]|, t, j + 1);
      assert [t[j]] + t[j + 1..] == t[j..];
    }
  }

  lemma {:induction false} TableRoundTrip(t: Values)
    requires ValidTable(t)
    ensures Parse(Serialize(t)) == Ok(t)
  {
    var s := Serialize(t);
    assert s[1..] == Symbols(t, 0);
    SymbolsBack(s, 1, t, 0);
    assert t[0..] == t;
  }

  // ----- greedy coding

  datatype Match = Match(code: nat, len: nat) | NoMatch

  /** The longest symbol of at most len bytes that the stream continues with at pos. */
  function Longest(t: Values, raw: seq<Byte>, pos: nat, len: nat): (m: Match)
    requires pos + len <= |raw|
    ensures m.Match? ==> 1 <= m.len <= len && m.code < |t|
    decreases len
  {
    if len == 0 then NoMatch
    else
      var c := Find(t, raw[pos..pos + len], 0);
      if c < |t| then Match(c, len) else Longest(t, raw, pos, len - 1)
  }

  /** No symbol longer than the one chosen matches. */
  lemma {:induction false} LongestIsLongest(t: Values, raw: seq<Byte>, pos: nat, len: nat, i: nat)
    requires pos + len <= |raw| && i < |t| && 1 <= |t[i]| <= len && raw[pos..pos + |t[i]|] == t[i]
    ensures Longest(t, raw, pos, len).Match? && |t[i]| <= Longest(t, raw, pos, len).len
    decreases len
  {
    FindFinds(t, raw[pos..pos + len], 0);
    if Find(t, raw[pos..pos + len], 0) == |t| { LongestIsLongest(t, raw, pos, len - 1, i); }
  }

  lemma {:induction false} LongestMatches(t: Values, raw: seq<Byte>, pos: nat, len: nat)
    requires pos + len <= |raw|
    ensures var m := Longest(t, raw, pos, len); m.Match? ==> t[m.code] == raw[pos..pos + m.len]
    decreases len
  {
    if len > 0 {
      FindFinds(t, raw[pos..pos + len], 0);
      LongestMatches(t, raw, pos, len - 1);
    }
  }

  function MaxLen(remaining: nat): (n: nat)
    ensures n <= remaining && n <= MAX_SYMLEN
  {
    if remaining < MAX_SYMLEN then remaining else MAX_SYMLEN
  }

  function MatchAt(t: Values, raw: seq<Byte>, pos: nat): (m: Match)
    requires pos < |raw|
    ensures m.Match? ==> 1 <= m.len <= |raw| - pos && m.code < |t|
  {
    Longest(t, raw, pos, MaxLen(|raw| - pos))
  }

  /** The code stream of raw[pos..]. */
  function Codes(t: Values, raw: seq<Byte>, pos: nat): seq<Byte>
    requires |t| <= 255 && pos <= |raw|
    decreases |raw| - pos
  {
    if pos == |raw| then []
    else
      var m := MatchAt(t, raw, pos);
      if m.Match? then [m.code] + Codes(t, raw, pos + m.len) else [ESCAPE, raw[pos]] + Codes(t, raw, pos + 1)
  }

  /** encode_fsst_shared; a table that does not parse raises. */
  function Encode(raw: seq<Byte>, table: seq<Byte>): Result<Option<seq<Byte>>> {
    if |raw| < MIN_RAWLEN then Ok(None)
    else
      var t := Parse(table);
      if t.Err? then Err else if t.value == [] then Ok(None) else Ok(Shrunk(Codes(t.value, raw, 0), |raw|))
  }

  /** The output of enc[p..], which must fill exactly `room` bytes. */
  function DecodeFrom(t: Values, enc: seq<Byte>, p: nat, room: nat): (r: Result<seq<Byte>>)
    ensures r.Ok? ==> |r.value| == room
    decreases |enc| - p
  {
    if p >= |enc| then if room == 0 then Ok([]) else Err
    else if enc[p] == ESCAPE then
      if p + 1 >= |enc| || room == 0 then Err
      else
        var rest := DecodeFrom(t, enc, p + 2, room - 1);
        if rest.Err? then Err else Ok([enc[p + 1]] + rest.value)
    else if enc[p] >= |t| || |t[enc[p]]| > room then Err
    else
      var rest := DecodeFrom(t, enc, p + 1, room - |t[enc[p]]|);
      if rest.Err? then Err else Ok(t[enc[p]] + rest.value)
  }

  function Decode(enc: seq<Byte>, table: seq<Byte>, rawLen: nat): (r: Result<seq<Byte>>)
    ensures r.Ok? ==> |r.value| == rawLen
  {
    var t := Parse(table);
    if t.Err? then Err else DecodeFrom(t.value, enc, 0, rawLen)
  }

  lemma {:induction false} CodesBack(t: Values, raw: seq<Byte>, pos: nat, enc: seq<Byte>, p: nat)
    requires |t| <= 255 && pos <= |raw| && p <= |enc| && enc[p..] == Codes(t, raw, pos)
    ensures DecodeFrom(t, enc, p, |raw| - pos) == Ok(raw[pos..])
    decreases |raw| - pos
  {
    hide Find, Longest;
    if pos == |raw| {
      assert raw[pos..] == [];
    } else {
      var m := MatchAt(t, raw, pos);
      if m.Match? {
        LongestMatches(t, raw, pos, MaxLen(|raw| - pos));
        Tail(enc, p, [m.code], Codes(t, raw, pos + m.len));
        CodesBack(t, raw, pos + m.len, enc, p + 1);
        assert raw[pos..] == t[m.code] + raw[pos + m.len..];
      } else {
        Tail(enc, p, [ESCAPE, raw[pos]], Codes(t, raw, pos + 1));
        CodesBack(t, raw, pos + 1, enc, p + 2);
        assert raw[pos..] == [raw[pos]] + raw[pos + 1..];
      }
    }
  }

  lemma {:induction false} Tail(enc: seq<Byte>, p: nat, a: seq<Byte>, b: seq<Byte>)
    requires p <= |enc| && enc[p..] == a + b
    ensures p + |a| <= |enc| && enc[p + |a|..] == b
    ensures |a| > 0 ==> enc[p] == a[0]
    ensures |a| > 1 ==> enc[p + 1] == a[1]
  {
    assert enc[p..][|a|..] == b;
    assert |a| > 0 ==> enc[p..][0] == a[0];
    assert |a| > 1 ==> enc[p..][1] == a[1];
  }

  /** Encoding then decoding with the same table is the identity, for every input and table. */
  lemma {:induction false} RoundTrip(raw: seq<Byte>, table: seq<Byte>)
    requires Encode(raw, table).Ok? && Encode(raw, table).value.Some?
    ensures Decode(Encode(raw, table).value.value, table, |raw|) == Ok(raw)
  {
    var enc := Encode(raw, table).value.value;
    assert enc[0..] == Codes(Parse(table).value, raw, 0);
    CodesBack(Parse(table).value, raw, 0, enc, 0);
    assert raw[0..] == raw;
  }

  // ----- the loops

  method ParseTable(s: seq<Byte>) returns (r: Result<Values>)
    ensures r == Parse(s)
  {
    if |s| < 1 { return Err; }
    var n, p: nat, t := s[0], 1, [];
    AfterNoValues(ParseSymbols(s, 1, n));
    for i := 0 to n
      invariant ParseSymbols(s, 1, n) == AfterValues(t, ParseSymbols(s, p, n - i))
    {
      SymbolStep(s, p, n - i, t);
      if p >= |s| { return Err; }
      var len := s[p];
      if len < 1 || len > MAX_SYMLEN { return Err; }
      p := p + 1;
      if |s| - p < len { return Err; }
      t := t + [s[p..p + len]];
      p := p + len;
    }
    assert t + [] == t;
    r := Ok(t);
  }

  lemma {:induction false} SymbolStep(s: seq<Byte>, p: nat, left: nat, t: Values)
    requires left > 0
    ensures AfterValues(t, ParseSymbols(s, p, left))
         == if p >= |s| || s[p] < 1 || s[p] > MAX_SYMLEN || p + 1 + s[p] > |s| then Err
            else AfterValues(t + [s[p + 1..p + 1 + s[p]]], ParseSymbols(s, p + 1 + s[p], left - 1))
  {
    if p < |s| && 1 <= s[p] <= MAX_SYMLEN && p + 1 + s[p] <= |s| {
      AfterOneMore(t, s[p + 1..p + 1 + s[p]], ParseSymbols(s, p + 1 + s[p], left - 1));
    }
  }

  /** fsst_lookup_build: equal symbols may occur twice, the first keeps the code. */
  method BuildLookup(t: Values, hash: Key -> nat) returns (lk: Table)
    requires ValidTable(t)
    ensures fresh(lk) && fresh(lk.slots) && lk.Valid() && lk.keys == t
  {
    var cap := 512;
    while cap < 4 * |t| + 4
      invariant cap >= 512
      decreases 4 * |t| + 4 - cap
    {
      cap := 2 * cap;
    }
    lk := new Table(cap, hash);
    for i := 0 to |t|
      invariant fresh(lk) && fresh(lk.slots) && lk.Valid() && lk.slots.Length == cap && lk.keys == t[..i]
    {
      var s := lk.FindEmpty(t[i]);
      lk.Insert(t[i], s);
      assert t[..i + 1] == t[..i] + [t[i]];
    }
    assert t[..|t|] == t;
  }

  /** fsst_longest_match: lengths from the longest possible down. */
  method LongestMatch(lk: Table, raw: seq<Byte>, pos: nat) returns (m: Match)
    requires lk.Valid() && pos < |raw|
    ensures m == MatchAt(lk.keys, raw, pos)
  {
    var len: nat := MaxLen(|raw| - pos);
    while len >= 1
      invariant len <= |raw| - pos && Longest(lk.keys, raw, pos, len) == MatchAt(lk.keys, raw, pos)
    {
      var c, s := lk.Lookup(raw[pos..pos + len]);
      if c < |lk.keys| { return Match(c, len); }
      len := len - 1;
    }
    m := NoMatch;
  }

  /** The coding loop; it stops as soon as the codes are no shorter than the input. */
  method PutCodes(lk: Table, raw: seq<Byte>) returns (out: Option<seq<Byte>>)
    requires lk.Valid() && |lk.keys| <= 255 && |raw| > 0
    ensures out == Shrunk(Codes(lk.keys, raw, 0), |raw|)
  {
    hide MatchAt;
    var buf: seq<Byte>, pos := [], 0;
    while pos < |raw|
      invariant pos <= |raw| && buf + Codes(lk.keys, raw, pos) == Codes(lk.keys, raw, 0)
      invariant pos == |raw| ==> |buf| < |raw|
      decreases |raw| - pos
    {
      var m := LongestMatch(lk, raw, pos);
      CodesStep(lk.keys, raw, pos, buf);
      if m.Match? {
        buf := buf + [m.code];
        pos := pos + m.len;
      } else {
        buf := buf + [ESCAPE] + [raw[pos]];
        pos := pos + 1;
      }
      if |buf| >= |raw| { return None; }
    }
    assert buf + [] == buf;
    out := Some(buf);
  }

  lemma {:induction false} CodesStep(t: Values, raw: seq<Byte>, pos: nat, buf: seq<Byte>)
    requires |t| <= 255 && pos < |raw|
    ensures var m := MatchAt(t, raw, pos);
      buf + Codes(t, raw, pos) == if m.Match? then buf + [m.code] + Codes(t, raw, pos + m.len)
                                  else buf + [ESCAPE] + [raw[pos]] + Codes(t, raw, pos + 1)
  {
    hide MatchAt;
  }

  method EncodeFsst(raw: seq<Byte>, table: seq<Byte>, hash: Key -> nat) returns (r: Result<Option<seq<Byte>>>)
    ensures r == Encode(raw, table)
  {
    if |raw| < MIN_RAWLEN { return Ok(None); }
    var t := ParseTable(table);
    if t.Err? { return Err; }
    if t.value == [] { return Ok(None); }
    var lk := BuildLookup(t.value, hash);
    var out := PutCodes(lk, raw);
    r := Ok(out);
  }

  // ----- decoding with 8-byte stores

  /** A symbol packed into a word and stored as eight bytes starts with the symbol. */
  lemma {:induction false} PaddedStore(s: seq<Byte>, k: nat)
    requires |s| <= k
    ensures ToLE(FromLE(s), k)[..|s|] == s
  {
    if s != [] {
      var v := FromLE(s);
      assert v % 256 == s[0] && v / 256 == FromLE(s[1..]);
      PaddedStore(s[1..], k - 1);
      assert ToLE(v, k)[..|s|] == [s[0]] + ToLE(FromLE(s[1..]), k - 1)[..|s| - 1];
      assert s == [s[0]] + s[1..];
    }
  }

  /** An unaligned 8-byte store. */
  method Store8(raw: array<Byte>, at: nat, v: nat)
    requires at + 8 <= raw.Length
    modifies raw
    ensures raw[at..at + 8] == Word(v)
    ensures raw[..at] == old(raw[..at])
  {
    var bytes := Word(v);
    for k := 0 to 8
      invariant forall i | 0 <= i < k :: raw[at + i] == bytes[i]
      invariant raw[..at] == old(raw[..at])
    {
      raw[at + k] := bytes[k];
    }
  }

  method StoreSymbol(raw: array<Byte>, at: nat, sym: seq<Byte>)
    requires GoodSymbol(sym) && at + 8 <= raw.Length
    modifies raw
    ensures raw[..at + |sym|] == old(raw[..at]) + sym
  {
    PaddedStore(sym, 8);
    Store8(raw, at, FromLE(sym));
    assert raw[at..at + |sym|] == raw[at..at + 8][..|sym|];
    assert raw[..at + |sym|] == raw[..at] + raw[at..at + |sym|];
  }

  lemma {:induction false} DecodeNext(t: Values, enc: seq<Byte>, p: nat, room: nat, done: seq<Byte>)
    requires p < |enc|
    ensures var c := enc[p];
      After(done, DecodeFrom(t, enc, p, room)) ==
        if c == ESCAPE then
          if p + 1 >= |enc| || room == 0 then Err else After(done + [enc[p + 1]], DecodeFrom(t, enc, p + 2, room - 1))
        else if c >= |t| || |t[c]| > room then Err
        else After(done + t[c], DecodeFrom(t, enc, p + 1, room - |t[c]|))
  {
    var c := enc[p];
    if c == ESCAPE && p + 1 < |enc| && room > 0 {
      var rest := DecodeFrom(t, enc, p + 2, room - 1);
      if rest.Ok? { assert done + ([enc[p + 1]] + rest.value) == done + [enc[p + 1]] + rest.value; }
    } else if c != ESCAPE && c < |t| && |t[c]| <= room {
      var rest := DecodeFrom(t, enc, p + 1, room - |t[c]|);
      if rest.Ok? { assert done + (t[c] + rest.value) == done + t[c] + rest.value; }
    }
  }

  /** decode_fsst_shared: the output buffer has 8 bytes of slack and every store is inside it. */
  method DecodeFsst(enc: seq<Byte>, table: seq<Byte>, rawLen: nat) returns (r: Result<seq<Byte>>)
    ensures r == Decode(enc, table, rawLen)
  {
    hide ParseSymbols;
    var raw := new Byte[(if rawLen > 0 then rawLen else 1) + SLACK](_ => 0);
    var t := ParseTable(table);
    if t.Err? { return Err; }
    ghost var whole := DecodeFrom(t.value, enc, 0, rawLen);
    var p: nat, outPos: nat := 0, 0;
    assert whole == After([], whole) by { if whole.Ok? { assert [] + whole.value == whole.value; } }
    while p < |enc|
      invariant outPos <= rawLen && p <= |enc|
      invariant whole == After(raw[..outPos], DecodeFrom(t.value, enc, p, rawLen - outPos))
    {
      var c := enc[p];
      DecodeNext(t.value, enc, p, rawLen - outPos, raw[..outPos]);
      p := p + 1;
      if c == ESCAPE {
        if p >= |enc| || outPos >= rawLen { return Err; }
        ghost var done := raw[..outPos];
        raw[outPos] := enc[p];
        assert raw[..outPos + 1] == done + [enc[p]];
        outPos := outPos + 1;
        p := p + 1;
      } else {
        if c >= |t.value| { return Err; }
        var len := |t.value[c]|;
        if len > rawLen - outPos { return Err; }
        StoreSymbol(raw, outPos, t.value[c]);
        outPos := outPos + len;
      }
    }
    if outPos != rawLen { return Err; }
    assert raw[..outPos] + [] == raw[..outPos];
    r := Ok(raw[..rawLen]);
  }
}
