module Chunk {
  /**
   src/columnar_encoding.c, the entry points: choose the smallest encoding of a chunk, on a
   windowed sample or exhaustively, and reverse it.
   */

  import opened Prelude
  import opened Bits
  import opened BitPack
  import opened Words
  import OpenHash
  import Rle
  import FrameOfReference
  import Delta
  import DeltaOfDelta
  import Gorilla
  import Alp
  import Dict
  import Fsst

  const SAMPLE_WINDOW: nat := 64
  const SAMPLE_MIN: nat := 128

  datatype Code = NONE | RLE | FOR | DELTA | GORILLA | DOD | DICT | ALP | FSST | Unknown

  datatype TypeId = Float4 | Float8 | OtherType

  /** What the encoder looks at in a column's catalog row; len is -1 for varlena, -2 for cstring. */
  datatype Attr = Attr(len: int, byval: bool, typ: TypeId)

  predicate IntLen(len: int) { len == 1 || len == 2 || len == 4 || len == 8 }

  /** What the type catalog guarantees. */
  predicate GoodAttr(att: Attr) {
    && (att.typ == Float4 ==> att.len == 4)
    && (att.typ == Float8 ==> att.len == 8)
  }

  predicate PackableInt(att: Attr) { att.byval && att.typ == OtherType && IntLen(att.len) }

  predicate GorillaFloat(att: Attr) { att.byval && att.typ != OtherType }

  /** Float arithmetic, ALP's choice of scale, the hash, the shared FSST table and the sampling
      setting: whatever they are, the results below hold. */
  datatype Env = Env(fl: Alp.Float, pick: Values -> Option<Alp.Scale>, hash: OpenHash.Key -> nat,
                     table: Option<seq<Byte>>, sampleRows: nat)

  /** A value stream of the column. */
  ghost predicate Shaped(vals: Values, att: Attr) { |vals| > 0 && (att.len > 0 ==> Fixed(vals, att.len)) }

  // ----- candidates

  /** The order in which encodings are tried. */
  function Candidates(att: Attr): (cs: seq<Code>)
    ensures |cs| <= 7
  {
    (if att.len > 0 then [RLE] else [])
    + (if PackableInt(att) then [FOR, DELTA, DOD] else [])
    + (if GorillaFloat(att) then [GORILLA, ALP] else [])
    + (if att.len > 0 || att.len == -1 then [DICT] else [])
  }

  predicate Applicable(att: Attr, code: Code) {
    match code
    case RLE => att.len > 0
    case FOR => PackableInt(att)
    case DELTA => PackableInt(att)
    case DOD => PackableInt(att)
    case GORILLA => GorillaFloat(att)
    case ALP => GorillaFloat(att)
    case DICT => att.len > 0 || att.len == -1
    case _ => false
  }

  lemma {:induction false} CandidatesApply(att: Attr, code: Code)
    ensures code in Candidates(att) <==> Applicable(att, code)
  {
  }

  function Attempt(env: Env, att: Attr, vals: Values, code: Code): Option<seq<Byte>>
    requires GoodAttr(att) && Shaped(vals, att) && Applicable(att, code)
  {
    match code
    case RLE => Rle.Encode(vals)
    case FOR => FrameOfReference.Encode(vals, att.len)
    case DELTA => Delta.Encode(vals, att.len)
    case DOD => DeltaOfDelta.Encode(vals, att.len)
    case GORILLA => Gorilla.Encode(vals, att.len)
    case ALP => Alp.Encode(env.fl, vals, env.pick(vals))
    case DICT => Dict.Encode(vals, att.len)
  }

  /** The best so far: NONE and the raw stream itself to begin with. */
  datatype Best = Best(code: Code, bytes: seq<Byte>)

  function Better(best: Best, code: Code, enc: Option<seq<Byte>>): Best {
    if enc.Some? && |enc.value| < |best.bytes| then Best(code, enc.value) else best
  }

  predicate Usable(att: Attr, code: Code) { code == NONE || Applicable(att, code) }

  ghost predicate AllApplicable(att: Attr, cs: seq<Code>) { forall i | 0 <= i < |cs| :: Usable(att, cs[i]) }

  /** The best of the first k candidates; NONE entries are skipped. */
  function BestOf(env: Env, att: Attr, vals: Values, cs: seq<Code>, k: nat): Best
    requires GoodAttr(att) && Shaped(vals, att) && AllApplicable(att, cs) && k <= |cs|
  {
    if k == 0 then Best(NONE, Raw(vals))
    else
      var before := BestOf(env, att, vals, cs, k - 1);
      if cs[k - 1] == NONE then before else Better(before, cs[k - 1], Attempt(env, att, vals, cs[k - 1]))
  }

  // ----- sampling

  function Min(a: nat, b: nat): nat { if a < b then a else b }

  /** First value of window i of nwin. */
  function WindowStart(n: nat, win: nat, nwin: nat, i: nat): (s: nat)
    requires win <= n && 2 <= nwin && i < nwin
    ensures s + win <= n
  {
    WindowFits(n - win, nwin - 1, i);
    i * (n - win) / (nwin - 1)
  }

  lemma {:induction false} WindowFits(room: nat, last: nat, i: nat)
    requires 0 < last && i <= last
    ensures i * room >= 0 && i * room / last <= room
  {
    var q, r := i * room / last, i * room % last;
    assert i * room == q * last + r;
    assert last * room - i * room == (last - i) * room;
    assert (last - i) * room >= 0;
    if q > room { MulAtLeast(last, q - room); }
  }

  /** The first k windows. */
  function Windows(vals: Values, win: nat, nwin: nat, k: nat): (s: Values)
    requires win <= |vals| && 2 <= nwin && k <= nwin
    ensures |s| == Times(k, win)
  {
    if k == 0 then []
    else
      var start := WindowStart(|vals|, win, nwin, k - 1);
      Windows(vals, win, nwin, k - 1) + vals[start..start + win]
  }

  lemma {:induction false} WindowsFixed(vals: Values, win: nat, nwin: nat, k: nat, w: nat)
    requires win <= |vals| && 2 <= nwin && k <= nwin && Fixed(vals, w)
    ensures Fixed(Windows(vals, win, nwin, k), w)
  {
    if k > 0 { WindowsFixed(vals, win, nwin, k - 1, w); }
  }

  /** The windows are spread evenly over the vector: the first at its start, the last at its end, and the
      distance from one to the next differs by at most one value. */
  lemma {:induction false} WindowsSpread(n: nat, win: nat, nwin: nat, i: nat)
    requires win <= n && 2 <= nwin && i + 1 < nwin
    ensures WindowStart(n, win, nwin, 0) == 0 && WindowStart(n, win, nwin, nwin - 1) == n - win
    ensures var gap := WindowStart(n, win, nwin, i + 1) - WindowStart(n, win, nwin, i); var g := (n - win) / (nwin - 1); g <= gap <= g + 1
  {
    var room, last := n - win, nwin - 1;
    QuotientStep(room, last, i);
    ModUnique(last * room, last, room, 0);
    assert 0 * room == 0;
  }

  lemma {:induction false} QuotientStep(room: nat, last: nat, i: nat)
    requires last > 0
    ensures i * room >= 0 && (i + 1) * room >= 0
    ensures var g := room / last; g <= (i + 1) * room / last - i * room / last <= g + 1
  {
    var x := i * room;
    assert (i + 1) * room == x + room;
    QuotientSum(x, room, last);
  }

  lemma {:induction false} QuotientSum(x: nat, y: nat, last: nat)
    requires last > 0
    ensures x / last + y / last <= (x + y) / last <= x / last + y / last + 1
  {
    var a, ra, g, r := x / last, x % last, y / last, y % last;
    SumOfQuotients(last, a, ra, g, r);
    if ra + r < last { ModUnique(x + y, last, a + g, ra + r); } else { ModUnique(x + y, last, a + g + 1, ra + r - last); }
  }

  lemma {:induction false} SumOfQuotients(last: nat, a: nat, ra: nat, g: nat, r: nat)
    ensures (last * a + ra) + (last * g + r) == last * (a + g) + (ra + r) == last * (a + g + 1) + (ra + r - last)
  {
  }

  /** Value j of window i stands in its place in the sample. */
  lemma {:induction false} WindowsAt(vals: Values, win: nat, nwin: nat, k: nat, i: nat, j: nat)
    requires win <= |vals| && 2 <= nwin && i < k <= nwin && j < win
    ensures Times(i, win) + j < Times(k, win)
    ensures Windows(vals, win, nwin, k)[Times(i, win) + j] == vals[WindowStart(|vals|, win, nwin, i) + j]
  {
    if i < k - 1 { WindowsAt(vals, win, nwin, k - 1, i, j); }
  }

  /** build_sample: evenly spread windows of consecutive values; None when there is nothing to gain. */
  function Sample(vals: Values, want: nat): Option<Values> {
    var win := Min(SAMPLE_WINDOW, want);
    if want == 0 || |vals| <= want then None
    else
      var nwin := want / win;
      if nwin < 2 || |vals| <= win then None else Some(Windows(vals, win, nwin, nwin))
  }

  lemma {:induction false} SampleShaped(vals: Values, want: nat, att: Attr)
    requires Shaped(vals, att) && Sample(vals, want).Some?
    ensures Shaped(Sample(vals, want).value, att)
  {
    var win := Min(SAMPLE_WINDOW, want);
    var nwin := want / win;
    if att.len > 0 { WindowsFixed(vals, win, nwin, nwin, att.len); }
    TimesMono(1, nwin, win);
    assert Times(1, win) == Times(0, win) + win == win;
  }

  /** The two smallest results on the sample. */
  datatype Rank = Rank(first: Code, firstLen: nat, second: Code, secondLen: nat)

  function Ranked(rank: Rank, code: Code, enc: Option<seq<Byte>>): Rank {
    if enc.None? then rank
    else if |enc.value| < rank.firstLen then Rank(code, |enc.value|, rank.first, rank.firstLen)
    else if |enc.value| < rank.secondLen then rank.(second := code, secondLen := |enc.value|)
    else rank
  }

  function RankOf(env: Env, att: Attr, sample: Values, cs: seq<Code>, k: nat): Rank
    requires GoodAttr(att) && Shaped(sample, att) && AllApplicable(att, cs) && k <= |cs| && NONE !in cs
  {
    if k == 0 then Rank(NONE, |Raw(sample)|, NONE, |Raw(sample)|)
    else Ranked(RankOf(env, att, sample, cs, k - 1), cs[k - 1], Attempt(env, att, sample, cs[k - 1]))
  }

  lemma {:induction false} CandidatesGood(att: Attr)
    ensures AllApplicable(att, Candidates(att)) && NONE !in Candidates(att)
  {
    var cs := Candidates(att);
    forall i | 0 <= i < |cs| ensures Applicable(att, cs[i]) { CandidatesApply(att, cs[i]); }
    CandidatesApply(att, NONE);
  }

  lemma {:induction false} RankApplies(env: Env, att: Attr, sample: Values, cs: seq<Code>, k: nat)
    requires GoodAttr(att) && Shaped(sample, att) && AllApplicable(att, cs) && k <= |cs| && NONE !in cs
    ensures var r := RankOf(env, att, sample, cs, k); Usable(att, r.first) && Usable(att, r.second)
  {
    hide Attempt, Applicable;
    if k > 0 { RankApplies(env, att, sample, cs, k - 1); }
  }

  ghost predicate Distinct(cs: seq<Code>) { forall i, j | 0 <= i < j < |cs| :: cs[i] != cs[j] }

  /** The ranking holds the two smallest results: no candidate is smaller than the first, and none but the
      first is smaller than the second. */
  lemma {:induction false} RankIsSmallest(env: Env, att: Attr, sample: Values, cs: seq<Code>, k: nat, j: nat)
    requires GoodAttr(att) && Shaped(sample, att) && AllApplicable(att, cs) && k <= |cs| && NONE !in cs && Distinct(cs)
    ensures var r := RankOf(env, att, sample, cs, k);
      r.firstLen <= r.secondLen && (r.first == NONE || r.first in cs[..k]) && (r.second == NONE || r.second in cs[..k])
    ensures j < k ==> var r, a := RankOf(env, att, sample, cs, k), Attempt(env, att, sample, cs[j]);
      && (a.Some? ==> r.firstLen <= |a.value| && (r.first == cs[j] || r.secondLen <= |a.value|))
      && (r.first == cs[j] ==> a.Some? && r.firstLen == |a.value|)
      && (r.second == cs[j] ==> a.Some? && r.secondLen == |a.value|)
  {
    hide Attempt, Applicable;
    if k > 0 {
      RankIsSmallest(env, att, sample, cs, k - 1, j);
      assert cs[..k] == cs[..k - 1] + [cs[k - 1]];
      assert cs[k - 1] !in cs[..k - 1];
      if j < k - 1 { assert cs[j] in cs[..k - 1]; }
    }
  }

  /** The candidates applied to the whole chunk: all, or the two the sample liked. */
  function Chosen(env: Env, att: Attr, vals: Values): (cs: seq<Code>)
    requires GoodAttr(att) && Shaped(vals, att)
    ensures AllApplicable(att, cs)
  {
    CandidatesGood(att);
    if Sampled(env, att, vals) then
      var sample := Sample(vals, env.sampleRows).value;
      SampleShaped(vals, env.sampleRows, att);
      RankApplies(env, att, sample, Candidates(att), |Candidates(att)|);
      var r := RankOf(env, att, sample, Candidates(att), |Candidates(att)|);
      [r.first, r.second]
    else Candidates(att)
  }

  lemma {:induction false} CandidatesDistinct(att: Attr)
    ensures Distinct(Candidates(att))
  {
  }

  /** No encoding that the sample leaves out is smaller on the sample than one that is applied. */
  lemma {:induction false} SampleChooses(env: Env, att: Attr, vals: Values, applied: Code, left: Code)
    requires GoodAttr(att) && Shaped(vals, att) && Sampled(env, att, vals) && Applicable(att, applied) && Applicable(att, left)
    requires applied in Chosen(env, att, vals) && left !in Chosen(env, att, vals)
    ensures var sample := Sample(vals, env.sampleRows).value;
      && Shaped(sample, att)
      && (var a, b := Attempt(env, att, sample, applied), Attempt(env, att, sample, left); b.Some? ==> a.Some? && |a.value| <= |b.value|)
  {
    hide Attempt, Sample, RankOf;
    var sample, cs := Sample(vals, env.sampleRows).value, Candidates(att);
    SampleShaped(vals, env.sampleRows, att);
    CandidatesGood(att);
    CandidatesDistinct(att);
    CandidatesApply(att, applied);
    CandidatesApply(att, left);
    var i: nat :| i < |cs| && cs[i] == applied;
    var j: nat :| j < |cs| && cs[j] == left;
    RankIsSmallest(env, att, sample, cs, |cs|, i);
    RankIsSmallest(env, att, sample, cs, |cs|, j);
  }

  predicate Sampled(env: Env, att: Attr, vals: Values) {
    att.len > 0 && env.sampleRows >= SAMPLE_MIN && Sample(vals, env.sampleRows).Some?
  }

  // ----- encode and decode

  /** PgColumnarEncodeChunk; an FSST table that does not parse raises. */
  function Encode(env: Env, att: Attr, vals: Values): Result<Best>
    requires GoodAttr(att) && (vals != [] ==> Shaped(vals, att))
  {
    var raw := Raw(vals);
    if raw == [] || vals == [] then Ok(Best(NONE, raw))
    else
      var cs := Chosen(env, att, vals);
      var best := BestOf(env, att, vals, cs, |cs|);
      if att.len == -1 && env.table.Some? && |best.bytes| > |raw| - |raw| / 4 then
        var f := Fsst.Encode(raw, env.table.value);
        if f.Err? then Err else Ok(Better(best, FSST, f.value))
      else Ok(best)
  }

  function Decode(env: Env, att: Attr, b: Best, n: nat, rawLen: nat): Result<seq<Byte>> {
    if n >= TWO32 then Err
    else
      match b.code
      case NONE => if |b.bytes| != rawLen then Err else Ok(b.bytes)
      case RLE => if FixedGuard(att, n, rawLen) then Rle.Decode(b.bytes, 0, att.len, n) else Err
      case FOR => if FixedGuard(att, n, rawLen) then FrameOfReference.Decode(b.bytes, n, rawLen) else Err
      case DELTA => if FixedGuard(att, n, rawLen) then Delta.Decode(b.bytes, n, rawLen) else Err
      case DOD => if FixedGuard(att, n, rawLen) then DeltaOfDelta.Decode(b.bytes, n, rawLen) else Err
      case GORILLA => if FixedGuard(att, n, rawLen) then Gorilla.Decode(b.bytes, att.len, n) else Err
      case ALP => if FixedGuard(att, n, rawLen) && att.len >= 4 then Alp.Decode(env.fl, b.bytes, att.len, n, rawLen) else Err
      case DICT => Dict.Decode(b.bytes, att.len, n, rawLen)
      case FSST => if env.table.None? || env.table.value == [] then Err else Fsst.Decode(b.bytes, env.table.value, rawLen)
      case Unknown => Err
  }

  /** The check before the fixed-width decoders. */
  predicate FixedGuard(att: Attr, n: nat, rawLen: nat) { IntLen(att.len) && Times(n, att.len) == rawLen }

  /** On arbitrary bytes and lengths the decoder raises or returns exactly rawLen bytes. */
  lemma {:induction false} DecodeLength(env: Env, att: Attr, b: Best, n: nat, rawLen: nat)
    requires Decode(env, att, b, n, rawLen).Ok?
    ensures |Decode(env, att, b, n, rawLen).value| == rawLen
  {
    match b.code
    case RLE => Rle.DecodeLength(b.bytes, 0, att.len, n);
    case FOR => FrameOfReference.DecodeLength(b.bytes, n, rawLen);
    case DELTA => Delta.DecodeLength(b.bytes, n, rawLen);
    case DOD => DeltaOfDelta.DecodeLength(b.bytes, n, rawLen);
    case GORILLA => Gorilla.DecodeLength(b.bytes, att.len, n);
    case ALP => Alp.DecodeLength(env.fl, b.bytes, att.len, n, rawLen);
    case DICT => Dict.DecodeLength(b.bytes, att.len, n, rawLen);
    case _ =>
  }

  // ----- what the encoder promises

  /** The lengths the C types can carry. */
  ghost predicate Sized(vals: Values) { |vals| < TWO32 && |Raw(vals)| < TWO32 }

  lemma {:induction false} ValueShort(vals: Values, k: nat, i: nat)
    requires i < k <= |vals|
    ensures |vals[i]| <= |Concat(vals, k)|
  {
    if i < k - 1 { ValueShort(vals, k - 1, i); }
  }

  lemma {:induction false} SizedStorable(vals: Values, att: Attr)
    requires Shaped(vals, att) && Sized(vals)
    ensures Dict.AllStorable(vals, att.len)
  {
    forall i | 0 <= i < |vals| ensures Dict.Storable(vals[i], att.len) { ValueShort(vals, |vals|, i); }
  }

  /** The one case the decoder refuses what the encoder wrote. */
  predicate Unreadable(att: Attr, code: Code) { code == RLE && !IntLen(att.len) }

  lemma {:induction false} GuardHolds(att: Attr, vals: Values)
    requires Shaped(vals, att) && IntLen(att.len)
    ensures FixedGuard(att, |vals|, |Raw(vals)|)
  {
    FixedLength(vals, att.len, |vals|);
  }

  /** Decoding an attempt gives the raw stream, unless it is an RLE stream of an odd width. */
  lemma {:induction false} AttemptBack(env: Env, att: Attr, vals: Values, code: Code)
    requires GoodAttr(att) && Shaped(vals, att) && Sized(vals) && Applicable(att, code)
    requires Attempt(env, att, vals, code).Some?
    ensures Decode(env, att, Best(code, Attempt(env, att, vals, code).value), |vals|, |Raw(vals)|)
         == if Unreadable(att, code) then Err else Ok(Raw(vals))
  {
    hide Raw, FixedGuard, Rle.Runs, FrameOfReference.Body, Delta.Body, DeltaOfDelta.Body, Gorilla.Body, Dict.Body;
    if IntLen(att.len) { GuardHolds(att, vals); }
    match code
    case RLE => if IntLen(att.len) { Rle.RoundTrip(vals, att.len); } else { GuardFails(att, |vals|, |Raw(vals)|); }
    case FOR => FrameOfReference.RoundTrip(vals, att.len);
    case DELTA => Delta.RoundTrip(vals, att.len);
    case DOD => DeltaOfDelta.RoundTrip(vals, att.len);
    case GORILLA => Gorilla.RoundTrip(vals, att.len);
    case ALP => Alp.RoundTrip(env.fl, vals, att.len, env.pick(vals));
    case DICT =>
      SizedStorable(vals, att);
      Dict.RoundTrip(vals, att.len);
  }

  lemma {:induction false} GuardFails(att: Attr, n: nat, rawLen: nat)
    requires !IntLen(att.len)
    ensures !FixedGuard(att, n, rawLen)
  {
  }

  ghost predicate Good(env: Env, att: Attr, vals: Values, b: Best) {
    && Decode(env, att, b, |vals|, |Raw(vals)|) == (if Unreadable(att, b.code) then Err else Ok(Raw(vals)))
    && (b.code == NONE ==> b.bytes == Raw(vals))
    && (b.code != NONE ==> |b.bytes| < |Raw(vals)|)
  }

  lemma {:induction false} BestIsGood(env: Env, att: Attr, vals: Values, cs: seq<Code>, k: nat)
    requires GoodAttr(att) && Shaped(vals, att) && Sized(vals) && AllApplicable(att, cs) && k <= |cs|
    ensures Good(env, att, vals, BestOf(env, att, vals, cs, k))
  {
    hide Attempt, Applicable;
    if k == 0 {
      RawIsGood(env, att, vals);
    } else {
      BestIsGood(env, att, vals, cs, k - 1);
      if cs[k - 1] != NONE && Attempt(env, att, vals, cs[k - 1]).Some? { AttemptBack(env, att, vals, cs[k - 1]); }
    }
  }

  /** No candidate that was applied gives fewer bytes than the one kept. */
  lemma {:induction false} BestIsSmallest(env: Env, att: Attr, vals: Values, cs: seq<Code>, k: nat, j: nat)
    requires GoodAttr(att) && Shaped(vals, att) && AllApplicable(att, cs) && j < k <= |cs| && cs[j] != NONE
    ensures Usable(att, cs[j])
    ensures var a := Attempt(env, att, vals, cs[j]); a.Some? ==> |BestOf(env, att, vals, cs, k).bytes| <= |a.value|
  {
    hide Attempt, Applicable;
    if j < k - 1 { BestIsSmallest(env, att, vals, cs, k - 1, j); }
  }

  lemma {:induction false} RawIsGood(env: Env, att: Attr, vals: Values)
    requires Sized(vals)
    ensures Good(env, att, vals, Best(NONE, Raw(vals)))
  {
  }

  /** The whole-chunk round trip, whichever encoding is selected and however: the identical bytes
      come back, except that an RLE stream of a width other than 1, 2, 4, 8 is refused. The output
      is never longer than the raw stream, and strictly shorter unless NONE was chosen. */
  lemma {:induction false} RoundTrip(env: Env, att: Attr, vals: Values)
    requires GoodAttr(att) && Sized(vals) && (vals != [] ==> Shaped(vals, att)) && Encode(env, att, vals).Ok?
    ensures var b := Encode(env, att, vals).value;
      && Decode(env, att, b, |vals|, |Raw(vals)|) == (if b.code == RLE && !IntLen(att.len) then Err else Ok(Raw(vals)))
      && |b.bytes| <= |Raw(vals)|
      && (b.code == NONE <==> b.bytes == Raw(vals))
      && (b.code != NONE ==> |b.bytes| < |Raw(vals)|)
  {
    hide BestOf, Chosen, Fsst.Encode, Fsst.Decode;
    if Raw(vals) == [] || vals == [] {
      RawIsGood(env, att, vals);
    } else {
      var cs := Chosen(env, att, vals);
      var best := BestOf(env, att, vals, cs, |cs|);
      BestIsGood(env, att, vals, cs, |cs|);
      if att.len == -1 && env.table.Some? && |best.bytes| > |Raw(vals)| - |Raw(vals)| / 4 {
        FsstIsGood(env, att, vals, best);
      }
    }
  }

  lemma {:induction false} FsstIsGood(env: Env, att: Attr, vals: Values, best: Best)
    requires Sized(vals) && Good(env, att, vals, best) && env.table.Some? && Raw(vals) != []
    requires Fsst.Encode(Raw(vals), env.table.value).Ok?
    ensures Good(env, att, vals, Better(best, FSST, Fsst.Encode(Raw(vals), env.table.value).value))
  {
    var f := Fsst.Encode(Raw(vals), env.table.value).value;
    if f.Some? { Fsst.RoundTrip(Raw(vals), env.table.value); }
  }

  /** For the widths the encodings are made for, every chunk is readable. */
  lemma {:induction false} SupportedWidths(env: Env, att: Attr, vals: Values)
    requires GoodAttr(att) && Sized(vals) && (vals != [] ==> Shaped(vals, att))
    requires IntLen(att.len) || att.len <= 0
    ensures var b := Encode(env, att, vals); b.Ok? ==> Decode(env, att, b.value, |vals|, |Raw(vals)|) == Ok(Raw(vals))
  {
    if Encode(env, att, vals).Ok? {
      RoundTrip(env, att, vals);
      if att.len <= 0 && vals != [] && Raw(vals) != [] { NoRleForVarlena(env, att, vals); }
    }
  }

  lemma {:induction false} NoRleForVarlena(env: Env, att: Attr, vals: Values)
    requires GoodAttr(att) && Shaped(vals, att) && att.len <= 0 && Encode(env, att, vals).Ok?
    ensures Encode(env, att, vals).value.code != RLE
  {
    hide Attempt;
    var cs := Chosen(env, att, vals);
    BestFrom(env, att, vals, cs, |cs|);
    CandidatesApply(att, RLE);
  }

  lemma {:induction false} BestFrom(env: Env, att: Attr, vals: Values, cs: seq<Code>, k: nat)
    requires GoodAttr(att) && Shaped(vals, att) && AllApplicable(att, cs) && k <= |cs|
    ensures var c := BestOf(env, att, vals, cs, k).code; c == NONE || c in cs
  {
    hide Attempt;
    if k > 0 { BestFrom(env, att, vals, cs, k - 1); }
  }

  /** RLE and DICT are all an odd width is tried with. On the whole chunk, RLE is kept when it
      beats the raw stream and DICT, if that is applied at all, does not beat it. */
  ghost predicate RunsKept(runs: nat, dict: Option<seq<Byte>>, raw: nat) {
    runs < raw && (dict.None? || runs <= |dict.value|)
  }

  /** Which chunks of an odd width end up as RLE. From a sample both codes are ranked; RLE is applied
      only if it shrinks the sample, DICT only if it does too, and a tie goes to the better ranked. */
  ghost predicate RleWins(env: Env, att: Attr, vals: Values) {
    var runs, dict, raw := |Rle.Runs(vals, 0)|, Dict.Encode(vals, att.len), |Raw(vals)|;
    if !Sampled(env, att, vals) then RunsKept(runs, dict, raw)
    else
      var sample := Sample(vals, env.sampleRows).value;
      var sampleRuns, sampleDict := |Rle.Runs(sample, 0)|, Dict.Encode(sample, att.len);
      && sampleRuns < |Raw(sample)|
      && if sampleDict.Some? && |sampleDict.value| < sampleRuns
         then runs < raw && (dict.None? || runs < |dict.value|)
         else RunsKept(runs, if sampleDict.None? then None else dict, raw)
  }

  /** Exactly which chunks the decoder refuses to give back: those of an odd width for which RLE
      wins, sampled or not. */
  lemma {:induction false} UnreadableWhen(env: Env, att: Attr, vals: Values)
    requires GoodAttr(att) && Sized(vals) && Shaped(vals, att) && att.len > 0 && !IntLen(att.len)
    ensures Encode(env, att, vals).Ok?
    ensures Decode(env, att, Encode(env, att, vals).value, |vals|, |Raw(vals)|).Err? <==> RleWins(env, att, vals)
  {
    hide Attempt, Rle.Runs, Dict.Encode, Raw, Sample, RankOf, BestOf;
    assert Candidates(att) == [RLE, DICT];
    RawOfFixed(vals, att.len);
    RoundTrip(env, att, vals);
    if Sampled(env, att, vals) {
      var sample := Sample(vals, env.sampleRows).value;
      SampleShaped(vals, env.sampleRows, att);
      RankTwo(env, att, sample);
      TwoCandidates(env, att, vals, RLE, DICT);
      TwoCandidates(env, att, vals, DICT, RLE);
      TwoCandidates(env, att, vals, RLE, NONE);
      TwoCandidates(env, att, vals, DICT, NONE);
      TwoCandidates(env, att, vals, NONE, NONE);
    } else {
      TwoCandidates(env, att, vals, RLE, DICT);
    }
  }

  lemma {:induction false} RawOfFixed(vals: Values, w: nat)
    requires |vals| > 0 && w > 0 && Fixed(vals, w)
    ensures |Raw(vals)| == |vals| * w && Raw(vals) != []
  {
    FixedLength(vals, w, |vals|);
    TimesIsMul(|vals|, w);
    MulAtLeast(w, |vals|);
  }

  /** What the sample leaves to apply. */
  lemma {:induction false} RankTwo(env: Env, att: Attr, sample: Values)
    requires GoodAttr(att) && Shaped(sample, att) && att.len > 0 && AllApplicable(att, [RLE, DICT])
    ensures var runs, dict := |Rle.Runs(sample, 0)|, Dict.Encode(sample, att.len);
      var r := RankOf(env, att, sample, [RLE, DICT], 2);
      (r.first, r.second)
      == if runs < |Raw(sample)| then
           if dict.None? then (RLE, NONE) else if |dict.value| < runs then (DICT, RLE) else (RLE, DICT)
         else if dict.None? then (NONE, NONE) else (DICT, NONE)
  {
    hide Rle.Runs, Dict.Encode, Raw;
    var cs, raw := [RLE, DICT], |Raw(sample)|;
    DictShrinks(sample, att.len);
    assert RankOf(env, att, sample, cs, 0) == Rank(NONE, raw, NONE, raw);
    assert RankOf(env, att, sample, cs, 1) == Ranked(Rank(NONE, raw, NONE, raw), RLE, Rle.Encode(sample));
    assert RankOf(env, att, sample, cs, 2) == Ranked(RankOf(env, att, sample, cs, 1), DICT, Dict.Encode(sample, att.len));
  }

  lemma {:induction false} DictShrinks(vals: Values, w: int)
    ensures var d := Dict.Encode(vals, w); d.Some? ==> |d.value| < |Raw(vals)|
  {
    hide Raw, Dict.Body;
  }

  /** Whether RLE is kept of the two codes applied. */
  lemma {:induction false} TwoCandidates(env: Env, att: Attr, vals: Values, first: Code, second: Code)
    requires GoodAttr(att) && Shaped(vals, att) && att.len > 0
    requires (first, second) in {(RLE, DICT), (DICT, RLE), (RLE, NONE), (DICT, NONE), (NONE, NONE)}
    ensures AllApplicable(att, [first, second])
    ensures var runs, dict, raw := |Rle.Runs(vals, 0)|, Dict.Encode(vals, att.len), |Raw(vals)|;
      BestOf(env, att, vals, [first, second], 2).code == RLE
      <==> if second == RLE then runs < raw && (dict.None? || runs < |dict.value|)
           else first == RLE && RunsKept(runs, if second == NONE then None else dict, raw)
  {
    hide Rle.Runs, Dict.Encode, Raw;
    var cs, start := [first, second], Best(NONE, Raw(vals));
    DictShrinks(vals, att.len);
    assert BestOf(env, att, vals, cs, 0) == start;
    assert BestOf(env, att, vals, cs, 1) == if first == NONE then start else Better(start, first, Attempt(env, att, vals, first));
    assert BestOf(env, att, vals, cs, 2)
        == if second == NONE then BestOf(env, att, vals, cs, 1)
           else Better(BestOf(env, att, vals, cs, 1), second, Attempt(env, att, vals, second));
  }

  // ----- chunks of one value

  ghost predicate AllEqual(vals: Values, v: seq<Byte>) { forall i | 0 <= i < |vals| :: vals[i] == v }

  lemma {:induction false} WindowsEqual(vals: Values, win: nat, nwin: nat, k: nat, v: seq<Byte>)
    requires win <= |vals| && 2 <= nwin && k <= nwin && AllEqual(vals, v)
    ensures AllEqual(Windows(vals, win, nwin, k), v)
  {
    if k > 0 { WindowsEqual(vals, win, nwin, k - 1, v); }
  }

  lemma {:induction false} EqualRun(vals: Values, v: seq<Byte>, run: nat)
    requires AllEqual(vals, v) && 1 <= run <= |vals|
    ensures Rle.RunLength(vals, 0, run) == |vals|
    decreases |vals| - run
  {
    if run < |vals| { EqualRun(vals, v, run + 1); }
  }

  lemma {:induction false} EqualDictionary(vals: Values, v: seq<Byte>, k: nat)
    requires AllEqual(vals, v) && 1 <= k <= |vals|
    ensures Dict.Dictionary(vals, k) == [v]
  {
    if k > 1 {
      EqualDictionary(vals, v, k - 1);
    } else {
      assert Dict.Dictionary(vals, 0) == [];
    }
  }

  /** Equal values of width w: RLE takes 4 + w bytes, DICT 5 + w. */
  lemma {:induction false} EqualLengths(vals: Values, v: seq<Byte>)
    requires AllEqual(vals, v) && |vals| > 0 && |v| > 0
    ensures |Rle.Runs(vals, 0)| == 4 + |v|
    ensures var d := Dict.Encode(vals, |v|); d.Some? ==> |d.value| == 5 + |v|
  {
    hide Pack, Raw;
    EqualRun(vals, v, 1);
    assert Rle.Runs(vals, |vals|) == [];
    EqualDictionary(vals, v, |vals|);
    assert Dict.Entries([v], |v|, 1) == [];
    assert Dict.CodeWidth(1) == 0;
    NothingToPack(|vals|, 0);
  }

  /** A chunk that holds one value of an odd width any number of times, sampled or not, is refused
      exactly when one run is shorter than the values. */
  lemma {:induction false} EqualValuesUnreadable(env: Env, att: Attr, vals: Values, v: seq<Byte>)
    requires GoodAttr(att) && Sized(vals) && att.len == |v| && |v| > 0 && !IntLen(|v|)
    requires |vals| > 0 && AllEqual(vals, v)
    ensures Shaped(vals, att) && Encode(env, att, vals).Ok?
    ensures Decode(env, att, Encode(env, att, vals).value, |vals|, |Raw(vals)|).Err? <==> 4 + |v| < |vals| * |v|
  {
    hide Raw, Sample, Rle.Runs, Dict.Encode, Encode, Decode;
    UnreadableWhen(env, att, vals);
    EqualLengths(vals, v);
    RawOfFixed(vals, |v|);
    if Sampled(env, att, vals) { EqualSample(vals, v, env.sampleRows); }
  }

  /** A sample of equal values is equal values, and long enough to shrink. */
  lemma {:induction false} EqualSample(vals: Values, v: seq<Byte>, want: nat)
    requires |vals| > 0 && |v| > 0 && AllEqual(vals, v) && want >= SAMPLE_MIN && Sample(vals, want).Some?
    ensures var sample := Sample(vals, want).value;
      && |Rle.Runs(sample, 0)| == 4 + |v| < |Raw(sample)|
      && (var d := Dict.Encode(sample, |v|); d.Some? ==> |d.value| == 5 + |v|)
    ensures 4 + |v| < |vals| * |v|
  {
    hide Raw, Rle.Runs, Dict.Encode;
    var sample, win := Sample(vals, want).value, Min(SAMPLE_WINDOW, want);
    WindowsEqual(vals, win, want / win, want / win, v);
    TimesIsMul(want / win, win);
    assert |sample| >= 128;
    EqualLengths(sample, v);
    RawOfFixed(sample, |v|);
    LongEnough(|sample|, |v|);
    LongEnough(|vals|, |v|);
  }

  lemma {:induction false} LongEnough(n: nat, w: nat)
    requires n >= 6 && w > 0
    ensures 4 + w < n * w
  {
    assert (n - 6) * w >= 0;
  }

  /** Every chunk of the column that the encoder writes can be read back. */
  ghost predicate Readable(env: Env, att: Attr, vals: Values)
    requires GoodAttr(att)
  {
    Sized(vals) && (vals != [] ==> Shaped(vals, att)) ==>
      var b := Encode(env, att, vals); b.Ok? ==> Decode(env, att, b.value, |vals|, |Raw(vals)|) == Ok(Raw(vals))
  }

  /** Which columns are safe: exactly those of width 1, 2, 4 or 8 and the variable-length ones.
      A column's width is a positive int16 or negative. */
  lemma {:induction false} ReadableWidths(env: Env, att: Attr)
    requires GoodAttr(att) && att.len < 0x8000
    ensures (forall vals :: Readable(env, att, vals)) <==> IntLen(att.len) || att.len <= 0
  {
    hide Encode, Decode;
    if IntLen(att.len) || att.len <= 0 {
      forall vals ensures Readable(env, att, vals) {
        if Sized(vals) && (vals != [] ==> Shaped(vals, att)) { SupportedWidths(env, att, vals); }
      }
    } else {
      var v: seq<Byte> := seq(att.len, _ => 0);
      var vals := [v, v, v];
      RawOfFixed(vals, att.len);
      EqualValuesUnreadable(env, att, vals, v);
      assert !Readable(env, att, vals);
    }
  }

  /** A uuid column holding the same value twice: 20 bytes are written that cannot be read. */
  lemma {:induction false} UuidPairUnreadable(env: Env)
    ensures var uuid := seq(16, _ => 0); var att, vals := Attr(16, false, OtherType), [uuid, uuid];
      Encode(env, att, vals).Ok? && Decode(env, att, Encode(env, att, vals).value, 2, 32).Err?
  {
    hide Encode, Decode;
    var uuid := seq(16, _ => 0);
    RawOfFixed([uuid, uuid], 16);
    EqualValuesUnreadable(env, Attr(16, false, OtherType), [uuid, uuid], uuid);
  }

  // ----- the loops

  method BuildSample(vals: Values, want: nat) returns (r: Option<Values>)
    ensures r == Sample(vals, want)
  {
    if want == 0 || |vals| <= want { return None; }
    var win := SAMPLE_WINDOW;
    if want < win { win := want; }
    var nwin := want / win;
    if nwin < 2 || |vals| <= win { return None; }
    var sample := [];
    for i := 0 to nwin
      invariant sample == Windows(vals, win, nwin, i)
    {
      var start := WindowStart(|vals|, win, nwin, i);
      sample := sample + vals[start..start + win];
    }
    r := Some(sample);
  }

  method TryCode(env: Env, att: Attr, vals: Values, rawLen: nat, code: Code) returns (r: Option<seq<Byte>>)
    requires GoodAttr(att) && Shaped(vals, att) && Applicable(att, code) && rawLen == |Raw(vals)|
    ensures r == Attempt(env, att, vals, code)
  {
    hide Raw, Rle.Encode, FrameOfReference.Encode, Delta.Encode, DeltaOfDelta.Encode, Gorilla.Encode, Alp.Encode, Dict.Encode;
    match code
    case RLE => r := Rle.EncodeRle(vals, rawLen);
    case FOR => r := FrameOfReference.EncodeFor(vals, att.len, rawLen);
    case DELTA => r := Delta.EncodeDelta(vals, att.len, rawLen);
    case DOD => r := DeltaOfDelta.EncodeDod(vals, att.len, rawLen);
    case GORILLA => r := Gorilla.EncodeGorilla(vals, att.len, rawLen);
    case ALP => r := Alp.EncodeAlp(env.fl, vals, env.pick(vals), rawLen);
    case DICT => r := Dict.EncodeDict(vals, att.len, rawLen, env.hash);
  }

  /** Measure every candidate on the sample and keep the two smallest. */
  method RankSample(env: Env, att: Attr, sample: Values) returns (rank: Rank)
    requires GoodAttr(att) && Shaped(sample, att)
    ensures AllApplicable(att, Candidates(att)) && NONE !in Candidates(att)
    ensures rank == RankOf(env, att, sample, Candidates(att), |Candidates(att)|)
  {
    hide Attempt, Candidates, Applicable;
    var cs, rawLen := Candidates(att), |Raw(sample)|;
    CandidatesGood(att);
    rank := Rank(NONE, rawLen, NONE, rawLen);
    for i := 0 to |cs|
      invariant rank == RankOf(env, att, sample, cs, i)
    {
      var enc := TryCode(env, att, sample, rawLen, cs[i]);
      if enc.Some? {
        if |enc.value| < rank.firstLen {
          rank := Rank(cs[i], |enc.value|, rank.first, rank.firstLen);
        } else if |enc.value| < rank.secondLen {
          rank := rank.(second := cs[i], secondLen := |enc.value|);
        }
      }
    }
  }

  /** Apply the candidates to the whole chunk and keep the smallest. */
  method ApplyAll(env: Env, att: Attr, vals: Values, cs: seq<Code>) returns (best: Best)
    requires GoodAttr(att) && Shaped(vals, att) && AllApplicable(att, cs)
    ensures best == BestOf(env, att, vals, cs, |cs|)
  {
    hide Attempt, Applicable;
    var raw := Raw(vals);
    best := Best(NONE, raw);
    for i := 0 to |cs|
      invariant best == BestOf(env, att, vals, cs, i)
    {
      if cs[i] != NONE {
        var enc := TryCode(env, att, vals, |raw|, cs[i]);
        if enc.Some? && |enc.value| < |best.bytes| { best := Best(cs[i], enc.value); }
      }
    }
  }

  method Choose(env: Env, att: Attr, vals: Values) returns (cs: seq<Code>)
    requires GoodAttr(att) && Shaped(vals, att)
    ensures cs == Chosen(env, att, vals)
  {
    hide RankOf, Candidates, Sample, Applicable;
    cs := Candidates(att);
    if att.len > 0 && env.sampleRows >= SAMPLE_MIN {
      var sample := BuildSample(vals, env.sampleRows);
      if sample.Some? {
        SampleShaped(vals, env.sampleRows, att);
        var rank := RankSample(env, att, sample.value);
        cs := [rank.first, rank.second];
      }
    }
  }

  /** PgColumnarEncodeChunk. */
  method EncodeChunk(env: Env, att: Attr, vals: Values) returns (r: Result<Best>)
    requires GoodAttr(att) && (vals != [] ==> Shaped(vals, att))
    ensures r == Encode(env, att, vals)
  {
    hide Raw, BestOf, Chosen, Fsst.Encode, AllApplicable;
    var raw := Raw(vals);
    if raw == [] || vals == [] { return Ok(Best(NONE, raw)); }
    var cs := Choose(env, att, vals);
    var best := ApplyAll(env, att, vals, cs);
    if att.len == -1 && env.table.Some? && |best.bytes| > |raw| - |raw| / 4 {
      var f := Fsst.EncodeFsst(raw, env.table.value, env.hash);
      if f.Err? { return Err; }
      if f.value.Some? && |f.value.value| < |best.bytes| { best := Best(FSST, f.value.value); }
    }
    r := Ok(best);
  }

  /** PgColumnarDecodeChunk. */
  method DecodeChunk(env: Env, att: Attr, b: Best, n: nat, rawLen: nat) returns (r: Result<seq<Byte>>)
    ensures r == Decode(env, att, b, n, rawLen)
  {
    hide Rle.Decode, FrameOfReference.Decode, Delta.Decode, DeltaOfDelta.Decode, Gorilla.Decode, Alp.Decode, Dict.Decode, Fsst.Decode;
    if n >= TWO32 { return Err; }
    var fixedWidth := IntLen(att.len);
    if fixedWidth {
      TimesIsMul(n, att.len);
      fixedWidth := n * att.len == rawLen;
    }
    match b.code
    case NONE => r := if |b.bytes| != rawLen then Err else Ok(b.bytes);
    case RLE => r := Err; if fixedWidth { r := Rle.DecodeRle(b.bytes, att.len, n); }
    case FOR => r := Err; if fixedWidth { r := FrameOfReference.DecodeFor(b.bytes, n, rawLen); }
    case DELTA => r := Err; if fixedWidth { r := Delta.DecodeDelta(b.bytes, n, rawLen); }
    case DOD => r := Err; if fixedWidth { r := DeltaOfDelta.DecodeDod(b.bytes, n, rawLen); }
    case GORILLA => r := Err; if fixedWidth { r := Gorilla.DecodeGorilla(b.bytes, att.len, n); }
    case ALP => r := Err; if fixedWidth && att.len >= 4 { r := Alp.DecodeAlp(env.fl, b.bytes, att.len, n, rawLen); }
    case DICT => r := Dict.DecodeDict(b.bytes, att.len, n, rawLen);
    case FSST =>
      r := Err;
      if env.table.Some? && env.table.value != [] { r := Fsst.DecodeFsst(b.bytes, env.table.value, rawLen); }
    case Unknown => r := Err;
  }
}
