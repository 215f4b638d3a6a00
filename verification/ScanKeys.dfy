module ScanKeys {
  /** All clauses of a scan together. */

  import opened Prelude
  import opened Bits
  import opened Comparison
  import TruncKeys
  import LikeKeys
  import opened InListKeys

  datatype Clause =
    | Plain(col: nat, op: Strategy, c: int, varOnLeft: bool)
    | Trunc(col: nat, unit: TruncKeys.Unit, op: Strategy, c: int, constOnLeft: bool)
    | LikeC(col: nat, pat: LikeKeys.Text)
    | InList(col: nat, es: seq<Option<int>>)

  /** A value or null per integer-like column and per text column. */
  datatype Row = Row(ints: nat -> Option<int>, texts: nat -> Option<LikeKeys.Text>)

  predicate Satisfies(row: Row, cl: Clause, len: LikeKeys.CharLen) {
    match cl
    case Plain(col, op, c, varOnLeft) =>
      row.ints(col).Some? && if varOnLeft then Holds(op, row.ints(col).value, c) else Holds(op, c, row.ints(col).value)
    case Trunc(col, u, op, c, constOnLeft) =>
      row.ints(col).Some? && var t := u.trunc(row.ints(col).value); if constOnLeft then Holds(op, c, t) else Holds(op, t, c)
    case LikeC(col, pat) => row.texts(col).Some? && LikeKeys.Like(pat, 0, row.texts(col).value, 0, len)
    case InList(col, es) => row.ints(col).Some? && Member(row.ints(col).value, es)
  }

  datatype ScanKey = IntKey(col: nat, key: Key) | TextKey(col: nat, tkey: LikeKeys.TextKey)

  predicate RowMeets(row: Row, k: ScanKey) {
    match k
    case IntKey(col, key) => row.ints(col).Some? && Meets(key, row.ints(col).value)
    case TextKey(col, key) => row.texts(col).Some? && LikeKeys.TextMeets(key, row.texts(col).value)
  }

  /** pgcolumnar_clause_to_scankey */
  function ClauseKeys(cl: Clause): seq<ScanKey> {
    match cl
    case Plain(col, op, c, varOnLeft) => [IntKey(col, Compare(if varOnLeft then op else Flip(op), c))]
    case Trunc(col, u, op, c, constOnLeft) =>
      var ks := TruncKeys.Keys(u, if constOnLeft then Flip(op) else op, c);
      seq(|ks|, i requires 0 <= i < |ks| => IntKey(col, Compare(ks[i].op, ks[i].c)))
    case LikeC(col, pat) =>
      var ks := LikeKeys.LikeBounds(pat);
      seq(|ks|, i requires 0 <= i < |ks| => TextKey(col, ks[i]))
    case InList(col, es) =>
      var ks := Keys(es);
      seq(|ks|, i requires 0 <= i < |ks| => IntKey(col, ks[i]))
  }

  /** Every clause but a date_trunc `<=` against an infinity. */
  ghost predicate Invertible(cl: Clause) {
    cl.Trunc? ==>
      && TruncKeys.GoodUnit(cl.unit)
      && TruncKeys.IsTimestamp(cl.c)
      && (TruncKeys.IsFinite(cl.c) || (if cl.constOnLeft then Flip(cl.op) else cl.op) != LessEqual)
  }

  /** The column values of date_trunc clauses are timestamps. */
  predicate Typed(row: Row, cl: Clause) {
    cl.Trunc? && row.ints(cl.col).Some? ==> TruncKeys.IsTimestamp(row.ints(cl.col).value)
  }

  /** A row that satisfies a clause meets every key derived from it, in either operand order. */
  lemma {:induction false} ClauseKeysSound(row: Row, cl: Clause, len: LikeKeys.CharLen, i: nat)
    requires Satisfies(row, cl, len) && Invertible(cl) && Typed(row, cl) && i < |ClauseKeys(cl)|
    ensures RowMeets(row, ClauseKeys(cl)[i])
  {
    match cl
    case Plain(col, op, c, varOnLeft) => FlipSound(op, row.ints(col).value, c);
    case Trunc(col, u, op, c, constOnLeft) => TruncKeySound(row, cl, i);
    case LikeC(col, pat) => LikeKeys.LikeKeysSound(pat, row.texts(col).value, len, i);
    case InList(col, es) => InListSound(es, row.ints(col).value, i);
  }

  lemma {:induction false} TruncKeySound(row: Row, cl: Clause, i: nat)
    requires cl.Trunc? && Invertible(cl) && Typed(row, cl) && i < |ClauseKeys(cl)| && row.ints(cl.col).Some?
    requires var t := cl.unit.trunc(row.ints(cl.col).value); if cl.constOnLeft then Holds(cl.op, cl.c, t) else Holds(cl.op, t, cl.c)
    ensures RowMeets(row, ClauseKeys(cl)[i])
  {
    hide TruncKeys.GoodUnit, TruncKeys.Keys;
    var x, op := row.ints(cl.col).value, if cl.constOnLeft then Flip(cl.op) else cl.op;
    FlipSound(cl.op, cl.unit.trunc(x), cl.c);
    TruncKeys.KeysSoundIff(cl.unit, op, cl.c);
    assert TruncKeys.Meets(TruncKeys.Keys(cl.unit, op, cl.c), x);
  }

  ghost predicate MeetsAll(row: Row, ks: seq<ScanKey>) { forall i | 0 <= i < |ks| :: RowMeets(row, ks[i]) }

  /** The clause whose keys say no more and no less than it: comparisons, lists of at most 128 elements,
      date_trunc of a finite constant that has keys, LIKE for a prefix that ends in ASCII. */
  ghost predicate Keyed(cl: Clause) {
    match cl
    case Plain(_, _, _, _) => true
    case Trunc(_, u, op, c, constOnLeft) =>
      && TruncKeys.GoodUnit(u) && TruncKeys.IsFinite(c) && TruncKeys.HasNext(u.trunc(c))
      && (op.Equal? ==> u.trunc(c) == c)
    case LikeC(_, pat) => exists p: LikeKeys.Text :: p != [] && p[|p| - 1] < 127 && pat == LikeKeys.Escaped(p) + [LikeKeys.PERCENT]
    case InList(_, es) => 0 < |NonNull(es, |es|)| <= ELEMENT_LIMIT
  }

  /** Such a clause is satisfied exactly when its keys are met. */
  lemma {:induction false} ClauseKeysExact(row: Row, cl: Clause, len: LikeKeys.CharLen)
    requires Keyed(cl) && Typed(row, cl)
    ensures MeetsAll(row, ClauseKeys(cl)) <==> Satisfies(row, cl, len)
  {
    var ks := ClauseKeys(cl);
    match cl
    case Plain(col, op, c, _) =>
      assert MeetsAll(row, ks) <==> RowMeets(row, ks[0]);
      if row.ints(col).Some? { FlipSound(op, row.ints(col).value, c); }
    case Trunc(col, _, _, _, _) => TruncExact(row, cl);
    case LikeC(col, pat) => LikeExact(row, col, pat, len);
    case InList(col, es) => ListExact(row, col, es, len);
  }

  lemma {:induction false} TruncExact(row: Row, cl: Clause)
    requires cl.Trunc? && Keyed(cl) && Typed(row, cl)
    ensures MeetsAll(row, ClauseKeys(cl))
      <==> row.ints(cl.col).Some? && (var t := cl.unit.trunc(row.ints(cl.col).value); if cl.constOnLeft then Holds(cl.op, cl.c, t) else Holds(cl.op, t, cl.c))
  {
    hide TruncKeys.GoodUnit, TruncKeys.Keys, TruncKeys.HasNext;
    var op, ks := if cl.constOnLeft then Flip(cl.op) else cl.op, ClauseKeys(cl);
    var bs := TruncKeys.Keys(cl.unit, op, cl.c);
    TruncKeys.HasKeysIff(cl.unit, op, cl.c);
    assert |ks| == |bs| > 0;
    if row.ints(cl.col).Some? {
      var x := row.ints(cl.col).value;
      TruncKeys.FiniteKeysExact(cl.unit, op, cl.c, x);
      FlipSound(cl.op, cl.unit.trunc(x), cl.c);
      forall i | 0 <= i < |ks| ensures RowMeets(row, ks[i]) == Holds(bs[i].op, x, bs[i].c) {}
    } else {
      assert !RowMeets(row, ks[0]);
    }
  }

  lemma {:induction false} LikeExact(row: Row, col: nat, pat: LikeKeys.Text, len: LikeKeys.CharLen)
    requires Keyed(LikeC(col, pat))
    ensures MeetsAll(row, ClauseKeys(LikeC(col, pat))) <==> row.texts(col).Some? && LikeKeys.Like(pat, 0, row.texts(col).value, 0, len)
  {
    hide LikeKeys.LikeBounds, LikeKeys.TextMeets, LikeKeys.Like, LikeKeys.Escaped;
    var ks, bs := ClauseKeys(LikeC(col, pat)), LikeKeys.LikeBounds(pat);
    var p: LikeKeys.Text :| p != [] && p[|p| - 1] < 127 && pat == LikeKeys.Escaped(p) + [LikeKeys.PERCENT];
    HasLikeKeys(p);
    if row.texts(col).Some? {
      var s := row.texts(col).value;
      LikeKeys.PrefixLikeIsKeys(p, s, len);
      forall i | 0 <= i < |ks| ensures RowMeets(row, ks[i]) == LikeKeys.TextMeets(bs[i], s) {}
    } else {
      assert !RowMeets(row, ks[0]);
    }
  }

  lemma {:induction false} HasLikeKeys(p: LikeKeys.Text)
    requires p != []
    ensures LikeKeys.LikeBounds(LikeKeys.Escaped(p) + [LikeKeys.PERCENT]) != []
  {
    hide LikeKeys.Escaped;
    LikeKeys.PrefixOfEscaped(p, [LikeKeys.PERCENT]);
  }

  lemma {:induction false} ListExact(row: Row, col: nat, es: seq<Option<int>>, len: LikeKeys.CharLen)
    requires Keyed(InList(col, es))
    ensures MeetsAll(row, ClauseKeys(InList(col, es))) <==> row.ints(col).Some? && Member(row.ints(col).value, es)
  {
    hide Keys, Meets, Member;
    var ks, bs := ClauseKeys(InList(col, es)), Keys(es);
    if row.ints(col).Some? {
      var x := row.ints(col).value;
      InListExact(es, x);
      forall i | 0 <= i < |ks| ensures RowMeets(row, ks[i]) == Meets(bs[i], x) {}
    } else {
      InListExact(es, 0);
      assert !RowMeets(row, ks[0]);
    }
  }

  /** The keys of the first k clauses. */
  function AllKeys(cls: seq<Clause>, k: nat): seq<ScanKey>
    requires k <= |cls|
  {
    if k == 0 then [] else AllKeys(cls, k - 1) + ClauseKeys(cls[k - 1])
  }

  /** Every clause fits its two slots. */
  lemma {:induction false} TwoPerClause(cl: Clause)
    ensures |ClauseKeys(cl)| <= 2
  {
  }

  lemma {:induction false} KeysFit(cls: seq<Clause>, k: nat)
    requires k <= |cls|
    ensures |AllKeys(cls, k)| <= 2 * k
  {
    hide ClauseKeys;
    if k > 0 {
      KeysFit(cls, k - 1);
      TwoPerClause(cls[k - 1]);
    }
  }

  /** pgcolumnar_clause_to_scankey writes its keys from slot n on. */
  method PutKeys(cl: Clause, slots: array<ScanKey>, n: nat) returns (m: nat)
    requires n + 2 <= slots.Length
    modifies slots
    ensures m <= n + 2 && slots[..m] == old(slots[..n]) + ClauseKeys(cl)
  {
    hide ClauseKeys;
    var ks := ClauseKeys(cl);
    TwoPerClause(cl);
    for i := 0 to |ks|
      invariant slots[..n] == old(slots[..n]) && slots[n..n + i] == ks[..i]
    {
      slots[n + i] := ks[i];
    }
    m := n + |ks|;
    assert ks[..|ks|] == ks;
    assert slots[..m] == slots[..n] + slots[n..m];
  }

  /** PgColumnarBuildScanKeys: two slots per clause are enough for what is written from slot n on. */
  method BuildScanKeys(cls: seq<Clause>) returns (keys: seq<ScanKey>)
    ensures |keys| <= 2 * |cls|
    ensures keys == AllKeys(cls, |cls|)
  {
    hide ClauseKeys;
    var slots := new ScanKey[2 * |cls|](_ => IntKey(0, Compare(Equal, 0)));
    var n := 0;
    for i := 0 to |cls|
      invariant 0 <= n <= 2 * i && slots[..n] == AllKeys(cls, i)
    {
      n := PutKeys(cls[i], slots, n);
      KeysFit(cls, i + 1);
    }
    keys := slots[..n];
  }

  ghost predicate Matches(row: Row, cls: seq<Clause>, len: LikeKeys.CharLen) {
    forall j | 0 <= j < |cls| :: Satisfies(row, cls[j], len)
  }

  ghost predicate AllUsable(row: Row, cls: seq<Clause>) {
    forall j | 0 <= j < |cls| :: Invertible(cls[j]) && Typed(row, cls[j])
  }

  lemma {:induction false} AllKeysSound(row: Row, cls: seq<Clause>, len: LikeKeys.CharLen, k: nat, i: nat)
    requires k <= |cls| && Matches(row, cls, len) && AllUsable(row, cls) && i < |AllKeys(cls, k)|
    ensures RowMeets(row, AllKeys(cls, k)[i])
  {
    hide ClauseKeys, Satisfies, RowMeets, Invertible, Typed;
    var n := |AllKeys(cls, k - 1)|;
    if i < n { AllKeysSound(row, cls, len, k - 1, i); } else { ClauseKeysSound(row, cls[k - 1], len, i - n); }
  }

  // ----- chunk groups

  /** The zone map of a group: a range per column, absent when unknown. */
  datatype Zone = Zone(ints: nat -> Option<(int, int)>, texts: nat -> Option<(LikeKeys.Text, LikeKeys.Text)>)

  ghost predicate InZone(row: Row, z: Zone) {
    && (forall c :: z.ints(c).Some? && row.ints(c).Some? ==> z.ints(c).value.0 <= row.ints(c).value <= z.ints(c).value.1)
    && (forall c :: z.texts(c).Some? && row.texts(c).Some? ==>
      !LikeKeys.Before(row.texts(c).value, z.texts(c).value.0) && !LikeKeys.Before(z.texts(c).value.1, row.texts(c).value))
  }

  predicate GroupExcluded(z: Zone, k: ScanKey) {
    match k
    case IntKey(col, key) => z.ints(col).Some? && Excludes(key, z.ints(col).value.0, z.ints(col).value.1)
    case TextKey(col, key) => z.texts(col).Some? && LikeKeys.TextExcludes(key, z.texts(col).value.0, z.texts(col).value.1)
  }

  /** A group that any key excludes holds no row matching the scan. */
  lemma {:induction false} SkippedGroupHasNoMatch(cls: seq<Clause>, z: Zone, i: nat, row: Row, len: LikeKeys.CharLen)
    requires i < |AllKeys(cls, |cls|)| && GroupExcluded(z, AllKeys(cls, |cls|)[i]) && InZone(row, z) && AllUsable(row, cls)
    ensures !Matches(row, cls, len)
  {
    hide AllKeys, Matches;
    if Matches(row, cls, len) {
      AllKeysSound(row, cls, len, |cls|, i);
      match AllKeys(cls, |cls|)[i]
      case IntKey(col, key) => ExcludesSound(key, z.ints(col).value.0, z.ints(col).value.1, row.ints(col).value);
      case TextKey(col, key) => LikeKeys.TextExcludesSound(key, z.texts(col).value.0, z.texts(col).value.1, row.texts(col).value);
    }
  }
}
