module LikeKeys {
  /** Anchored LIKE under byte order. */

  import opened Bits

  const ESCAPE: Byte := 92
  const PERCENT: Byte := 37
  const UNDERSCORE: Byte := 95

  type Text = seq<Byte>

  /** memcmp order from byte i on, a proper prefix first. */
  predicate LessFrom(a: Text, b: Text, i: nat)
    decreases |b| - i
  {
    i < |b| && (i >= |a| || a[i] < b[i] || (a[i] == b[i] && LessFrom(a, b, i + 1)))
  }

  predicate Before(a: Text, b: Text) { LessFrom(a, b, 0) }

  predicate StartsWith(s: Text, p: Text, i: nat, j: nat)
    requires i <= |p|
    decreases |p| - i
  {
    i == |p| || (j < |s| && s[j] == p[i] && StartsWith(s, p, i + 1, j + 1))
  }

  /** Length in bytes of the character at a position; any encoding. */
  type CharLen = (Text, nat) -> nat

  /** LIKE from byte i of the pattern and byte j of the text; a trailing escape raises. */
  predicate Like(pat: Text, i: nat, s: Text, j: nat, len: CharLen)
    requires i <= |pat| && j <= |s|
    decreases |pat| - i, |s| - j
  {
    if i == |pat| then j == |s|
    else if pat[i] == ESCAPE then i + 1 < |pat| && j < |s| && s[j] == pat[i + 1] && Like(pat, i + 2, s, j + 1, len)
    else if pat[i] == PERCENT then Like(pat, i + 1, s, j, len) || (j < |s| && Like(pat, i, s, j + 1, len))
    else if pat[i] == UNDERSCORE then j < |s| && j + len(s, j) <= |s| && Like(pat, i + 1, s, j + len(s, j), len)
    else j < |s| && s[j] == pat[i] && Like(pat, i + 1, s, j + 1, len)
  }

  /** The literal prefix: everything before the first unescaped wildcard. */
  function Prefix(pat: Text, i: nat): Text
    requires i <= |pat|
    decreases |pat| - i
  {
    if i == |pat| then []
    else if pat[i] == ESCAPE then if i + 1 >= |pat| then [] else [pat[i + 1]] + Prefix(pat, i + 2)
    else if pat[i] == PERCENT || pat[i] == UNDERSCORE then []
    else [pat[i]] + Prefix(pat, i + 1)
  }

  lemma {:induction false} StartsShift(s: Text, c: Byte, p: Text, i: nat, j: nat)
    requires i <= |p|
    ensures StartsWith(s, [c] + p, i + 1, j) == StartsWith(s, p, i, j)
    decreases |p| - i
  {
    if i < |p| && j < |s| { StartsShift(s, c, p, i + 1, j + 1); }
  }

  /** A text that matches starts with the literal prefix. */
  lemma {:induction false} LikeHasPrefix(pat: Text, i: nat, s: Text, j: nat, len: CharLen)
    requires i <= |pat| && j <= |s| && Like(pat, i, s, j, len)
    ensures StartsWith(s, Prefix(pat, i), 0, j)
    decreases |pat| - i
  {
    if i < |pat| && pat[i] == ESCAPE {
      LikeHasPrefix(pat, i + 2, s, j + 1, len);
      StartsShift(s, pat[i + 1], Prefix(pat, i + 2), 0, j + 1);
    } else if i < |pat| && pat[i] != PERCENT && pat[i] != UNDERSCORE {
      LikeHasPrefix(pat, i + 1, s, j + 1, len);
      StartsShift(s, pat[i], Prefix(pat, i + 1), 0, j + 1);
    }
  }

  /** The prefix with its last byte incremented. */
  function Successor(p: Text): Text
    requires |p| > 0 && p[|p| - 1] < 255
  {
    p[|p| - 1 := p[|p| - 1] + 1]
  }

  /** Under byte order the range from the prefix to its successor is the prefix set and nothing else. */
  lemma {:induction false} PrefixRange(s: Text, p: Text, i: nat)
    requires i < |p| && p[|p| - 1] < 255
    ensures StartsWith(s, p, i, i) <==> !LessFrom(s, p, i) && LessFrom(s, Successor(p), i)
    decreases |p| - i
  {
    var q := Successor(p);
    if i + 1 < |p| {
      PrefixRange(s, p, i + 1);
    } else {
      assert q[i] == p[i] + 1;
      assert !LessFrom(s, p, i + 1) && !LessFrom(s, q, i + 1);
    }
  }

  lemma {:induction false} PrefixLower(s: Text, p: Text, i: nat)
    requires i <= |p| && StartsWith(s, p, i, i)
    ensures !LessFrom(s, p, i)
    decreases |p| - i
  {
    if i < |p| { PrefixLower(s, p, i + 1); }
  }

  datatype TextKey = AtLeast(bound: Text) | Below(bound: Text)

  predicate TextMeets(k: TextKey, s: Text) {
    match k
    case AtLeast(b) => !Before(s, b)
    case Below(b) => Before(s, b)
  }

  /** pgcolumnar_like_prefix_scankey: no prefix, no key; an upper bound for an ASCII last byte. */
  function LikeBounds(pat: Text): seq<TextKey> {
    var p := Prefix(pat, 0);
    if p == [] then []
    else if p[|p| - 1] < 127 then [AtLeast(p), Below(Successor(p))]
    else [AtLeast(p)]
  }

  /** Every text that matches the pattern, escapes included, meets every key. */
  lemma {:induction false} LikeKeysSound(pat: Text, s: Text, len: CharLen, i: nat)
    requires Like(pat, 0, s, 0, len) && i < |LikeBounds(pat)|
    ensures TextMeets(LikeBounds(pat)[i], s)
  {
    var p := Prefix(pat, 0);
    LikeHasPrefix(pat, 0, s, 0, len);
    PrefixLower(s, p, 0);
    if p[|p| - 1] < 127 { PrefixRange(s, p, 0); }
  }

  // ----- patterns that ask for a prefix

  predicate Special(c: Byte) { c == ESCAPE || c == PERCENT || c == UNDERSCORE }

  /** A text as a pattern: its special bytes escaped. */
  function Escaped(p: Text): Text
    decreases |p|
  {
    if p == [] then [] else OneEscaped(p[0]) + Escaped(p[1..])
  }

  function OneEscaped(c: Byte): Text { if Special(c) then [ESCAPE, c] else [c] }

  lemma {:induction false} PrefixShift(a: Text, rest: Text, i: nat)
    requires i <= |rest|
    ensures Prefix(a + rest, |a| + i) == Prefix(rest, i)
    decreases |rest| - i
  {
    var pat, n := a + rest, |a| + i;
    if i < |rest| {
      assert pat[n] == rest[i];
      if i + 1 < |rest| { assert pat[n + 1] == rest[i + 1]; }
      if rest[i] == ESCAPE && i + 1 < |rest| {
        PrefixShift(a, rest, i + 2);
      } else if rest[i] != ESCAPE {
        PrefixShift(a, rest, i + 1);
      }
    }
  }

  /** Every escaped text is found as the literal prefix, up to whatever the pattern goes on with. */
  lemma {:induction false} PrefixOfEscaped(p: Text, rest: Text)
    ensures Prefix(Escaped(p) + rest, 0) == p + Prefix(rest, 0)
    decreases |p|
  {
    if p == [] {
      assert Escaped(p) + rest == rest;
    } else {
      var c, more := p[0], Escaped(p[1..]) + rest;
      assert Escaped(p) + rest == OneEscaped(c) + more;
      PrefixOfOne(c, more);
      PrefixOfEscaped(p[1..], rest);
      assert p == [c] + p[1..];
      assert [c] + (p[1..] + Prefix(rest, 0)) == p + Prefix(rest, 0);
    }
  }

  lemma {:induction false} PrefixOfOne(c: Byte, more: Text)
    ensures Prefix(OneEscaped(c) + more, 0) == [c] + Prefix(more, 0)
  {
    PrefixShift(OneEscaped(c), more, 0);
  }

  lemma {:induction false} LikeShift(a: Text, rest: Text, i: nat, s: Text, j: nat, len: CharLen)
    requires i <= |rest| && j <= |s|
    ensures Like(a + rest, |a| + i, s, j, len) == Like(rest, i, s, j, len)
    decreases |rest| - i, |s| - j
  {
    var pat, n := a + rest, |a| + i;
    if i < |rest| {
      assert pat[n] == rest[i];
      if i + 1 < |rest| { assert pat[n + 1] == rest[i + 1]; }
      if rest[i] == ESCAPE {
        if i + 1 < |rest| && j < |s| { LikeShift(a, rest, i + 2, s, j + 1, len); }
      } else if rest[i] == PERCENT {
        LikeShift(a, rest, i + 1, s, j, len);
        if j < |s| { LikeShift(a, rest, i, s, j + 1, len); }
      } else if rest[i] == UNDERSCORE {
        if j < |s| && j + len(s, j) <= |s| { LikeShift(a, rest, i + 1, s, j + len(s, j), len); }
      } else if j < |s| {
        LikeShift(a, rest, i + 1, s, j + 1, len);
      }
    }
  }

  lemma {:induction false} PercentMatches(s: Text, j: nat, len: CharLen)
    requires j <= |s|
    ensures Like([PERCENT], 0, s, j, len)
    decreases |s| - j
  {
    if j < |s| { PercentMatches(s, j + 1, len); } else { assert Like([PERCENT], 1, s, j, len); }
  }

  /** The pattern that escapes p and goes on with % matches the texts that start with p. */
  lemma {:induction false} EscapedLike(p: Text, s: Text, j: nat, len: CharLen)
    requires j <= |s|
    ensures Like(Escaped(p) + [PERCENT], 0, s, j, len) <==> StartsWith(s, p, 0, j)
    decreases |p|
  {
    if p == [] {
      assert Escaped(p) + [PERCENT] == [PERCENT];
      PercentMatches(s, j, len);
    } else {
      var c, head, more := p[0], OneEscaped(p[0]), Escaped(p[1..]) + [PERCENT];
      assert Escaped(p) + [PERCENT] == head + more;
      assert p == [c] + p[1..];
      StartsShift(s, c, p[1..], 0, j + 1);
      if j < |s| {
        LikeShift(head, more, 0, s, j + 1, len);
        EscapedLike(p[1..], s, j + 1, len);
      }
    }
  }

  ghost predicate MeetsAll(ks: seq<TextKey>, s: Text) { forall i | 0 <= i < |ks| :: TextMeets(ks[i], s) }

  /** Which texts meet all keys: for a prefix that ends in ASCII those that start with it, otherwise those
      not before it; without a prefix there is no key. */
  lemma {:induction false} LikeKeysExact(pat: Text, s: Text)
    ensures var p, ks := Prefix(pat, 0), LikeBounds(pat);
      && (p == [] ==> ks == [])
      && (p != [] && p[|p| - 1] < 127 ==> (MeetsAll(ks, s) <==> StartsWith(s, p, 0, 0)))
      && (p != [] && p[|p| - 1] >= 127 ==> (MeetsAll(ks, s) <==> !Before(s, p)))
  {
    var p, ks := Prefix(pat, 0), LikeBounds(pat);
    if p != [] && p[|p| - 1] < 127 {
      PrefixRange(s, p, 0);
      assert ks[0] == AtLeast(p) && ks[1] == Below(Successor(p));
    } else if p != [] {
      assert ks[0] == AtLeast(p);
    }
  }

  /** LIKE for a prefix that ends in ASCII is its keys: a text matches exactly when it meets them. */
  lemma {:induction false} PrefixLikeIsKeys(p: Text, s: Text, len: CharLen)
    requires p != [] && p[|p| - 1] < 127
    ensures var pat := Escaped(p) + [PERCENT]; Like(pat, 0, s, 0, len) <==> MeetsAll(LikeBounds(pat), s)
  {
    var pat := Escaped(p) + [PERCENT];
    PrefixOfEscaped(p, [PERCENT]);
    assert p + [] == p;
    EscapedLike(p, s, 0, len);
    LikeKeysExact(pat, s);
  }

  /** The scan over the pattern, filling the prefix buffer. */
  method LikePrefix(pat: Text) returns (buf: Text)
    ensures buf == Prefix(pat, 0)
  {
    buf := [];
    var i := 0;
    while i < |pat|
      invariant i <= |pat| && buf + Prefix(pat, i) == Prefix(pat, 0)
      decreases |pat| - i
    {
      var c := pat[i];
      PrefixStep(pat, i, buf);
      if c == ESCAPE {
        if i + 1 >= |pat| { break; }
        buf := buf + [pat[i + 1]];
        i := i + 2;
        continue;
      }
      if c == PERCENT || c == UNDERSCORE { break; }
      buf := buf + [c];
      i := i + 1;
    }
    if i < |pat| { assert buf + [] == buf; } else { assert buf + Prefix(pat, i) == buf; }
  }

  lemma {:induction false} PrefixStep(pat: Text, i: nat, buf: Text)
    requires i < |pat|
    ensures pat[i] == ESCAPE && i + 1 < |pat| ==> buf + Prefix(pat, i) == buf + [pat[i + 1]] + Prefix(pat, i + 2)
    ensures pat[i] != ESCAPE && pat[i] != PERCENT && pat[i] != UNDERSCORE ==> buf + Prefix(pat, i) == buf + [pat[i]] + Prefix(pat, i + 1)
  {
  }

  // ----- zone maps of text

  lemma {:induction false} BeforeTrans(a: Text, b: Text, c: Text, i: nat)
    requires LessFrom(a, b, i) && !LessFrom(c, b, i)
    ensures LessFrom(a, c, i)
    decreases |b| - i
  {
    if i < |a| && i < |c| && a[i] == b[i] && c[i] == b[i] { BeforeTrans(a, b, c, i + 1); }
  }

  /** No text between mn and mx meets the key. */
  predicate TextExcludes(k: TextKey, mn: Text, mx: Text) {
    match k
    case AtLeast(b) => Before(mx, b)
    case Below(b) => !Before(mn, b)
  }

  lemma {:induction false} TextExcludesSound(k: TextKey, mn: Text, mx: Text, s: Text)
    requires TextExcludes(k, mn, mx) && !Before(s, mn) && !Before(mx, s)
    ensures !TextMeets(k, s)
  {
    match k
    case AtLeast(b) => if !Before(s, b) { BeforeTrans(mx, b, s, 0); }
    case Below(b) => if Before(s, b) { NotBeforeTrans(s, mn, b); }
  }

  /** A key excludes a range when and only when no text in it meets the key. */
  lemma {:induction false} TextExcludesExact(k: TextKey, mn: Text, mx: Text)
    requires !Before(mx, mn)
    ensures TextExcludes(k, mn, mx) <==> forall s | !Before(s, mn) && !Before(mx, s) :: !TextMeets(k, s)
  {
    forall s | TextExcludes(k, mn, mx) && !Before(s, mn) && !Before(mx, s) ensures !TextMeets(k, s) { TextExcludesSound(k, mn, mx, s); }
    NotBeforeSelf(mn, 0);
    NotBeforeSelf(mx, 0);
    if !TextExcludes(k, mn, mx) {
      var s := if k.AtLeast? then mx else mn;
      assert !Before(s, mn) && !Before(mx, s) && TextMeets(k, s);
    }
  }

  lemma {:induction false} NotBeforeSelf(a: Text, i: nat)
    ensures !LessFrom(a, a, i)
    decreases |a| - i
  {
    if i < |a| { NotBeforeSelf(a, i + 1); }
  }

  lemma {:induction false} NotBeforeTrans(s: Text, mn: Text, b: Text)
    requires !Before(s, mn) && Before(s, b)
    ensures Before(mn, b)
  {
    Total(s, mn, 0);
    if s != mn { Chain(mn, s, b, 0); }
  }

  lemma {:induction false} Total(a: Text, b: Text, i: nat)
    requires i <= |a| && i <= |b| && a[..i] == b[..i]
    ensures LessFrom(a, b, i) || LessFrom(b, a, i) || a == b
    decreases |a| - i
  {
    if i < |a| && i < |b| && a[i] == b[i] {
      assert a[..i + 1] == a[..i] + [a[i]] && b[..i + 1] == b[..i] + [b[i]];
      Total(a, b, i + 1);
    } else if i == |a| == |b| {
      assert a == a[..i] && b == b[..i];
    }
  }

  lemma {:induction false} Chain(a: Text, b: Text, c: Text, i: nat)
    requires LessFrom(a, b, i) && LessFrom(b, c, i)
    ensures LessFrom(a, c, i)
    decreases |b| - i
  {
    if i < |a| && i < |b| && i < |c| && a[i] == b[i] == c[i] { Chain(a, b, c, i + 1); }
  }
}
