module InListKeys {
  /** `col = ANY(list)`. */

  import opened Prelude
  import opened Comparison

  const ELEMENT_LIMIT: nat := 128

  datatype Hull = Hull(count: nat, lo: int, hi: int)

  /** Number of non-null elements among the first k, with their least and greatest. */
  function HullOf(es: seq<Option<int>>, k: nat): Hull
    requires k <= |es|
  {
    if k == 0 then Hull(0, 0, 0)
    else
      var h := HullOf(es, k - 1);
      if es[k - 1].None? then h
      else
        var e := es[k - 1].value;
        if h.count == 0 then Hull(1, e, e)
        else Hull(h.count + 1, if e < h.lo then e else h.lo, if e > h.hi then e else h.hi)
  }

  predicate Member(x: int, es: seq<Option<int>>) { Some(x) in es }

  lemma {:induction false} HullCovers(es: seq<Option<int>>, k: nat, i: nat)
    requires i < k <= |es| && es[i].Some?
    ensures var h := HullOf(es, k); h.count > 0 && h.lo <= es[i].value <= h.hi
  {
    if i < k - 1 { HullCovers(es, k - 1, i); }
  }

  /** The positions of the non-null elements. */
  ghost function NonNull(es: seq<Option<int>>, k: nat): set<int>
    requires k <= |es|
  {
    set i | 0 <= i < k && es[i].Some?
  }

  /** The count is the number of non-null elements; the least and greatest are among them. */
  lemma {:induction false} HullAttained(es: seq<Option<int>>, k: nat)
    requires k <= |es|
    ensures var h := HullOf(es, k); h.count == |NonNull(es, k)| && (h.count > 0 ==> Member(h.lo, es) && Member(h.hi, es))
  {
    if k > 0 {
      HullAttained(es, k - 1);
      assert es[k - 1] in es;
      if es[k - 1].Some? {
        assert NonNull(es, k) == NonNull(es, k - 1) + {k - 1};
      } else {
        assert NonNull(es, k) == NonNull(es, k - 1);
      }
    }
  }

  datatype Key = Compare(op: Strategy, c: int) | OneOf(es: seq<Option<int>>)

  predicate Meets(k: Key, x: int) {
    match k
    case Compare(op, c) => Holds(op, x, c)
    case OneOf(es) => Member(x, es)
  }

  /** pgcolumnar_saop_scankey */
  function Keys(es: seq<Option<int>>): seq<Key> {
    var h := HullOf(es, |es|);
    if h.count == 0 then []
    else if h.lo == h.hi then [Compare(Equal, h.lo)]
    else if h.count <= ELEMENT_LIMIT then [OneOf(es)]
    else [Compare(GreaterEqual, h.lo), Compare(LessEqual, h.hi)]
  }

  /** A listed value meets every key, whichever form was chosen. */
  lemma {:induction false} InListSound(es: seq<Option<int>>, x: int, i: nat)
    requires Member(x, es) && i < |Keys(es)|
    ensures Meets(Keys(es)[i], x)
  {
    var j :| 0 <= j < |es| && es[j] == Some(x);
    HullCovers(es, |es|, j);
  }

  /** Which values meet all keys: the listed ones, if at most 128 are listed or all are equal; otherwise
      all between the least and the greatest. A list of nulls has no key. */
  lemma {:induction false} InListExact(es: seq<Option<int>>, x: int)
    ensures var n := |NonNull(es, |es|)|;
      && (Keys(es) == [] <==> n == 0)
      && (n > 0 && n <= ELEMENT_LIMIT ==> (MeetsAll(Keys(es), x) <==> Member(x, es)))
      && (n > ELEMENT_LIMIT ==> exists lo, hi ::
            Member(lo, es) && Member(hi, es) && (forall y | Member(y, es) :: lo <= y <= hi) && (MeetsAll(Keys(es), x) <==> lo <= x <= hi))
  {
    var h, ks := HullOf(es, |es|), Keys(es);
    HullAttained(es, |es|);
    forall y | Member(y, es) ensures h.count > 0 && h.lo <= y <= h.hi {
      var j :| 0 <= j < |es| && es[j] == Some(y);
      HullCovers(es, |es|, j);
    }
    if |ks| == 1 { assert MeetsAll(ks, x) <==> Meets(ks[0], x); }
    if |ks| == 2 { assert MeetsAll(ks, x) <==> Meets(ks[0], x) && Meets(ks[1], x); }
    assert h.count > 0 && h.lo == h.hi ==> (Member(x, es) <==> x == h.lo);
  }

  ghost predicate MeetsAll(ks: seq<Key>, x: int) { forall i | 0 <= i < |ks| :: Meets(ks[i], x) }

  /** The loop over the array. */
  method FindHull(es: seq<Option<int>>) returns (h: Hull)
    ensures h == HullOf(es, |es|)
  {
    h := Hull(0, 0, 0);
    for i := 0 to |es|
      invariant h == HullOf(es, i)
    {
      if es[i].Some? {
        var e := es[i].value;
        if h.count == 0 {
          h := Hull(1, e, e);
        } else {
          h := Hull(h.count + 1, if e < h.lo then e else h.lo, if e > h.hi then e else h.hi);
        }
      }
    }
  }

  /** A group whose range holds no element of the set, or lies wholly beyond a bound. */
  predicate Excludes(k: Key, mn: int, mx: int) {
    match k
    case Compare(op, c) => MetricExcludes(op, c, mn, mx)
    case OneOf(es) => forall i | 0 <= i < |es| && es[i].Some? :: es[i].value < mn || es[i].value > mx
  }

  /** A key excludes a range when and only when no value in it meets the key. */
  lemma {:induction false} ExcludesExact(k: Key, mn: int, mx: int)
    requires mn <= mx
    ensures Excludes(k, mn, mx) <==> forall x | mn <= x <= mx :: !Meets(k, x)
  {
    match k
    case Compare(op, c) =>
      MetricExact(op, c, mn, mx);
      forall x ensures Meets(k, x) == Holds(op, x, c) {}
    case OneOf(es) =>
      if i :| 0 <= i < |es| && es[i].Some? && mn <= es[i].value <= mx { assert es[i] in es && Meets(k, es[i].value); }
  }

  lemma {:induction false} ExcludesSound(k: Key, mn: int, mx: int, x: int)
    requires Excludes(k, mn, mx) && mn <= x <= mx
    ensures !Meets(k, x)
  {
    match k
    case Compare(op, c) => MetricExact(op, c, mn, mx);
    case OneOf(es) =>
  }
}
