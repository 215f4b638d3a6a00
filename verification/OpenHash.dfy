/**
 src/columnar_encoding.c, the open-addressing tables of encode_dict and of the FSST symbol
 lookup: linear probing, slot value 0 for empty, code + 1 otherwise. Whatever the hash
 function, probing ends and answers what a linear scan for the first occurrence answers.
 */
module OpenHash {
  import opened Bits

  type Key = seq<Byte>

  /** Least index from j on that holds the key; |keys| when there is none. */
  function Find(keys: seq<Key>, key: Key, j: nat): (c: nat)
    requires j <= |keys|
    ensures j <= c <= |keys|
    decreases |keys| - j
  {
    if j == |keys| || keys[j] == key then j else Find(keys, key, j + 1)
  }

  ghost predicate IsFirst(keys: seq<Key>, key: Key, c: nat) {
    c <= |keys| && (c < |keys| ==> keys[c] == key) && forall i | 0 <= i < c :: keys[i] != key
  }

  lemma {:induction false} FindIsFirst(keys: seq<Key>, key: Key, j: nat, c: nat)
    requires j <= c && IsFirst(keys, key, c)
    ensures Find(keys, key, j) == c
    decreases c - j
  {
    if j < c { FindIsFirst(keys, key, j + 1, c); }
  }

  lemma {:induction false} FindFinds(keys: seq<Key>, key: Key, j: nat)
    requires j <= |keys|
    ensures Find(keys, key, j) < |keys| ==> keys[Find(keys, key, j)] == key
    ensures forall i | j <= i < |keys| && keys[i] == key :: Find(keys, key, j) <= i
    decreases |keys| - j
  {
    if j < |keys| && keys[j] != key { FindFinds(keys, key, j + 1); }
  }

  /** The t-th slot probed from h. */
  function Slot(h: nat, t: nat, m: nat): (s: nat)
    requires h < m && t < m
    ensures s < m
  {
    if h + t < m then h + t else h + t - m
  }

  /** How many slots are probed before s. */
  function Dist(h: nat, s: nat, m: nat): (t: nat)
    requires h < m && s < m
    ensures t < m && Slot(h, t, m) == s
  {
    if h <= s then s - h else s + m - h
  }

  lemma {:induction false} SlotDist(h: nat, t: nat, m: nat)
    requires h < m && t < m
    ensures Dist(h, Slot(h, t, m), m) == t
  {
  }

  // ----- a full table is impossible

  ghost predicate Distinct(e: seq<nat>) { forall a, b | 0 <= a < b < |e| :: e[a] != e[b] }

  ghost function Upto(n: nat): set<nat> {
    if n == 0 then {} else Upto(n - 1) + {n - 1}
  }

  lemma {:induction false} UptoIs(n: nat)
    ensures |Upto(n)| == n && forall i: nat :: i in Upto(n) <==> i < n
  {
    if n > 0 { UptoIs(n - 1); }
  }

  ghost function Members(e: seq<nat>, k: nat): set<nat>
    requires k <= |e|
  {
    if k == 0 then {} else Members(e, k - 1) + {e[k - 1]}
  }

  lemma {:induction false} MembersFrom(e: seq<nat>, k: nat, x: nat)
    requires k <= |e| && x in Members(e, k)
    ensures exists i: nat :: i < k && e[i] == x
  {
    if x != e[k - 1] { MembersFrom(e, k - 1, x); }
  }

  lemma {:induction false} DistinctSize(e: seq<nat>, k: nat)
    requires Distinct(e) && k <= |e|
    ensures |Members(e, k)| == k
  {
    if k > 0 {
      DistinctSize(e, k - 1);
      if e[k - 1] in Members(e, k - 1) { MembersFrom(e, k - 1, e[k - 1]); }
    }
  }

  /** Distinct numbers below n are at most n many. */
  lemma {:induction false} Pigeonhole(e: seq<nat>, n: nat)
    requires Distinct(e) && forall i | 0 <= i < |e| :: e[i] < n
    ensures |e| <= n
  {
    DistinctSize(e, |e|);
    UptoIs(n);
    forall x | x in Members(e, |e|) ensures x in Upto(n) { MembersFrom(e, |e|, x); }
    SubsetSize(Members(e, |e|), Upto(n));
  }

  lemma {:induction false} SubsetSize(a: set<nat>, b: set<nat>)
    requires a <= b
    ensures |a| <= |b|
    decreases a
  {
    if a != {} {
      var x :| x in a;
      SubsetSize(a - {x}, b - {x});
    }
  }

  class Table {
    const slots: array<nat>
    const hash: Key -> nat
    var keys: seq<Key>
    ghost var at: seq<nat>

    /** Where probing for the key starts. */
    function Start(key: Key): (h: nat)
      requires slots.Length > 0
      ensures h < slots.Length
    {
      hash(key) % slots.Length
    }

    ghost predicate Placed(j: nat)
      requires j < |keys| && |at| == |keys|
      reads this, slots
    {
      at[j] < slots.Length && slots[at[j]] == j + 1
    }

    /** The slots probed before the one of key j were taken by earlier keys. */
    ghost predicate Passed(j: nat)
      requires j < |keys| && |at| == |keys| && at[j] < slots.Length
      reads this, slots
    {
      var h := Start(keys[j]);
      forall t | 0 <= t < Dist(h, at[j], slots.Length) :: 0 < slots[Slot(h, t, slots.Length)] <= j
    }

    ghost predicate Valid()
      reads this, slots
    {
      && |at| == |keys| < slots.Length
      && (forall j | 0 <= j < |keys| :: Placed(j) && Passed(j))
      && forall s | 0 <= s < slots.Length && slots[s] != 0 :: slots[s] <= |keys| && at[slots[s] - 1] == s
    }

    constructor (m: nat, h: Key -> nat)
      requires m > 0
      ensures Valid() && keys == [] && slots.Length == m && hash == h && fresh(slots)
    {
      slots := new nat[m](_ => 0);
      hash, keys, at := h, [], [];
    }

    /** Every slot probed before t is taken, and none holds the key. */
    ghost predicate Probed(key: Key, t: nat)
      requires Valid() && t <= slots.Length
      reads this, slots
    {
      forall u | 0 <= u < t :: ProbedAt(key, u)
    }

    ghost predicate ProbedAt(key: Key, u: nat)
      requires Valid() && u < slots.Length
      reads this, slots
    {
      var e := slots[Slot(Start(key), u, slots.Length)];
      e != 0 && keys[e - 1] != key
    }

    ghost predicate TakenAt(key: Key, t: nat)
      requires t < slots.Length
      reads slots
    {
      slots[Slot(Start(key), t, slots.Length)] != 0
    }

    /** The first n slots probed for the key are taken. */
    ghost predicate Taken(key: Key, n: nat)
      requires n <= slots.Length
      reads slots
    {
      forall t | 0 <= t < n :: TakenAt(key, t)
    }

    /** Some slot is empty: there are more slots than keys. */
    lemma {:induction false} NotFull(key: Key)
      requires Valid()
      ensures !Taken(key, slots.Length)
    {
      if Taken(key, slots.Length) {
        var m, h := slots.Length, Start(key);
        var codes: seq<nat> := seq(m, s requires 0 <= s < m reads this, slots => if slots[s] > 0 then slots[s] - 1 else 0);
        forall s | 0 <= s < m ensures slots[s] > 0 && codes[s] < |keys| && at[codes[s]] == s {
          assert TakenAt(key, Dist(h, s, m));
        }
        forall a, b | 0 <= a < b < m ensures codes[a] != codes[b] {
          assert at[codes[a]] == a && at[codes[b]] == b;
        }
        Pigeonhole(codes, |keys|);
      }
    }

    lemma {:induction false} ProbedIsTaken(key: Key, t: nat)
      requires Valid() && t <= slots.Length && Probed(key, t)
      ensures Taken(key, t)
    {
      forall u | 0 <= u < t ensures TakenAt(key, u) { assert ProbedAt(key, u); }
    }

    /** A key probed past, or an empty slot, excludes every index that could hold the key. */
    lemma {:induction false} Excluded(key: Key, t: nat, i: nat)
      requires Valid() && t < slots.Length && Probed(key, t) && i < |keys| && keys[i] == key
      ensures Placed(i)
      ensures t <= Dist(Start(key), at[i], slots.Length)
      ensures t < Dist(Start(key), at[i], slots.Length) ==> 0 < slots[Slot(Start(key), t, slots.Length)] <= i
    {
      assert Placed(i) && Passed(i);
      var d := Dist(Start(key), at[i], slots.Length);
      assert d < t ==> ProbedAt(key, d);
    }

    lemma {:induction false} MatchIsFirst(key: Key, t: nat)
      requires Valid() && t < slots.Length && Probed(key, t)
      requires var e := slots[Slot(Start(key), t, slots.Length)]; e == 0 || keys[e - 1] == key
      ensures var e := slots[Slot(Start(key), t, slots.Length)]; Find(keys, key, 0) == if e == 0 then |keys| else e - 1
    {
      var s := Slot(Start(key), t, slots.Length);
      var c := if slots[s] == 0 then |keys| else slots[s] - 1;
      forall i | 0 <= i < c ensures keys[i] != key {
        if keys[i] == key { Excluded(key, t, i); }
      }
      FindIsFirst(keys, key, 0, c);
    }

    /** The probe loop: the code of the first equal key, or the empty slot to insert at. */
    method Lookup(key: Key) returns (c: nat, s: nat)
      requires Valid()
      ensures c == Find(keys, key, 0)
      ensures c == |keys| ==> s < slots.Length && slots[s] == 0 && Taken(key, Dist(Start(key), s, slots.Length))
    {
      s := hash(key) % slots.Length;
      ghost var t := 0;
      while slots[s] != 0
        invariant t < slots.Length && s == Slot(Start(key), t, slots.Length) && Probed(key, t)
        decreases slots.Length - t
      {
        assert at[slots[s] - 1] == s;
        if keys[slots[s] - 1] == key {
          MatchIsFirst(key, t);
          return slots[s] - 1, s;
        }
        assert ProbedAt(key, t);
        ProbedIsTaken(key, t + 1);
        NotFull(key);
        s := if s + 1 < slots.Length then s + 1 else 0;
        t := t + 1;
      }
      SlotDist(Start(key), t, slots.Length);
      MatchIsFirst(key, t);
      ProbedIsTaken(key, t);
      c := |keys|;
    }

    /** The probe loop of a build that does not look at the keys. */
    method FindEmpty(key: Key) returns (s: nat)
      requires Valid()
      ensures s < slots.Length && slots[s] == 0 && Taken(key, Dist(Start(key), s, slots.Length))
    {
      s := hash(key) % slots.Length;
      ghost var t := 0;
      while slots[s] != 0
        invariant t < slots.Length && s == Slot(Start(key), t, slots.Length) && Taken(key, t)
        decreases slots.Length - t
      {
        assert TakenAt(key, t);
        NotFull(key);
        s := if s + 1 < slots.Length then s + 1 else 0;
        t := t + 1;
      }
      SlotDist(Start(key), t, slots.Length);
    }

    /** Record the next key at the empty slot its probe ended on. */
    method Insert(key: Key, s: nat)
      requires Valid() && |keys| + 1 < slots.Length && s < slots.Length && slots[s] == 0
      requires Taken(key, Dist(Start(key), s, slots.Length))
      modifies this, slots
      ensures Valid() && keys == old(keys) + [key]
    {
      var n := |keys|;
      forall t | 0 <= t < Dist(Start(key), s, slots.Length) ensures 0 < slots[Slot(Start(key), t, slots.Length)] <= n {
        assert TakenAt(key, t);
      }
      slots[s] := n + 1;
      keys := keys + [key];
      at := at + [s];
      forall j | 0 <= j < |keys| ensures Placed(j) && Passed(j) {
        if j < n { assert old(Placed(j) && Passed(j)); }
      }
    }
  }
}
