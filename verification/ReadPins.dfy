module ReadPins {
  /**
   objstore/columnar_objstore_module.c, reading: the pin of an open handle and the statement's pin
   table, against a store that other writers overwrite at any moment and that obeys If-Match
   (section 13.1.1 of RFC 9110) and version queries. Every HTTP reply is arbitrary otherwise.
   */

  import opened Prelude
  import opened Bits
  import opened BitPack

  type Key = string

  /** One version of an object. */
  datatype Version = Version(etag: string, vid: string, content: seq<Byte>)

  /** Every version an object ever had, the last being current while it is live. */
  datatype Obj = Obj(hist: seq<Version>, live: bool)

  type Store = map<Key, Obj>

  /** The reply to open's HEAD; etag and vid are "" when absent. */
  datatype Head = Head(status: int, len: int, etag: string, vid: string)

  /** The reply to a ranged GET; total is -1 when the server gave none. */
  datatype Reply = Reply(status: int, total: int, bytes: seq<Byte>)

  /** The pin of a handle or of the statement: "" is no ETag. */
  datatype Pin = Pin(len: int, etag: string, query: Option<string>)

  predicate Weak(etag: string) { |etag| >= 2 && etag[..2] == "W/" }

  /** A strong ETag, the only kind the client sends. */
  predicate Strong(etag: string) { etag != "" && !Weak(etag) }

  // ----- the client

  /** What open's HEAD pins: the ETag unless it is weak, the version unless it is "null". */
  function PinOf(head: Head): Pin {
    Pin(head.len, if Weak(head.etag) then "" else head.etag,
        if head.vid != "" && head.vid != "null" then Some(head.vid) else None)
  }

  /** objstore_open: the statement's pin decides when there is one. */
  function OpenPin(pins: map<Key, Pin>, k: Key, head: Head): Result<(map<Key, Pin>, Pin)> {
    if head.status != 200 || head.len < 0 then Err
    else if k !in pins then Ok((pins[k := PinOf(head)], PinOf(head)))
    else
      var p, own := pins[k], PinOf(head);
      if p.query.Some? then Ok((pins, p))
      else if p.len != own.len || (p.etag != "" && p.etag != own.etag) then Err
      else Ok((pins, own))
  }

  /** objstore_read, one request: a 403 for a named version drops the name and asks again. */
  datatype ReadOutcome = Bytes(bytes: seq<Byte>) | Retry(pin: Pin) | Refused

  function ReadOnce(pin: Pin, r: Reply): ReadOutcome {
    if r.status == 403 && pin.query.Some? then Retry(pin.(query := None))
    else if r.status != 206 then Refused
    else if r.total >= 0 && r.total != pin.len then Refused
    else Bytes(r.bytes)
  }

  // ----- the store

  /** The version a request selects: the named one, or the current one. */
  predicate Selects(o: Obj, query: Option<string>, v: Version) {
    match query
    case None => o.live && |o.hist| > 0 && v == o.hist[|o.hist| - 1]
    case Some(vid) => v in o.hist && v.vid == vid
  }

  /** A 206 carries the requested range of the selected version, whose ETag is the If-Match. */
  ghost predicate Serves(o: Obj, pin: Pin, off: nat, n: nat, r: Reply) {
    r.status == 206 ==> exists v :: Served(o, pin, off, n, r, v)
  }

  predicate Served(o: Obj, pin: Pin, off: nat, n: nat, r: Reply, v: Version) {
    && Selects(o, pin.query, v)
    && (pin.etag != "" ==> v.etag == pin.etag)
    && IsSlice(v.content, off, n, r.bytes)
    && (r.total >= 0 ==> r.total == |v.content|)
  }

  predicate IsSlice(content: seq<Byte>, off: nat, n: nat, bytes: seq<Byte>) {
    off + n <= |content| && bytes == content[off..off + n]
  }

  /** A strong ETag names one content for ever (section 8.8.1 of RFC 9110). */
  ghost predicate HonestETags(hist: seq<Version>) {
    forall i, j | 0 <= i < |hist| && 0 <= j < |hist| && Strong(hist[i].etag) && hist[i].etag == hist[j].etag ::
      hist[i].content == hist[j].content
  }

  // ----- runs

  datatype Handle = Handle(key: Key, pin: Pin, stmt: nat)

  /** Bytes a handle gave, and the statement that opened it. */
  datatype Got = Got(key: Key, stmt: nat, off: nat, bytes: seq<Byte>)

  /** The store, the statement's pins, all open handles, and everything read so far. */
  datatype State = State(store: Store, stmt: nat, pins: map<Key, Pin>, handles: map<nat, Handle>, got: seq<Got>, wrote: set<Key>)

  datatype Action =
    | Overwrite(k: Key, v: Version)
    | Delete(k: Key)
    | NewStatement
    | Open(id: nat, k: Key, head: Head)
    | Read(id: nat, off: nat, n: nat, reply: Reply)
    | WroteObject(k: Key)
    | Close(id: nat)

  function Object(s: Store, k: Key): Obj { if k in s then s[k] else Obj([], false) }

  /** What can happen next; other writers and the server are free within their rules. */
  ghost predicate Enabled(s: State, a: Action) {
    match a
    case Overwrite(k, v) => HonestETags(Object(s.store, k).hist + [v])
    case Open(id, _, _) => id !in s.handles
    case Read(id, off, n, r) => id in s.handles && Serves(Object(s.store, s.handles[id].key), s.handles[id].pin, off, n, r)
    case _ => true
  }

  function Apply(s: State, a: Action): State {
    match a
    case Overwrite(k, v) => s.(store := s.store[k := Obj(Object(s.store, k).hist + [v], true)])
    case Delete(k) => s.(store := s.store[k := Obj(Object(s.store, k).hist, false)])
    case NewStatement => s.(stmt := s.stmt + 1, pins := map[], wrote := {})
    case Open(id, k, head) =>
      var r := OpenPin(s.pins, k, head);
      if r.Err? then s else s.(pins := r.value.0, handles := s.handles[id := Handle(k, r.value.1, s.stmt)])
    case Read(id, off, n, reply) => if id !in s.handles then s else ApplyRead(s, id, s.handles[id], off, reply)
    case WroteObject(k) => s.(pins := s.pins - {k}, wrote := s.wrote + {k})
    case Close(id) => s.(handles := s.handles - {id})
  }

  function ApplyRead(s: State, id: nat, h: Handle, off: nat, reply: Reply): State {
    match ReadOnce(h.pin, reply)
    case Refused => s
    case Retry(pin) => s.(handles := s.handles[id := h.(pin := pin)])
    case Bytes(bytes) => s.(got := s.got + [Got(h.key, h.stmt, off, bytes)])
  }

  // ----- the invariant

  /** Some version of the object with the pinned ETag holds these bytes there. */
  ghost predicate Explained(s: State, g: Got, etag: string) {
    exists v :: ExplainedBy(s, g, etag, v)
  }

  predicate ExplainedBy(s: State, g: Got, etag: string, v: Version) {
    v in Object(s.store, g.key).hist && v.etag == etag && IsSlice(v.content, g.off, |g.bytes|, g.bytes)
  }

  /** The statement has not written the object, and its first open found a strong ETag. */
  predicate Pinned(s: State, k: Key) { k in s.pins && k !in s.wrote && s.pins[k].etag != "" }

  ghost predicate HandlesAgree(s: State) {
    forall id | id in s.handles && s.handles[id].stmt == s.stmt && s.handles[id].key !in s.wrote :: HandleAgrees(s, s.handles[id])
  }

  predicate HandleAgrees(s: State, h: Handle) {
    h.key in s.pins && (s.pins[h.key].etag != "" ==> h.pin.etag == s.pins[h.key].etag)
  }

  ghost predicate GotAgree(s: State) {
    forall i | 0 <= i < |s.got| && s.got[i].stmt == s.stmt && Pinned(s, s.got[i].key) :: Explained(s, s.got[i], s.pins[s.got[i].key].etag)
  }

  ghost predicate Inv(s: State) {
    && (forall k :: HonestETags(Object(s.store, k).hist))
    && (forall k | k in s.pins :: s.pins[k].etag == "" || Strong(s.pins[k].etag))
    && (forall i | 0 <= i < |s.got| :: s.got[i].stmt <= s.stmt && (s.got[i].stmt == s.stmt ==> s.got[i].key in s.pins || s.got[i].key in s.wrote))
    && (forall id | id in s.handles :: s.handles[id].stmt <= s.stmt)
    && HandlesAgree(s) && GotAgree(s)
  }

  lemma {:induction false} StoreStep(s: State, a: Action)
    requires Inv(s) && Enabled(s, a) && (a.Overwrite? || a.Delete?)
    ensures Inv(Apply(s, a))
  {
    var t := Apply(s, a);
    forall k ensures HonestETags(Object(t.store, k).hist) { assert HonestETags(Object(s.store, k).hist); }
    forall i | 0 <= i < |t.got| && t.got[i].stmt == t.stmt && Pinned(t, t.got[i].key) ensures Explained(t, t.got[i], t.pins[t.got[i].key].etag) {
      var g, etag := s.got[i], s.pins[s.got[i].key].etag;
      assert Explained(s, g, etag);
      var v :| ExplainedBy(s, g, etag, v);
      assert ExplainedBy(t, g, etag, v);
    }
    forall id | id in t.handles && t.handles[id].stmt == t.stmt && t.handles[id].key !in t.wrote ensures HandleAgrees(t, t.handles[id]) {
      assert HandleAgrees(s, s.handles[id]);
    }
  }

  /** A later open either takes the statement's pin or has seen the same ETag. */
  lemma {:induction false} OpenAgrees(pins: map<Key, Pin>, k: Key, head: Head)
    requires OpenPin(pins, k, head).Ok?
    ensures var (pins', pin) := OpenPin(pins, k, head).value;
      && k in pins' && (pins'[k].etag != "" ==> pin.etag == pins'[k].etag)
      && (forall j | j in pins :: j in pins' && pins'[j] == pins[j])
      && (forall j | j in pins' :: j == k || j in pins)
  {
  }

  lemma {:induction false} OpenStep(s: State, id: nat, k: Key, head: Head)
    requires Inv(s) && Enabled(s, Open(id, k, head))
    ensures Inv(Apply(s, Open(id, k, head)))
  {
    var r := OpenPin(s.pins, k, head);
    if r.Ok? {
      var t := Apply(s, Open(id, k, head));
      OpenAgrees(s.pins, k, head);
      forall j | j in t.handles && t.handles[j].stmt == t.stmt && t.handles[j].key !in t.wrote ensures HandleAgrees(t, t.handles[j]) {
        if j != id { assert HandleAgrees(s, s.handles[j]); }
      }
      forall i | 0 <= i < |t.got| && t.got[i].stmt == t.stmt && Pinned(t, t.got[i].key) ensures Explained(t, t.got[i], t.pins[t.got[i].key].etag) {
        var g := s.got[i];
        assert g.key in s.pins;
        assert Explained(s, g, s.pins[g.key].etag);
        var v :| ExplainedBy(s, g, s.pins[g.key].etag, v);
        assert ExplainedBy(t, g, t.pins[g.key].etag, v);
      }
    }
  }

  lemma {:induction false} ReadStep(s: State, id: nat, off: nat, n: nat, reply: Reply)
    requires Inv(s) && Enabled(s, Read(id, off, n, reply))
    ensures Inv(Apply(s, Read(id, off, n, reply)))
  {
    var h, t := s.handles[id], Apply(s, Read(id, off, n, reply));
    forall j | j in t.handles && t.handles[j].stmt == t.stmt && t.handles[j].key !in t.wrote ensures HandleAgrees(t, t.handles[j]) {
      assert HandleAgrees(s, s.handles[j]);
    }
    forall i | 0 <= i < |t.got| && t.got[i].stmt == t.stmt && Pinned(t, t.got[i].key) ensures Explained(t, t.got[i], t.pins[t.got[i].key].etag) {
      var g := t.got[i];
      var etag := s.pins[g.key].etag;
      if i < |s.got| {
        assert Explained(s, s.got[i], etag);
        var v :| ExplainedBy(s, g, etag, v);
        assert ExplainedBy(t, g, etag, v);
      } else {
        assert HandleAgrees(s, h);
        var v :| Served(Object(s.store, h.key), h.pin, off, n, reply, v);
        SelectedInHist(Object(s.store, h.key), h.pin.query, v);
        assert ExplainedBy(t, g, etag, v);
      }
    }
    forall i | 0 <= i < |t.got| && t.got[i].stmt == t.stmt ensures t.got[i].key in t.pins || t.got[i].key in t.wrote {
      if i == |s.got| && h.key !in s.wrote { assert HandleAgrees(s, h); }
    }
  }

  lemma {:induction false} SelectedInHist(o: Obj, query: Option<string>, v: Version)
    requires Selects(o, query, v)
    ensures v in o.hist
  {
  }

  lemma {:induction false} ClientStep(s: State, a: Action)
    requires Inv(s) && (a.NewStatement? || a.WroteObject? || a.Close?)
    ensures Inv(Apply(s, a))
  {
    var t := Apply(s, a);
    forall id | id in t.handles && t.handles[id].stmt == t.stmt && t.handles[id].key !in t.wrote ensures HandleAgrees(t, t.handles[id]) {
      assert HandleAgrees(s, s.handles[id]);
    }
    forall i | 0 <= i < |t.got| && t.got[i].stmt == t.stmt && Pinned(t, t.got[i].key) ensures Explained(t, t.got[i], t.pins[t.got[i].key].etag) {
      assert Explained(s, s.got[i], s.pins[s.got[i].key].etag);
      var v :| ExplainedBy(s, s.got[i], s.pins[s.got[i].key].etag, v);
      assert ExplainedBy(t, t.got[i], t.pins[t.got[i].key].etag, v);
    }
  }

  /** Every step keeps the invariant: other writers, opens, reads, retries, own writes. */
  lemma {:induction false} StepKeepsInv(s: State, a: Action)
    requires Inv(s) && Enabled(s, a)
    ensures Inv(Apply(s, a))
  {
    match a
    case Overwrite(_, _) => StoreStep(s, a);
    case Delete(_) => StoreStep(s, a);
    case Open(id, k, head) => OpenStep(s, id, k, head);
    case Read(id, off, n, reply) => ReadStep(s, id, off, n, reply);
    case NewStatement => ClientStep(s, a);
    case WroteObject(_) => ClientStep(s, a);
    case Close(_) => ClientStep(s, a);
  }

  function Run(s: State, acts: seq<Action>, k: nat): State
    requires k <= |acts|
  {
    if k == 0 then s else Apply(Run(s, acts, k - 1), acts[k - 1])
  }

  ghost predicate Legal(s: State, acts: seq<Action>, k: nat)
    requires k <= |acts|
  {
    k == 0 || (Legal(s, acts, k - 1) && Enabled(Run(s, acts, k - 1), acts[k - 1]))
  }

  function Start(store: Store): State { State(store, 0, map[], map[], [], {}) }

  lemma {:induction false} RunInv(store: Store, acts: seq<Action>, k: nat)
    requires k <= |acts| && Legal(Start(store), acts, k) && forall j :: HonestETags(Object(store, j).hist)
    ensures Inv(Run(Start(store), acts, k))
  {
    if k > 0 {
      RunInv(store, acts, k - 1);
      StepKeepsInv(Run(Start(store), acts, k - 1), acts[k - 1]);
    }
  }

  /** The reads of object k this statement's handles made are all slices of one content. */
  ghost predicate OneVersion(s: State, k: Key, content: seq<Byte>) {
    forall i | 0 <= i < |s.got| && s.got[i].stmt == s.stmt && s.got[i].key == k :: IsSlice(content, s.got[i].off, |s.got[i].bytes|, s.got[i].bytes)
  }

  /** In every interleaving, a statement that pinned an object by a strong ETag and does not write it
      reads one version of it: all its handles, all its ranges, also after a 403 dropped the version
      query; and that version is one whose ETag the first open saw. */
  lemma {:induction false} StatementReadsOneVersion(store: Store, acts: seq<Action>, k: Key) returns (v: Version)
    requires Legal(Start(store), acts, |acts|) && forall j :: HonestETags(Object(store, j).hist)
    requires Pinned(Run(Start(store), acts, |acts|), k)
    ensures var s := Run(Start(store), acts, |acts|);
      && OneVersion(s, k, v.content)
      && ((exists i :: 0 <= i < |s.got| && s.got[i].stmt == s.stmt && s.got[i].key == k) ==> v in Object(s.store, k).hist && v.etag == s.pins[k].etag)
  {
    var s := Run(Start(store), acts, |acts|);
    RunInv(store, acts, |acts|);
    v := Version("", "", []);
    if i :| 0 <= i < |s.got| && s.got[i].stmt == s.stmt && s.got[i].key == k {
      assert Explained(s, s.got[i], s.pins[k].etag);
      v :| ExplainedBy(s, s.got[i], s.pins[k].etag, v);
      forall j | 0 <= j < |s.got| && s.got[j].stmt == s.stmt && s.got[j].key == k ensures IsSlice(v.content, s.got[j].off, |s.got[j].bytes|, s.got[j].bytes) {
        assert Explained(s, s.got[j], s.pins[k].etag);
        var w :| ExplainedBy(s, s.got[j], s.pins[k].etag, w);
        SameContent(Object(s.store, k).hist, v, w);
      }
    }
  }

  lemma {:induction false} SameContent(hist: seq<Version>, v: Version, w: Version)
    requires HonestETags(hist) && v in hist && w in hist && v.etag == w.etag && Strong(v.etag)
    ensures v.content == w.content
  {
    var i :| 0 <= i < |hist| && hist[i] == v;
    var j :| 0 <= j < |hist| && hist[j] == w;
  }

  // ----- without a strong ETag

  /** The HEAD of a version. */
  function HeadOf(a: Version): Head { Head(200, |a.content|, a.etag, a.vid) }

  /** Open a, read it whole, another writer puts b, a 403 drops the version query if there was one,
      and the same read gets b. */
  function MixingRun(k: Key, a: Version, b: Version): seq<Action> {
    var n := |a.content|;
    [Open(0, k, HeadOf(a)), Read(0, 0, n, Reply(206, n, a.content)), Overwrite(k, b),
     Read(0, 0, n, Reply(403, -1, [])), Read(0, 0, n, Reply(206, n, b.content))]
  }

  lemma {:induction false} NotStrongHonest(hist: seq<Version>)
    requires forall i, j | 0 <= i < j < |hist| :: hist[i].etag != hist[j].etag || !Strong(hist[i].etag)
    ensures HonestETags(hist)
  {
  }

  /** Two different contents cannot both be read at the same place of one content. */
  lemma {:induction false} TwoContents(s: State, k: Key, b: seq<Byte>, c: seq<Byte>, content: seq<Byte>)
    requires s.got == [Got(k, 0, 0, b), Got(k, 0, 0, c)] && s.stmt == 0 && |b| == |c| && b != c
    ensures !OneVersion(s, k, content)
  {
    assert s.got[0].key == k && s.got[1].key == k;
  }

  /** Another writer's put. */
  lemma {:induction false} Puts(s: State, k: Key, hist: seq<Version>, v: Version)
    requires s.store == map[k := Obj(hist, true)] && HonestETags(hist + [v])
    ensures Enabled(s, Overwrite(k, v)) && Apply(s, Overwrite(k, v)) == s.(store := map[k := Obj(hist + [v], true)])
  {
  }

  /** A handle without an ETag is served whatever version its request selects. */
  lemma {:induction false} Gets(s: State, h: Handle, v: Version, total: int)
    requires s.handles == map[0 := h] && h.stmt == s.stmt && h.pin.etag == "" && Selects(Object(s.store, h.key), h.pin.query, v)
    requires total == -1 || total == |v.content| == h.pin.len
    ensures var read := Read(0, 0, |v.content|, Reply(206, total, v.content));
      Enabled(s, read) && Apply(s, read) == s.(got := s.got + [Got(h.key, h.stmt, 0, v.content)])
  {
    assert Served(Object(s.store, h.key), h.pin, 0, |v.content|, Reply(206, total, v.content), v);
  }

  /** A 403 leaves a handle without its version. */
  lemma {:induction false} Forbids(s: State, h: Handle, n: nat)
    requires s.handles == map[0 := h]
    ensures var read := Read(0, 0, n, Reply(403, -1, []));
      Enabled(s, read) && Apply(s, read) == s.(handles := map[0 := h.(pin := h.pin.(query := None))])
  {
  }

  lemma {:induction false} Opens(s: State, k: Key, a: Version)
    requires s == Start(map[k := Obj([a], true)])
    ensures var open, pin := Open(0, k, HeadOf(a)), PinOf(HeadOf(a));
      Enabled(s, open) && Apply(s, open) == s.(pins := map[k := pin], handles := map[0 := Handle(k, pin, 0)])
  {
  }

  /** The ETag is what the guarantee rests on: whatever object a statement first opens without a
      strong ETag, with a version id or without one, and whatever other content of that length is
      put in its place, the run above is possible and no content explains what was read. */
  lemma {:induction false} VersionAloneMixes(k: Key, a: Version, b: Version)
    requires !Strong(a.etag) && |a.content| == |b.content| && a.content != b.content
    ensures var s0, acts := Start(map[k := Obj([a], true)]), MixingRun(k, a, b);
      var s := Run(s0, acts, 5);
      && Legal(s0, acts, 5) && s.wrote == {} && k in s.pins && s.pins[k] == PinOf(HeadOf(a))
      && forall content :: !OneVersion(s, k, content)
  {
    hide HonestETags, Legal, Run, OneVersion, Enabled, Apply;
    var s0, acts, n := Start(map[k := Obj([a], true)]), MixingRun(k, a, b), |a.content|;
    var pin := PinOf(HeadOf(a));
    var bare := pin.(query := None);
    var s1 := s0.(pins := map[k := pin], handles := map[0 := Handle(k, pin, 0)]);
    var s2 := s1.(got := [Got(k, 0, 0, a.content)]);
    var s3 := s2.(store := map[k := Obj([a, b], true)]);
    var s4 := s3.(handles := map[0 := Handle(k, bare, 0)]);
    var s5 := s4.(got := [Got(k, 0, 0, a.content), Got(k, 0, 0, b.content)]);
    Opens(s0, k, a);
    Gets(s1, Handle(k, pin, 0), a, n);
    assert [a] + [b] == [a, b];
    NotStrongHonest([a, b]);
    Puts(s2, k, [a], b);
    Forbids(s3, Handle(k, pin, 0), n);
    Gets(s4, Handle(k, bare, 0), b, n);
    Traced([s0, s1, s2, s3, s4, s5], acts, 5);
    forall content ensures !OneVersion(s5, k, content) { TwoContents(s5, k, a.content, b.content, content); }
  }

  /** A list of states that the actions lead through is the run. */
  lemma {:induction false} Traced(ss: seq<State>, acts: seq<Action>, k: nat)
    requires k <= |acts| && |ss| == |acts| + 1
    requires forall i | 0 <= i < |acts| :: Enabled(ss[i], acts[i]) && Apply(ss[i], acts[i]) == ss[i + 1]
    ensures Legal(ss[0], acts, k) && Run(ss[0], acts, k) == ss[k]
  {
    hide Enabled, Apply;
    if k > 0 { Traced(ss, acts, k - 1); }
  }

  /** The same of an empty object, from a server whose replies give no total. */
  function EmptyMixingRun(k: Key, a: Version, b: Version, c: Version): seq<Action> {
    [Open(0, k, HeadOf(a)), Read(0, 0, 1, Reply(403, -1, [])), Overwrite(k, b), Read(0, 0, 1, Reply(206, -1, b.content)),
     Overwrite(k, c), Read(0, 0, 1, Reply(206, -1, c.content))]
  }

  lemma {:induction false} EmptyMixes(k: Key, a: Version, b: Version, c: Version)
    requires !Strong(a.etag) && !Strong(b.etag) && |b.content| == |c.content| == 1 && b.content != c.content
    ensures var s0, acts := Start(map[k := Obj([a], true)]), EmptyMixingRun(k, a, b, c);
      Legal(s0, acts, 6) && forall content :: !OneVersion(Run(s0, acts, 6), k, content)
  {
    hide HonestETags, Legal, Run, OneVersion, Enabled, Apply;
    var s0, acts := Start(map[k := Obj([a], true)]), EmptyMixingRun(k, a, b, c);
    var pin := PinOf(HeadOf(a));
    var bare := pin.(query := None);
    var s1 := s0.(pins := map[k := pin], handles := map[0 := Handle(k, pin, 0)]);
    var s2 := s1.(handles := map[0 := Handle(k, bare, 0)]);
    var s3 := s2.(store := map[k := Obj([a, b], true)]);
    var s4 := s3.(got := [Got(k, 0, 0, b.content)]);
    var s5 := s4.(store := map[k := Obj([a, b, c], true)]);
    var s6 := s5.(got := [Got(k, 0, 0, b.content), Got(k, 0, 0, c.content)]);
    Opens(s0, k, a);
    Forbids(s1, Handle(k, pin, 0), 1);
    assert [a] + [b] == [a, b] && [a, b] + [c] == [a, b, c];
    NotStrongHonest([a, b]);
    Puts(s2, k, [a], b);
    Gets(s3, Handle(k, bare, 0), b, -1);
    NotStrongHonest([a, b, c]);
    Puts(s4, k, [a, b], c);
    Gets(s5, Handle(k, bare, 0), c, -1);
    Traced([s0, s1, s2, s3, s4, s5, s6], acts, 6);
    forall content ensures !OneVersion(s6, k, content) { TwoContents(s6, k, b.content, c.content, content); }
  }

  // ----- exactly when

  /** Action p is the statement's first open of k, it sees the current version a, and the statement
      goes on to the end of the run without writing k. */
  ghost predicate FirstSees(store: Store, acts: seq<Action>, p: nat, k: Key, a: Version) {
    && p < |acts| && acts[p].Open? && acts[p].k == k && acts[p].head == HeadOf(a)
    && (var s := Run(Start(store), acts, p); k !in s.pins && k !in s.wrote && Selects(Object(s.store, k), None, a))
    && forall i | p < i < |acts| :: acts[i] != NewStatement && acts[i] != WroteObject(k)
  }

  ghost predicate RunFrom(store: Store, acts: seq<Action>) {
    Legal(Start(store), acts, |acts|) && forall j :: HonestETags(Object(store, j).hist)
  }

  /** Whatever else happens, before and after, the statement reads one content of k. */
  ghost predicate Guaranteed(k: Key, a: Version) {
    forall store, acts, p: nat | RunFrom(store, acts) && FirstSees(store, acts, p, k, a) ::
      exists content :: OneVersion(Run(Start(store), acts, |acts|), k, content)
  }

  lemma {:induction false} LegalPrefix(s: State, acts: seq<Action>, i: nat, n: nat)
    requires i <= n <= |acts| && Legal(s, acts, n)
    ensures Legal(s, acts, i)
  {
    if i < n { LegalPrefix(s, acts, i, n - 1); }
  }

  /** The pin of the first open stays. */
  lemma {:induction false} PinStays(store: Store, acts: seq<Action>, p: nat, k: Key, a: Version, n: nat)
    requires RunFrom(store, acts) && FirstSees(store, acts, p, k, a) && p < n <= |acts|
    ensures var s := Run(Start(store), acts, n); k in s.pins && k !in s.wrote && s.pins[k] == PinOf(HeadOf(a))
  {
    hide Legal, HonestETags;
    var s := Run(Start(store), acts, n - 1);
    LegalPrefix(Start(store), acts, n, |acts|);
    if n > p + 1 {
      PinStays(store, acts, p, k, a, n - 1);
      PinStep(s, acts[n - 1], k);
    }
  }

  lemma {:induction false} PinStep(s: State, a: Action, k: Key)
    requires k in s.pins && k !in s.wrote && a != NewStatement && a != WroteObject(k)
    ensures var t := Apply(s, a); k in t.pins && k !in t.wrote && t.pins[k] == s.pins[k]
  {
    if a.Open? && OpenPin(s.pins, a.k, a.head).Ok? { OpenAgrees(s.pins, a.k, a.head); }
  }

  /** The guarantee holds of an object exactly when the first open saw a strong ETag. */
  lemma {:induction false} GuaranteedIff(k: Key, a: Version)
    ensures Guaranteed(k, a) <==> Strong(a.etag)
  {
    hide Legal, Run, HonestETags;
    if Strong(a.etag) {
      forall store, acts, p: nat | RunFrom(store, acts) && FirstSees(store, acts, p, k, a)
        ensures exists content :: OneVersion(Run(Start(store), acts, |acts|), k, content)
      {
        PinStays(store, acts, p, k, a, |acts|);
        var v := StatementReadsOneVersion(store, acts, k);
        assert OneVersion(Run(Start(store), acts, |acts|), k, v.content);
      }
    } else {
      var store, acts := Mixed(k, a);
    }
  }

  /** Every object first seen without a strong ETag is in some run read in two versions. */
  lemma {:induction false} Mixed(k: Key, a: Version) returns (store: Store, acts: seq<Action>)
    requires !Strong(a.etag)
    ensures RunFrom(store, acts) && FirstSees(store, acts, 0, k, a)
    ensures forall content :: !OneVersion(Run(Start(store), acts, |acts|), k, content)
  {
    hide Legal, OneVersion;
    store := map[k := Obj([a], true)];
    NotStrongHonest([a]);
    if a.content == [] {
      var b, c := Version("", "", [0]), Version("", "", [1]);
      acts := EmptyMixingRun(k, a, b, c);
      EmptyMixes(k, a, b, c);
    } else {
      var b := Version("", "", a.content[0 := if a.content[0] == 0 then 1 else 0]);
      acts := MixingRun(k, a, b);
      VersionAloneMixes(k, a, b);
    }
  }

  // ----- which version a read comes from

  ghost predicate LegalRun(store: Store, acts: seq<Action>) { Legal(Start(store), acts, |acts|) }

  function At(store: Store, acts: seq<Action>, n: nat): State
    requires n <= |acts|
  {
    Run(Start(store), acts, n)
  }

  /** Action p is an open of k that a store answered. */
  predicate Opening(acts: seq<Action>, p: nat, k: Key) {
    p < |acts| && acts[p].Open? && acts[p].k == k && acts[p].head.status == 200 && acts[p].head.len >= 0
  }

  /** The statement that runs at action n went on from action q without writing k. */
  ghost predicate SameStatement(acts: seq<Action>, q: nat, n: nat, k: Key) {
    q <= n <= |acts| && forall i | q < i < n :: acts[i] != NewStatement && acts[i] != WroteObject(k)
  }

  /** Action q is the statement's first answered open of k. */
  ghost predicate FirstOpening(store: Store, acts: seq<Action>, q: nat, k: Key) {
    Opening(acts, q, k) && k !in At(store, acts, q).pins
  }

  predicate NamesVersion(head: Head) { head.vid != "" && head.vid != "null" }

  /** Every pin of the statement is what its first open of the object saw. */
  lemma {:induction false} PinOrigin(store: Store, acts: seq<Action>, n: nat, k: Key) returns (q: nat)
    requires n <= |acts| && LegalRun(store, acts) && k in At(store, acts, n).pins
    ensures q < n && FirstOpening(store, acts, q, k) && SameStatement(acts, q, n, k)
    ensures At(store, acts, n).pins[k] == PinOf(acts[q].head)
  {
    hide Legal;
    var s := At(store, acts, n - 1);
    var a := acts[n - 1];
    if k in s.pins {
      q := PinOrigin(store, acts, n - 1, k);
      PinKept(s, a, k);
    } else {
      q := n - 1;
    }
  }

  lemma {:induction false} PinKept(s: State, a: Action, k: Key)
    requires k in s.pins && k in Apply(s, a).pins
    ensures a != NewStatement && a != WroteObject(k) && Apply(s, a).pins[k] == s.pins[k]
  {
    if a.Open? && OpenPin(s.pins, a.k, a.head).Ok? { OpenAgrees(s.pins, a.k, a.head); }
  }

  /** Handle id, open after n actions, comes from the open at action p and was not closed since. */
  ghost predicate OpenedAt(acts: seq<Action>, p: nat, n: nat, id: nat, k: Key) {
    p < n <= |acts| && Opening(acts, p, k) && acts[p].id == id && forall i | p < i < n :: acts[i] != Close(id)
  }

  /** No request of the handle was refused with 403 between the two actions. */
  ghost predicate NoneForbidden(acts: seq<Action>, p: nat, n: nat, id: nat) {
    p <= n <= |acts| && forall i | p < i < n && acts[i].Read? && acts[i].id == id :: acts[i].reply.status != 403
  }

  /** A handle keeps the pin its open gave it, but for a version dropped after a 403. */
  lemma {:induction false} HandleOrigin(store: Store, acts: seq<Action>, n: nat, id: nat) returns (p: nat)
    requires n <= |acts| && LegalRun(store, acts) && id in At(store, acts, n).handles
    ensures var h := At(store, acts, n).handles[id];
      && OpenedAt(acts, p, n, id, h.key)
      && id in At(store, acts, p + 1).handles
      && (var h0 := At(store, acts, p + 1).handles[id];
          && h == h0.(pin := h.pin) && h.pin == h0.pin.(query := h.pin.query)
          && (NoneForbidden(acts, p, n, id) ==> h == h0))
  {
    var s, a := At(store, acts, n - 1), acts[n - 1];
    LegalPrefix(Start(store), acts, n, |acts|);
    if a.Open? && a.id == id {
      p := n - 1;
    } else {
      HandleStep(s, a, id);
      p := HandleOrigin(store, acts, n - 1, id);
    }
  }

  lemma {:induction false} HandleStep(s: State, a: Action, id: nat)
    requires id in Apply(s, a).handles && !(a.Open? && a.id == id)
    ensures id in s.handles && a != Close(id)
    ensures var h, h' := s.handles[id], Apply(s, a).handles[id];
      h' == h || (a.Read? && a.id == id && a.reply.status == 403 && h' == h.(pin := h.pin.(query := None)))
  {
  }

  /** Every handle of a statement reads under what the statement's first open of the object saw: its
      length, its strong ETag if it had one, and its version until a 403. An open that saw another
      length got a handle only if the first open named a version. */
  lemma {:induction false} HandlePin(store: Store, acts: seq<Action>, n: nat, id: nat) returns (p: nat, q: nat)
    requires n <= |acts| && LegalRun(store, acts) && id in At(store, acts, n).handles
    ensures var h := At(store, acts, n).handles[id];
      && OpenedAt(acts, p, n, id, h.key)
      && q <= p && FirstOpening(store, acts, q, h.key) && SameStatement(acts, q, p, h.key)
      && (var first := acts[q].head;
          && h.pin.len == first.len
          && (Strong(first.etag) ==> h.pin.etag == first.etag)
          && (NamesVersion(first) && NoneForbidden(acts, p, n, id) ==> h.pin.query == Some(first.vid))
          && (!NamesVersion(first) ==> acts[p].head.len == first.len))
  {
    p := HandleOrigin(store, acts, n, id);
    var k := acts[p].k;
    LegalPrefix(Start(store), acts, p + 1, |acts|);
    q := PinOrigin(store, acts, p + 1, k);
    var s := At(store, acts, p);
    if k in s.pins { OpenAgrees(s.pins, k, acts[p].head); }
  }

  /** The read of action i gave bytes. */
  ghost predicate Gave(store: Store, acts: seq<Action>, i: nat) {
    i < |acts| && acts[i].Read? && At(store, acts, i + 1).got != At(store, acts, i).got
  }

  /** In every run, a read that gave bytes gave the requested range of a version of the object whose
      length, if the reply states the object's length, is the one the statement's first open saw, whose
      ETag is the strong ETag that open saw, and which is the version it named until a 403. */
  lemma {:induction false} ReadComesFrom(store: Store, acts: seq<Action>, i: nat) returns (v: Version, p: nat, q: nat)
    requires LegalRun(store, acts) && Gave(store, acts, i)
    ensures var s, a := At(store, acts, i), acts[i];
      && a.id in s.handles
      && (var h := s.handles[a.id];
          && v in Object(s.store, h.key).hist && IsSlice(v.content, a.off, a.n, a.reply.bytes)
          && At(store, acts, i + 1).got == s.got + [Got(h.key, h.stmt, a.off, a.reply.bytes)]
          && OpenedAt(acts, p, i, a.id, h.key) && q <= p && FirstOpening(store, acts, q, h.key) && SameStatement(acts, q, p, h.key)
          && (var first := acts[q].head;
              && (a.reply.total >= 0 ==> |v.content| == first.len)
              && (a.reply.total >= 0 && !NamesVersion(first) ==> |v.content| == acts[p].head.len)
              && (Strong(first.etag) ==> v.etag == first.etag)
              && (NamesVersion(first) && NoneForbidden(acts, p, i, a.id) ==> v.vid == first.vid)))
  {
    var s, a := At(store, acts, i), acts[i];
    LegalPrefix(Start(store), acts, i + 1, |acts|);
    p, q := HandlePin(store, acts, i, a.id);
    var h := s.handles[a.id];
    v :| Served(Object(s.store, h.key), h.pin, a.off, a.n, a.reply, v);
    SelectedInHist(Object(s.store, h.key), h.pin.query, v);
  }

  /** Nothing else is refused: a handle whose request selects a version of the pinned length, with the
      pinned ETag if there is one, gets the range it asked for. */
  lemma {:induction false} MatchingReadGives(s: State, id: nat, off: nat, n: nat, reply: Reply, v: Version)
    requires id in s.handles && reply.status == 206
    requires var h := s.handles[id]; Served(Object(s.store, h.key), h.pin, off, n, reply, v) && |v.content| == h.pin.len
    ensures var h := s.handles[id];
      Apply(s, Read(id, off, n, reply)) == s.(got := s.got + [Got(h.key, h.stmt, off, v.content[off..off + n])])
  {
  }

  /** And an open that sees the version the first open saw gets a handle with that version's pin. */
  lemma {:induction false} SameVersionOpens(s: State, id: nat, k: Key, a: Version)
    requires k in s.pins ==> s.pins[k] == PinOf(HeadOf(a))
    ensures var t := Apply(s, Open(id, k, HeadOf(a)));
      && id in t.handles && t.handles[id].key == k && t.handles[id].stmt == s.stmt
      && t.handles[id].pin == Pin(|a.content|, if Strong(a.etag) then a.etag else "", if NamesVersion(HeadOf(a)) then Some(a.vid) else None)
  {
  }

  // ----- the client as code

  class Session {
    var pins: map<Key, Pin>
    const pinReads: bool

    constructor (pinning: bool)
      ensures pins == map[] && pinReads == pinning
    {
      pins, pinReads := map[], pinning;
    }

    /** objstore_open after its HEAD: the pin the new handle gets. With pinning off it has none. */
    method OpenHandle(k: Key, head: Head) returns (r: Result<Pin>)
      modifies this
      ensures !pinReads && head.status == 200 && head.len >= 0 ==> r == Ok(Pin(head.len, "", None)) && pins == old(pins)
      ensures pinReads ==> var o := OpenPin(old(pins), k, head);
        if o.Err? then r == Err && pins == old(pins) else r == Ok(o.value.1) && pins == o.value.0
    {
      if head.status != 200 || head.len < 0 { return Err; }
      var pin := Pin(head.len, "", None);
      if !pinReads { return Ok(pin); }
      if !Weak(head.etag) { pin := pin.(etag := head.etag); }
      if head.vid != "" && head.vid != "null" { pin := pin.(query := Some(head.vid)); }
      if k !in pins {
        pins := pins[k := pin];
      } else {
        var p := pins[k];
        if p.query.Some? {
          pin := p;
        } else if p.len != pin.len || (p.etag != "" && p.etag != pin.etag) {
          return Err;
        }
      }
      r := Ok(pin);
    }

    /** A finished export forgets the pin of the object it wrote. */
    method Wrote(k: Key)
      modifies this
      ensures pins == old(pins) - {k}
    {
      pins := pins - {k};
    }

    method NextStatement()
      modifies this
      ensures pins == map[]
    {
      pins := map[];
    }
  }

  class ObjHandle {
    var pin: Pin

    constructor (p: Pin)
      ensures pin == p
    {
      pin := p;
    }

    /** objstore_read: at most one retry, without the version but with the same If-Match; then bytes
        exactly of a 206 that states no length or the pinned one. */
    method Fetch(first: Reply, second: Reply) returns (r: Result<seq<Byte>>)
      modifies this
      ensures var retried := first.status == 403 && old(pin).query.Some?; var reply := if retried then second else first;
        && pin == old(pin).(query := if retried then None else old(pin).query)
        && (r.Ok? <==> reply.status == 206 && (reply.total < 0 || reply.total == old(pin).len))
        && (r.Ok? ==> r.value == reply.bytes)
      ensures var o := ReadOnce(old(pin), first);
        match o
        case Bytes(b) => r == Ok(b) && pin == old(pin)
        case Refused => r == Err && pin == old(pin)
        case Retry(p) => pin == p == old(pin).(query := None) && r == (if ReadOnce(p, second).Bytes? then Ok(ReadOnce(p, second).bytes) else Err)
    {
      var reply := first;
      if reply.status == 403 && pin.query.Some? {
        pin := pin.(query := None);
        reply := second;
      }
      if reply.status != 206 { return Err; }
      if reply.total >= 0 && reply.total != pin.len { return Err; }
      r := Ok(reply.bytes);
    }
  }
}
