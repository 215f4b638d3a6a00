module DeleteFlush {
  /**
   src/columnar_delete_vector.c, the buffers as they are held: chunk bitmaps updated in place. Marking
   a row and a read's flush are shown to do to the bitmaps what the state machine of DeleteVector does
   to row sets; the copy made for a kept mask is what makes it so. A row group is named by its number,
   its first row and its row count.
   */

  import opened Prelude
  import opened Bits
  import opened DeleteMask
  import DeleteVector

  datatype RowGroup = RowGroup(number: nat, first: nat, count: nat)

  function MaskLen(g: RowGroup): nat { (g.count + 7) / 8 }

  /** One stored bitmap per row group with deleted rows. */
  type Catalog = map<RowGroup, seq<Byte>>

  ghost predicate GoodCatalog(cat: Catalog) { forall g | g in cat :: |cat[g]| == MaskLen(g) }

  /** The rows the catalog marks. */
  ghost function CatalogRows(cat: Catalog): set<nat> {
    set g, r | g in cat && r in Rows(cat[g], g.first) :: r
  }

  function Stored(cat: Catalog, g: RowGroup): seq<Byte> { if g in cat then cat[g] else [] }

  lemma {:induction false} CatalogPut(cat: Catalog, g: RowGroup, bitmap: seq<Byte>, add: set<nat>)
    requires Rows(bitmap, g.first) == Rows(Stored(cat, g), g.first) + add
    ensures CatalogRows(cat[g := bitmap]) == CatalogRows(cat) + add
  {
    hide Rows;
    var put := cat[g := bitmap];
    assert Rows([], g.first) == {} by { NoRows(g.first); }
    forall r | r in CatalogRows(cat) + add ensures r in CatalogRows(put) {
      if r in add {
        assert r in Rows(put[g], g.first);
      } else {
        var h :| h in cat && r in Rows(cat[h], h.first);
        assert r in Rows(put[h], h.first);
      }
    }
    forall r | r in CatalogRows(put) ensures r in CatalogRows(cat) + add {
      var h :| h in put && r in Rows(put[h], h.first);
    }
  }

  lemma {:induction false} NoRows(start: nat)
    ensures Rows([], start) == {}
  {
  }

  // ----- the chunks of a buffer

  datatype Chunk = Chunk(group: RowGroup, mask: array<Byte>)

  /** What a chunk holds at the moment. */
  datatype Held = Held(group: RowGroup, bits: seq<Byte>)

  ghost function Masks(cs: seq<Chunk>): set<array<Byte>> { set i | 0 <= i < |cs| :: cs[i].mask }

  lemma {:induction false} MasksOf(cs: seq<Chunk>)
    ensures forall i | 0 <= i < |cs| :: cs[i].mask in Masks(cs)
    ensures forall c :: Masks(cs + [c]) == Masks(cs) + {c.mask}
  {
    forall c ensures Masks(cs + [c]) == Masks(cs) + {c.mask} {
      var more := cs + [c];
      assert more[|cs|] == c;
      assert forall i | 0 <= i < |cs| :: more[i] == cs[i] && more[i].mask in Masks(more);
    }
  }

  ghost function Snap(cs: seq<Chunk>): (hs: seq<Held>)
    reads Masks(cs)
    ensures |hs| == |cs| && forall i | 0 <= i < |cs| :: hs[i] == Held(cs[i].group, cs[i].mask[..])
  {
    assert forall i | 0 <= i < |cs| :: cs[i].mask in Masks(cs);
    seq(|cs|, i requires 0 <= i < |cs| reads Masks(cs) => Held(cs[i].group, cs[i].mask[..]))
  }

  /** The rows the first k chunks mark. */
  ghost function Marked(hs: seq<Held>, k: nat): set<nat>
    requires k <= |hs|
  {
    if k == 0 then {} else Marked(hs, k - 1) + Rows(hs[k - 1].bits, hs[k - 1].group.first)
  }

  lemma {:induction false} InMarked(hs: seq<Held>, k: nat, r: nat)
    requires k <= |hs|
    ensures r in Marked(hs, k) <==> exists i :: 0 <= i < k && r in Rows(hs[i].bits, hs[i].group.first)
  {
    hide Rows;
    if k > 0 { InMarked(hs, k - 1, r); }
  }

  ghost predicate GoodHeld(h: Held) { |h.bits| == MaskLen(h.group) && Rows(h.bits, h.group.first) != {} }

  /** Every mask is its own, of its group's size, and has a mark. */
  ghost predicate GoodChunks(cs: seq<Chunk>)
    reads Masks(cs)
  {
    && (forall i, j | 0 <= i < j < |cs| :: cs[i].mask != cs[j].mask)
    && forall i | 0 <= i < |cs| :: GoodHeld(Snap(cs)[i])
  }

  lemma {:induction false} MarkedEmpty(hs: seq<Held>)
    requires forall i | 0 <= i < |hs| :: GoodHeld(hs[i])
    ensures Marked(hs, |hs|) == {} <==> hs == []
  {
    hide Rows;
    if hs != [] {
      var r :| r in Rows(hs[0].bits, hs[0].group.first);
      InMarked(hs, |hs|, r);
    }
  }

  /** delete_vector_flush_buffer's loop over the chunks. */
  method FlushChunks(cs: seq<Chunk>, stored: Catalog, keep: bool) returns (cat: Catalog)
    requires GoodChunks(cs) && GoodCatalog(stored)
    modifies Masks(cs)
    ensures GoodCatalog(cat) && CatalogRows(cat) == CatalogRows(stored) + old(Marked(Snap(cs), |cs|))
    ensures keep ==> Snap(cs) == old(Snap(cs))
  {
    hide Rows, CatalogRows;
    cat := stored;
    for i := 0 to |cs|
      invariant GoodCatalog(cat) && CatalogRows(cat) == CatalogRows(stored) + old(Marked(Snap(cs), i))
      invariant forall k | 0 <= k < |cs| && (keep || i <= k) :: cs[k].mask[..] == old(cs[k].mask[..])
    {
      var g := cs[i].group;
      assert cs[i].mask in Masks(cs) && old(GoodHeld(Snap(cs)[i]));
      var bitmap := FlushChunk(cs[i].mask, Stored(cat, g), keep, g.first);
      CatalogPut(cat, g, bitmap, old(Rows(Snap(cs)[i].bits, g.first)));
      cat := cat[g := bitmap];
    }
  }

  // ----- the buffers

  class MaskBuffer {
    var owner: nat
    var flushedUnder: nat
    var chunks: seq<Chunk>

    ghost predicate Valid()
      reads this, Masks(chunks)
    {
      GoodChunks(chunks)
    }

    /** The buffer as the state machine has it. */
    ghost function View(): DeleteVector.Buffer
      reads this, Masks(chunks)
    {
      DeleteVector.Buffer(owner, flushedUnder, Marked(Snap(chunks), |chunks|))
    }

    constructor (sub: nat)
      ensures Valid() && chunks == [] && View() == DeleteVector.Buffer(sub, DeleteVector.INVALID, {})
    {
      owner, flushedUnder, chunks := sub, DeleteVector.INVALID, [];
    }

    /** delete_vector_get_chunk: the chunk of a group, found or appended blank. */
    method ChunkOf(g: RowGroup) returns (i: nat)
      requires Valid()
      modifies this`chunks
      ensures i < |chunks| && chunks[i].group == g && fresh(Masks(chunks) - old(Masks(chunks)))
      ensures chunks == old(chunks) || (i == |old(chunks)| && chunks == old(chunks) + [chunks[i]]
        && fresh(chunks[i].mask) && chunks[i].mask.Length == MaskLen(g) && Rows(chunks[i].mask[..], g.first) == {})
    {
      i := 0;
      while i < |chunks| && chunks[i].group != g
        invariant 0 <= i <= |chunks|
      {
        i := i + 1;
      }
      if i == |chunks| {
        var mask := new Byte[MaskLen(g)](_ => 0);
        Blank(mask[..], g.first);
        chunks := chunks + [Chunk(g, mask)];
      }
    }

    /** PgColumnarMarkRowDeleted: find or create the chunk of the row's group and set its bit. */
    method MarkRow(g: RowGroup, row: nat)
      requires Valid() && g.first <= row < g.first + g.count
      modifies this`chunks, Masks(chunks)
      ensures Valid() && fresh(Masks(chunks) - old(Masks(chunks)))
      ensures View() == old(View()).(marks := old(View()).marks + {row})
    {
      hide Rows, Marked, Masks;
      ghost var before, was := Snap(chunks), chunks;
      MasksOf(was);
      assert forall k | 0 <= k < |was| :: GoodHeld(before[k]);
      var i := ChunkOf(g);
      MasksOf(chunks);
      assert forall k | 0 <= k < |was| :: was[k] == chunks[k] && was[k].mask[..] == before[k].bits;
      assert forall k | 0 <= k < |chunks| && k != i :: k < |was| && chunks[k].mask != chunks[i].mask;
      assert chunks[i].mask.Length == MaskLen(g);
      MarkBit(chunks[i].mask, g.first, row - g.first);
      ghost var now := Snap(chunks);
      assert forall k | 0 <= k < |was| && k != i :: now[k] == before[k];
      assert row in Rows(now[i].bits, g.first);
      MarkedPlus(before, now, i, g, row);
      assert forall k | 0 <= k < |chunks| :: GoodHeld(now[k]);
    }

    /** delete_vector_flush_buffer: write the marks, and keep or reset the buffer. */
    method Flush(stored: Catalog, keep: bool) returns (cat: Catalog)
      requires Valid() && GoodCatalog(stored)
      modifies this`chunks, Masks(chunks)
      ensures Valid() && chunks == if keep then old(chunks) else []
      ensures GoodCatalog(cat) && CatalogRows(cat) == CatalogRows(stored) + old(View()).marks
      ensures View() == if keep then old(View()) else old(View()).(marks := {})
    {
      if chunks == [] { return stored; }
      cat := FlushChunks(chunks, stored, keep);
      if !keep { chunks := []; }
    }
  }

  lemma {:induction false} Blank(mask: seq<Byte>, start: nat)
    requires forall k | 0 <= k < |mask| :: mask[k] == 0
    ensures Rows(mask, start) == {}
  {
    forall p: nat | p < 8 * |mask| ensures !StreamBit(mask, p) { BitZero(p % 8); }
  }

  /** Chunk i gained the row, or is new with the row alone. */
  lemma {:induction false} MarkedPlus(was: seq<Held>, now: seq<Held>, i: nat, g: RowGroup, row: nat)
    requires i < |now| && (|was| == |now| || (|was| == i && |now| == i + 1)) && now[i].group == g
    requires forall k | 0 <= k < |was| && k != i :: was[k] == now[k]
    requires i < |was| ==> was[i].group == g
    requires Rows(now[i].bits, g.first) == (if i < |was| then Rows(was[i].bits, g.first) else {}) + {row}
    ensures Marked(now, |now|) == Marked(was, |was|) + {row}
  {
    hide Rows;
    forall r: nat ensures r in Marked(now, |now|) <==> r in Marked(was, |was|) + {row} {
      InMarked(now, |now|, r);
      InMarked(was, |was|, r);
      if r == row { assert r in Rows(now[i].bits, now[i].group.first); }
      if k :| 0 <= k < |was| && r in Rows(was[k].bits, was[k].group.first) {
        assert r in Rows(now[k].bits, now[k].group.first);
      }
    }
  }

  // ----- a read's flush

  /** One buffer of the loop. */
  method FlushOne(b: MaskBuffer, stored: Catalog, cur: nat) returns (cat: Catalog)
    requires b.Valid() && GoodCatalog(stored)
    modifies b, Masks(b.chunks)
    ensures b.Valid() && Masks(b.chunks) <= old(Masks(b.chunks)) && GoodCatalog(cat)
    ensures b.View() == DeleteVector.FlushOne(old(b.View()), cur)
    ensures CatalogRows(cat) == CatalogRows(stored) + if old(b.flushedUnder) != DeleteVector.INVALID then {} else old(b.View()).marks
  {
    hide CatalogRows, Rows, Marked;
    cat := stored;
    if b.flushedUnder == DeleteVector.INVALID {
      var keep := b.owner != cur;
      MarkedEmpty(Snap(b.chunks));
      cat := b.Flush(cat, keep);
      if keep && b.chunks != [] { b.flushedUnder := cur; }
    }
  }

  /** The masks the buffers had at the start: no two share one. */
  ghost predicate Apart(bs: seq<MaskBuffer>, masks: seq<set<array<Byte>>>) {
    |masks| == |bs| && forall i, j | 0 <= i < j < |bs| :: bs[i] != bs[j] && masks[i] !! masks[j]
  }

  ghost predicate Within(b: MaskBuffer, masks: set<array<Byte>>)
    reads b, Masks(b.chunks)
  {
    b.Valid() && Masks(b.chunks) <= masks
  }

  /** A step of the loop touches its buffer only. */
  method FlushAt(bs: seq<MaskBuffer>, i: nat, stored: Catalog, cur: nat, ghost masks: seq<set<array<Byte>>>) returns (cat: Catalog)
    requires i < |bs| && Apart(bs, masks) && GoodCatalog(stored) && forall k | 0 <= k < |bs| :: Within(bs[k], masks[k])
    modifies bs[i], Masks(bs[i].chunks)
    ensures GoodCatalog(cat) && forall k | 0 <= k < |bs| :: Within(bs[k], masks[k])
    ensures bs[i].View() == DeleteVector.FlushOne(old(bs[i].View()), cur)
    ensures forall k | 0 <= k < |bs| && k != i :: bs[k].View() == old(bs[k].View())
    ensures CatalogRows(cat) == CatalogRows(stored) + if old(bs[i].flushedUnder) != DeleteVector.INVALID then {} else old(bs[i].View()).marks
  {
    hide CatalogRows, Marked, Masks, GoodChunks, Snap, GoodCatalog, DeleteVector.FlushOne;
    assert forall k | 0 <= k < |bs| && k != i :: bs[k] != bs[i] && Masks(bs[k].chunks) !! Masks(bs[i].chunks) && Within(bs[k], masks[k]);
    assert Within(bs[i], masks[i]);
    cat := FlushOne(bs[i], stored, cur);
  }

  /** PgColumnarFlushDeleteVectorForRelation on bitmaps. Where they represent a state of the machine
      before, they represent the state after its Read step. `masks` are the buffers' masks. */
  method FlushForRelation(bs: seq<MaskBuffer>, stored: Catalog, ghost s: DeleteVector.State,
                          ghost masks: seq<set<array<Byte>>>, ghost all: set<array<Byte>>, cur: nat) returns (cat: Catalog)
    requires DeleteVector.Enabled(s, DeleteVector.Read) && cur == DeleteVector.Current(s)
    requires Apart(bs, masks) && GoodCatalog(stored) && forall k | 0 <= k < |bs| :: masks[k] <= all
    requires |s.buffers| == |bs| && CatalogRows(stored) == s.catalog
    requires forall k | 0 <= k < |bs| :: Within(bs[k], masks[k]) && bs[k].View() == s.buffers[k]
    modifies bs, all
    ensures GoodCatalog(cat) && forall k | 0 <= k < |bs| :: Within(bs[k], masks[k])
    ensures var t := DeleteVector.Step(s, DeleteVector.Read);
      && CatalogRows(cat) == t.catalog && |t.buffers| == |bs|
      && forall k | 0 <= k < |bs| :: bs[k].View() == t.buffers[k]
  {
    hide CatalogRows, Marked, Masks, GoodChunks, Snap, GoodCatalog, DeleteVector.FlushOne;
    cat := stored;
    for i := 0 to |bs|
      invariant GoodCatalog(cat)
      invariant forall k | 0 <= k < |bs| :: Within(bs[k], masks[k])
      invariant forall k | 0 <= k < i :: bs[k].View() == DeleteVector.FlushOne(s.buffers[k], cur)
      invariant forall k | i <= k < |bs| :: bs[k].View() == s.buffers[k]
      invariant CatalogRows(cat) == s.catalog + DeleteVector.Unwritten(s.buffers, i)
    {
      assert Within(bs[i], masks[i]) && bs[i].View() == s.buffers[i];
      cat := FlushAt(bs, i, cat, cur, masks);
    }
  }
}
