module DeleteMask {
  /**
   src/columnar_delete_vector.c, the bitmaps: one bit per row of a row group, set in memory and
   merged into the catalog by an upsert that works in place on the bitmap it is passed.
   */

  import opened Bits

  /** The rows a bitmap marks; bit 0 is row `start`. */
  ghost function Rows(mask: seq<Byte>, start: nat): set<nat> {
    set p: nat | p < 8 * |mask| && StreamBit(mask, p) :: start + p
  }

  lemma {:induction false} InRows(mask: seq<Byte>, start: nat, row: nat)
    ensures row in Rows(mask, start) <==> row >= start && row - start < 8 * |mask| && StreamBit(mask, row - start)
  {
    if row >= start && row - start < 8 * |mask| && StreamBit(mask, row - start) {
      var p: nat := row - start;
      assert start + p == row;
    }
  }

  /** PgColumnarMarkRowDeleted: mask[bit >> 3] |= 1 << (bit & 7). */
  method MarkBit(mask: array<Byte>, start: nat, bit: nat)
    requires bit < 8 * mask.Length
    modifies mask
    ensures Rows(mask[..], start) == old(Rows(mask[..], start)) + {start + bit}
  {
    var k := bit / 8;
    ShlBound(bit % 8, 8);
    Pow2Of8();
    OrFits(mask[k], Shl(1, bit % 8));
    ghost var before := mask[..];
    mask[k] := Or(mask[k], Shl(1, bit % 8));
    forall p: nat | p < 8 * mask.Length
      ensures StreamBit(mask[..], p) == (StreamBit(before, p) || p == bit)
    {
      if p / 8 == k {
        BitOr(before[k], Shl(1, bit % 8), p % 8);
        BitOne(bit % 8, p % 8);
      }
    }
    forall row ensures row in Rows(mask[..], start) <==> row in Rows(before, start) + {start + bit} {
      if row >= 0 {
        InRows(mask[..], start, row);
        InRows(before, start, row);
      }
    }
  }

  /** dv_row_deleted: the membership test of a buffered mark. */
  method RowDeleted(mask: seq<Byte>, start: nat, row: nat) returns (deleted: bool)
    ensures deleted <==> row in Rows(mask, start)
  {
    InRows(mask, start, row);
    if row < start || row - start >= 8 * |mask| {
      return false;
    }
    var bit := row - start;
    BitShr(mask[bit / 8], bit % 8, 0);
    deleted := Shr(mask[bit / 8], bit % 8) % 2 == 1;
  }

  /** PgColumnarUpsertDeleteVector: or the stored bits into `bitmap` in place, then store it. */
  method Upsert(stored: seq<Byte>, bitmap: array<Byte>, ghost start: nat) returns (stored': seq<Byte>)
    requires |stored| == 0 || |stored| == bitmap.Length
    modifies bitmap
    ensures stored' == bitmap[..]
    ensures Rows(stored', start) == Rows(stored, start) + old(Rows(bitmap[..], start))
  {
    ghost var own := bitmap[..];
    for i := 0 to |stored|
      invariant forall k | 0 <= k < bitmap.Length ::
        bitmap[k] == if k < i then (OrFits(own[k], stored[k]); Or(own[k], stored[k])) else own[k]
    {
      OrFits(bitmap[i], stored[i]);
      bitmap[i] := Or(bitmap[i], stored[i]);
    }
    stored' := bitmap[..];
    forall row ensures row in Rows(stored', start) <==> row in Rows(stored, start) + Rows(own, start) {
      if row >= 0 {
        InRows(stored', start, row);
        InRows(stored, start, row);
        InRows(own, start, row);
        if row >= start && row - start < 8 * |stored| {
          BitOr(own[(row - start) / 8], stored[(row - start) / 8], (row - start) % 8);
        }
      }
    }
  }

  /** The chunk loop of delete_vector_flush_buffer: a kept mask is copied before the upsert, so
      it stays the owner's marks alone. */
  method FlushChunk(mask: array<Byte>, stored: seq<Byte>, keep: bool, ghost start: nat) returns (stored': seq<Byte>)
    requires |stored| == 0 || |stored| == mask.Length
    modifies mask
    ensures |stored'| == mask.Length && Rows(stored', start) == Rows(stored, start) + old(Rows(mask[..], start))
    ensures keep ==> mask[..] == old(mask[..])
  {
    var bitmap := mask;
    if keep {
      bitmap := new Byte[mask.Length](i requires 0 <= i < mask.Length reads mask => mask[i]);
      assert bitmap[..] == mask[..];
    }
    stored' := Upsert(stored, bitmap, start);
  }
}
