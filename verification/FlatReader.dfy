module FlatReader {
  /**
   The bounds-checked FlatBuffers reader of src/columnar_arrow.c. Positions count from the start of
   the metadata block; a field that is absent has position 0.
   */

  import opened Prelude
  import opened Bits
  import opened BitPack

  /** fbr_u8 / u16 / u32 / i64: k bytes at pos, little-endian. */
  function Unsigned(s: seq<Byte>, pos: nat, k: nat): Result<nat> {
    if pos + k > |s| then Err else Ok(FromLE(s[pos..pos + k]))
  }

  /** fbr_i32 */
  function Signed32(s: seq<Byte>, pos: nat): Result<int> {
    var u := Unsigned(s, pos, 4);
    if u.Err? then Err else Ok(if u.value < TWO31 then u.value else u.value - TWO32)
  }

  /** pgc_fb_field: position of field i of the table at tab, 0 when it is absent. */
  function FieldPos(s: seq<Byte>, tab: nat, i: nat): Result<nat> {
    var soff := Signed32(s, tab);
    if soff.Err? || tab - soff.value < 0 || tab - soff.value + 4 > |s| then Err
    else VtableField(s, tab, tab - soff.value, i)
  }

  function VtableField(s: seq<Byte>, tab: nat, vt: nat, i: nat): Result<nat> {
    var vtsize := Unsigned(s, vt, 2);
    if vtsize.Err? then Err
    else if 4 + 2 * i >= vtsize.value then Ok(0)
    else
      var voff := Unsigned(s, vt + 4 + 2 * i, 2);
      if voff.Err? then Err else Ok(if voff.value == 0 then 0 else tab + voff.value)
  }

  /** pgc_fb_indirect: where the offset stored at pos points. */
  function Indirect(s: seq<Byte>, pos: nat): Result<nat> {
    var u := Unsigned(s, pos, 4);
    if u.Err? then Err else Ok(pos + u.value)
  }

  // ----- bytes in front shift every position and change nothing else

  lemma {:induction false} UnsignedShift(pre: seq<Byte>, s: seq<Byte>, pos: nat, k: nat)
    ensures Unsigned(pre + s, |pre| + pos, k) == Unsigned(s, pos, k)
  {
    if pos + k <= |s| { assert (pre + s)[|pre| + pos..|pre| + pos + k] == s[pos..pos + k]; }
  }

  lemma {:induction false} FieldShift(pre: seq<Byte>, s: seq<Byte>, tab: nat, i: nat)
    requires FieldPos(s, tab, i).Ok?
    ensures FieldPos(pre + s, |pre| + tab, i) ==
      if FieldPos(s, tab, i) == Ok(0) then Ok(0) else Ok(|pre| + FieldPos(s, tab, i).value)
  {
    hide Unsigned;
    UnsignedShift(pre, s, tab, 4);
    var vt := tab - Signed32(s, tab).value;
    UnsignedShift(pre, s, vt, 2);
    UnsignedShift(pre, s, vt + 4 + 2 * i, 2);
  }

  lemma {:induction false} IndirectShift(pre: seq<Byte>, s: seq<Byte>, pos: nat)
    requires Indirect(s, pos).Ok?
    ensures Indirect(pre + s, |pre| + pos) == Ok(|pre| + Indirect(s, pos).value)
  {
    UnsignedShift(pre, s, pos, 4);
  }

  /** A stored number is read back. */
  lemma {:induction false} UnsignedBack(pre: seq<Byte>, v: nat, k: nat, post: seq<Byte>)
    requires v < Pow2(8 * k)
    ensures Unsigned(pre + (ToLE(v, k) + post), |pre|, k) == Ok(v)
  {
    var s := pre + (ToLE(v, k) + post);
    assert s[|pre|..|pre| + k] == ToLE(v, k);
    ToFromLE(v, k);
  }

  // ----- tables of any writer

  /** v stands at pos in k bytes, little-endian. */
  ghost predicate HoldsAt(s: seq<Byte>, pos: nat, k: nat, v: nat) { pos + k <= |s| && s[pos..pos + k] == ToLE(v, k) }

  /** A table by the FlatBuffers format: at tab the signed distance from its vtable, which may lie on
      either side of it; the vtable is its own size, the table's, and an offset for each of its fields. */
  ghost predicate TableAt(s: seq<Byte>, tab: nat, vt: nat, tableSize: nat, offs: seq<nat>) {
    && vt <= tab + TWO31 && tab < vt + TWO31 && HoldsAt(s, tab, 4, if tab >= vt then tab - vt else TWO32 + tab - vt)
    && 4 + 2 * |offs| < 65536 && HoldsAt(s, vt, 2, 4 + 2 * |offs|)
    && tableSize < 65536 && HoldsAt(s, vt + 2, 2, tableSize)
    && forall i | 0 <= i < |offs| :: offs[i] < 65536 && HoldsAt(s, vt + 4 + 2 * i, 2, offs[i])
  }

  lemma {:induction false} HeldReads(s: seq<Byte>, pos: nat, k: nat, v: nat)
    requires HoldsAt(s, pos, k, v) && (k == 2 || k == 4) && v < (if k == 2 then 65536 else TWO32)
    ensures Unsigned(s, pos, k) == Ok(v)
  {
    hide ToLE, FromLE, Pow2;
    Pow2Of8();
    Pow2Add(8, 8);
    Pow2Add(16, 16);
    ToFromLE(v, k);
  }

  /** The reader finds the fields of every such table, and those the vtable does not reach are absent. */
  lemma {:induction false} FieldOfTable(s: seq<Byte>, tab: nat, vt: nat, tableSize: nat, offs: seq<nat>, i: nat)
    requires TableAt(s, tab, vt, tableSize, offs)
    ensures FieldPos(s, tab, i) == Ok(if i < |offs| && offs[i] != 0 then tab + offs[i] else 0)
  {
    hide HoldsAt, Unsigned;
    HeldReads(s, tab, 4, if tab >= vt then tab - vt else TWO32 + tab - vt);
    HeldReads(s, vt, 2, 4 + 2 * |offs|);
    HeldInside(s, vt + 2, 2, tableSize);
    if i < |offs| { HeldReads(s, vt + 4 + 2 * i, 2, offs[i]); }
  }

  lemma {:induction false} HeldInside(s: seq<Byte>, pos: nat, k: nat, v: nat)
    requires HoldsAt(s, pos, k, v)
    ensures pos + k <= |s|
  {
  }
}
