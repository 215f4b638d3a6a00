module AvroReader {
  /**
   src/columnar_avro.c as code: the cursor record and the decoders over it. Each method either sets
   the error flag, exactly when the function of AvroSpec fails, or ends at that function's position
   with its value.
   */

  import opened Prelude
  import opened Bits
  import opened BitPack
  import opened Words
  import opened AvroSpec

  class Reader {
    const buf: seq<Byte>
    var pos: nat
    var error: bool

    ghost predicate Valid() reads this { !error && pos <= |buf| }

    /** The state a function result calls for. */
    ghost predicate Did<T>(r: Result<At<T>>)
      reads this
    {
      if r.Err? then error else !error && pos == r.value.pos <= |buf|
    }

    ghost predicate Moved(r: Result<nat>)
      reads this
    {
      if r.Err? then error else !error && pos == r.value <= |buf|
    }

    constructor (bytes: seq<Byte>)
      ensures buf == bytes && pos == 0 && Valid()
    {
      buf, pos, error := bytes, 0, false;
    }

    method Varint() returns (v: nat)
      requires Valid()
      modifies this
      ensures Did(VarintAt(buf, old(pos))) && (!error ==> v == VarintAt(buf, old(pos)).value.value)
      ensures error ==> v == 0 && pos == if |buf| - old(pos) < 10 then |buf| else old(pos) + 10
    {
      hide Or, Shl;
      v := 0;
      var shift := 0;
      while pos < |buf|
        invariant Valid() && VarintAt(buf, old(pos)) == VarintFrom(buf, pos, v, shift)
        invariant old(pos) <= pos && shift == 7 * (pos - old(pos)) <= 63
        decreases |buf| - pos
      {
        var b := buf[pos];
        pos := pos + 1;
        v := Or(v, Shl(b % 128, shift) % TWO64);
        if b < 128 { return; }
        shift := shift + 7;
        if shift > 63 { break; }
      }
      error := true;
      v := 0;
    }

    method Long() returns (v: int)
      requires Valid()
      modifies this
      ensures Did(LongAt(buf, old(pos))) && (!error ==> v == LongAt(buf, old(pos)).value.value)
    {
      hide VarintAt, UnZigZag;
      var u := Varint();
      v := SignedOf(UnZigZag(u % TWO64));
    }

    method Take(n: int) returns (s: seq<Byte>)
      requires Valid()
      modifies this
      ensures Did(TakeAt(buf, old(pos), n)) && (!error ==> s == TakeAt(buf, old(pos), n).value.value)
    {
      s := [];
      if n < 0 || n > |buf| - pos {
        error := true;
        return;
      }
      s := buf[pos..pos + n];
      pos := pos + n;
    }

    method BytesField() returns (s: seq<Byte>)
      requires Valid()
      modifies this
      ensures Did(BytesAt(buf, old(pos))) && (!error ==> s == BytesAt(buf, old(pos)).value.value)
    {
      hide LongAt;
      s := [];
      var n := Long();
      if error { return; }
      s := Take(n);
    }

    /** The block header shared by the array readers; 0 ends the array. */
    method Block(cap: nat) returns (cnt: int)
      requires Valid()
      modifies this
      ensures Did(BlockAt(buf, old(pos), cap)) && (!error ==> cnt == BlockAt(buf, old(pos), cap).value.value)
    {
      hide LongAt;
      cnt := Long();
      if error { return; }
      if cnt < 0 {
        if cnt + cap < 0 {
          error := true;
          return;
        }
        cnt := -cnt;
        var size := Long();
        if error { return; }
      }
      if cnt > cap { error := true; }
    }

    /** av_skip */
    method SkipValue(s: Sch)
      requires Valid()
      modifies this
      ensures Moved(Skip(buf, old(pos), s))
      decreases s, 1, 0, 0
    {
      hide LongAt, BytesAt, BlockAt;
      match s
      case ANull =>
      case ABool => var _ := Take(1);
      case AInt => var _ := Long();
      case ALong => var _ := Long();
      case AEnum => var _ := Long();
      case AFloat => var _ := Take(4);
      case ADouble => var _ := Take(8);
      case ABytes => var _ := BytesField();
      case AString => var _ := BytesField();
      case AFixed(n) => var _ := Take(n);
      case ARecord(fs) => SkipRecord(s);
      case AUnion(bs) =>
        var idx := Long();
        if error { return; }
        if idx < 0 || idx >= |bs| {
          error := true;
          return;
        }
        SkipValue(bs[idx]);
      case AArray(_) => SkipAll(s);
      case AMap(_) => SkipAll(s);
    }

    method SkipRecord(s: Sch)
      requires Valid() && s.ARecord?
      modifies this
      ensures Moved(SkipFields(buf, old(pos), s, |s.fields|))
      decreases s, 0, 0, |s.fields|
    {
      hide Skip;
      var i := 0;
      while i < |s.fields|
        invariant i <= |s.fields| && Valid() && SkipFields(buf, old(pos), s, i) == Ok(pos)
      {
        SkipValue(s.fields[i].ty);
        i := i + 1;
        if error {
          FieldsErr(buf, old(pos), s, i, |s.fields|);
          return;
        }
      }
    }

    method SkipAll(s: Sch)
      requires Valid() && (s.AArray? || s.AMap?)
      modifies this
      ensures Moved(SkipBlocks(buf, old(pos), s))
      decreases s, 0, |buf| - pos, MAX_OBJECTS + 1
    {
      hide BlockAt, SkipItems;
      while true
        invariant Valid() && pos >= old(pos) && SkipBlocks(buf, old(pos), s) == SkipBlocks(buf, pos, s)
        decreases |buf| - pos
      {
        var cnt := Block(MAX_OBJECTS);
        if error || cnt == 0 { return; }
        SkipSome(s, cnt);
        if error { return; }
      }
    }

    method SkipSome(s: Sch, cnt: nat)
      requires Valid() && (s.AArray? || s.AMap?)
      modifies this
      ensures Moved(SkipItems(buf, old(pos), s, cnt))
      ensures !error ==> pos >= old(pos)
      decreases s, 0, 0, 0
    {
      hide Skip, BytesAt;
      for i := 0 to cnt
        invariant Valid() && SkipItems(buf, old(pos), s, i) == Ok(pos)
      {
        if s.AMap? {
          var _ := BytesField();
          if error {
            ItemsErr(buf, old(pos), s, i + 1, cnt);
            return;
          }
          SkipValue(s.values);
        } else {
          SkipValue(s.items);
        }
        if error {
          ItemsErr(buf, old(pos), s, i + 1, cnt);
          return;
        }
      }
    }

    method Unwrap(s: Sch) returns (t: Sch, isnull: bool)
      requires Valid()
      modifies this
      ensures Did(UnwrapAt(buf, old(pos), s)) && (!error ==> UnwrapAt(buf, old(pos), s).value.value == Unwrapped(t, isnull))
    {
      hide LongAt;
      t, isnull := s, false;
      if !s.AUnion? { return; }
      var idx := Long();
      if error { return; }
      if idx < 0 || idx >= |s.branches| {
        error := true;
        return;
      }
      t := s.branches[idx];
      isnull := t.ANull?;
    }

    method ReadString(s: Sch) returns (v: Option<seq<Byte>>)
      requires Valid()
      modifies this
      ensures Did(StringAt(buf, old(pos), s)) && (!error ==> v == StringAt(buf, old(pos), s).value.value)
    {
      hide UnwrapAt, BytesAt, Skip;
      v := None;
      var t, isnull := Unwrap(s);
      if error || isnull { return; }
      if !t.AString? && !t.ABytes? {
        SkipValue(t);
        return;
      }
      var b := BytesField();
      v := Some(b);
    }

    method ReadLong(s: Sch) returns (v: Option<int>)
      requires Valid()
      modifies this
      ensures Did(LongField(buf, old(pos), s)) && (!error ==> v == LongField(buf, old(pos), s).value.value)
    {
      hide UnwrapAt, LongAt, Skip;
      v := None;
      var t, isnull := Unwrap(s);
      if error || isnull { return; }
      if !t.AInt? && !t.ALong? {
        SkipValue(t);
        return;
      }
      var n := Long();
      v := Some(n);
    }

    method ReadInt32(s: Sch) returns (v: Option<int>)
      requires Valid()
      modifies this
      ensures Did(Int32Field(buf, old(pos), s)) && (!error ==> v == Int32Field(buf, old(pos), s).value.value)
    {
      hide LongField;
      v := ReadLong(s);
      if !error && (OrNought(v) < INT32_MIN || OrNought(v) > INT32_MAX) { error := true; }
    }

    method IntElements(vals0: seq<int>, cnt: nat) returns (vals: seq<int>)
      requires Valid()
      modifies this
      ensures Did(IntItems(buf, old(pos), vals0, cnt)) && (!error ==> vals == IntItems(buf, old(pos), vals0, cnt).value.value)
    {
      hide LongAt;
      vals := vals0;
      for i := 0 to cnt
        invariant Valid() && IntItems(buf, old(pos), vals0, i) == Ok(At(vals, pos))
      {
        var v := Long();
        if error || v < 0 || v > INT32_MAX {
          error := true;
          IntItemsErr(buf, old(pos), vals0, i + 1, cnt);
          return;
        }
        vals := vals + [v];
      }
    }

    method ReadIntArray(s: Sch) returns (vals: seq<int>)
      requires Valid()
      modifies this
      ensures Did(IntArrayAt(buf, old(pos), s)) && (!error ==> vals == IntArrayAt(buf, old(pos), s).value.value)
    {
      hide UnwrapAt, BlockAt, IntItems, Skip;
      vals := [];
      var t, isnull := Unwrap(s);
      if error || isnull { return; }
      if !(t.AArray? && IsInt(t.items)) {
        SkipValue(t);
        return;
      }
      ghost var start := pos;
      while true
        invariant Valid() && IntBlocks(buf, start, []) == IntBlocks(buf, pos, vals)
        decreases |buf| - pos
      {
        var cnt := Block(MAX_EQUALITY_IDS);
        if error || cnt == 0 { return; }
        if |vals| + cnt > MAX_EQUALITY_IDS {
          error := true;
          return;
        }
        vals := IntElements(vals, cnt);
        if error { return; }
      }
    }

    // ----- bound maps

    method ReadBoundValue(s: Sch) returns (v: Option<seq<Byte>>)
      requires Valid()
      modifies this
      ensures Did(BoundValue(buf, old(pos), s)) && (!error ==> v == BoundValue(buf, old(pos), s).value.value)
    {
      hide UnwrapAt, LongAt, Skip;
      v := None;
      var t, isnull := Unwrap(s);
      if error || isnull { return; }
      if !t.ABytes? && !t.AString? {
        SkipValue(t);
        return;
      }
      var len := Long();
      if error { return; }
      if len < 0 || len > MAX_BOUND_LEN {
        error := true;
        return;
      }
      var b := Take(len);
      v := Some(b);
    }

    method ReadBoundField(f: Field, kv0: KeyValue) returns (kv: KeyValue)
      requires Valid()
      modifies this
      ensures Did(BoundField(buf, old(pos), f, kv0)) && (!error ==> kv == BoundField(buf, old(pos), f, kv0).value.value)
    {
      hide Int32Field, BoundValue, Skip;
      kv := kv0;
      if f.name == "key" {
        var k := ReadInt32(f.ty);
        kv := kv.(key := Some(OrNought(k)));
      } else if f.name == "value" {
        var v := ReadBoundValue(f.ty);
        if v.Some? { kv := kv.(value := v); }
      } else {
        SkipValue(f.ty);
      }
    }

    method ReadBoundRecord(rec: Sch) returns (kv: KeyValue)
      requires Valid() && rec.ARecord?
      modifies this
      ensures Did(BoundRecord(buf, old(pos), rec, |rec.fields|))
      ensures !error ==> kv == BoundRecord(buf, old(pos), rec, |rec.fields|).value.value && pos >= old(pos)
    {
      hide BoundField, SkipFields;
      kv := KeyValue(None, None);
      for j := 0 to |rec.fields|
        invariant Valid() && BoundRecord(buf, old(pos), rec, j) == Ok(At(kv, pos))
      {
        kv := ReadBoundField(rec.fields[j], kv);
        if error {
          BoundRecordErr(buf, old(pos), rec, j + 1, |rec.fields|);
          return;
        }
      }
    }

    method BoundElements(s: Sch, bs0: seq<Bound>, cnt: nat) returns (bs: seq<Bound>)
      requires Valid() && s.AArray? && s.items.ARecord?
      modifies this
      ensures Did(BoundItems(buf, old(pos), s, bs0, cnt))
      ensures !error ==> bs == BoundItems(buf, old(pos), s, bs0, cnt).value.value && pos >= old(pos)
    {
      hide BoundRecord, SkipItems;
      bs := bs0;
      for i := 0 to cnt
        invariant Valid() && BoundItems(buf, old(pos), s, bs0, i) == Ok(At(bs, pos))
      {
        var kv := ReadBoundRecord(s.items);
        if error {
          BoundItemsErr(buf, old(pos), s, bs0, i + 1, cnt);
          return;
        }
        if kv.key.Some? && kv.value.Some? { bs := bs + [Bound(kv.key.value, kv.value.value)]; }
      }
    }

    method ReadBoundMap(s: Sch) returns (bs: seq<Bound>)
      requires Valid()
      modifies this
      ensures Did(BoundMapAt(buf, old(pos), s)) && (!error ==> bs == BoundMapAt(buf, old(pos), s).value.value)
    {
      hide UnwrapAt, BlockAt, BoundItems, Skip, SkipBlocks;
      bs := [];
      var t, isnull := Unwrap(s);
      if error || isnull { return; }
      if !(t.AArray? && t.items.ARecord?) {
        SkipValue(t);
        return;
      }
      ghost var start := pos;
      while true
        invariant Valid() && BoundBlocks(buf, start, t, []) == BoundBlocks(buf, pos, t, bs)
        decreases |buf| - pos
      {
        var cnt := Block(MAX_BOUNDS);
        if error || cnt == 0 { return; }
        if |bs| + cnt > MAX_BOUNDS {
          error := true;
          return;
        }
        bs := BoundElements(t, bs, cnt);
        if error { return; }
      }
    }

    // ----- partitions, data files, entries

    method ReadCell(s: Sch) returns (c: Cell)
      requires Valid()
      modifies this
      ensures Did(CellAt(buf, old(pos), s)) && (!error ==> c == CellAt(buf, old(pos), s).value.value)
    {
      hide UnwrapAt, LongAt, BytesAt, Skip;
      c := Plain(false);
      var t, isnull := Unwrap(s);
      if error { return; }
      if isnull { return Cell(true, true, 0, None); }
      if t.AInt? || t.ALong? {
        var v := Long();
        c := Cell(false, true, v, None);
      } else if t.ABool? {
        var b := Take(1);
        if error { return; }
        c := Cell(false, true, if b[0] != 0 then 1 else 0, None);
      } else if t.AString? || t.ABytes? {
        var b := BytesField();
        c := Cell(false, true, 0, Some(b));
      } else if t.AFixed? {
        var _ := Take(t.size);
      } else if t.AFloat? || t.ADouble? {
        var _ := Take(if t.AFloat? then 4 else 8);
      } else {
        SkipValue(t);
      }
    }

    method DecodePartition(s: Sch) returns (cells: Option<seq<Cell>>)
      requires Valid()
      modifies this
      ensures Did(PartitionAt(buf, old(pos), s)) && (!error ==> cells == PartitionAt(buf, old(pos), s).value.value)
    {
      hide CellAt, Skip, SkipFields;
      cells := None;
      if !s.ARecord? {
        SkipValue(s);
        return;
      }
      var cs := [];
      for i := 0 to |s.fields|
        invariant Valid() && CellsAt(buf, old(pos), s, i) == Ok(At(cs, pos))
      {
        var c := ReadCell(s.fields[i].ty);
        if error {
          CellsErr(buf, old(pos), s, i + 1, |s.fields|);
          return;
        }
        cs := cs + [c];
      }
      cells := Some(cs);
    }

    method DecodeDataFileField(f: Field, e0: Entry) returns (e: Entry)
      requires Valid()
      modifies this
      ensures Did(DataFileField(buf, old(pos), f, e0)) && (!error ==> e == DataFileField(buf, old(pos), f, e0).value.value)
    {
      hide StringAt, LongField, Int32Field, UnwrapAt, IntArrayAt, BoundMapAt, PartitionAt, Skip;
      e := e0;
      match f.name
      case "file_path" => var v := ReadString(f.ty); e := e.(path := v);
      case "file_format" => var v := ReadString(f.ty); e := e.(format := v);
      case "content" => var v := ReadInt32(f.ty); e := e.(content := OrNought(v));
      case "record_count" => var v := ReadLong(f.ty); e := e.(recordCount := OrNought(v));
      case "file_size_in_bytes" => var v := ReadLong(f.ty); e := e.(fileSize := OrNought(v));
      case "partition" =>
        var t, isnull := Unwrap(f.ty);
        if !error && !isnull {
          var p := DecodePartition(t);
          e := e.(partition := p);
        }
      case "equality_ids" => var v := ReadIntArray(f.ty); e := e.(equalityIds := v);
      case "lower_bounds" => var v := ReadBoundMap(f.ty); e := e.(lower := v);
      case "upper_bounds" => var v := ReadBoundMap(f.ty); e := e.(upper := v);
      case "referenced_data_file" => var v := ReadString(f.ty); e := e.(referenced := v);
      case "content_offset" => var v := ReadLong(f.ty); e := e.(contentOffset := v);
      case "content_size_in_bytes" => var v := ReadLong(f.ty); e := e.(contentSize := v);
      case _ => SkipValue(f.ty);
    }

    method DecodeDataFile(s: Sch, e0: Entry) returns (e: Entry)
      requires Valid()
      modifies this
      ensures Did(DataFileAt(buf, old(pos), s, e0)) && (!error ==> e == DataFileAt(buf, old(pos), s, e0).value.value)
    {
      hide DataFileField, SkipFields;
      e := e0;
      if !s.ARecord? {
        error := true;
        return;
      }
      for i := 0 to |s.fields|
        invariant Valid() && DataFileFields(buf, old(pos), s, e0, i) == Ok(At(e, pos))
      {
        e := DecodeDataFileField(s.fields[i], e);
        if error {
          DataFieldsErr(buf, old(pos), s, e0, i + 1, |s.fields|);
          return;
        }
      }
    }

    method DecodeEntryField(f: Field, e0: Entry) returns (e: Entry)
      requires Valid()
      modifies this
      ensures Did(EntryField(buf, old(pos), f, e0)) && (!error ==> e == EntryField(buf, old(pos), f, e0).value.value)
    {
      hide LongField, Int32Field, UnwrapAt, DataFileAt, Skip;
      e := e0;
      if f.name == "status" {
        var v := ReadInt32(f.ty);
        e := e.(status := OrNought(v));
      } else if f.name == "sequence_number" || f.name == "data_sequence_number" {
        var v := ReadLong(f.ty);
        e := e.(hasSequenceField := true, sequenceNumber := v);
      } else if f.name == "data_file" {
        var t, isnull := Unwrap(f.ty);
        if !error && !isnull { e := DecodeDataFile(t, e); }
      } else {
        SkipValue(f.ty);
      }
    }

    /** av_decode_entry: on success the cursor is where av_skip of the record leaves it. */
    method DecodeEntry(s: Sch, e0: Entry) returns (e: Entry)
      requires Valid()
      modifies this
      ensures Did(EntryAt(buf, old(pos), s, e0)) && (!error ==> e == EntryAt(buf, old(pos), s, e0).value.value)
      ensures !error ==> Skip(buf, old(pos), s) == Ok(pos)
    {
      hide EntryField, SkipFields;
      e := e0;
      if !s.ARecord? {
        error := true;
        return;
      }
      for i := 0 to |s.fields|
        invariant Valid() && EntryFields(buf, old(pos), s, e0, i) == Ok(At(e, pos))
      {
        e := DecodeEntryField(s.fields[i], e);
        if error {
          EntryFieldsErr(buf, old(pos), s, e0, i + 1, |s.fields|);
          return;
        }
      }
      EntrySkips(buf, old(pos), s, e0);
    }
  }

  lemma {:induction false} BoundRecordErr(buf: seq<Byte>, pos: nat, rec: Sch, j: nat, k: nat)
    requires rec.ARecord? && j <= k <= |rec.fields| && pos <= |buf| && BoundRecord(buf, pos, rec, j).Err?
    ensures BoundRecord(buf, pos, rec, k).Err?
  {
    hide BoundField, SkipFields;
    if j < k { BoundRecordErr(buf, pos, rec, j, k - 1); }
  }

  lemma {:induction false} BoundItemsErr(buf: seq<Byte>, pos: nat, s: Sch, bs: seq<Bound>, j: nat, k: nat)
    requires s.AArray? && s.items.ARecord? && j <= k && pos <= |buf| && BoundItems(buf, pos, s, bs, j).Err?
    ensures BoundItems(buf, pos, s, bs, k).Err?
  {
    hide BoundRecord, SkipItems;
    if j < k { BoundItemsErr(buf, pos, s, bs, j, k - 1); }
  }

  lemma {:induction false} CellsErr(buf: seq<Byte>, pos: nat, s: Sch, j: nat, k: nat)
    requires s.ARecord? && j <= k <= |s.fields| && pos <= |buf| && CellsAt(buf, pos, s, j).Err?
    ensures CellsAt(buf, pos, s, k).Err?
  {
    hide CellAt, SkipFields;
    if j < k { CellsErr(buf, pos, s, j, k - 1); }
  }

  lemma {:induction false} DataFieldsErr(buf: seq<Byte>, pos: nat, s: Sch, e: Entry, j: nat, k: nat)
    requires s.ARecord? && j <= k <= |s.fields| && pos <= |buf| && DataFileFields(buf, pos, s, e, j).Err?
    ensures DataFileFields(buf, pos, s, e, k).Err?
  {
    hide DataFileField, SkipFields;
    if j < k { DataFieldsErr(buf, pos, s, e, j, k - 1); }
  }

  lemma {:induction false} EntryFieldsErr(buf: seq<Byte>, pos: nat, s: Sch, e: Entry, j: nat, k: nat)
    requires s.ARecord? && j <= k <= |s.fields| && pos <= |buf| && EntryFields(buf, pos, s, e, j).Err?
    ensures EntryFields(buf, pos, s, e, k).Err?
  {
    hide EntryField, SkipFields;
    if j < k { EntryFieldsErr(buf, pos, s, e, j, k - 1); }
  }

  lemma {:induction false} FieldsErr(buf: seq<Byte>, pos: nat, s: Sch, j: nat, k: nat)
    requires s.ARecord? && j <= k <= |s.fields| && pos <= |buf| && SkipFields(buf, pos, s, j).Err?
    ensures SkipFields(buf, pos, s, k).Err?
  {
    hide Skip;
    if j < k { FieldsErr(buf, pos, s, j, k - 1); }
  }

  lemma {:induction false} ItemsErr(buf: seq<Byte>, pos: nat, s: Sch, j: nat, k: nat)
    requires (s.AArray? || s.AMap?) && j <= k && pos <= |buf| && SkipItems(buf, pos, s, j).Err?
    ensures SkipItems(buf, pos, s, k).Err?
  {
    hide Skip, BytesAt;
    if j < k { ItemsErr(buf, pos, s, j, k - 1); }
  }

  lemma {:induction false} IntItemsErr(buf: seq<Byte>, pos: nat, vals: seq<int>, j: nat, k: nat)
    requires j <= k && pos <= |buf| && IntItems(buf, pos, vals, j).Err?
    ensures IntItems(buf, pos, vals, k).Err?
  {
    hide LongAt;
    if j < k { IntItemsErr(buf, pos, vals, j, k - 1); }
  }
}
