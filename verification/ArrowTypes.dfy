module ArrowTypes {
  /**
   src/columnar_arrow.c, nested columns. Export shreds rows of lists and structs into flat
   accumulators and emits their buffers in pre-order; import assigns the same pre-order indices to
   the field tree, checks the bounds, and reassembles row i. Scalars are the bytes Arrow stores.
   */

  import opened Bits
  import opened BitPack

  datatype Ty = FixedTy(width: nat) | BoolTy | BytesTy | ListTy(elem: Ty) | StructTy(fields: seq<Ty>)

  datatype Val =
    | Null
    | Prim(bytes: seq<Byte>)
    | Flag(b: bool)
    | Text(text: seq<Byte>)
    | Items(items: seq<Val>)
    | Row(cells: seq<Val>)

  ghost predicate Conforms(v: Val, ty: Ty)
    decreases ty, v
  {
    match (v, ty)
    case (Null, _) => true
    case (Prim(b), FixedTy(w)) => |b| == w > 0
    case (Flag(_), BoolTy) => true
    case (Text(_), BytesTy) => true
    case (Items(vs), ListTy(e)) => forall i | 0 <= i < |vs| :: Conforms(vs[i], e)
    case (Row(cs), StructTy(fs)) => |cs| == |fs| && forall i | 0 <= i < |fs| :: Conforms(cs[i], fs[i])
    case _ => false
  }

  ghost predicate AllConform(rows: seq<Val>, ty: Ty) { forall i | 0 <= i < |rows| :: Conforms(rows[i], ty) }

  /** One column accumulator. */
  datatype Col = Col(valid: seq<bool>, fixed: seq<Byte>, bools: seq<bool>, vardata: seq<Byte>, offs: seq<nat>, children: seq<Col>)

  // ----- what a column of rows looks like

  /** How far a row moves the running offset. */
  function Len(v: Val): nat {
    match v
    case Text(t) => |t|
    case Items(vs) => |vs|
    case _ => 0
  }

  function Offset(rows: seq<Val>, k: nat): nat
    requires k <= |rows|
  {
    if k == 0 then 0 else Offset(rows, k - 1) + Len(rows[k - 1])
  }

  function Offsets(rows: seq<Val>): (os: seq<nat>)
    ensures |os| == |rows| + 1
  {
    seq(|rows| + 1, k requires 0 <= k <= |rows| => Offset(rows, k))
  }

  function Cell(v: Val, w: nat): (s: seq<Byte>)
    ensures |s| == w
  {
    if v.Prim? && |v.bytes| == w then v.bytes else Zeros(w)
  }

  function FixedBytes(rows: seq<Val>, w: nat, k: nat): (s: seq<Byte>)
    requires k <= |rows|
    ensures |s| == Times(k, w)
  {
    if k == 0 then [] else FixedBytes(rows, w, k - 1) + Cell(rows[k - 1], w)
  }

  function TextOf(v: Val): seq<Byte> { if v.Text? then v.text else [] }

  function Texts(rows: seq<Val>, k: nat): seq<Byte>
    requires k <= |rows|
  {
    if k == 0 then [] else Texts(rows, k - 1) + TextOf(rows[k - 1])
  }

  function ItemsOf(v: Val): seq<Val> { if v.Items? then v.items else [] }

  /** The elements of the first k lists. */
  function Flat(rows: seq<Val>, k: nat): seq<Val>
    requires k <= |rows|
  {
    if k == 0 then [] else Flat(rows, k - 1) + ItemsOf(rows[k - 1])
  }

  /** Field f of a struct; a null struct contributes a null. */
  function Pick(v: Val, f: nat): Val { if v.Row? && f < |v.cells| then v.cells[f] else Null }

  function Column(rows: seq<Val>, f: nat): (vs: seq<Val>)
    ensures |vs| == |rows|
  {
    seq(|rows|, i requires 0 <= i < |rows| => Pick(rows[i], f))
  }

  function Valid(rows: seq<Val>): (bs: seq<bool>)
    ensures |bs| == |rows|
  {
    seq(|rows|, i requires 0 <= i < |rows| => rows[i] != Null)
  }

  function Flags(rows: seq<Val>): (bs: seq<bool>)
    ensures |bs| == |rows|
  {
    seq(|rows|, i requires 0 <= i < |rows| => rows[i].Flag? && rows[i].b)
  }

  /** The shredded form of a column. */
  function ColOf(ty: Ty, rows: seq<Val>): Col
    decreases ty
  {
    match ty
    case FixedTy(w) => Col(Valid(rows), FixedBytes(rows, w, |rows|), [], [], [], [])
    case BoolTy => Col(Valid(rows), [], Flags(rows), [], [], [])
    case BytesTy => Col(Valid(rows), [], [], Texts(rows, |rows|), Offsets(rows), [])
    case ListTy(e) => Col(Valid(rows), [], [], [], Offsets(rows), [ColOf(e, Flat(rows, |rows|))])
    case StructTy(fs) => Col(Valid(rows), [], [], [], [], seq(|fs|, f requires 0 <= f < |fs| => ColOf(fs[f], Column(rows, f))))
  }

  // ----- appending row by row gives that form

  /** arrowcol_append */
  function Append(ty: Ty, c: Col, v: Val): Col
    requires Shape(ty, c)
    decreases ty, 1, 0
  {
    var d := c.(valid := c.valid + [v != Null]);
    match ty
    case FixedTy(w) => d.(fixed := c.fixed + Cell(v, w))
    case BoolTy => d.(bools := c.bools + [v.Flag? && v.b])
    case BytesTy => d.(vardata := c.vardata + TextOf(v), offs := c.offs + [Last(c.offs) + |TextOf(v)|])
    case ListTy(e) =>
      d.(children := [AppendItems(e, c.children[0], ItemsOf(v), |ItemsOf(v)|)],
         offs := c.offs + [Last(c.offs) + |ItemsOf(v)|])
    case StructTy(fs) =>
      d.(children := seq(|fs|, f requires 0 <= f < |fs| && |c.children| == |fs| && Shape(fs[f], c.children[f]) =>
        Append(fs[f], c.children[f], Pick(v, f))))
  }

  /** The first k elements appended to the element column. */
  function AppendItems(e: Ty, c: Col, items: seq<Val>, k: nat): (r: Col)
    requires Shape(e, c) && k <= |items|
    ensures Shape(e, r)
    decreases e, 2, k
  {
    if k == 0 then c
    else
      AppendShape(e, AppendItems(e, c, items, k - 1), items[k - 1]);
      Append(e, AppendItems(e, c, items, k - 1), items[k - 1])
  }

  function Last(os: seq<nat>): nat { if |os| == 0 then 0 else os[|os| - 1] }

  /** The accumulator has the children its type asks for. */
  predicate Shape(ty: Ty, c: Col)
    decreases ty
  {
    match ty
    case ListTy(e) => |c.children| == 1 && Shape(e, c.children[0])
    case StructTy(fs) => |c.children| == |fs| && forall f | 0 <= f < |fs| :: Shape(fs[f], c.children[f])
    case _ => true
  }

  lemma {:induction false} AppendShape(ty: Ty, c: Col, v: Val)
    requires Shape(ty, c)
    ensures Shape(ty, Append(ty, c, v))
    decreases ty, 1, 1
  {
    match ty
    case StructTy(fs) =>
      forall f | 0 <= f < |fs| ensures Shape(fs[f], Append(ty, c, v).children[f]) { AppendShape(fs[f], c.children[f], Pick(v, f)); }
    case _ =>
  }

  lemma {:induction false} ColShape(ty: Ty, rows: seq<Val>)
    ensures Shape(ty, ColOf(ty, rows))
    decreases ty
  {
    match ty
    case ListTy(e) => ColShape(e, Flat(rows, |rows|));
    case StructTy(fs) =>
      forall f | 0 <= f < |fs| ensures Shape(fs[f], ColOf(ty, rows).children[f]) { ColShape(fs[f], Column(rows, f)); }
    case _ =>
  }

  lemma {:induction false} Prefixes(rows: seq<Val>, v: Val, w: nat, k: nat)
    requires k <= |rows|
    ensures Offset(rows + [v], k) == Offset(rows, k) && Texts(rows + [v], k) == Texts(rows, k)
    ensures Flat(rows + [v], k) == Flat(rows, k) && FixedBytes(rows + [v], w, k) == FixedBytes(rows, w, k)
  {
    if k > 0 { Prefixes(rows, v, w, k - 1); }
  }

  lemma {:induction false} OffsetsAppend(rows: seq<Val>, v: Val)
    ensures Offsets(rows + [v]) == Offsets(rows) + [Last(Offsets(rows)) + Len(v)]
  {
    var all := rows + [v];
    forall k | 0 <= k <= |all| ensures Offsets(all)[k] == (Offsets(rows) + [Last(Offsets(rows)) + Len(v)])[k] {
      Prefixes(rows, v, 0, if k <= |rows| then k else |rows|);
    }
  }

  lemma {:induction false} ColumnAppend(rows: seq<Val>, v: Val, f: nat)
    ensures Column(rows + [v], f) == Column(rows, f) + [Pick(v, f)]
    ensures Valid(rows + [v]) == Valid(rows) + [v != Null]
    ensures Flags(rows + [v]) == Flags(rows) + [v.Flag? && v.b]
  {
  }

  lemma {:induction false} LenConform(v: Val, ty: Ty)
    requires Conforms(v, ty)
    ensures ty == BytesTy ==> Len(v) == |TextOf(v)|
    ensures ty.ListTy? ==> Len(v) == |ItemsOf(v)|
  {
  }

  /** Appending a row to a shredded column is shredding one row more. */
  lemma {:induction false} AppendOk(ty: Ty, rows: seq<Val>, v: Val)
    requires Conforms(v, ty)
    ensures Shape(ty, ColOf(ty, rows)) && Append(ty, ColOf(ty, rows), v) == ColOf(ty, rows + [v])
    decreases ty, 1, 0
  {
    ColShape(ty, rows);
    ColumnAppend(rows, v, 0);
    OffsetsAppend(rows, v);
    LenConform(v, ty);
    match ty
    case FixedTy(w) => Prefixes(rows, v, w, |rows|);
    case BoolTy =>
    case BytesTy => Prefixes(rows, v, 0, |rows|);
    case ListTy(e) => AppendList(e, rows, v);
    case StructTy(fs) => AppendFields(fs, rows, v);
  }

  lemma {:induction false} AppendList(e: Ty, rows: seq<Val>, v: Val)
    requires Conforms(v, ListTy(e))
    ensures Shape(ListTy(e), ColOf(ListTy(e), rows))
    ensures Append(ListTy(e), ColOf(ListTy(e), rows), v) == ColOf(ListTy(e), rows + [v])
    decreases ListTy(e), 0, 0
  {
    hide Offsets, Len, Valid;
    ColShape(ListTy(e), rows);
    ColumnAppend(rows, v, 0);
    OffsetsAppend(rows, v);
    LenConform(v, ListTy(e));
    Prefixes(rows, v, 0, |rows|);
    ItemsConform(v, e);
    AppendItemsOk(e, Flat(rows, |rows|), ItemsOf(v), |ItemsOf(v)|);
    assert ItemsOf(v)[..|ItemsOf(v)|] == ItemsOf(v);
  }

  lemma {:induction false} ItemsConform(v: Val, e: Ty)
    requires Conforms(v, ListTy(e))
    ensures AllConform(ItemsOf(v), e)
  {
  }

  lemma {:induction false} AppendFields(fs: seq<Ty>, rows: seq<Val>, v: Val)
    requires Conforms(v, StructTy(fs))
    ensures Shape(StructTy(fs), ColOf(StructTy(fs), rows))
    ensures Append(StructTy(fs), ColOf(StructTy(fs), rows), v) == ColOf(StructTy(fs), rows + [v])
    decreases StructTy(fs), 0, 0
  {
    var ty := StructTy(fs);
    var c, all := ColOf(ty, rows), rows + [v];
    ColShape(ty, rows);
    ColumnAppend(rows, v, 0);
    forall f | 0 <= f < |fs| ensures Append(ty, c, v).children[f] == ColOf(ty, all).children[f] {
      ColumnAppend(rows, v, f);
      AppendOk(fs[f], Column(rows, f), Pick(v, f));
    }
    assert Append(ty, c, v).children == ColOf(ty, all).children;
  }

  lemma {:induction false} AppendItemsOk(e: Ty, rows: seq<Val>, items: seq<Val>, k: nat)
    requires AllConform(items, e) && k <= |items|
    ensures Shape(e, ColOf(e, rows)) && AppendItems(e, ColOf(e, rows), items, k) == ColOf(e, rows + items[..k])
    decreases e, 2, k
  {
    hide ColOf, Append, Conforms;
    ColShape(e, rows);
    if k == 0 {
      assert rows + items[..0] == rows;
    } else {
      AppendItemsOk(e, rows, items, k - 1);
      assert Conforms(items[k - 1], e);
      AppendOk(e, rows + items[..k - 1], items[k - 1]);
      assert rows + items[..k - 1] + [items[k - 1]] == rows + items[..k];
    }
  }

  function Empty(ty: Ty): Col
    decreases ty
  {
    match ty
    case FixedTy(_) => Col([], [], [], [], [], [])
    case BoolTy => Col([], [], [], [], [], [])
    case BytesTy => Col([], [], [], [], [0], [])
    case ListTy(e) => Col([], [], [], [], [0], [Empty(e)])
    case StructTy(fs) => Col([], [], [], [], [], seq(|fs|, f requires 0 <= f < |fs| => Empty(fs[f])))
  }

  /** The reset accumulator is the column of no rows. */
  lemma {:induction false} EmptyOk(ty: Ty)
    ensures Empty(ty) == ColOf(ty, [])
    decreases ty
  {
    match ty
    case ListTy(e) => EmptyOk(e); assert Flat([], 0) == []; assert Offsets([]) == [0];
    case BytesTy => assert Offsets([]) == [0];
    case StructTy(fs) =>
      forall f | 0 <= f < |fs| ensures Empty(ty).children[f] == ColOf(ty, []).children[f] {
        EmptyOk(fs[f]);
        assert Column([], f) == [];
      }
      assert Empty(ty).children == ColOf(ty, []).children;
    case _ =>
  }

  /** Appending the rows of a batch one by one to a reset accumulator shreds the batch. */
  lemma {:induction false} ShredRows(ty: Ty, rows: seq<Val>)
    requires AllConform(rows, ty)
    ensures Shape(ty, Empty(ty)) && AppendItems(ty, Empty(ty), rows, |rows|) == ColOf(ty, rows)
  {
    EmptyOk(ty);
    AppendItemsOk(ty, [], rows, |rows|);
    assert [] + rows[..|rows|] == rows;
  }
}
