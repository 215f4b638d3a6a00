/**
 Btree comparisons and what a closed range says about them, shared by Iceberg file pruning
 (src/columnar_iceberg_fdw.c) and the scan keys (src/columnar_customscan.c).
 */
module Comparison {
  datatype Strategy = Less | LessEqual | Equal | GreaterEqual | Greater

  predicate Holds(op: Strategy, x: int, c: int) {
    match op
    case Less => x < c
    case LessEqual => x <= c
    case Equal => x == c
    case GreaterEqual => x >= c
    case Greater => x > c
  }

  /** The strategy of "var op' const" for "const op var". */
  function Flip(op: Strategy): Strategy {
    match op
    case Less => Greater
    case LessEqual => GreaterEqual
    case Greater => Less
    case GreaterEqual => LessEqual
    case Equal => Equal
  }

  /** Reading a predicate from the other side changes nothing, and twice is once. */
  lemma {:induction false} FlipSound(op: Strategy, x: int, c: int)
    ensures Holds(op, c, x) <==> Holds(Flip(op), x, c)
    ensures Flip(Flip(op)) == op
  {
  }

  /** ice_fdw_metric_excludes */
  predicate MetricExcludes(op: Strategy, c: int, lo: int, hi: int) {
    match op
    case Equal => c < lo || c > hi
    case Less => lo >= c
    case LessEqual => lo > c
    case Greater => hi <= c
    case GreaterEqual => hi < c
  }

  /** On a proper range the test is exact: it excludes when and only when no value satisfies. */
  lemma {:induction false} MetricExact(op: Strategy, c: int, lo: int, hi: int)
    requires lo <= hi
    ensures MetricExcludes(op, c, lo, hi) <==> forall x | lo <= x <= hi :: !Holds(op, x, c)
  {
    if !MetricExcludes(op, c, lo, hi) {
      var x := if op.Equal? then c else if op.Less? || op.LessEqual? then lo else hi;
      assert lo <= x <= hi && Holds(op, x, c);
    }
  }
}
