/** The report result tree: a `DirectResult` wraps one record, a
    `WrappedResult` holds an ordered list of child results. This module
    holds the node type, the axis queries (`final?`, `depth_of`,
    `final_number`, `each_row`) and the `count` aggregate. */
module Tree {
  import opened Values

  /** The axis tag of a node. */
  datatype Kind = Direct | Row | Column

  /** A node of the result tree.
      - `key` is the sort key last stored by `set_key` ([] before that);
      - `sorted` is the `@sorted` flag of `sort!`;
      - `directResults` is the `@direct_results` cache of
        `each_direct_result` (None while it is nil). */
  datatype Result =
    | DirectResult(fields: Record, typ: Kind, important: seq<string>, key: seq<int>)
    | WrappedResult(fields: Record, typ: Kind, important: seq<string>, key: seq<int>,
                    values: seq<Result>, sorted: bool, directResults: Option<seq<Result>>)

  /** `type = t if t`: the tag a factory call assigns. */
  function TypeOr(t: Option<Kind>, dflt: Kind): Kind {
    if t.Some? then t.value else dflt
  }

  /** `each`: a leaf yields itself, a wrapped result its children. */
  function Each(n: Result): seq<Result> {
    if n.DirectResult? then [n] else n.values
  }

  /** `size`: the number of child results. */
  function Size(n: Result): nat {
    if n.DirectResult? then 0 else |n.values|
  }

  /** The children the tree walks descend into. */
  function Children(n: Result): seq<Result> {
    if n.WrappedResult? then n.values else []
  }

  /** `final?(t)`. A leaf has size 0, so its `first` is never consulted. */
  predicate Final(n: Result, t: Kind) {
    n.typ == t && (n.typ == Direct || Size(n) == 0 || Each(n)[0].typ != t)
  }

  /** `depth_of(t)`; None when the leading path ends in a wrapped result
      with no children (`first` is nil there and the call raises). */
  function DepthOf(n: Result, t: Kind): Option<nat> {
    var own := if n.typ == t || (t == Column && n.typ == Direct) then 1 else 0;
    match n
    case DirectResult(_, _, _, _) => Some(own)
    case WrappedResult(_, _, _, _, vs, _, _) =>
      if vs == [] then None
      else
        match DepthOf(vs[0], t)
        case None => None
        case Some(d) => Some(own + d)
  }

  /** `final_number(t)`; None when the recursion never ends: a leaf that is
      neither final nor tagged `:direct` sums over its own `each`, which
      yields the leaf itself again. */
  function FinalNumber(n: Result, t: Kind): Option<nat> {
    if Final(n, t) then Some(1)
    else if n.typ == Direct then Some(0)
    else if n.DirectResult? then None
    else FinalNumberSum(n.values, t)
  }

  function FinalNumberSum(vs: seq<Result>, t: Kind): Option<nat> {
    if vs == [] then Some(0)
    else
      match (FinalNumber(vs[0], t), FinalNumberSum(vs[1..], t))
      case (Some(a), Some(b)) => Some(a + b)
      case _ => None
  }

  /** `each_row` as `WrappedResult` defines it: a final row yields itself,
      any other wrapped result descends into its children; a leaf runs the
      empty base version and yields nothing. */
  function EachRow(n: Result): seq<Result> {
    match n
    case DirectResult(_, _, _, _) => []
    case WrappedResult(_, _, _, _, vs, _, _) =>
      if Final(n, Row) then [n] else EachRowAll(vs)
  }

  function EachRowAll(vs: seq<Result>): seq<Result> {
    if vs == [] then [] else EachRow(vs[0]) + EachRowAll(vs[1..])
  }

  /** `count` of a leaf: `self["count"].to_i`. */
  function CountField(n: Result): int {
    ToIVal(Get(n.fields, "count"))
  }

  /** `count`: a leaf reads its "count" field, a wrapped result sums its
      children (`sum_for :count`). */
  function Count(n: Result): int {
    match n
    case DirectResult(_, _, _, _) => CountField(n)
    case WrappedResult(_, _, _, _, vs, _, _) => SumCounts(vs)
  }

  function SumCounts(vs: seq<Result>): int {
    if vs == [] then 0 else Count(vs[0]) + SumCounts(vs[1..])
  }

  /** The sum of the "count" fields read with `to_i`. */
  function SumCountFields(xs: seq<Result>): int {
    if xs == [] then 0 else CountField(xs[0]) + SumCountFields(xs[1..])
  }

  /** The leaves below a node, left to right. */
  function Leaves(n: Result): seq<Result> {
    match n
    case DirectResult(_, _, _, _) => [n]
    case WrappedResult(_, _, _, _, vs, _, _) => LeavesAll(vs)
  }

  function LeavesAll(vs: seq<Result>): seq<Result> {
    if vs == [] then [] else Leaves(vs[0]) + LeavesAll(vs[1..])
  }

  // ---------------------------------------------------------------------
  // Counts

  lemma {:induction false} SumCountFieldsAppend(a: seq<Result>, b: seq<Result>)
    ensures SumCountFields(a + b) == SumCountFields(a) + SumCountFields(b)
  {
    if a == [] {
      assert a + b == b;
    } else {
      assert (a + b)[0] == a[0];
      assert (a + b)[1..] == a[1..] + b;
      SumCountFieldsAppend(a[1..], b);
    }
  }

  lemma {:induction false} SumCountsAppend(a: seq<Result>, b: seq<Result>)
    ensures SumCounts(a + b) == SumCounts(a) + SumCounts(b)
  {
    if a == [] {
      assert a + b == b;
    } else {
      assert (a + b)[0] == a[0];
      assert (a + b)[1..] == a[1..] + b;
      SumCountsAppend(a[1..], b);
    }
  }

  /** A wrapped result's count is the sum of the "count" fields of all the
      leaves beneath it. */
  lemma {:induction false} CountIsLeafSum(n: Result)
    ensures Count(n) == SumCountFields(Leaves(n))
    decreases n, 1
  {
    match n
    case DirectResult(_, _, _, _) =>
      assert SumCountFields([n]) == CountField(n) + SumCountFields([]);
    case WrappedResult(_, _, _, _, vs, _, _) =>
      CountsAreLeafSums(vs);
  }

  lemma {:induction false} CountsAreLeafSums(vs: seq<Result>)
    ensures SumCounts(vs) == SumCountFields(LeavesAll(vs))
    decreases vs, 0
  {
    if vs != [] {
      CountIsLeafSum(vs[0]);
      CountsAreLeafSums(vs[1..]);
      SumCountFieldsAppend(Leaves(vs[0]), LeavesAll(vs[1..]));
    }
  }

  /** On leaves, `count` is the "count" field. */
  lemma {:induction false} SumCountsOfLeaves(xs: seq<Result>)
    requires forall i :: 0 <= i < |xs| ==> xs[i].DirectResult?
    ensures SumCounts(xs) == SumCountFields(xs)
  {
    if xs != [] {
      SumCountsOfLeaves(xs[1..]);
    }
  }

  // ---------------------------------------------------------------------
  // Axis queries

  /** Every leaf is tagged `:direct` and every wrapped result carries an
      axis tag: the shape grouping produces over factory-built leaves. */
  predicate AxisTagged(n: Result) {
    match n
    case DirectResult(_, _, _, _) => n.typ == Direct
    case WrappedResult(_, _, _, _, vs, _, _) =>
      n.typ != Direct && forall i :: 0 <= i < |vs| ==> AxisTagged(vs[i])
  }

  /** On an axis-tagged tree `final_number(:row)` is defined and counts
      exactly the nodes `each_row` yields. */
  lemma {:induction false} FinalNumberCountsRows(n: Result)
    requires AxisTagged(n)
    ensures FinalNumber(n, Row) == Some(|EachRow(n)|)
    decreases n, 1
  {
    match n
    case DirectResult(_, _, _, _) =>
    case WrappedResult(_, _, _, _, vs, _, _) =>
      if !Final(n, Row) {
        FinalNumberSumCountsRows(vs);
      }
  }

  lemma {:induction false} FinalNumberSumCountsRows(vs: seq<Result>)
    requires forall i :: 0 <= i < |vs| ==> AxisTagged(vs[i])
    ensures FinalNumberSum(vs, Row) == Some(|EachRowAll(vs)|)
    decreases vs, 0
  {
    if vs != [] {
      FinalNumberCountsRows(vs[0]);
      FinalNumberSumCountsRows(vs[1..]);
    }
  }

  /** Every leaf is tagged either `:direct` or the queried axis. */
  predicate LeavesTypedFor(n: Result, t: Kind) {
    match n
    case DirectResult(_, _, _, _) => n.typ == Direct || n.typ == t
    case WrappedResult(_, _, _, _, vs, _, _) =>
      forall i :: 0 <= i < |vs| ==> LeavesTypedFor(vs[i], t)
  }

  /** `final_number(t)` terminates whenever every leaf is tagged `:direct`
      or `t` (a lone leaf with another tag makes it loop: see
      `FinalNumberLoops`). */
  lemma {:induction false} FinalNumberDefined(n: Result, t: Kind)
    requires LeavesTypedFor(n, t)
    ensures FinalNumber(n, t).Some?
    decreases n, 1
  {
    match n
    case DirectResult(_, _, _, _) =>
    case WrappedResult(_, _, _, _, vs, _, _) =>
      if !Final(n, t) && n.typ != Direct {
        FinalNumberSumDefined(vs, t);
      }
  }

  lemma {:induction false} FinalNumberSumDefined(vs: seq<Result>, t: Kind)
    requires forall i :: 0 <= i < |vs| ==> LeavesTypedFor(vs[i], t)
    ensures FinalNumberSum(vs, t).Some?
    decreases vs, 0
  {
    if vs != [] {
      FinalNumberDefined(vs[0], t);
      FinalNumberSumDefined(vs[1..], t);
    }
  }

  lemma FinalNumberLoops(n: Result, t: Kind)
    requires n.DirectResult? && n.typ != Direct && n.typ != t
    ensures FinalNumber(n, t).None?
  {
  }

  /** `depth_of` follows the leading path: it fails exactly when that path
      ends in a wrapped result with no children, and otherwise counts at
      most one level per node on it. */
  function LeadingPath(n: Result): (p: seq<Result>)
    ensures p != [] && p[0] == n
  {
    match n
    case DirectResult(_, _, _, _) => [n]
    case WrappedResult(_, _, _, _, vs, _, _) =>
      if vs == [] then [n] else [n] + LeadingPath(vs[0])
  }

  /** The nodes of `p` that `depth_of(t)` counts for themselves. */
  function Matching(p: seq<Result>, t: Kind): nat {
    if p == [] then 0
    else (if p[0].typ == t || (t == Column && p[0].typ == Direct) then 1 else 0) + Matching(p[1..], t)
  }

  lemma {:induction false} DepthOfAlongLeadingPath(n: Result, t: Kind)
    ensures var p := LeadingPath(n);
            DepthOf(n, t).None? <==> p[|p| - 1].WrappedResult?
    ensures DepthOf(n, t).Some? ==> DepthOf(n, t).value == Matching(LeadingPath(n), t)
    ensures DepthOf(n, t).Some? ==> DepthOf(n, t).value <= |LeadingPath(n)|
  {
    match n
    case DirectResult(_, _, _, _) =>
    case WrappedResult(_, _, _, _, vs, _, _) =>
      if vs != [] {
        DepthOfAlongLeadingPath(vs[0], t);
        assert LeadingPath(n)[1..] == LeadingPath(vs[0]);
      }
  }
}
