/** Sort keys and the recursive in-place sort: `set_key(index)` stores in
    every node the list of `map_field` values of the index fields, and
    `sort!(force)` orders every wrapped result's children by key with
    `Array#<=>`, recursing into the children and recording `@sorted`. */
module Sorting {
  import opened Values
  import opened Tree
  import opened Seqs

  // ---------------------------------------------------------------------
  // Comparing keys

  /** `Array#<=>` on keys: the first differing element decides; when one
      key is a prefix of the other, the shorter comes first. */
  function Compare(a: seq<int>, b: seq<int>): (c: int)
    ensures -1 <= c <= 1
  {
    if a == [] && b == [] then 0
    else if a == [] then -1
    else if b == [] then 1
    else if a[0] < b[0] then -1
    else if a[0] > b[0] then 1
    else Compare(a[1..], b[1..])
  }

  /** Swapping the operands flips the result. */
  lemma {:induction false} CompareFlip(a: seq<int>, b: seq<int>)
    ensures Compare(a, b) == -Compare(b, a)
  {
    if a != [] && b != [] && a[0] == b[0] {
      CompareFlip(a[1..], b[1..]);
    }
  }

  /** Two keys compare equal exactly when they are the same key. */
  lemma {:induction false} CompareZero(a: seq<int>, b: seq<int>)
    ensures Compare(a, b) == 0 <==> a == b
  {
    if a != [] && b != [] && a[0] == b[0] {
      CompareZero(a[1..], b[1..]);
      if a[1..] == b[1..] {
        assert a == [a[0]] + a[1..] && b == [b[0]] + b[1..];
      }
    }
  }

  lemma {:induction false} CompareTrans(a: seq<int>, b: seq<int>, c: seq<int>)
    requires Compare(a, b) <= 0 && Compare(b, c) <= 0
    ensures Compare(a, c) <= 0
  {
    if a != [] && b != [] && c != [] && a[0] == b[0] == c[0] {
      CompareTrans(a[1..], b[1..], c[1..]);
    }
  }

  /** A proper prefix sorts first. */
  lemma {:induction false} ComparePrefix(a: seq<int>, b: seq<int>)
    requires |a| < |b| && a == b[..|a|]
    ensures Compare(a, b) == -1
  {
    if a != [] {
      assert a[1..] == b[1..][..|a| - 1];
      ComparePrefix(a[1..], b[1..]);
    }
  }

  // ---------------------------------------------------------------------
  // set_key

  /** `index.map { |k| map_field(k, fields[k]) }`, with `map_field` given
      as `mf`. */
  function KeyFor(fields: Record, index: seq<string>, mf: (string, Value) -> int): (key: seq<int>)
    ensures |key| == |index|
  {
    seq(|index|, i requires 0 <= i < |index| => mf(index[i], Get(fields, index[i])))
  }

  /** `set_key(index)`: every node of the tree gets its key. */
  function SetKey(n: Result, index: seq<string>, mf: (string, Value) -> int): Result
    decreases n, 1
  {
    match n
    case DirectResult(_, _, _, _) => n.(key := KeyFor(n.fields, index, mf))
    case WrappedResult(_, _, _, _, vs, _, _) =>
      n.(values := SetKeyAll(vs, index, mf), key := KeyFor(n.fields, index, mf))
  }

  function SetKeyAll(vs: seq<Result>, index: seq<string>, mf: (string, Value) -> int): (r: seq<Result>)
    ensures |r| == |vs|
    decreases vs, 0
  {
    seq(|vs|, i requires 0 <= i < |vs| => SetKey(vs[i], index, mf))
  }

  /** Every node's key is the key of its own fields. */
  predicate KeyedEverywhere(n: Result, index: seq<string>, mf: (string, Value) -> int) {
    n.key == KeyFor(n.fields, index, mf) &&
    match n
    case DirectResult(_, _, _, _) => true
    case WrappedResult(_, _, _, _, vs, _, _) =>
      forall i :: 0 <= i < |vs| ==> KeyedEverywhere(vs[i], index, mf)
  }

  /** The tree with every key cleared: what `set_key` must not touch. */
  function Unkeyed(n: Result): Result
    decreases n, 1
  {
    match n
    case DirectResult(_, _, _, _) => n.(key := [])
    case WrappedResult(_, _, _, _, vs, _, _) => n.(values := UnkeyedAll(vs), key := [])
  }

  function UnkeyedAll(vs: seq<Result>): seq<Result>
    decreases vs, 0
  {
    seq(|vs|, i requires 0 <= i < |vs| => Unkeyed(vs[i]))
  }

  /** After `set_key(index)` every node carries the key of its own fields,
      one entry per index field, and nothing but keys has changed. */
  lemma {:induction false} SetKeyKeys(n: Result, index: seq<string>, mf: (string, Value) -> int)
    ensures KeyedEverywhere(SetKey(n, index, mf), index, mf)
    ensures |SetKey(n, index, mf).key| == |index|
    ensures Unkeyed(SetKey(n, index, mf)) == Unkeyed(n)
    decreases n, 1
  {
    match n
    case DirectResult(_, _, _, _) =>
    case WrappedResult(_, _, _, _, vs, _, _) =>
      var ws := SetKeyAll(vs, index, mf);
      forall i | 0 <= i < |vs|
        ensures KeyedEverywhere(ws[i], index, mf) && Unkeyed(ws[i]) == Unkeyed(vs[i])
      {
        SetKeyKeys(vs[i], index, mf);
      }
      assert UnkeyedAll(ws) == UnkeyedAll(vs);
  }

  // ---------------------------------------------------------------------
  // What sorting keeps

  /** A node without the order of its children, its `@sorted` flag and its
      cache: two trees of the same shape differ only in those. */
  datatype Shape = Shape(fields: Record, typ: Kind, important: seq<string>, key: seq<int>,
                         leaf: bool, kids: multiset<Shape>)

  function ShapeOf(n: Result): Shape
    decreases n, 1
  {
    match n
    case DirectResult(f, t, imp, k) => Shape(f, t, imp, k, true, multiset{})
    case WrappedResult(f, t, imp, k, vs, _, _) => Shape(f, t, imp, k, false, multiset(ShapesOf(vs)))
  }

  function ShapesOf(vs: seq<Result>): (r: seq<Shape>)
    ensures |r| == |vs|
    decreases vs, 0
  {
    seq(|vs|, i requires 0 <= i < |vs| => ShapeOf(vs[i]))
  }

  /** Reordering the children and then replacing each by one of the same
      shape keeps the multiset of child shapes. */
  lemma SameShapes(vs: seq<Result>, perm: seq<Result>, after: seq<Result>)
    requires multiset(perm) == multiset(vs)
    requires |after| == |perm|
    requires forall k :: 0 <= k < |perm| ==> ShapeOf(after[k]) == ShapeOf(perm[k])
    ensures multiset(ShapesOf(after)) == multiset(ShapesOf(vs))
  {
    MapPerm(perm, vs, ShapeOf);
    assert ShapesOf(after) == ShapesOf(perm) == Map(perm, ShapeOf);
    assert ShapesOf(vs) == Map(vs, ShapeOf);
  }

  // ---------------------------------------------------------------------
  // Sortedness

  /** `a.key <=> b.key` is not positive. */
  predicate KeyLe(x: Result, y: Result) {
    Compare(x.key, y.key) <= 0
  }

  /** Neighbours in `s[lo..hi]` are in key order. */
  predicate SortedRange(s: seq<Result>, lo: nat, hi: nat)
    requires lo <= hi <= |s|
  {
    forall k :: lo < k < hi ==> KeyLe(s[k - 1], s[k])
  }

  /** Neighbouring children are in key order. */
  predicate AdjSorted(vs: seq<Result>) {
    SortedRange(vs, 0, |vs|)
  }

  /** Every wrapped result below `n`, `n` included, has its children in
      key order. */
  predicate DeepSorted(n: Result) {
    match n
    case DirectResult(_, _, _, _) => true
    case WrappedResult(_, _, _, _, vs, _, _) =>
      AdjSorted(vs) && forall i :: 0 <= i < |vs| ==> DeepSorted(vs[i])
  }

  /** Every wrapped result whose `@sorted` flag is set is deeply sorted. */
  predicate FlagSound(n: Result) {
    match n
    case DirectResult(_, _, _, _) => true
    case WrappedResult(_, _, _, _, vs, sorted, _) =>
      (sorted ==> DeepSorted(n)) && forall i :: 0 <= i < |vs| ==> FlagSound(vs[i])
  }

  /** Neighbouring order gives order between any two children. */
  lemma {:induction false} AdjSortedPairs(vs: seq<Result>, i: nat, j: nat)
    requires AdjSorted(vs)
    requires i < j < |vs|
    ensures KeyLe(vs[i], vs[j])
    decreases j - i
  {
    if i + 1 < j {
      AdjSortedPairs(vs, i + 1, j);
      CompareTrans(vs[i].key, vs[i + 1].key, vs[j].key);
    }
  }

  /** No wrapped result in the tree has its `@sorted` flag set, as after
      the factory. */
  predicate NoFlags(n: Result) {
    match n
    case DirectResult(_, _, _, _) => true
    case WrappedResult(_, _, _, _, vs, sorted, _) =>
      !sorted && forall i :: 0 <= i < |vs| ==> NoFlags(vs[i])
  }

  /** A tree with no `@sorted` flag set has no flag to distrust. */
  lemma {:induction false} NoFlagsSound(n: Result)
    requires NoFlags(n)
    ensures FlagSound(n)
    decreases n
  {
    match n
    case DirectResult(_, _, _, _) =>
    case WrappedResult(_, _, _, _, vs, _, _) =>
      forall i | 0 <= i < |vs|
        ensures FlagSound(vs[i])
      {
        NoFlagsSound(vs[i]);
      }
  }

  // ---------------------------------------------------------------------
  // sort!

  /** `s` with the neighbours at `j - 1` and `j` exchanged. */
  function Swap(s: seq<Result>, j: nat): (r: seq<Result>)
    requires 0 < j < |s|
    ensures |r| == |s|
  {
    s[j - 1 := s[j]][j := s[j - 1]]
  }

  /** The state of the insertion of `s[i]`: it now sits at `j`, the run
      before it is sorted, the run from it up to `i` is sorted, and its left
      neighbour is no greater than its right one. */
  predicate Inserting(s: seq<Result>, i: nat, j: nat) {
    j <= i < |s| && SortedRange(s, 0, j) && SortedRange(s, j, i + 1) &&
    (0 < j < i ==> KeyLe(s[j - 1], s[j + 1]))
  }

  /** Moving the inserted element one place left keeps the insertion state
      and the multiset of children. */
  lemma SwapStep(s: seq<Result>, i: nat, j: nat)
    requires Inserting(s, i, j) && j > 0
    requires !KeyLe(s[j - 1], s[j])
    ensures Inserting(Swap(s, j), i, j - 1)
    ensures multiset(Swap(s, j)) == multiset(s)
  {
    SwapOrder(s, i, j);
    SwapPerm(s, j);
  }

  lemma SwapOrder(s: seq<Result>, i: nat, j: nat)
    requires Inserting(s, i, j) && j > 0
    requires !KeyLe(s[j - 1], s[j])
    ensures Inserting(Swap(s, j), i, j - 1)
  {
    var r := Swap(s, j);
    CompareFlip(s[j - 1].key, s[j].key);
    assert forall k :: 0 <= k < |s| && k != j - 1 && k != j ==> r[k] == s[k];
    assert KeyLe(r[j - 1], r[j]);
    assert SortedRange(r, j - 1, i + 1) by {
      forall k | j - 1 < k < i + 1
        ensures KeyLe(r[k - 1], r[k])
      {
        if k > j + 1 {
          assert KeyLe(s[k - 1], s[k]);
        }
      }
    }
    if 1 < j {
      assert KeyLe(s[j - 2], s[j - 1]);
    }
  }

  /** `values.sort! { |a, b| a.key <=> b.key }` on the children, in place. */
  method SortByKey(a: array<Result>)
    modifies a
    ensures AdjSorted(a[..])
    ensures multiset(a[..]) == multiset(old(a[..]))
  {
    for i := 0 to a.Length
      invariant SortedRange(a[..], 0, i)
      invariant multiset(a[..]) == multiset(old(a[..]))
    {
      var j := i;
      while j > 0 && !KeyLe(a[j - 1], a[j])
        invariant Inserting(a[..], i, j)
        invariant multiset(a[..]) == multiset(old(a[..]))
      {
        SwapStep(a[..], i, j);
        a[j - 1], a[j] := a[j], a[j - 1];
        j := j - 1;
      }
    }
  }

  /** `after` is what `sort!(force)` made of the child `before`. */
  predicate ChildSorted(before: Result, after: Result, force: bool) {
    ShapeOf(after) == ShapeOf(before) &&
    ((force || FlagSound(before)) ==> DeepSorted(after) && FlagSound(after))
  }

  /** What the parent can conclude once its children are reordered by key
      and each has been sorted in turn. */
  lemma SortedChildren(n: Result, perm: seq<Result>, after: seq<Result>, force: bool)
    requires n.WrappedResult?
    requires multiset(perm) == multiset(n.values) && AdjSorted(perm)
    requires |after| == |perm|
    requires forall k :: 0 <= k < |perm| ==> ChildSorted(perm[k], after[k], force)
    ensures ShapeOf(n.(values := after, sorted := true)) == ShapeOf(n)
    ensures force || FlagSound(n) ==>
              DeepSorted(n.(values := after, sorted := true)) &&
              FlagSound(n.(values := after, sorted := true))
  {
    SameShapes(n.values, perm, after);
    SortedKept(perm, after, force);
    if !force && FlagSound(n) {
      FlagSoundChildren(n, perm);
    }
  }

  /** Sorting each child keeps its key, so the order among children holds. */
  lemma SortedKept(perm: seq<Result>, after: seq<Result>, force: bool)
    requires AdjSorted(perm) && |after| == |perm|
    requires forall k :: 0 <= k < |perm| ==> ChildSorted(perm[k], after[k], force)
    ensures AdjSorted(after)
  {
    forall k | 0 < k < |after|
      ensures KeyLe(after[k - 1], after[k])
    {
      assert ShapeOf(after[k - 1]).key == ShapeOf(perm[k - 1]).key;
      assert ShapeOf(after[k]).key == ShapeOf(perm[k]).key;
    }
  }

  lemma FlagSoundChildren(n: Result, perm: seq<Result>)
    requires n.WrappedResult? && FlagSound(n)
    requires multiset(perm) == multiset(n.values)
    ensures forall k :: 0 <= k < |perm| ==> FlagSound(perm[k])
  {
    forall k | 0 <= k < |perm|
      ensures FlagSound(perm[k])
    {
      assert perm[k] in multiset(n.values);
    }
  }


  /** `sort!(force)`: a leaf returns `force`; a wrapped result already
      sorted returns false unless forced; otherwise it sorts its children
      by key, sorts each child with the same `force`, sets `@sorted` and
      returns true. The `@direct_results` cache is left as it was. */
  method Sort(n: Result, force: bool) returns (ok: bool, m: Result)
    ensures ShapeOf(m) == ShapeOf(n)
    ensures n.DirectResult? ==> ok == force && m == n
    ensures n.WrappedResult? && n.sorted && !force ==> !ok && m == n
    ensures n.WrappedResult? && (!n.sorted || force) ==>
              ok && m == n.(values := m.values, sorted := true)
    ensures force || FlagSound(n) ==> DeepSorted(m) && FlagSound(m)
    decreases n
  {
    if n.DirectResult? {
      return force, n;
    }
    if n.sorted && !force {
      return false, n;
    }
    var vs := n.values;
    var a := new Result[|vs|](i requires 0 <= i < |vs| => vs[i]);
    assert a[..] == vs;
    SortByKey(a);
    var perm := a[..];
    var after: seq<Result> := [];
    for i := 0 to |perm|
      invariant |after| == i
      invariant forall k :: 0 <= k < i ==> ChildSorted(perm[k], after[k], force)
    {
      assert perm[i] in multiset(vs);
      ghost var j :| 0 <= j < |vs| && vs[j] == perm[i];
      var _, c := Sort(perm[i], force);
      assert ChildSorted(perm[i], c, force);
      after := after + [c];
    }
    SortedChildren(n, perm, after, force);
    return true, n.(values := after, sorted := true);
  }

  /** Whatever the first `sort!` did, a second one without `force`
      returns false and changes nothing. */
  method SortTwice(n: Result, force: bool) returns (ok1: bool, ok2: bool, m1: Result, m2: Result)
    requires n.WrappedResult?
    ensures ok1 == (!n.sorted || force)
    ensures !ok2 && m2 == m1
    ensures ShapeOf(m2) == ShapeOf(n)
  {
    ok1, m1 := Sort(n, force);
    ok2, m2 := Sort(m1, false);
  }
}
