/** The two walks of `recursive_each_with_level` (depth first, and level
    by level over a frontier list) and the leaf enumeration
    `each_direct_result` with its `@direct_results` cache. A walk's output
    is the sequence of `(level, node)` pairs handed to the block. */
module Traversal {
  import opened Values
  import opened Tree
  import opened Seqs

  /** One call of the block: the level and the node. */
  type Visit = (int, Result)

  /** The number of nodes in a tree. */
  function NodeCount(n: Result): nat
    decreases n, 1
  {
    match n
    case DirectResult(_, _, _, _) => 1
    case WrappedResult(_, _, _, _, vs, _, _) => 1 + NodeCountAll(vs)
  }

  function NodeCountAll(vs: seq<Result>): nat
    decreases vs, 0
  {
    if vs == [] then 0 else NodeCountAll(vs[..|vs| - 1]) + NodeCount(vs[|vs| - 1])
  }

  // ---------------------------------------------------------------------
  // Depth first

  /** `recursive_each_with_level(level, true)`: the node at `level`, then
      each child's walk at `level + 1`, in child order. A leaf yields only
      itself. */
  function PreOrder(n: Result, level: int): seq<Visit>
    decreases n, 1
  {
    match n
    case DirectResult(_, _, _, _) => [(level, n)]
    case WrappedResult(_, _, _, _, vs, _, _) => [(level, n)] + PreOrderAll(vs, level + 1)
  }

  function PreOrderAll(vs: seq<Result>, level: int): seq<Visit>
    decreases vs, 0
  {
    if vs == [] then [] else PreOrderAll(vs[..|vs| - 1], level) + PreOrder(vs[|vs| - 1], level)
  }

  // ---------------------------------------------------------------------
  // Breadth first

  /** The next frontier: the children of the frontier's nodes, in order
      (`to_evaluate_soon.concat r.values if r.size > 0`). */
  function Next(fr: seq<Result>): seq<Result> {
    if fr == [] then [] else Next(fr[..|fr| - 1]) + Children(fr[|fr| - 1])
  }

  /** The visits of one frontier, all at one level. */
  function Tag(fr: seq<Result>, lvl: int): (r: seq<Visit>)
    ensures |r| == |fr|
    ensures forall i :: 0 <= i < |fr| ==> r[i] == (lvl, fr[i])
  {
    seq(|fr|, i requires 0 <= i < |fr| => (lvl, fr[i]))
  }

  /** The visits of the breadth-first walk from frontier `fr` at level
      `lvl`. */
  function LevelOrder(fr: seq<Result>, lvl: int): seq<Visit>
    decreases NodeCountAll(fr)
  {
    if fr == [] then []
    else
      NextCount(fr);
      Tag(fr, lvl) + LevelOrder(Next(fr), lvl + 1)
  }

  /** `recursive_each_with_level(level, false)`: the `while` loop over the
      frontier list `to_evaluate`. */
  method EachWithLevelBreadthFirst(n: Result, level: int) returns (visits: seq<Visit>)
    ensures visits == LevelOrder([n], level)
  {
    var toEvaluate := [n];
    var lvl := level;
    visits := [];
    while toEvaluate != []
      invariant visits + LevelOrder(toEvaluate, lvl) == LevelOrder([n], level)
      decreases NodeCountAll(toEvaluate)
    {
      var soon := [];
      var layer := [];
      for i := 0 to |toEvaluate|
        invariant soon == Next(toEvaluate[..i])
        invariant layer == Tag(toEvaluate[..i], lvl)
      {
        var r := toEvaluate[i];
        FrontierStep(toEvaluate, i, lvl);
        layer := layer + [(lvl, r)];
        if Size(r) > 0 {
          soon := soon + r.values;
        }
      }
      assert toEvaluate[..|toEvaluate|] == toEvaluate;
      NextCount(toEvaluate);
      LevelStep(toEvaluate, lvl);
      Assoc(visits, layer, LevelOrder(soon, lvl + 1));
      visits := visits + layer;
      lvl := lvl + 1;
      toEvaluate := soon;
    }
  }

  /** One level of the walk: the frontier's own visits, then the walk
      from the next frontier. */
  lemma LevelStep(fr: seq<Result>, lvl: int)
    requires fr != []
    ensures LevelOrder(fr, lvl) == Tag(fr, lvl) + LevelOrder(Next(fr), lvl + 1)
  {
  }

  /** One more node of the frontier handled. */
  lemma FrontierStep(fr: seq<Result>, i: nat, lvl: int)
    requires i < |fr|
    ensures Next(fr[..i + 1]) == Next(fr[..i]) + Children(fr[i])
    ensures Tag(fr[..i + 1], lvl) == Tag(fr[..i], lvl) + [(lvl, fr[i])]
  {
    assert fr[..i + 1][..i] == fr[..i];
  }

  // ---------------------------------------------------------------------
  // Leaf enumeration

  /** What `each_direct_result` yields: a leaf yields itself, a wrapped
      result replays its cache when it has one and otherwise enumerates
      its children's leaves (each child replaying its own cache). */
  function DirectResults(n: Result): seq<Result>
    decreases n, 1
  {
    match n
    case DirectResult(_, _, _, _) => [n]
    case WrappedResult(_, _, _, _, vs, _, cache) =>
      if cache.Some? then cache.value else DirectResultsAll(vs)
  }

  function DirectResultsAll(vs: seq<Result>): seq<Result>
    decreases vs, 0
  {
    if vs == [] then [] else DirectResultsAll(vs[..|vs| - 1]) + DirectResults(vs[|vs| - 1])
  }

  /** `each_direct_result(cached)`, run to completion: the leaves it yields,
      and the node afterwards. A wrapped result without a cache stores what
      it yielded when `cached` is set and it yielded anything; children are
      always asked with `cached = false`. */
  method EachDirectResult(n: Result, cached: bool) returns (rs: seq<Result>, n': Result)
    ensures rs == DirectResults(n)
    ensures n' == if n.WrappedResult? && n.directResults.None? && cached && rs != []
                  then n.(directResults := Some(rs)) else n
    decreases n
  {
    n' := n;
    match n
    case DirectResult(_, _, _, _) =>
      rs := [n];
    case WrappedResult(_, _, _, _, vs, _, cache) =>
      if cache.Some? {
        rs := cache.value;
      } else {
        rs := [];
        for i := 0 to |vs|
          invariant rs == DirectResultsAll(vs[..i])
        {
          assert vs[..i + 1][..i] == vs[..i];
          var sub, _ := EachDirectResult(vs[i], false);
          rs := rs + sub;
        }
        assert vs[..|vs|] == vs;
        if cached && rs != [] {
          n' := n.(directResults := Some(rs));
        }
      }
  }

  // ---------------------------------------------------------------------
  // Facts about the walks

  lemma {:induction false} NodeCountAllAppend(a: seq<Result>, b: seq<Result>)
    ensures NodeCountAll(a + b) == NodeCountAll(a) + NodeCountAll(b)
  {
    if b != [] {
      assert (a + b)[..|a + b| - 1] == a + b[..|b| - 1];
      NodeCountAllAppend(a, b[..|b| - 1]);
    } else {
      assert a + b == a;
    }
  }

  /** Moving to the next frontier drops the frontier's own nodes. */
  lemma {:induction false} NextCount(fr: seq<Result>)
    ensures NodeCountAll(Next(fr)) + |fr| == NodeCountAll(fr)
  {
    if fr != [] {
      var init := fr[..|fr| - 1];
      NextCount(init);
      NodeCountAllAppend(Next(init), Children(fr[|fr| - 1]));
    }
  }

  lemma {:induction false} PreOrderAllAppend(a: seq<Result>, b: seq<Result>, level: int)
    ensures PreOrderAll(a + b, level) == PreOrderAll(a, level) + PreOrderAll(b, level)
  {
    if b != [] {
      assert (a + b)[..|a + b| - 1] == a + b[..|b| - 1];
      PreOrderAllAppend(a, b[..|b| - 1], level);
    } else {
      assert a + b == a;
    }
  }

  lemma PreOrderUnfold(x: Result, level: int)
    ensures PreOrder(x, level) == [(level, x)] + PreOrderAll(Children(x), level + 1)
  {
  }

  /** Every level a walk reports is at least its starting level. */
  lemma {:induction false} PreOrderLevels(n: Result, level: int)
    ensures forall v :: v in PreOrder(n, level) ==> v.0 >= level
    decreases n, 1
  {
    match n
    case DirectResult(_, _, _, _) =>
    case WrappedResult(_, _, _, _, vs, _, _) =>
      PreOrderAllLevels(vs, level + 1);
  }

  lemma {:induction false} PreOrderAllLevels(vs: seq<Result>, level: int)
    ensures forall v :: v in PreOrderAll(vs, level) ==> v.0 >= level
    decreases vs, 0
  {
    if vs != [] {
      PreOrderAllLevels(vs[..|vs| - 1], level);
      PreOrderLevels(vs[|vs| - 1], level);
    }
  }

  /** The frontier's last node split off the pre-order and the next
      frontier. */
  lemma PreOrderSnoc(fr: seq<Result>, lvl: int)
    requires fr != []
    ensures var init := fr[..|fr| - 1];
            var x := fr[|fr| - 1];
            && PreOrderAll(fr, lvl) == PreOrderAll(init, lvl) + ([(lvl, x)] + PreOrderAll(Children(x), lvl + 1))
            && PreOrderAll(Next(fr), lvl + 1) == PreOrderAll(Next(init), lvl + 1) + PreOrderAll(Children(x), lvl + 1)
            && Tag(fr, lvl) == Tag(init, lvl) + [(lvl, x)]
  {
    var init := fr[..|fr| - 1];
    var x := fr[|fr| - 1];
    PreOrderUnfold(x, lvl);
    PreOrderAllAppend(Next(init), Children(x), lvl + 1);
  }

  /** Pre-order over a frontier is the frontier at its level plus the
      pre-order over the next frontier one level down, as multisets. */
  lemma {:induction false} PreOrderSplit(fr: seq<Result>, lvl: int)
    ensures multiset(PreOrderAll(fr, lvl)) == multiset(Tag(fr, lvl)) + multiset(PreOrderAll(Next(fr), lvl + 1))
  {
    if fr != [] {
      var init := fr[..|fr| - 1];
      PreOrderSplit(init, lvl);
      PreOrderSnoc(fr, lvl);
    }
  }

  /** The breadth-first walk visits exactly the nodes, at exactly the
      levels, that the depth-first walk visits, each as often. */
  lemma {:induction false} LevelOrderPerm(fr: seq<Result>, lvl: int)
    ensures multiset(LevelOrder(fr, lvl)) == multiset(PreOrderAll(fr, lvl))
    decreases NodeCountAll(fr)
  {
    if fr != [] {
      NextCount(fr);
      LevelOrderPerm(Next(fr), lvl + 1);
      PreOrderSplit(fr, lvl);
    }
  }

  /** From one root: both walks make the same visits. */
  lemma BreadthFirstVisitsAll(n: Result, level: int)
    ensures multiset(LevelOrder([n], level)) == multiset(PreOrder(n, level))
  {
    LevelOrderPerm([n], level);
    assert [n][..0] == [];
  }

  /** The breadth-first walk never goes back up a level, and starts at its
      own level. */
  lemma {:induction false} LevelOrderSorted(fr: seq<Result>, lvl: int)
    ensures forall i :: 0 <= i < |LevelOrder(fr, lvl)| ==> LevelOrder(fr, lvl)[i].0 >= lvl
    ensures forall i, j :: 0 <= i < j < |LevelOrder(fr, lvl)| ==> LevelOrder(fr, lvl)[i].0 <= LevelOrder(fr, lvl)[j].0
    decreases NodeCountAll(fr)
  {
    if fr != [] {
      NextCount(fr);
      var head := Tag(fr, lvl);
      var rest := LevelOrder(Next(fr), lvl + 1);
      LevelOrderSorted(Next(fr), lvl + 1);
      var s := head + rest;
      assert LevelOrder(fr, lvl) == s;
      forall i, j | 0 <= i < j < |s|
        ensures s[i].0 <= s[j].0
      {
        if j < |head| {
          assert s[i] == head[i] && s[j] == head[j];
        } else if i < |head| {
          assert s[i] == head[i];
          assert s[j] == rest[j - |head|];
        } else {
          assert s[i] == rest[i - |head|] && s[j] == rest[j - |head|];
          assert rest[i - |head|].0 <= rest[j - |head|].0;
        }
      }
      forall i | 0 <= i < |s|
        ensures s[i].0 >= lvl
      {
        if i >= |head| {
          assert s[i] == rest[i - |head|];
          assert rest[i - |head|].0 >= lvl + 1;
        } else {
          assert s[i] == head[i];
        }
      }
    }
  }

  /** The nodes a sequence of visits reports at level `m`, in order. */
  function AtLevel(s: seq<Visit>, m: int): seq<Result> {
    if s == [] then []
    else AtLevel(s[..|s| - 1], m) + (if s[|s| - 1].0 == m then [s[|s| - 1].1] else [])
  }

  lemma {:induction false} AtLevelAppend(a: seq<Visit>, b: seq<Visit>, m: int)
    ensures AtLevel(a + b, m) == AtLevel(a, m) + AtLevel(b, m)
  {
    if b != [] {
      assert (a + b)[..|a + b| - 1] == a + b[..|b| - 1];
      AtLevelAppend(a, b[..|b| - 1], m);
    } else {
      assert a + b == a;
    }
  }

  lemma {:induction false} AtLevelBelow(s: seq<Visit>, m: int)
    requires forall v :: v in s ==> v.0 > m
    ensures AtLevel(s, m) == []
  {
    if s != [] {
      assert s[|s| - 1] in s;
      AtLevelBelow(s[..|s| - 1], m);
    }
  }

  lemma {:induction false} AtLevelTag(fr: seq<Result>, lvl: int, m: int)
    ensures AtLevel(Tag(fr, lvl), m) == if m == lvl then fr else []
  {
    if fr != [] {
      var init := fr[..|fr| - 1];
      assert Tag(fr, lvl)[..|fr| - 1] == Tag(init, lvl);
      AtLevelTag(init, lvl, m);
    }
  }

  lemma AtLevelOne(v: Visit, m: int)
    ensures AtLevel([v], m) == if v.0 == m then [v.1] else []
  {
    assert [v][..0] == [];
  }

  /** Pre-order over a frontier, restricted to one level: the frontier
      itself at its level, the next frontier's pre-order further down. */
  lemma {:induction false} PreOrderSplitLevel(fr: seq<Result>, lvl: int, m: int)
    ensures AtLevel(PreOrderAll(fr, lvl), m)
            == AtLevel(Tag(fr, lvl), m) + AtLevel(PreOrderAll(Next(fr), lvl + 1), m)
  {
    if fr != [] {
      var init := fr[..|fr| - 1];
      var x := fr[|fr| - 1];
      var deeper := PreOrderAll(Children(x), lvl + 1);
      var nextInit := PreOrderAll(Next(init), lvl + 1);
      PreOrderSplitLevel(init, lvl, m);
      PreOrderSnoc(fr, lvl);
      var a := AtLevel(PreOrderAll(init, lvl), m);
      var t := AtLevel(Tag(init, lvl), m);
      var nx := AtLevel(nextInit, m);
      var xs := AtLevel([(lvl, x)], m);
      var d := AtLevel(deeper, m);
      AtLevelAppend(PreOrderAll(init, lvl), [(lvl, x)] + deeper, m);
      AtLevelAppend([(lvl, x)], deeper, m);
      assert AtLevel(PreOrderAll(fr, lvl), m) == a + (xs + d);
      AtLevelAppend(nextInit, deeper, m);
      assert AtLevel(PreOrderAll(Next(fr), lvl + 1), m) == nx + d;
      AtLevelAppend(Tag(init, lvl), [(lvl, x)], m);
      assert AtLevel(Tag(fr, lvl), m) == t + xs;
      AtLevelOne((lvl, x), m);
      if m == lvl {
        PreOrderAllLevels(Next(init), lvl + 1);
        AtLevelBelow(nextInit, m);
      }
      Interleave(t, nx, xs, d);
    }
  }

  lemma Interleave(t: seq<Result>, nx: seq<Result>, xs: seq<Result>, d: seq<Result>)
    requires nx == [] || xs == []
    ensures (t + nx) + (xs + d) == (t + xs) + (nx + d)
  {
  }

  /** Level by level, the breadth-first walk reports the same nodes in the
      same left-to-right order as the depth-first walk. */
  lemma {:induction false} LevelOrderByLevel(fr: seq<Result>, lvl: int, m: int)
    ensures AtLevel(LevelOrder(fr, lvl), m) == AtLevel(PreOrderAll(fr, lvl), m)
    decreases NodeCountAll(fr)
  {
    if fr != [] {
      NextCount(fr);
      var rest := LevelOrder(Next(fr), lvl + 1);
      LevelOrderByLevel(Next(fr), lvl + 1, m);
      AtLevelAppend(Tag(fr, lvl), rest, m);
      PreOrderSplitLevel(fr, lvl, m);
      if m == lvl {
        LevelOrderSorted(Next(fr), lvl + 1);
        PreOrderAllLevels(Next(fr), lvl + 1);
        AtLevelBelow(PreOrderAll(Next(fr), lvl + 1), m);
      }
    }
  }

  /** The leaves among a sequence of visits, in order. */
  function LeafVisits(s: seq<Visit>): seq<Result> {
    if s == [] then []
    else LeafVisits(s[..|s| - 1]) + (if s[|s| - 1].1.DirectResult? then [s[|s| - 1].1] else [])
  }

  lemma {:induction false} LeafVisitsAppend(a: seq<Visit>, b: seq<Visit>)
    ensures LeafVisits(a + b) == LeafVisits(a) + LeafVisits(b)
  {
    if b != [] {
      assert (a + b)[..|a + b| - 1] == a + b[..|b| - 1];
      LeafVisitsAppend(a, b[..|b| - 1]);
    } else {
      assert a + b == a;
    }
  }

  lemma {:induction false} LeavesAllSnoc(vs: seq<Result>, x: Result)
    ensures LeavesAll(vs + [x]) == LeavesAll(vs) + Leaves(x)
  {
    if vs == [] {
      assert [x][1..] == [];
    } else {
      assert (vs + [x])[1..] == vs[1..] + [x];
      LeavesAllSnoc(vs[1..], x);
    }
  }

  /** The leaves the depth-first walk passes, in order, are the tree's
      leaves. */
  lemma {:induction false} PreOrderLeaves(n: Result, level: int)
    ensures LeafVisits(PreOrder(n, level)) == Leaves(n)
    decreases n, 1
  {
    match n
    case DirectResult(_, _, _, _) =>
      assert [(level, n)][..0] == [];
    case WrappedResult(_, _, _, _, vs, _, _) =>
      PreOrderAllLeaves(vs, level + 1);
      LeafVisitsAppend([(level, n)], PreOrderAll(vs, level + 1));
      assert [(level, n)][..0] == [];
  }

  lemma {:induction false} PreOrderAllLeaves(vs: seq<Result>, level: int)
    ensures LeafVisits(PreOrderAll(vs, level)) == LeavesAll(vs)
    decreases vs, 0
  {
    if vs != [] {
      var init, x := vs[..|vs| - 1], vs[|vs| - 1];
      PreOrderAllLeaves(init, level);
      PreOrderLeaves(x, level);
      LeafVisitsAppend(PreOrderAll(init, level), PreOrder(x, level));
      LeavesAllSnoc(init, x);
      SplitLast(vs);
    }
  }

  // ---------------------------------------------------------------------
  // Facts about the leaf enumeration

  /** Every cache in the tree holds its node's leaves. */
  predicate CacheCoherent(n: Result) {
    match n
    case DirectResult(_, _, _, _) => true
    case WrappedResult(_, _, _, _, vs, _, cache) =>
      (cache.Some? ==> cache.value == LeavesAll(vs))
      && forall i :: 0 <= i < |vs| ==> CacheCoherent(vs[i])
  }

  /** With coherent caches `each_direct_result` yields every leaf exactly
      once, left to right. */
  lemma {:induction false} DirectResultsAreLeaves(n: Result)
    requires CacheCoherent(n)
    ensures DirectResults(n) == Leaves(n)
    decreases n, 1
  {
    match n
    case DirectResult(_, _, _, _) =>
    case WrappedResult(_, _, _, _, vs, _, cache) =>
      if cache.None? {
        DirectResultsAllAreLeaves(vs);
      }
  }

  lemma {:induction false} DirectResultsAllAreLeaves(vs: seq<Result>)
    requires forall i :: 0 <= i < |vs| ==> CacheCoherent(vs[i])
    ensures DirectResultsAll(vs) == LeavesAll(vs)
    decreases vs, 0
  {
    if vs != [] {
      var init := vs[..|vs| - 1];
      DirectResultsAllAreLeaves(init);
      DirectResultsAreLeaves(vs[|vs| - 1]);
      LeavesAllSnoc(init, vs[|vs| - 1]);
      assert init + [vs[|vs| - 1]] == vs;
    }
  }

  /** After a complete run, a later run yields the same sequence, whether
      or not the first run stored a cache; a wrapped result asked with
      `cached` set that yielded anything now holds that sequence. */
  method EachDirectResultTwice(n: Result, cached: bool) returns (rs1: seq<Result>, rs2: seq<Result>, n2: Result)
    ensures rs2 == rs1 == DirectResults(n)
    ensures n.DirectResult? ==> n2 == n
    ensures n.WrappedResult? && cached && rs1 != [] ==> n2.WrappedResult? && n2.directResults == Some(rs1)
  {
    var n1;
    rs1, n1 := EachDirectResult(n, cached);
    rs2, n2 := EachDirectResult(n1, cached);
  }

  /** A run keeps the caches coherent. */
  lemma RunKeepsCoherence(n: Result, cached: bool, rs: seq<Result>, n': Result)
    requires CacheCoherent(n)
    requires rs == DirectResults(n)
    requires n' == if n.WrappedResult? && n.directResults.None? && cached && rs != []
                   then n.(directResults := Some(rs)) else n
    ensures CacheCoherent(n')
  {
    DirectResultsAreLeaves(n);
  }
}
