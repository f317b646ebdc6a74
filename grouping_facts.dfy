/** What `grouped_by` promises: how bucket keys decide membership, that
    the buckets partition the entries in order, what the merge pass leaves
    in a "10+" bucket, and that grouping leaves the total count alone. */
module GroupingFacts {
  import opened Values
  import opened Tree
  import opened Factory
  import opened Grouping
  import opened Seqs

  // ---------------------------------------------------------------------
  // Grouping by a key function

  /** The groups of `xs` under `kf`, one per key in order of first
      occurrence. */
  function Groups(xs: seq<Result>, kf: Result -> Record): seq<seq<Result>> {
    var d := Dedup(KeysOf(xs, kf));
    seq(|d|, i requires 0 <= i < |d| => Where(xs, kf, d[i]))
  }

  /** The concatenation of a list of groups. */
  function Flatten(gs: seq<seq<Result>>): seq<Result> {
    if gs == [] then [] else gs[0] + Flatten(gs[1..])
  }

  /** `a` occurs in `b` in the same relative order. */
  predicate Subseq<T(==)>(a: seq<T>, b: seq<T>) {
    if b == [] then a == []
    else
      Subseq(a, b[..|b| - 1])
      || (a != [] && a[|a| - 1] == b[|b| - 1] && Subseq(a[..|a| - 1], b[..|b| - 1]))
  }

  /** An element belongs to a group exactly when it is one of the elements
      and carries that group's key. */
  lemma {:induction false} WhereIff(xs: seq<Result>, kf: Result -> Record, k: Record, y: Result)
    ensures y in Where(xs, kf, k) <==> y in xs && kf(y) == k
  {
    WhereMembers(xs, kf, k);
    if xs != [] {
      var init := xs[..|xs| - 1];
      assert xs == init + [xs[|xs| - 1]];
      WhereIff(init, kf, k, y);
    }
  }

  /** A group keeps its members in their original relative order. */
  lemma {:induction false} WhereSubseq(xs: seq<Result>, kf: Result -> Record, k: Record)
    ensures Subseq(Where(xs, kf, k), xs)
  {
    if xs != [] {
      var init := xs[..|xs| - 1];
      WhereSubseq(init, kf, k);
      var w := Where(init, kf, k);
      if kf(xs[|xs| - 1]) == k {
        assert Where(xs, kf, k) == w + [xs[|xs| - 1]];
        assert (w + [xs[|xs| - 1]])[..|w|] == w;
      } else {
        assert Where(xs, kf, k) == w;
      }
    }
  }

  lemma {:induction false} IndexOfSnoc(ks: seq<Record>, k: Record, y: Record)
    ensures IndexOf(ks + [k], y) == if y in ks then IndexOf(ks, y) else if y == k then |ks| else |ks| + 1
  {
    if ks != [] {
      assert (ks + [k])[1..] == ks[1..] + [k];
      IndexOfSnoc(ks[1..], k, y);
    }
  }

  /** Keys are listed in order of their first occurrence. */
  lemma {:induction false} DedupFirstOccurrence(ks: seq<Record>)
    ensures var d := Dedup(ks);
            forall i, j :: 0 <= i < j < |d| ==> IndexOf(ks, d[i]) < IndexOf(ks, d[j])
  {
    if ks != [] {
      var init := ks[..|ks| - 1];
      var k := ks[|ks| - 1];
      assert ks == init + [k];
      DedupFirstOccurrence(init);
      var d := Dedup(init);
      DedupSnoc(init, k);
      var d' := Dedup(ks);
      forall y | y in d
        ensures IndexOf(ks, y) == IndexOf(init, y) < |init|
      {
        IndexOfSnoc(init, k, y);
      }
      if k !in d {
        IndexOfSnoc(init, k, k);
        forall i, j | 0 <= i < j < |d'|
          ensures IndexOf(ks, d'[i]) < IndexOf(ks, d'[j])
        {
          assert d'[i] == d[i] && d[i] in d;
          if j < |d| {
            assert d'[j] == d[j] && d[j] in d;
          }
        }
      }
    }
  }

  lemma DedupOrder(ks: seq<Record>, i: nat, j: nat)
    requires i < j < |Dedup(ks)|
    ensures IndexOf(ks, Dedup(ks)[i]) < IndexOf(ks, Dedup(ks)[j])
  {
    DedupFirstOccurrence(ks);
  }

  /** `Groups` is the state the partition loop ends in. */
  lemma GroupsGrouped(xs: seq<Result>, kf: Result -> Record)
    ensures Grouped(xs, kf, Dedup(KeysOf(xs, kf)), Groups(xs, kf))
  {
  }

  lemma GroupedUnique(xs: seq<Result>, kf: Result -> Record, keys: seq<Record>, groups: seq<seq<Result>>)
    requires Grouped(xs, kf, keys, groups)
    ensures groups == Groups(xs, kf)
  {
  }

  lemma {:induction false} FlattenSnoc(gs: seq<seq<Result>>, g: seq<Result>)
    ensures Flatten(gs + [g]) == Flatten(gs) + g
  {
    if gs != [] {
      assert (gs + [g])[1..] == gs[1..] + [g];
      FlattenSnoc(gs[1..], g);
    }
  }

  lemma {:induction false} FlattenAppendTo(gs: seq<seq<Result>>, idx: nat, x: Result)
    requires idx < |gs|
    ensures multiset(Flatten(gs[idx := gs[idx] + [x]])) == multiset(Flatten(gs)) + multiset{x}
  {
    var gs' := gs[idx := gs[idx] + [x]];
    assert Flatten(gs) == gs[0] + Flatten(gs[1..]);
    assert Flatten(gs') == gs'[0] + Flatten(gs'[1..]);
    if idx == 0 {
      assert gs'[1..] == gs[1..];
    } else {
      assert gs'[1..] == gs[1..][idx - 1 := gs[idx] + [x]];
      FlattenAppendTo(gs[1..], idx - 1, x);
    }
  }

  /** The groups partition the elements: every element lands in exactly
      one group, once. */
  lemma {:induction false} PartitionPerm(xs: seq<Result>, kf: Result -> Record)
    ensures multiset(Flatten(Groups(xs, kf))) == multiset(xs)
  {
    if xs != [] {
      var init := xs[..|xs| - 1];
      var x := xs[|xs| - 1];
      assert xs == init + [x];
      PartitionPerm(init, kf);
      var keys := Dedup(KeysOf(init, kf));
      var g := Groups(init, kf);
      GroupsGrouped(init, kf);
      var idx := IndexOf(keys, kf(x));
      if idx < |keys| {
        GroupInto(init, x, kf, keys, g, idx);
        GroupedUnique(xs, kf, keys, g[idx := g[idx] + [x]]);
        FlattenAppendTo(g, idx, x);
      } else {
        GroupNew(init, x, kf, keys, g);
        GroupedUnique(xs, kf, keys + [kf(x)], g + [[x]]);
        FlattenSnoc(g, [x]);
      }
    }
  }

  // ---------------------------------------------------------------------
  // Sums of counts

  lemma {:induction false} SumCountFieldsPerm(a: seq<Result>, b: seq<Result>)
    requires multiset(a) == multiset(b)
    ensures SumCountFields(a) == SumCountFields(b)
    decreases |a|
  {
    if a == [] {
      assert |b| == |multiset(b)| == 0;
    } else {
      var i := PermHead(a, b);
      PermRest(a, b, i);
      SumCountFieldsPerm(a[1..], b[..i] + b[i + 1..]);
      SumRemove(b, i);
    }
  }

  lemma SumRemove(b: seq<Result>, i: nat)
    requires i < |b|
    ensures SumCountFields(b) == CountField(b[i]) + SumCountFields(b[..i] + b[i + 1..])
  {
    var p, x, q := b[..i], b[i], b[i + 1..];
    SplitAt(b, i);
    SumCountFieldsAppend(p + [x], q);
    SumCountFieldsAppend(p, [x]);
    SumCountFieldsAppend(p, q);
    SumSingle(x);
  }

  lemma SumSingle(x: Result)
    ensures SumCountFields([x]) == CountField(x)
  {
    assert [x][1..] == [];
  }

  lemma {:induction false} SumFlattenFields(a: seq<Result>, gs: seq<seq<Result>>)
    requires |a| == |gs|
    requires forall i :: 0 <= i < |a| ==> CountField(a[i]) == SumCountFields(gs[i])
    ensures SumCountFields(a) == SumCountFields(Flatten(gs))
  {
    if a != [] {
      SumFlattenFields(a[1..], gs[1..]);
      SumCountFieldsAppend(gs[0], Flatten(gs[1..]));
    }
  }

  lemma {:induction false} SumFlattenCounts(a: seq<Result>, gs: seq<seq<Result>>)
    requires |a| == |gs|
    requires forall i :: 0 <= i < |a| ==> Count(a[i]) == SumCountFields(gs[i])
    ensures SumCounts(a) == SumCountFields(Flatten(gs))
  {
    if a != [] {
      SumFlattenCounts(a[1..], gs[1..]);
      SumCountFieldsAppend(gs[0], Flatten(gs[1..]));
    }
  }

  // ---------------------------------------------------------------------
  // Bucket keys

  /** Two entries agree on grouping field `k`: equal values, or, in a
      `number_of...` field, values that both read as 10 or more. */
  predicate AgreeOn(a: Result, b: Result, k: string) {
    var va := Get(a.fields, k);
    var vb := Get(b.fields, k);
    va == vb || (IsNumberOf(k) && ToIVal(va) >= 10 && ToIVal(vb) >= 10)
  }

  /** Two entries share a bucket key exactly when they agree on every
      grouping field. */
  lemma SameKeyIff(a: Result, b: Result, f: seq<string>)
    ensures BucketKey(a, f) == BucketKey(b, f) <==> forall k :: k in f ==> AgreeOn(a, b, k)
  {
    if forall k :: k in f ==> AgreeOn(a, b, k) {
      AgreeingSameKey(a, b, f);
    }
    if BucketKey(a, f) == BucketKey(b, f) {
      forall k | k in f
        ensures AgreeOn(a, b, k)
      {
        assert BucketKey(a, f)[k] == BucketKey(b, f)[k];
        SameComponent(a, b, k);
      }
    }
  }

  lemma AgreeingSameKey(a: Result, b: Result, f: seq<string>)
    requires forall k :: k in f ==> AgreeOn(a, b, k)
    ensures BucketKey(a, f) == BucketKey(b, f)
  {
    forall k | k in f
      ensures BucketKey(a, f)[k] == BucketKey(b, f)[k]
    {
      assert AgreeOn(a, b, k);
    }
  }

  lemma SameComponent(a: Result, b: Result, k: string)
    requires Clamp(k, Get(a.fields, k)) == Clamp(k, Get(b.fields, k))
    ensures AgreeOn(a, b, k)
  {
    ToITenPlus();
  }

  /** Two entries land in the same bucket exactly when their keys are
      equal. */
  lemma SameBucketIff(entries: seq<Result>, f: seq<string>, a: Result, b: Result)
    requires a in entries && b in entries
    ensures b in Where(entries, ByBucket(f), BucketKey(a, f)) <==> BucketKey(a, f) == BucketKey(b, f)
  {
    WhereIff(entries, ByBucket(f), BucketKey(a, f), b);
  }

  /** The merge pass runs on a bucket exactly when its numeric component
      was clamped to "10+". */
  lemma OverflowIffClamped(e: Result, f: seq<string>)
    requires FirstNumberOf(f).Some?
    ensures Overflow(BucketKey(e, f), f) <==> Get(BucketKey(e, f), FirstNumberOf(f).value) == Str("10+")
  {
    // The token reads as 10, and the numeric field is one of the key's fields.
    ToITenPlus();
    assert FirstNumberOf(f).value in BucketKey(e, f);
  }

  // ---------------------------------------------------------------------
  // The merge pass

  lemma RepresentativeKey(cls: seq<Result>, num: string)
    requires cls != []
    ensures PKey(Representative(cls, num), num) == PKey(cls[0], num)
  {
  }

  lemma RepresentativeCount(cls: seq<Result>, num: string)
    requires cls != []
    requires num != "count"
    ensures CountField(Representative(cls, num)) == SumCountFields(cls)
  {
    if |cls| == 1 {
      assert SumCountFields(cls) == CountField(cls[0]) + SumCountFields(cls[1..]);
    } else {
      ToIRoundTrip(SumCountFields(cls));
    }
  }

  /** After the merge pass every survivor carries a different `PKey`, the
      survivors' `PKey`s are exactly those of the bucket's members, and
      each survivor's numeric field is "10+". */
  lemma MergedKeys(ms: seq<Result>, num: string)
    requires IsNumberOf(num)
    ensures var m := MergedSpec(ms, num);
            && (forall i, j :: 0 <= i < j < |m| ==> PKey(m[i], num) != PKey(m[j], num))
            && (forall x :: x in ms ==> exists i :: 0 <= i < |m| && PKey(m[i], num) == PKey(x, num))
            && (forall i :: 0 <= i < |m| ==> Get(m[i].fields, num) == Str("10+"))
  {
    NotNumberOfCount();
    var kf := ByPKey(num);
    var d := Dedup(KeysOf(ms, kf));
    var m := MergedSpec(ms, num);
    DedupDistinct(KeysOf(ms, kf));
    forall i | 0 <= i < |m|
      ensures PKey(m[i], num) == d[i]
    {
      var cls := Where(ms, kf, d[i]);
      WhereMembers(ms, kf, d[i]);
      assert cls[0] in cls;
      RepresentativeKey(cls, num);
    }
    forall x | x in ms
      ensures exists i :: 0 <= i < |m| && PKey(m[i], num) == PKey(x, num)
    {
      var j :| 0 <= j < |ms| && ms[j] == x;
      assert kf(ms[j]) == KeysOf(ms, kf)[j];
      var i := IndexOf(d, PKey(x, num));
      assert PKey(m[i], num) == PKey(x, num);
    }
  }

  /** Each survivor carries in "count" the summed counts of the members
      that share its `PKey`. */
  lemma MergedCounts(ms: seq<Result>, num: string)
    requires IsNumberOf(num)
    ensures var m := MergedSpec(ms, num);
            forall i :: 0 <= i < |m| ==>
              CountField(m[i]) == SumCountFields(Where(ms, ByPKey(num), PKey(m[i], num)))
  {
    NotNumberOfCount();
    var kf := ByPKey(num);
    var d := Dedup(KeysOf(ms, kf));
    var m := MergedSpec(ms, num);
    forall i | 0 <= i < |m|
      ensures CountField(m[i]) == SumCountFields(Where(ms, kf, PKey(m[i], num)))
    {
      var cls := Where(ms, kf, d[i]);
      WhereMembers(ms, kf, d[i]);
      assert cls[0] in cls;
      RepresentativeKey(cls, num);
      RepresentativeCount(cls, num);
    }
  }

  /** The merge pass keeps the bucket's total of `count.to_i`. */
  lemma MergedCountPreserved(ms: seq<Result>, num: string)
    requires IsNumberOf(num)
    ensures SumCountFields(MergedSpec(ms, num)) == SumCountFields(ms)
  {
    NotNumberOfCount();
    var kf := ByPKey(num);
    var m := MergedSpec(ms, num);
    var gs := Groups(ms, kf);
    forall i | 0 <= i < |m|
      ensures CountField(m[i]) == SumCountFields(gs[i])
    {
      RepresentativeCount(gs[i], num);
    }
    SumFlattenFields(m, gs);
    PartitionPerm(ms, kf);
    SumCountFieldsPerm(Flatten(gs), ms);
  }

  /** Merging keeps leaves leaves. */
  lemma MergedLeaves(ms: seq<Result>, num: string)
    requires forall x :: x in ms ==> x.DirectResult?
    ensures forall y :: y in MergedSpec(ms, num) ==> y.DirectResult?
  {
    var kf := ByPKey(num);
    var d := Dedup(KeysOf(ms, kf));
    forall i | 0 <= i < |d|
      ensures Representative(Where(ms, kf, d[i]), num).DirectResult?
    {
      WhereMembers(ms, kf, d[i]);
      assert Where(ms, kf, d[i])[0] in Where(ms, kf, d[i]);
    }
  }

  // ---------------------------------------------------------------------
  // The grouped result

  /** Every bucket is a wrapped result whose fields are its key, tagged
      `type` (`:direct` when none is given), holding the important fields
      and at least one member; there are buckets exactly when there are
      entries. */
  lemma GroupedShape(entries: seq<Result>, f: seq<string>, t: Option<Kind>, imp: seq<string>)
    ensures var g := GroupSpec(entries, f, t, imp);
            && (entries == [] <==> g == [])
            && forall i :: 0 <= i < |g| ==>
                 && g[i].WrappedResult? && g[i].typ == TypeOr(t, Direct) && g[i].important == imp
                 && g[i].values != []
                 && g[i].fields in KeysOf(entries, ByBucket(f))
  {
  }

  /** Bucket keys are pairwise different and appear in order of first
      occurrence. */
  lemma GroupedKeys(entries: seq<Result>, f: seq<string>, t: Option<Kind>, imp: seq<string>)
    ensures var g := GroupSpec(entries, f, t, imp);
            var ks := KeysOf(entries, ByBucket(f));
            && (forall i, j :: 0 <= i < j < |g| ==> g[i].fields != g[j].fields)
            && (forall i, j :: 0 <= i < j < |g| ==> IndexOf(ks, g[i].fields) < IndexOf(ks, g[j].fields))
  {
    var ks := KeysOf(entries, ByBucket(f));
    var g := GroupSpec(entries, f, t, imp);
    var d := Dedup(ks);
    DedupDistinct(ks);
    forall i, j | 0 <= i < j < |g|
      ensures g[i].fields != g[j].fields && IndexOf(ks, g[i].fields) < IndexOf(ks, g[j].fields)
    {
      assert g[i].fields == d[i] && g[j].fields == d[j];
      DedupOrder(ks, i, j);
    }
  }

  /** Every entry's key has a bucket. */
  lemma GroupedCovers(entries: seq<Result>, f: seq<string>, t: Option<Kind>, imp: seq<string>)
    ensures var g := GroupSpec(entries, f, t, imp);
            forall e :: e in entries ==> exists i :: 0 <= i < |g| && g[i].fields == BucketKey(e, f)
  {
    var kf := ByBucket(f);
    var ks := KeysOf(entries, kf);
    var d := Dedup(ks);
    var g := GroupSpec(entries, f, t, imp);
    forall e | e in entries
      ensures exists i :: 0 <= i < |g| && g[i].fields == BucketKey(e, f)
    {
      var j :| 0 <= j < |entries| && entries[j] == e;
      assert kf(entries[j]) == ks[j];
      var i := IndexOf(d, BucketKey(e, f));
      assert g[i].fields == BucketKey(e, f);
    }
  }

  /** Buckets whose numeric component is not "10+" keep their members as
      grouped, in order; with no `number_of...` grouping field nothing is
      merged at all. */
  lemma UnmergedBuckets(entries: seq<Result>, f: seq<string>, t: Option<Kind>, imp: seq<string>)
    ensures var g := GroupSpec(entries, f, t, imp);
            forall i :: 0 <= i < |g| && (FirstNumberOf(f).None? || Get(g[i].fields, FirstNumberOf(f).value) != Str("10+")) ==>
              g[i].values == Where(entries, ByBucket(f), g[i].fields) && Subseq(g[i].values, entries)
  {
    var kf := ByBucket(f);
    var d := Dedup(KeysOf(entries, kf));
    var g := GroupSpec(entries, f, t, imp);
    forall i | 0 <= i < |g| && (FirstNumberOf(f).None? || Get(g[i].fields, FirstNumberOf(f).value) != Str("10+"))
      ensures g[i].values == Where(entries, kf, g[i].fields) && Subseq(g[i].values, entries)
    {
      assert d[i] in KeysOf(entries, kf);
      var j :| 0 <= j < |entries| && KeysOf(entries, kf)[j] == d[i];
      if FirstNumberOf(f).Some? {
        OverflowIffClamped(entries[j], f);
      }
      WhereSubseq(entries, kf, d[i]);
    }
  }

  /** The nodes of a list, as the factory receives them. */
  function Nodes(ms: seq<Result>): (r: seq<Raw>)
    ensures |r| == |ms|
    ensures forall i :: 0 <= i < |ms| ==> r[i] == Node(ms[i])
  {
    seq(|ms|, i requires 0 <= i < |ms| => Node(ms[i]))
  }

  lemma {:induction false} BuildAllNodes(ms: seq<Result>, imp: seq<string>)
    ensures BuildAll(Nodes(ms), imp) == Built(ms)
  {
    if ms != [] {
      assert Nodes(ms)[1..] == Nodes(ms[1..]);
      BuildAllNodes(ms[1..], imp);
      PassThrough(ms[0], map[], None, imp);
      assert ms == [ms[0]] + ms[1..];
    }
  }

  /** A bucket, and the wrapper `grouped_by` returns, are what
      `Result.new list, key, type, important_fields` builds from a list of
      existing results: the members pass through unchanged. */
  lemma BucketIsBuilt(k: Record, ms: seq<Result>, t: Option<Kind>, imp: seq<string>)
    ensures Build(List(Nodes(ms)), k, t, imp) == Built(Bucket(k, ms, t, imp))
  {
    BuildAllNodes(ms, imp);
    assert map[] + k == k;
  }

  /** A bucket over leaves counts what its members counted before any
      merging. */
  lemma BucketCount(entries: seq<Result>, f: seq<string>, t: Option<Kind>, imp: seq<string>, i: nat)
    requires forall e :: e in entries ==> e.DirectResult?
    requires i < |GroupSpec(entries, f, t, imp)|
    ensures Count(GroupSpec(entries, f, t, imp)[i]) == SumCountFields(Groups(entries, ByBucket(f))[i])
  {
    var kf := ByBucket(f);
    var g := GroupSpec(entries, f, t, imp);
    var members := Groups(entries, kf)[i];
    WhereMembers(entries, kf, g[i].fields);
    var list := MemberList(entries, f, g[i].fields);
    if Overflow(g[i].fields, f) {
      var num := FirstNumberOf(f).value;
      MergedLeaves(members, num);
      MergedCountPreserved(members, num);
    }
    assert forall j :: 0 <= j < |list| ==> list[j] in list;
    SumCountsOfLeaves(list);
  }

  /** A node's count is the summed "count" of what it yields, when that
      is leaves. */
  lemma EachCount(n: Result)
    requires forall e :: e in Each(n) ==> e.DirectResult?
    ensures SumCountFields(Each(n)) == Count(n)
  {
    var entries := Each(n);
    assert forall j :: 0 <= j < |entries| ==> entries[j] in entries;
    SumCountsOfLeaves(entries);
    if n.DirectResult? {
      assert SumCountFields([n]) == CountField(n) + SumCountFields([]);
    }
  }

  /** Over a node whose entries are leaves, the grouped result has the
      node's count. */
  lemma GroupedCountPreserved(n: Result, f: seq<string>, t: Option<Kind>, imp: seq<string>)
    requires forall e :: e in Each(n) ==> e.DirectResult?
    ensures Count(Bucket(map[], GroupSpec(Each(n), f, t, imp), t, imp)) == Count(n)
  {
    var entries := Each(n);
    var kf := ByBucket(f);
    var g := GroupSpec(entries, f, t, imp);
    var gs := Groups(entries, kf);
    forall i | 0 <= i < |g|
      ensures Count(g[i]) == SumCountFields(gs[i])
    {
      BucketCount(entries, f, t, imp, i);
    }
    SumFlattenCounts(g, gs);
    PartitionPerm(entries, kf);
    SumCountFieldsPerm(Flatten(gs), entries);
    EachCount(n);
  }
}
