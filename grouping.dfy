/** `Base#grouped_by(fields, type, important_fields)`: the entries a node
    yields with `each` are partitioned into buckets by a composite key, the
    buckets whose `number_of...` component reads as 10 or more are merged
    on the remaining fields, each bucket becomes a `WrappedResult`, and the
    bucket list is memoised per field list. */
module Grouping {
  import opened Values
  import opened Tree
  import opened Factory

  // ---------------------------------------------------------------------
  // Bucket keys

  predicate StartsWithNumberOf(k: string) {
    |k| >= 9 && k[..9] == "number_of"
  }

  /** `k` matches the pattern `^number_of`; Ruby's `^` matches at the start
      of every line. */
  predicate IsNumberOf(k: string) {
    StartsWithNumberOf(k)
    || exists i :: 0 <= i < |k| && k[i] == '\n' && StartsWithNumberOf(k[i + 1..])
  }

  /** The key component of one grouping field: in a `number_of...` field
      any value whose `to_i` is 10 or more becomes "10+". */
  function Clamp(k: string, v: Value): Value {
    if IsNumberOf(k) && ToIVal(v) >= 10 then Str("10+") else v
  }

  /** The bucket key of an entry: grouping field name to (clamped) value. */
  function BucketKey(e: Result, f: seq<string>): Record {
    map k | k in f :: Clamp(k, Get(e.fields, k))
  }

  /** The key function `group_by` uses, as a value. */
  function ByBucket(f: seq<string>): Result -> Record {
    e => BucketKey(e, f)
  }

  /** The fields an entry is compared on in the merge pass: all but the
      numeric field and "count" (`fields.except num, "count"`). */
  function PKey(x: Result, num: string): Record {
    x.fields - {num, "count"}
  }

  function ByPKey(num: string): Result -> Record {
    x => PKey(x, num)
  }

  /** The first grouping field that matches `number_of`, if any. */
  function FirstNumberOf(f: seq<string>): (num: Option<string>)
    ensures num.Some? ==> num.value in f && IsNumberOf(num.value)
    ensures num.None? ==> forall k :: k in f ==> !IsNumberOf(k)
    ensures num.Some? ==>
              exists i :: 0 <= i < |f| && f[i] == num.value && forall j :: 0 <= j < i ==> !IsNumberOf(f[j])
  {
    if f == [] then None
    else if IsNumberOf(f[0]) then Some(f[0])
    else FirstNumberOf(f[1..])
  }

  /** The merge pass runs on a bucket when its numeric component reads as
      10 or more (`key[num].to_i >= 10`). */
  predicate Overflow(key: Record, f: seq<string>) {
    var num := FirstNumberOf(f);
    num.Some? && ToIVal(Get(key, num.value)) >= 10
  }

  // ---------------------------------------------------------------------
  // Grouping by a key function, in order of first occurrence

  function KeysOf(xs: seq<Result>, kf: Result -> Record): seq<Record> {
    seq(|xs|, i requires 0 <= i < |xs| => kf(xs[i]))
  }

  predicate Distinct(d: seq<Record>) {
    forall i, j :: 0 <= i < j < |d| ==> d[i] != d[j]
  }

  /** The keys of `ks` without repetitions, in order of first occurrence. */
  function Dedup(ks: seq<Record>): (d: seq<Record>)
    ensures forall k :: k in d <==> k in ks
  {
    if ks == [] then []
    else
      var d := Dedup(ks[..|ks| - 1]);
      if ks[|ks| - 1] in d then d else d + [ks[|ks| - 1]]
  }

  /** The elements of `xs` whose key is `k`, in their original order. */
  function Where(xs: seq<Result>, kf: Result -> Record, k: Record): (r: seq<Result>)
    ensures k in KeysOf(xs, kf) ==> r != []
  {
    if xs == [] then []
    else
      var init := xs[..|xs| - 1];
      assert KeysOf(xs, kf) == KeysOf(init, kf) + [kf(xs[|xs| - 1])];
      Where(init, kf, k) + (if kf(xs[|xs| - 1]) == k then [xs[|xs| - 1]] else [])
  }

  /** No key is listed twice. */
  lemma {:induction false} DedupDistinct(ks: seq<Record>)
    ensures Distinct(Dedup(ks))
  {
    if ks != [] {
      DedupDistinct(ks[..|ks| - 1]);
    }
  }

  /** The members of a key are elements carrying that key. */
  lemma {:induction false} WhereMembers(xs: seq<Result>, kf: Result -> Record, k: Record)
    ensures forall y :: y in Where(xs, kf, k) ==> y in xs && kf(y) == k
  {
    if xs != [] {
      var init := xs[..|xs| - 1];
      WhereMembers(init, kf, k);
      assert forall y :: y in init ==> y in xs;
    }
  }

  /** A key has members exactly when some element carries it. */
  lemma {:induction false} WhereEmpty(xs: seq<Result>, kf: Result -> Record, k: Record)
    ensures Where(xs, kf, k) == [] <==> k !in KeysOf(xs, kf)
  {
    if xs != [] {
      var init := xs[..|xs| - 1];
      assert xs == init + [xs[|xs| - 1]];
      KeysOfSnoc(init, xs[|xs| - 1], kf);
      WhereEmpty(init, kf, k);
    }
  }

  function IndexOf(d: seq<Record>, k: Record): (i: nat)
    ensures i <= |d|
    ensures i < |d| ==> d[i] == k
    ensures i == |d| <==> k !in d
  {
    if d == [] then 0
    else if d[0] == k then 0
    else 1 + IndexOf(d[1..], k)
  }

  // ---------------------------------------------------------------------
  // The merge pass, declaratively

  /** The survivor of one merge class `cls` (members sharing `PKey`): its
      first member, with the numeric field set to "10+" and, when anything
      was folded into it, "count" set to the class's summed count. */
  function Representative(cls: seq<Result>, num: string): Result
    requires cls != []
  {
    var stamped := cls[0].fields[num := Str("10+")];
    cls[0].(fields := if |cls| == 1 then stamped
                      else stamped["count" := Str(IntToStr(SumCountFields(cls)))])
  }

  /** The members of a "10+" bucket after the merge pass: one survivor per
      distinct `PKey`, in order of first occurrence. */
  function MergedSpec(members: seq<Result>, num: string): seq<Result> {
    var d := Dedup(KeysOf(members, ByPKey(num)));
    seq(|d|, i requires 0 <= i < |d| => Representative(Where(members, ByPKey(num), d[i]), num))
  }

  /** The final member list of the bucket with key `k`. */
  function MemberList(entries: seq<Result>, f: seq<string>, k: Record): seq<Result> {
    var members := Where(entries, ByBucket(f), k);
    if Overflow(k, f) then MergedSpec(members, FirstNumberOf(f).value) else members
  }

  /** `Result.new members, key, type, important_fields` on an array of
      existing results. */
  function Bucket(k: Record, members: seq<Result>, t: Option<Kind>, imp: seq<string>): Result {
    WrappedResult(k, TypeOr(t, Direct), imp, [], members, false, None)
  }

  /** The bucket list `grouped_by` computes and memoises. */
  function GroupSpec(entries: seq<Result>, f: seq<string>, t: Option<Kind>, imp: seq<string>): seq<Result> {
    var d := Dedup(KeysOf(entries, ByBucket(f)));
    seq(|d|, i requires 0 <= i < |d| => Bucket(d[i], MemberList(entries, f, d[i]), t, imp))
  }

  // ---------------------------------------------------------------------
  // The imperative algorithm

  /** A later entry `x` folded into the survivor `u`: "count" becomes the
      sum of both counts' `to_i`, written back as a string. */
  function Absorb(u: Result, x: Result): Result {
    var total := ToIVal(Get(u.fields, "count")) + ToIVal(Get(x.fields, "count"));
    u.(fields := u.fields["count" := Str(IntToStr(total))])
  }

  /** `group_by`: one pass over the entries, appending each to the bucket
      of its key and opening a new bucket for a key not seen before. */
  method Partition(entries: seq<Result>, f: seq<string>) returns (keys: seq<Record>, groups: seq<seq<Result>>)
    ensures keys == Dedup(KeysOf(entries, ByBucket(f)))
    ensures |groups| == |keys|
    ensures forall i :: 0 <= i < |keys| ==> groups[i] == Where(entries, ByBucket(f), keys[i])
  {
    keys, groups := [], [];
    for j := 0 to |entries|
      invariant Grouped(entries[..j], ByBucket(f), keys, groups)
    {
      var e := entries[j];
      var k := BucketKey(e, f);
      var idx := IndexOf(keys, k);
      SnocSlice(entries, j);
      if idx < |keys| {
        GroupInto(entries[..j], e, ByBucket(f), keys, groups, idx);
        groups := groups[idx := groups[idx] + [e]];
      } else {
        GroupNew(entries[..j], e, ByBucket(f), keys, groups);
        keys := keys + [k];
        groups := groups + [[e]];
      }
    }
    assert entries[..|entries|] == entries;
  }

  /** The merge pass over one "10+" bucket, keeping a list of survivors
      and folding every later entry with the same `PKey` into its
      survivor's "count". */
  method MergeBucket(members: seq<Result>, num: string) returns (survivors: seq<Result>)
    requires IsNumberOf(num)
    ensures survivors == MergedSpec(members, num)
  {
    NotNumberOfCount();
    var pkeys: seq<Record> := [];
    survivors := [];
    for j := 0 to |members|
      invariant Folded(members[..j], num, pkeys, survivors)
    {
      var x := members[j];
      var pk := x.fields - {num, "count"};
      var idx := IndexOf(pkeys, pk);
      SnocSlice(members, j);
      if idx < |pkeys| {
        FoldInto(members[..j], x, num, pkeys, survivors, idx);
        survivors := survivors[idx := Absorb(survivors[idx], x)];
      } else {
        FoldNew(members[..j], x, num, pkeys, survivors);
        pkeys := pkeys + [pk];
        survivors := survivors + [x.(fields := x.fields[num := Str("10+")])];
      }
    }
    assert members[..|members|] == members;
    FoldedDone(members, num, pkeys, survivors);
  }

  /** The merge pass over all buckets (`data.keys.find_all {...}.each`). */
  method MergePass(entries: seq<Result>, f: seq<string>, keys: seq<Record>, groups: seq<seq<Result>>)
    returns (merged: seq<seq<Result>>)
    requires |groups| == |keys|
    requires forall i :: 0 <= i < |keys| ==> groups[i] == Where(entries, ByBucket(f), keys[i])
    ensures |merged| == |keys|
    ensures forall i :: 0 <= i < |keys| ==> merged[i] == MemberList(entries, f, keys[i])
  {
    merged := groups;
    if |keys| > 0 {
      var num := FirstNumberOf(f);
      if num.Some? {
        for i := 0 to |keys|
          invariant |merged| == |keys|
          invariant forall p :: 0 <= p < i ==> merged[p] == MemberList(entries, f, keys[p])
          invariant forall p :: i <= p < |keys| ==> merged[p] == groups[p]
        {
          if ToIVal(Get(keys[i], num.value)) >= 10 {
            var survivors := MergeBucket(merged[i], num.value);
            merged := merged[i := survivors];
          }
        }
      }
    }
  }

  /** A node together with its `@grouped_by` memo. Only `grouped_by`
      fills the memo, so every stored bucket list is the one computed from
      the node's entries with the type and important fields of the call
      that stored it; `args` records those. */
  class GroupingNode {
    const node: Result
    var groupedBy: map<seq<string>, seq<Result>>
    ghost var args: map<seq<string>, (Option<Kind>, seq<string>)>

    ghost predicate Valid()
      reads this
    {
      groupedBy.Keys == args.Keys &&
      forall g :: g in groupedBy ==> groupedBy[g] == GroupSpec(Each(node), g, args[g].0, args[g].1)
    }

    constructor (node: Result)
      ensures Valid()
      ensures this.node == node && groupedBy == map[]
    {
      this.node := node;
      groupedBy := map[];
      args := map[];
    }

    /** `grouped_by(f, t, imp)`: the bucket list is computed on the first
        call for `f` and reused afterwards, whatever `t` and `imp` are
        then; the returned wrapper is new on every call. */
    method GroupedBy(f: seq<string>, t: Option<Kind>, imp: seq<string>) returns (r: Result)
      requires Valid()
      modifies this
      ensures Valid()
      ensures f in old(groupedBy) ==> groupedBy == old(groupedBy) && args == old(args)
      ensures f !in old(groupedBy) ==>
                groupedBy == old(groupedBy)[f := GroupSpec(Each(node), f, t, imp)] &&
                args == old(args)[f := (t, imp)]
      ensures f in args && r == Bucket(map[], GroupSpec(Each(node), f, args[f].0, args[f].1), t, imp)
    {
      if f !in groupedBy {
        var entries := Each(node);
        var keys, groups := Partition(entries, f);
        var merged := MergePass(entries, f, keys, groups);
        var list := seq(|keys|, i requires 0 <= i < |keys| => Bucket(keys[i], merged[i], t, imp));
        assert list == GroupSpec(entries, f, t, imp);
        groupedBy := groupedBy[f := list];
        args := args[f := (t, imp)];
      }
      r := Bucket(map[], groupedBy[f], t, imp);
    }
  }

  // ---------------------------------------------------------------------
  // Helper lemmas

  lemma NotNumberOfCount()
    ensures !IsNumberOf("count")
  {
    var k := "count";
    assert !StartsWithNumberOf(k);
    forall i | 0 <= i < |k| ensures k[i] != '\n' {
    }
  }

  lemma SnocSlice(xs: seq<Result>, j: nat)
    requires j < |xs|
    ensures xs[..j + 1] == xs[..j] + [xs[j]]
  {
  }

  lemma KeysOfSnoc(xs: seq<Result>, x: Result, kf: Result -> Record)
    ensures KeysOf(xs + [x], kf) == KeysOf(xs, kf) + [kf(x)]
  {
  }

  lemma DedupSnoc(ks: seq<Record>, k: Record)
    ensures Dedup(ks + [k]) == if k in Dedup(ks) then Dedup(ks) else Dedup(ks) + [k]
  {
    assert (ks + [k])[..|ks|] == ks;
  }

  lemma WhereSnoc(xs: seq<Result>, x: Result, kf: Result -> Record, k: Record)
    ensures Where(xs + [x], kf, k) == Where(xs, kf, k) + (if kf(x) == k then [x] else [])
  {
    assert (xs + [x])[..|xs|] == xs;
  }

  /** The state of the partition loop after the entries `xs`: `keys`
      lists the keys met so far and `groups` their members. */
  ghost predicate Grouped(xs: seq<Result>, kf: Result -> Record, keys: seq<Record>, groups: seq<seq<Result>>) {
    && keys == Dedup(KeysOf(xs, kf))
    && |groups| == |keys|
    && forall i :: 0 <= i < |keys| ==> groups[i] == Where(xs, kf, keys[i])
  }

  lemma GroupInto(xs: seq<Result>, x: Result, kf: Result -> Record, keys: seq<Record>, groups: seq<seq<Result>>, idx: nat)
    requires Grouped(xs, kf, keys, groups)
    requires idx < |keys| && keys[idx] == kf(x)
    ensures Grouped(xs + [x], kf, keys, groups[idx := groups[idx] + [x]])
  {
    KeysOfSnoc(xs, x, kf);
    DedupSnoc(KeysOf(xs, kf), kf(x));
    var g' := groups[idx := groups[idx] + [x]];
    forall i | 0 <= i < |keys|
      ensures g'[i] == Where(xs + [x], kf, keys[i])
    {
      WhereSnoc(xs, x, kf, keys[i]);
      if i != idx {
        assert keys[i] != keys[idx] by {
          DedupDistinct(KeysOf(xs, kf));
          if i < idx { assert keys[i] != keys[idx]; } else { assert keys[idx] != keys[i]; }
        }
      }
    }
  }

  lemma GroupNew(xs: seq<Result>, x: Result, kf: Result -> Record, keys: seq<Record>, groups: seq<seq<Result>>)
    requires Grouped(xs, kf, keys, groups)
    requires kf(x) !in keys
    ensures Grouped(xs + [x], kf, keys + [kf(x)], groups + [[x]])
  {
    KeysOfSnoc(xs, x, kf);
    DedupSnoc(KeysOf(xs, kf), kf(x));
    var k' := keys + [kf(x)];
    var g' := groups + [[x]];
    forall i | 0 <= i < |k'|
      ensures g'[i] == Where(xs + [x], kf, k'[i])
    {
      WhereSnoc(xs, x, kf, k'[i]);
      if i == |keys| {
        WhereEmpty(xs, kf, kf(x));
      }
    }
  }

  /** The state of the merge loop after the entries `ms`: `pkeys` lists the
      merge classes met so far and `survivors` their survivors. */
  ghost predicate Folded(ms: seq<Result>, num: string, pkeys: seq<Record>, survivors: seq<Result>) {
    && pkeys == Dedup(KeysOf(ms, ByPKey(num)))
    && |survivors| == |pkeys|
    && forall i :: 0 <= i < |pkeys| ==>
         survivors[i] == Representative(Where(ms, ByPKey(num), pkeys[i]), num)
  }

  /** Once every entry is folded, the survivors are the merged bucket. */
  lemma FoldedDone(ms: seq<Result>, num: string, pkeys: seq<Record>, survivors: seq<Result>)
    requires Folded(ms, num, pkeys, survivors)
    ensures survivors == MergedSpec(ms, num)
  {
  }

  /** An entry of a class already met is folded into that class's survivor. */
  lemma FoldInto(ms: seq<Result>, x: Result, num: string, pkeys: seq<Record>, survivors: seq<Result>, idx: nat)
    requires Folded(ms, num, pkeys, survivors)
    requires idx < |pkeys| && pkeys[idx] == PKey(x, num)
    requires num != "count"
    ensures Folded(ms + [x], num, pkeys, survivors[idx := Absorb(survivors[idx], x)])
  {
    var kf := ByPKey(num);
    KeysOfSnoc(ms, x, kf);
    DedupSnoc(KeysOf(ms, kf), PKey(x, num));
    assert Dedup(KeysOf(ms + [x], kf)) == pkeys;
    var u := survivors[idx];
    var s' := survivors[idx := Absorb(u, x)];
    forall i | 0 <= i < |pkeys|
      ensures s'[i] == Representative(Where(ms + [x], kf, pkeys[i]), num)
    {
      assert pkeys[i] in KeysOf(ms, kf);
      if i == idx {
        FoldIntoClass(ms, x, num, pkeys[idx], u);
      } else {
        assert pkeys[i] != pkeys[idx] by {
          DedupDistinct(KeysOf(ms, kf));
          if i < idx { assert pkeys[i] != pkeys[idx]; } else { assert pkeys[idx] != pkeys[i]; }
        }
        FoldOther(ms, x, num, pkeys[i]);
        assert s'[i] == survivors[i];
      }
    }
  }

  /** An entry of another class leaves a class's members unchanged. */
  lemma FoldOther(ms: seq<Result>, x: Result, num: string, k: Record)
    requires PKey(x, num) != k
    ensures Where(ms + [x], ByPKey(num), k) == Where(ms, ByPKey(num), k)
  {
    WhereSnoc(ms, x, ByPKey(num), k);
  }

  lemma FoldIntoClass(ms: seq<Result>, x: Result, num: string, pk: Record, u: Result)
    requires PKey(x, num) == pk
    requires pk in KeysOf(ms, ByPKey(num))
    requires u == Representative(Where(ms, ByPKey(num), pk), num)
    requires num != "count"
    ensures Absorb(u, x) == Representative(Where(ms + [x], ByPKey(num), pk), num)
  {
    WhereEmpty(ms, ByPKey(num), pk);
    WhereSnoc(ms, x, ByPKey(num), pk);
    FoldStep(Where(ms, ByPKey(num), pk), x, num);
  }

  /** An entry of a new class opens it, stamped with "10+". */
  lemma FoldNew(ms: seq<Result>, x: Result, num: string, pkeys: seq<Record>, survivors: seq<Result>)
    requires Folded(ms, num, pkeys, survivors)
    requires PKey(x, num) !in pkeys
    ensures Folded(ms + [x], num, pkeys + [PKey(x, num)], survivors + [x.(fields := x.fields[num := Str("10+")])])
  {
    var kf := ByPKey(num);
    var pk := PKey(x, num);
    KeysOfSnoc(ms, x, kf);
    DedupSnoc(KeysOf(ms, kf), pk);
    var p' := pkeys + [pk];
    var s' := survivors + [x.(fields := x.fields[num := Str("10+")])];
    forall i | 0 <= i < |p'|
      ensures s'[i] == Representative(Where(ms + [x], kf, p'[i]), num)
    {
      WhereSnoc(ms, x, kf, p'[i]);
      assert kf(x) == pk;
      if i == |pkeys| {
        assert pk !in KeysOf(ms, kf);
        WhereEmpty(ms, kf, pk);
        assert Where(ms, kf, pk) == [];
        assert Where(ms + [x], kf, pk) == [x];
      } else {
        assert p'[i] == pkeys[i] != pk;
        assert Where(ms + [x], kf, p'[i]) == Where(ms, kf, pkeys[i]);
        assert s'[i] == survivors[i];
      }
    }
  }

  /** Folding one more entry into a merge class: the survivor's count after
      the fold is the class's new total. */
  lemma FoldStep(cls: seq<Result>, x: Result, num: string)
    requires cls != []
    requires num != "count"
    ensures Representative(cls + [x], num) == Absorb(Representative(cls, num), x)
  {
    var c0 := cls[0];
    var stamped := c0.fields[num := Str("10+")];
    var u := Representative(cls, num);
    var total := ToIVal(Get(u.fields, "count")) + ToIVal(Get(x.fields, "count"));
    FoldTotal(cls, x, num);
    assert (cls + [x])[0] == c0;
    assert u.fields["count" := Str(IntToStr(total))] == stamped["count" := Str(IntToStr(total))];
  }

  /** The survivor's count plus the new entry's count is the class total. */
  lemma FoldTotal(cls: seq<Result>, x: Result, num: string)
    requires cls != []
    requires num != "count"
    ensures ToIVal(Get(Representative(cls, num).fields, "count")) + ToIVal(Get(x.fields, "count"))
            == SumCountFields(cls + [x])
  {
    SumCountFieldsAppend(cls, [x]);
    assert SumCountFields([x]) == CountField(x);
    if |cls| == 1 {
      assert cls == [cls[0]];
      assert SumCountFields(cls) == CountField(cls[0]);
    } else {
      ToIRoundTrip(SumCountFields(cls));
    }
  }
}
