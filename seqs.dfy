/** Generic facts about sequences and their multisets. */
module Seqs {
  /** `s.map(f)`. */
  function Map<A, B>(s: seq<A>, f: A -> B): (r: seq<B>)
    ensures |r| == |s|
  {
    seq(|s|, i requires 0 <= i < |s| => f(s[i]))
  }

  lemma Assoc<T>(a: seq<T>, b: seq<T>, c: seq<T>)
    ensures a + (b + c) == (a + b) + c
  {
  }

  lemma SplitLast<T>(s: seq<T>)
    requires s != []
    ensures s[..|s| - 1] + [s[|s| - 1]] == s
  {
  }

  /** A list is its part before `i`, its element at `i` and its part after. */
  lemma SplitAt<T>(s: seq<T>, i: nat)
    requires i < |s|
    ensures s == (s[..i] + [s[i]]) + s[i + 1..]
  {
  }

  /** Taking out the element at `i` takes one copy of it out of the multiset. */
  lemma RemoveAt<T>(s: seq<T>, i: nat)
    requires i < |s|
    ensures multiset(s) == multiset(s[..i] + s[i + 1..]) + multiset{s[i]}
  {
    assert s == s[..i] + [s[i]] + s[i + 1..];
  }

  /** Exchanging two neighbours keeps the multiset. */
  lemma SwapPerm<T>(s: seq<T>, j: nat)
    requires 0 < j < |s|
    ensures multiset(s[j - 1 := s[j]][j := s[j - 1]]) == multiset(s)
  {
    assert s == s[..j - 1] + [s[j - 1], s[j]] + s[j + 1..];
    assert s[j - 1 := s[j]][j := s[j - 1]] == s[..j - 1] + [s[j], s[j - 1]] + s[j + 1..];
  }

  /** When `b[i]` is `a`'s head, the rest of `a` is a reordering of `b`
      without position `i`. */
  lemma PermRest<T>(a: seq<T>, b: seq<T>, i: nat)
    requires multiset(a) == multiset(b)
    requires a != [] && i < |b| && b[i] == a[0]
    ensures multiset(a[1..]) == multiset(b[..i] + b[i + 1..])
  {
    RemoveAt(b, i);
    assert a == [a[0]] + a[1..];
    assert multiset(a[1..]) == multiset(a) - multiset{a[0]};
  }

  /** The head of a list occurs in any reordering of it. */
  lemma PermHead<T>(a: seq<T>, b: seq<T>) returns (i: nat)
    requires multiset(a) == multiset(b) && a != []
    ensures i < |b| && b[i] == a[0]
  {
    assert a[0] in multiset(b);
    i :| 0 <= i < |b| && b[i] == a[0];
  }

  /** Mapping two reorderings of one list gives reorderings of one list. */
  lemma {:induction false} MapPerm<A, B>(a: seq<A>, b: seq<A>, f: A -> B)
    requires multiset(a) == multiset(b)
    ensures multiset(Map(a, f)) == multiset(Map(b, f))
    decreases |a|
  {
    if a == [] {
      assert |b| == |multiset(b)| == 0;
    } else {
      var i := PermHead(a, b);
      var rest := b[..i] + b[i + 1..];
      PermRest(a, b, i);
      MapPerm(a[1..], rest, f);
      var mb := Map(b, f);
      assert Map(rest, f) == mb[..i] + mb[i + 1..];
      RemoveAt(mb, i);
      assert Map(a, f) == [f(a[0])] + Map(a[1..], f);
    }
  }
}
