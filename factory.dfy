/** The factory `Report::Result.new(value, fields, type, important_fields)`:
    an array becomes a `WrappedResult` over the factory applied to each
    element, a hash becomes a `DirectResult`, an existing result is passed
    through, anything else raises `ArgumentError`. */
module Factory {
  import opened Values
  import opened Tree

  /** The shapes of value the factory dispatches on. */
  datatype Raw =
    | List(items: seq<Raw>)
    | Hash(record: Record)
    | Node(node: Result)
    | Other

  /** A built result, or the `ArgumentError` raised for the first value of
      an unsupported shape. */
  datatype Built<T> = Built(value: T) | ArgumentError(culprit: Raw)

  /** `Result.new(value, fields, type, important_fields)`. New nodes start
      tagged `:direct` with no key; `fields` is merged into the node's own
      fields, the tag is replaced when `type` is given, and the important
      fields are set on every node that was not passed through. */
  function Build(value: Raw, fields: Record, t: Option<Kind>, imp: seq<string>): Built<Result>
    decreases value, 1
  {
    match value
    case List(items) =>
      (match BuildAll(items, imp)
       case ArgumentError(c) => ArgumentError(c)
       case Built(vs) => Built(WrappedResult(map[] + fields, TypeOr(t, Direct), imp, [], vs, false, None)))
    case Hash(record) => Built(DirectResult(record + fields, TypeOr(t, Direct), imp, []))
    case Node(n) => Built(n.(fields := n.fields + fields, typ := TypeOr(t, n.typ)))
    case Other => ArgumentError(value)
  }

  /** `value.map { |e| new e, {}, nil, important_fields }`. */
  function BuildAll(items: seq<Raw>, imp: seq<string>): Built<seq<Result>>
    decreases items, 0
  {
    if items == [] then Built([])
    else
      match Build(items[0], map[], None, imp)
      case ArgumentError(c) => ArgumentError(c)
      case Built(r) =>
        match BuildAll(items[1..], imp)
        case ArgumentError(c) => ArgumentError(c)
        case Built(rs) => Built([r] + rs)
  }

  /** Somewhere inside the nested arrays there is a value of unsupported shape. */
  predicate HasOther(value: Raw) {
    match value
    case List(items) => exists i :: 0 <= i < |items| && HasOther(items[i])
    case Hash(_) => false
    case Node(_) => false
    case Other => true
  }

  /** No existing result is passed in anywhere. */
  predicate NoNodes(value: Raw) {
    match value
    case List(items) => forall i :: 0 <= i < |items| ==> NoNodes(items[i])
    case Hash(_) => true
    case Node(_) => false
    case Other => true
  }

  /** Every node of a tree carries the given important fields. */
  predicate ImportantEverywhere(n: Result, imp: seq<string>) {
    n.important == imp &&
    match n
    case DirectResult(_, _, _, _) => true
    case WrappedResult(_, _, _, _, vs, _, _) =>
      forall i :: 0 <= i < |vs| ==> ImportantEverywhere(vs[i], imp)
  }

  /** Building fails exactly when an unsupported value occurs somewhere in
      the nested arrays. */
  lemma {:induction false} BuildFailsIff(value: Raw, fields: Record, t: Option<Kind>, imp: seq<string>)
    ensures Build(value, fields, t, imp).ArgumentError? <==> HasOther(value)
    decreases value, 1
  {
    match value
    case List(items) => BuildAllFailsIff(items, imp);
    case Hash(_) =>
    case Node(_) =>
    case Other =>
  }

  lemma {:induction false} BuildAllFailsIff(items: seq<Raw>, imp: seq<string>)
    ensures BuildAll(items, imp).ArgumentError? <==> exists i :: 0 <= i < |items| && HasOther(items[i])
    ensures BuildAll(items, imp).Built? ==> |BuildAll(items, imp).value| == |items|
    decreases items, 0
  {
    if items != [] {
      BuildFailsIff(items[0], map[], None, imp);
      BuildAllFailsIff(items[1..], imp);
      if exists i :: 0 <= i < |items| && HasOther(items[i]) {
        var i :| 0 <= i < |items| && HasOther(items[i]);
        if i > 0 {
          assert HasOther(items[1..][i - 1]);
        }
      }
      if exists i :: 0 <= i < |items[1..]| && HasOther(items[1..][i]) {
        var i :| 0 <= i < |items[1..]| && HasOther(items[1..][i]);
        assert HasOther(items[i + 1]);
      }
    }
  }

  /** Without results passed in, the important fields given to the factory
      reach every node it builds. */
  lemma {:induction false} BuildPropagatesImportant(value: Raw, fields: Record, t: Option<Kind>, imp: seq<string>)
    requires NoNodes(value)
    requires Build(value, fields, t, imp).Built?
    ensures ImportantEverywhere(Build(value, fields, t, imp).value, imp)
    decreases value, 1
  {
    match value
    case List(items) =>
      BuildAllPropagatesImportant(items, imp);
    case Hash(_) =>
  }

  lemma {:induction false} BuildAllPropagatesImportant(items: seq<Raw>, imp: seq<string>)
    requires forall i :: 0 <= i < |items| ==> NoNodes(items[i])
    requires BuildAll(items, imp).Built?
    ensures forall j :: 0 <= j < |BuildAll(items, imp).value| ==>
              ImportantEverywhere(BuildAll(items, imp).value[j], imp)
    decreases items, 0
  {
    if items != [] {
      BuildPropagatesImportant(items[0], map[], None, imp);
      assert forall i :: 0 <= i < |items[1..]| ==> NoNodes(items[1..][i]) by {
        forall i | 0 <= i < |items[1..]| ensures NoNodes(items[1..][i]) {
          assert items[1..][i] == items[i + 1];
        }
      }
      BuildAllPropagatesImportant(items[1..], imp);
    }
  }

  /** Building from a leaf's own fields gives back a leaf with the same
      field values. */
  lemma RebuildLeaf(leaf: Result, imp: seq<string>)
    requires leaf.DirectResult?
    ensures Build(Hash(leaf.fields), map[], None, imp)
            == Built(DirectResult(leaf.fields, Direct, imp, []))
  {
    assert leaf.fields + map[] == leaf.fields;
  }

  /** An existing result passes through with only its fields merged and
      its tag replaced: it keeps its children, key, flags and important
      fields. */
  lemma PassThrough(n: Result, fields: Record, t: Option<Kind>, imp: seq<string>)
    ensures Build(Node(n), fields, t, imp).Built?
    ensures var r := Build(Node(n), fields, t, imp).value;
            r.important == n.important && r.key == n.key && Children(r) == Children(n)
    ensures fields == map[] && t.None? ==> Build(Node(n), fields, t, imp) == Built(n)
  {
    assert n.fields + map[] == n.fields;
  }
}
