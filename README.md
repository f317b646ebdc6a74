# Report result tree, modelled in Dafny

This project models the in-memory result tree of a reporting engine
(`Report::Result` in `lib/report/result.rb`) and proves properties of it.
A query's result is a tree with two kinds of node:

- `DirectResult` is a leaf that wraps one record, a map from field names to values.
- `WrappedResult` is an inner node that holds an ordered list of child results.

Every node also carries:

- an axis tag: `:direct`, `:row` or `:column`;
- a list of important fields;
- a sort key.

An inner node also carries its `@sorted` flag and its `@direct_results` cache.

The model covers these parts of the source:

- **`values.dfy` (`Values`).** Record values, and Ruby's `to_i` and `Integer#to_s` as the tree uses them to read and write "count" fields.
- **`tree.dfy` (`Tree`).** The node datatype, and the axis queries `final?`, `depth_of`, `final_number` and `each_row`. Also `count`, which a leaf reads from its "count" field and an inner node sums through `sum_for(:count)`.
- **`factory.dfy` (`Factory`).** The factory `Report::Result.new`:
  - an array becomes a wrapped result;
  - a hash becomes a leaf;
  - an existing result is passed through;
  - anything else raises `ArgumentError`.
- **`grouping.dfy` (`Grouping`).** `grouped_by` as the source runs it:
  - one pass puts each entry in the bucket of its composite key. In a `number_of...` field, any value of 10 or more becomes `"10+"` in the key;
  - a merge pass runs over every `"10+"` bucket. It keeps a list of survivors and adds the "count" of each later entry to the survivor that agrees with it on every field except the numeric one and "count";
  - each bucket becomes a wrapped result;
  - the bucket list is memoised per field list, in a class with a `groupedBy` map.

  Each method is proved against a declarative description of its result.
- **`grouping_facts.dfy` (`GroupingFacts`).** Properties of grouping:
  - the bucket-key equivalence;
  - order of first occurrence;
  - the merge pass's uniqueness, "10+" stamping and count preservation;
  - buckets the merge pass leaves alone;
  - the shape of the result;
  - count preservation over the whole grouping.
- **`traversal.dfy` (`Traversal`).** `recursive_each_with_level`, in two modes:
  - depth-first, a recursive pre-order walk;
  - breadth-first, the `while` loop over a frontier list.

  Also `each_direct_result` with its cache. Proved properties:
  - both walks visit the same nodes;
  - the breadth-first walk visits levels in order, and the nodes of each level in depth-first order;
  - the leaf enumeration yields exactly the leaves, left to right, whenever every cache already stored holds its node's leaves (a run keeps that so), and a second run yields the same list as the first.
- **`sorting.dfy` (`Sorting`).** Array comparison `<=>` on keys, `set_key`, and `sort!`:
  - `sort!` is an in-place sort of the child array followed by a recursive sort of every child. It sets the `@sorted` flag, and `force` overrides that flag;
  - proved: the whole tree keeps its shape and contents; when forced, or when every node whose flag is set is already sorted, every node's children end up in key order; and a repeated call without `force` changes nothing.
- **`seqs.dfy` (`Seqs`).** Generic sequence and multiset lemmas used by the proofs above.

Nodes are values. An operation that the source performs by mutating a
node returns the new node instead: `sort!`, `each_direct_result` filling
its cache, and the merge pass rewriting survivors. `map_field`, which the
source's `set_key` gets from `QueryUtils`, is a parameter
`mf: (string, Value) -> int`: keys are sequences of integers compared
element by element.

Three behaviours of the source that the model keeps:

- `each_direct_result` asks its children for their leaves with caching off (`lib/report/result.rb:252`), not on.
- No cache is ever invalidated. In particular, `sort!` leaves `@direct_results` untouched.
- The merge pass selects buckets by `key[num].to_i >= 10`. For keys built by the grouping pass, `GroupingFacts.OverflowIffClamped` proves this equals "the numeric component is `"10+"`".

## Model

| member | source | states |
|---|---|---|
| Values.ToI | lib/report/result.rb:146 | `String#to_i` in base 10: leading white space, an optional sign, an optional `0d` prefix, then the longest run of digits; anything else reads as 0 (properties: `ToIRoundTrip`, `ToITenPlus`, `ToINoDigits`, `ToIRadixPrefix`) |
| Values.ToIVal | lib/report/result.rb:46 | `to_i` on a record value: a string as `String#to_i`, an integer as itself, nil as 0 |
| Values.IntToStr | lib/report/result.rb:61 | `Integer#to_s`: a minus sign for negatives, then the decimal digits (read back by `ToIRoundTrip`) |
| Values.ToIRoundTrip | lib/report/result.rb:61 | a merged count written with `to_s` reads back with `to_i` as the same integer, for every integer including negatives |
| Values.ToITenPlus | lib/report/result.rb:46-47 | the clamp token `"10+"` reads as 10 with `to_i`, so a bucket key holding it passes the `>= 10` test of the merge pass |
| Values.ToIRadixPrefix | lib/report/result.rb:146 | a run of digits behind the base-10 prefix `0d` reads as its value |
| Values.ToIMinusRadixPrefix | lib/report/result.rb:146 | the prefix may follow a minus sign, in either case: `-0D` and digits read as minus their value |
| Values.ToINoDigits | lib/report/result.rb:145-147 | a string with no digit at all reads as 0, so a leaf whose "count" is not a number counts 0 |
| Values.NatToStrValue | lib/report/result.rb:61 | the decimal digits `to_s` writes for a natural number denote that number |
| Tree.Each | lib/report/result.rb:159-162 | `each`: a leaf yields itself, a wrapped result its children (`lib/report/result.rb:242-244`) |
| Tree.Size | lib/report/result.rb:155-157 | `size`: 0 for a leaf, the number of children for a wrapped result (`lib/report/result.rb:266-268`) |
| Tree.Final | lib/report/result.rb:99-101 | `final?(t)`: the node is tagged `t` and is `:direct`, has no children, or its first child has another tag |
| Tree.DepthOf | lib/report/result.rb:107-111 | `depth_of(t)`: 1 for a node tagged `t` (or `:direct` when `t` is `:column`), else 0, plus the first child's `depth_of` for a wrapped result (`lib/report/result.rb:189-191`); `None` where `first` is nil (properties: `DepthOfAlongLeadingPath`) |
| Tree.FinalNumber | lib/report/result.rb:113-118 | `final_number(t)`: 1 for a final node, 0 for a `:direct` one, otherwise the sum over `each`; `None` where that recursion does not end (properties: `FinalNumberCountsRows`, `FinalNumberDefined`, `FinalNumberLoops`) |
| Tree.FinalNumberSum | lib/report/result.rb:117 | the sum of the children's `final_number(type)`, `None` when one child's recursion does not end |
| Tree.EachRow | lib/report/result.rb:230-235 | `each_row`: a final row yields itself, another wrapped result descends into its children, a leaf yields nothing (`lib/report/result.rb:96-97`) |
| Tree.Count | lib/report/result.rb:197-199 | `count`: a leaf reads `to_i` of its "count" field (`lib/report/result.rb:145-147`), a wrapped result sums its children's counts (properties: `CountIsLeafSum`) |
| Tree.SumCounts | lib/report/result.rb:205-208 | `sum_for(:count)`: the sum of the children's counts |
| Tree.CountIsLeafSum | lib/report/result.rb:197-208 | `count` of any node equals the sum of `to_i` of the "count" field over all leaves beneath it |
| Tree.SumCountsOfLeaves | lib/report/result.rb:145-147 | on a list of leaves, summing `count` is summing the "count" fields |
| Tree.SumCountsAppend | lib/report/result.rb:205-208 | the children's count sum distributes over concatenation of child lists |
| Tree.FinalNumberCountsRows | lib/report/result.rb:113-118 | on a tree whose leaves are `:direct` and whose inner nodes are tagged, `final_number(:row)` is defined and equals the number of nodes `each_row` yields |
| Tree.FinalNumberDefined | lib/report/result.rb:113-118 | `final_number(t)` terminates whenever every leaf is tagged `:direct` or `t` |
| Tree.DepthOfAlongLeadingPath | lib/report/result.rb:189-191 | `depth_of(t)` fails exactly when the path of first children ends in a wrapped result with no children; otherwise it counts the nodes on that path that are tagged `t` (or `:direct` when `t` is `:column`), so it never exceeds the path's length |
| Factory.Build | lib/report/result.rb:271-284 | `Result.new`: an array becomes a `:direct` wrapped result over the factory applied to each element, a hash a `:direct` leaf, an existing result is passed through, anything else is an `ArgumentError`; then the fields are merged in, the tag replaced when a type is given and the important fields set unless the value was passed through |
| Factory.BuildAll | lib/report/result.rb:274 | the factory applied to each element of an array, with no fields or type and the same important fields, failing with the first element that fails |
| Factory.BuildFailsIff | lib/report/result.rb:271-284 | `Result.new` raises `ArgumentError` exactly when a value that is neither array, hash nor result occurs somewhere in the nested arrays |
| Factory.BuildAllFailsIff | lib/report/result.rb:274 | mapping the factory over an array fails exactly when one element fails, and otherwise keeps the array's length |
| Factory.BuildPropagatesImportant | lib/report/result.rb:274-282 | when no existing result is passed in, every node built carries the given important fields |
| Factory.RebuildLeaf | lib/report/result.rb:275 | a hash becomes a `:direct` leaf holding exactly that record, with the important fields set and no key |
| Factory.PassThrough | lib/report/result.rb:276-283 | an existing result is reused: it never fails, keeps its important fields, key and children, and comes back unchanged when no fields or type are given |
| Grouping.Clamp | lib/report/result.rb:44-49 | one key component: in a field matching `^number_of` a value whose `to_i` is 10 or more becomes "10+", any other value is kept |
| Grouping.BucketKey | lib/report/result.rb:43-51 | the composite key of an entry: each grouping field mapped to its clamped value (properties: `SameKeyIff`, `SameBucketIff`) |
| Grouping.PKey | lib/report/result.rb:58 | `fields.except num, "count"`: the fields the merge pass compares |
| Grouping.Absorb | lib/report/result.rb:61 | folding a later entry into a survivor: "count" becomes the sum of both counts' `to_i`, written back with `to_s` (properties: `FoldStep`, `RepresentativeCount`) |
| Grouping.Bucket | lib/report/result.rb:72 | one bucket: a wrapped result with the bucket key as fields, the given type (`:direct` when none) and important fields, and the members as children (properties: `BucketIsBuilt`) |
| Grouping.FirstNumberOf | lib/report/result.rb:54 | the numeric field is the first grouping field matching `^number_of`; when there is none, no field matches |
| Grouping.Dedup | lib/report/result.rb:40 | the bucket keys are exactly the keys that occur among the entries |
| Grouping.Where | lib/report/result.rb:40-52 | every key that occurs among the entries has a non-empty bucket |
| Grouping.DedupDistinct | lib/report/result.rb:40 | no bucket key is listed twice |
| Grouping.WhereMembers | lib/report/result.rb:40-52 | every member of a bucket is an entry whose key is the bucket's key |
| Grouping.WhereEmpty | lib/report/result.rb:40-52 | a bucket is empty exactly when no entry carries its key |
| Grouping.Partition | lib/report/result.rb:40-52 | the `group_by` loop returns the distinct keys in order of first occurrence and, for each, the entries with that key in their original order |
| Grouping.MergeBucket | lib/report/result.rb:56-68 | the survivor loop over one bucket yields one survivor per distinct set of remaining fields, in order of first occurrence. Each survivor is the first such member with the numeric field set to "10+" and, when others were folded into it, "count" set to the class's summed count |
| Grouping.MergePass | lib/report/result.rb:53-69 | after the pass, every bucket whose numeric component reads as 10 or more holds its merged survivors, and every other bucket is unchanged |
| Grouping.GroupingNode.constructor | lib/report/result.rb:35 | a node starts with an empty grouping memo, which satisfies the memo invariant `Valid` |
| Grouping.GroupingNode.GroupedBy | lib/report/result.rb:34-77 | keeps the memo invariant `Valid`: every stored bucket list is the grouping of the node's entries by its field list, with the type and important fields of the call that stored it. The first call for a field list stores that grouping, and later calls leave the memo unchanged and reuse it, whatever their own type and important fields. The result is a wrapper with empty fields, type `t` and, as children, the grouping computed with the first call's type and important fields, so the grouping lemmas apply to it on every call |
| Grouping.FoldStep | lib/report/result.rb:59-61 | folding one more member into a merge class gives the survivor whose count is the old survivor's count plus the member's |
| GroupingFacts.WhereIff | lib/report/result.rb:40-52 | an entry belongs to a bucket exactly when it is an entry and carries that bucket's key |
| GroupingFacts.WhereSubseq | lib/report/result.rb:40-52 | a bucket's members appear in the same relative order as among the entries |
| GroupingFacts.DedupFirstOccurrence | lib/report/result.rb:40 | buckets are listed in the order in which their keys first occur |
| GroupingFacts.PartitionPerm | lib/report/result.rb:40-52 | the buckets together hold exactly the entries, each as often as it occurs |
| GroupingFacts.SumCountFieldsPerm | lib/report/result.rb:61 | the sum of the counts does not depend on the order of the records |
| GroupingFacts.SameKeyIff | lib/report/result.rb:43-51 | two entries have equal bucket keys exactly when they agree on every grouping field, where in a `number_of` field two values of 10 or more agree |
| GroupingFacts.SameBucketIff | lib/report/result.rb:40-52 | two entries share a bucket exactly when their bucket keys are equal |
| GroupingFacts.OverflowIffClamped | lib/report/result.rb:55 | a bucket is merged exactly when its numeric component is the token "10+" |
| GroupingFacts.RepresentativeCount | lib/report/result.rb:59-61 | a survivor's count is the sum of the counts of its class |
| GroupingFacts.MergedKeys | lib/report/result.rb:55-68 | after the merge no two survivors agree on the fields outside the numeric one and "count". Every member has a survivor that agrees with it. Every survivor's numeric field is "10+", including survivors that absorbed nothing |
| GroupingFacts.MergedCounts | lib/report/result.rb:59-61 | each survivor's count is the sum of the counts of the members that agree with it |
| GroupingFacts.MergedCountPreserved | lib/report/result.rb:55-68 | the merge pass keeps the bucket's total count |
| GroupingFacts.MergedLeaves | lib/report/result.rb:63-64 | a bucket of leaves stays a bucket of leaves |
| GroupingFacts.GroupedShape | lib/report/result.rb:72 | there are no buckets exactly when there are no entries. Each bucket is a non-empty wrapped result with type `t` (`:direct` when none is given) and the given important fields, and its fields are a key that occurs among the entries |
| GroupingFacts.GroupedKeys | lib/report/result.rb:40-52 | bucket fields are pairwise distinct and ordered by first occurrence among the entries |
| GroupingFacts.GroupedCovers | lib/report/result.rb:40-52 | every entry's key is the fields of some bucket |
| GroupingFacts.UnmergedBuckets | lib/report/result.rb:53-55 | when no field matches `number_of`, or the bucket's numeric component is not "10+", the bucket holds exactly its entries, in their original order |
| GroupingFacts.BuildAllNodes | lib/report/result.rb:274-276 | mapping the factory over existing results returns them unchanged |
| GroupingFacts.BucketIsBuilt | lib/report/result.rb:72 | each bucket is what `Result.new data[f], f, type, important_fields` builds from its members |
| GroupingFacts.GroupedCountPreserved | lib/report/result.rb:34-77 | the `count` of the wrapper `grouped_by` returns equals the `count` of the node grouped |
| Traversal.PreOrder | lib/report/result.rb:210-213 | depth-first `recursive_each_with_level`: the node at its level, then each child's walk one level down; a leaf yields only itself (`lib/report/result.rb:18-20`) |
| Traversal.PreOrderAll | lib/report/result.rb:213 | the depth-first walks of a list of children, in order |
| Traversal.Next | lib/report/result.rb:219-223 | the next frontier: the children of the frontier's nodes, in order (properties: `NextCount`) |
| Traversal.LevelOrder | lib/report/result.rb:215-227 | the breadth-first visits: the frontier at its level, then the next frontier one level down, until the frontier is empty (properties: `LevelOrderPerm`, `LevelOrderSorted`, `LevelOrderByLevel`) |
| Traversal.DirectResults | lib/report/result.rb:246-258 | what `each_direct_result` yields: a leaf itself, a wrapped result its stored cache when there is one and otherwise its children's leaves (properties: `DirectResultsAreLeaves`) |
| Traversal.EachWithLevelBreadthFirst | lib/report/result.rb:214-227 | the `while` loop over the frontier yields the level-by-level visit sequence from the node at the given level |
| Traversal.NextCount | lib/report/result.rb:222-226 | the next frontier's subtrees hold as many nodes as the current frontier's subtrees minus the frontier's length, so the loop ends |
| Traversal.PreOrderLevels | lib/report/result.rb:210-213 | the depth-first walk never reports a level below the starting level |
| Traversal.LevelOrderPerm | lib/report/result.rb:210-228 | from any frontier, both walks make the same visits, each as often |
| Traversal.BreadthFirstVisitsAll | lib/report/result.rb:210-228 | breadth-first and depth-first visit the same (level, node) pairs, and each node once per occurrence in the tree |
| Traversal.LevelOrderSorted | lib/report/result.rb:214-227 | breadth-first levels start at the given level and never decrease along the walk |
| Traversal.LevelOrderByLevel | lib/report/result.rb:214-227 | the nodes the breadth-first walk visits at each level are those the depth-first walk visits there, in the same left-to-right order |
| Traversal.PreOrderLeaves | lib/report/result.rb:210-213 | the leaves met by the depth-first walk are exactly the tree's leaves, left to right |
| Traversal.EachDirectResult | lib/report/result.rb:246-258 | the enumeration yields the replayed cache when one is present and otherwise the children's leaves in order. A cached run on a node without a cache stores the yielded list, and nothing else changes |
| Traversal.DirectResultsAreLeaves | lib/report/result.rb:164-167 | when every stored cache holds its node's leaves, the enumeration yields exactly the leaves, left to right |
| Traversal.EachDirectResultTwice | lib/report/result.rb:248-256 | a second call yields the same sequence as the first, and after a cached run on a wrapped node the cache holds that sequence |
| Traversal.RunKeepsCoherence | lib/report/result.rb:253 | a run keeps every stored cache equal to its node's leaves |
| Sorting.Compare | lib/report/result.rb:184 | the key comparison `<=>` yields -1, 0 or 1 |
| Sorting.CompareFlip | lib/report/result.rb:184 | comparing in the other order negates the result |
| Sorting.CompareZero | lib/report/result.rb:184 | two keys compare equal exactly when they are equal |
| Sorting.CompareTrans | lib/report/result.rb:184 | "at most" under `<=>` is transitive, so sorting by it is well defined |
| Sorting.ComparePrefix | lib/report/result.rb:184 | a proper prefix sorts before the longer key |
| Sorting.SetKey | lib/report/result.rb:177-180 | `set_key(index)`: every child is keyed, then the node gets the key made of `map_field(k, fields[k])` for each index field `k` (`lib/report/result.rb:132-134`; properties: `SetKeyKeys`) |
| Sorting.KeyFor | lib/report/result.rb:132-134 | the key has one component per index field |
| Sorting.SetKeyKeys | lib/report/result.rb:177-180 | after `set_key`, every node of the tree holds the key computed from its own fields, every key has the index's length, and nothing but the keys changed |
| Sorting.SameShapes | lib/report/result.rb:184-185 | children permuted and then each kept in shape give the original multiset of child shapes |
| Sorting.AdjSortedPairs | lib/report/result.rb:184 | a child list in order between neighbours is in order between any two positions |
| Sorting.NoFlagsSound | lib/report/result.rb:182-186 | a tree with no `@sorted` flag set is a valid starting point for the sortedness guarantee of `sort!` without `force` |
| Sorting.SortByKey | lib/report/result.rb:184 | the in-place sort of the child array leaves it in non-decreasing key order and a permutation of what it held |
| Sorting.SortedChildren | lib/report/result.rb:182-187 | a node whose children are a sorted permutation, each sorted in turn, keeps its shape and is sorted all the way down |
| Sorting.Sort | lib/report/result.rb:169-187 | `sort!` on a leaf returns `force` and changes nothing. On a sorted node without `force` it returns false and changes nothing. Otherwise it returns true, sets the flag and changes only the children. It keeps the tree's shape and contents (the children of every node are a permutation of the old ones). When forced, or when every flagged node is already sorted, every node's children end up in key order |
| Sorting.SortTwice | lib/report/result.rb:183-186 | a second `sort!` without `force` returns false and changes nothing, and the pair keeps the tree's shape |

## Left out

- `units` (`lib/report/result.rb:149-151`, `201-203`) parses BigDecimal with `to_d`, which is a library call. Only `count` is modelled.
- `inspect` and `render` (`lib/report/result.rb:79-82`, `128-130`) are presentation through a caller's block.
- `row?`, `column?`, `direct?`, `type?`, `to_hash` and `[]` read a field. The model reads the tag or fields directly, and `[]` is the helper `Values.Get`, which reads nil for a missing key.
- `has_children?` (`lib/report/result.rb:141-143`, `193-195`) returns a constant per node kind: false for a leaf and true for a wrapped result. The model tells the two kinds apart by constructor.
- `map_field`, `engine` and `Report::QueryUtils` are not part of this model:
  - `map_field` is the parameter `mf`;
  - `engine::Result` is the factory itself.
- Indifferent access is not modelled: field names are plain strings.
- Tree nodes are values, so update in place and aliasing are not captured:
  - the merge pass's survivors are copies here, while the source rewrites leaf records that the grouped node still shares;
  - caches that other nodes hold are not affected;
  - count preservation (`GroupingFacts.MergedCountPreserved`, `GroupingFacts.GroupedCountPreserved`) holds for a bucket whose members are distinct objects. When one leaf object occurs several times among a node's values, the source folds the object into itself (`lib/report/result.rb:59-61`). For example, three occurrences of a leaf with "count" "1" end with "4" in the source, while the model, treating the occurrences as separate values, ends with 3.
- The `@sum_for` and `@final_number` memos are not modelled: `Count` and `FinalNumber` are recomputed, so a memo that went stale after the merge pass rewrote a shared leaf is not represented.
- Enumerators (`enum_for`) and walks abandoned midway are not modelled; only complete runs are. A partial `@direct_results` list left by an abandoned run is not represented.
- `recursive_each` (`lib/report/result.rb:22-24`) only drops the level from the depth-first walk, so it is not modelled separately.
- Tree.EachRow: models the intended `each_row` of a wrapped result, which yields final rows without descending below them. The source defines that method inside `recursive_each_with_level`, so it only exists once a walk has run; this is not modelled.
- Sorting.SetKey: the order in which `set_key` keys children before the node itself cannot be observed in a value model, so it is not stated.
- Sorting.SortByKey: Ruby's `sort!` is not stable. The model uses one insertion sort and states no order among equal keys; no other property depends on that order.
- Sorting.Sort: a key that was never set is nil in the source, and comparing nil with an array raises; the model starts every key as the empty sequence, so that error is not modelled.
- Sorting.Sort: `sort!` does not reset `@direct_results`, so a cache stored before sorting replays the old order; the model keeps that cache unchanged too, and no property about it is stated.
- Values.ToI: covers leading white space, a sign, the base-10 prefix `0d`/`0D` and decimal digits; underscores between digits (`"1_000".to_i` is 1000) are not modelled.
- Values.ToIVal: record values are only strings, integers or nil. A Float value, whose `to_i` truncates, and a value without `to_i`, which would raise, are not modelled.
- Tree.DepthOfAlongLeadingPath: the `NoMethodError` that `nil.depth_of` raises is modelled as `None`.
- Tree.FinalNumberDefined: stated for trees whose leaves are tagged `:direct` or the queried axis; for others the source recursion does not end, and `Tree.FinalNumberLoops` shows a lone leaf of another axis gives `None`.
- GroupingFacts.GroupedCountPreserved: stated for nodes whose entries are leaves. With wrapped entries the merge pass adds up their "count" fields, not their counts, so the total is not preserved in general.
