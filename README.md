# gotreap in Dafny

This project models the core of gotreap, a Go library that keeps an ordered
multiset in a treap. A treap is a binary search tree whose nodes also carry
random priorities arranged as a max-heap. Every node caches the size of its
subtree, so the treap answers positional queries (`At`, `Index`, `Cut`,
`EraseAt`) as well as order queries (`FindLowerBound`, `CountRange`,
`EraseRange`). Every operation is built from two primitives, `merge` and
`split`.

- `nodes.dfy` (module `Nodes`) models node.go. Subtrees are the datatype
  `Tree`: `Nil` or `Node(left, value, priority, right, size)`. The module
  defines `merge`, `split`, `safeSize`, `recalcSize`, `newNode` and the two
  threshold lookups as functions. The in-order navigation (`Next`, `Prev`,
  `Leftmost`, `Rightmost`, `Index`) is a set of methods with the same loops
  as the Go code.
- A Go `*Node` handle climbs the tree through parent links. Here a handle
  is a `Path`: the left/right steps from the root of the whole tree to the
  node. Following a parent link drops the last step of the path.
- `orders.dfy` (module `Orders`) holds the vocabulary for stating contracts:
  - strict weak orders and sorted sequences;
  - counting the values that satisfy a predicate;
  - the predicates "below v", "at most v", "equivalent to v" and "in the
    range";
  - facts about cutting pieces out of sorted sequences.
- `treap.dfy` (module `Treaps`) models treap.go:
  - the split conditions `condLess`, `condLeq` and `condCutN`;
  - the class `Treap`, whose `root` field the methods reassign as the Go
    methods do;
  - the package-level `Merge` and `NewAutoOrderTreap`.

`Treap.Valid()` is the container's invariant:
- the comparator is a strict weak order;
- the node tree is a valid heap with correct cached sizes;
- the in-order sequence `Contents()` is sorted by the comparator.

Every mutating method preserves `Valid()` and states the new `Contents()` in
terms of the old one. A number of module-level `...Sound` lemmas carry the
proof work. Each of them relates the Go steps (splits, merges, lookups) to a
specification on sequences, such as a count of values, a removal or a cut.

Where a Go operation panics, the model returns `Panic(message)` with the
same message, and `Done(value)` otherwise.

The files node.go and treap.go do not agree about `newNode`. In node.go it
takes only a value and draws the priority with `rand.Int()`. treap.go calls
it with a value and a priority (`randFn()`). The model follows treap.go: the
caller chooses the priority.

## Model

| member | source | states |
|---|---|---|
| Nodes.SafeSize | node.go:27-32 | nil has size 0; on a valid subtree the cached size is the number of values |
| Nodes.NewNode | node.go:16-25 | a single valid node holding exactly the given value and priority |
| Nodes.RecalcSize | node.go:34-36 | only the cached size changes; the node becomes valid when its children are valid and below its priority |
| Nodes.Merge | node.go:45-64 | the in-order sequence of the result is left's followed by right's; a nil side yields the other; the root with the higher priority wins (left's on a tie); valid inputs give a valid result |
| Nodes.Split | node.go:66-85 | the two parts concatenate to the input's in-order sequence; nil splits into two nils |
| Nodes.SplitValid | node.go:66-85 | (through `SplitValidAt`) both parts of a split of a valid subtree are valid, and no node in them outranks the input's root |
| Nodes.SplitPrefix | node.go:66-85 | for a condition that holds on a prefix, the left part is exactly that prefix |
| Nodes.SplitParts | node.go:66-85 | the left part is a prefix of the in-order sequence and the right part the rest; both are valid |
| Nodes.LookupRightmostMatch | node.go:184-199 | a found node is a real node of the tree; not found reports index 0 |
| Nodes.RightmostMatchAtCut | node.go:184-199 | (through `RightmostMatchAt`) the lookup returns the last node of the left part of the matching split, with its absolute index, or (nil, 0) when that part is empty |
| Nodes.LookupLeftmostUnmatch | node.go:201-216 | a found node is a real node of the tree; not found reports index 0 |
| Nodes.LeftmostUnmatchAtCut | node.go:201-216 | (through `LeftmostUnmatchAt`) the lookup returns the first node of the right part of the matching split, with its absolute index, or (nil, 0) when that part is empty |
| Nodes.CutIsSplit | node.go:66-85 | the number of nodes the lookups skip equals the size of the left part of the split |
| Nodes.Prev | node.go:87-106 | the predecessor is the node one position earlier in order, or nil before the first; nil gives nil |
| Nodes.Next | node.go:108-127 | the successor is the node one position later in order, or nil after the last; nil gives nil |
| Nodes.Leftmost | node.go:129-142 | the first node of the whole tree, from any node of it; nil gives nil |
| Nodes.Rightmost | node.go:144-157 | the last node of the whole tree, from any node of it; nil gives nil |
| Nodes.Index | node.go:159-171 | the in-order position of the node in its whole tree; nil gives 0 |
| Nodes.IndexOfNilIsFirst | node.go:159-162 | as written, a nil node gets index 0, the same index as the first node of any non-empty tree |
| Nodes.IndexOrSentinel | node.go:159-171 | a nil node gets -1, and only a nil node does; any other node gets its in-order position |
| Nodes.Value | node.go:177-182 | the value at the node's in-order position; nil gives the zero value |
| Treaps.CondLess | treap.go:58-62 | condLess(v) holds exactly on values below v, at any index |
| Treaps.CondLeq | treap.go:65-69 | condLeq(v) holds exactly on values not above v, at any index |
| Treaps.CondCutN | treap.go:72-76 | condCutN(n) holds on a prefix of any sequence of positions |
| Treaps.StartCond | treap.go:341-345 | the start condition (condLess for an inclusive start, condLeq for an exclusive one) holds exactly on the values that come before the range |
| Treaps.EndCond | treap.go:350-354 | the end condition (condLeq for an inclusive end, condLess for an exclusive one) holds exactly on the values up to the end of the range |
| Treaps.CutNParts | treap.go:72-76 | a split by condCutN(n) puts the first n values left, with n clamped to the size, and keeps both parts valid |
| Treaps.Treap.constructor | treap.go:32-55 | merging the sorted values in one at a time yields a valid treap holding exactly the sorted sequence |
| Treaps.Treap.Of | treap.go:283-301 | the struct literal holds the given comparator and root |
| Treaps.NewAutoOrderTreap | treap.go:17-19 | with the natural order on integers, the treap is valid and holds the sorted values |
| Treaps.InsertedLeftSound | treap.go:79-88 | InsertLeft's splits and merges insert the value just before the first value not below it; the index is the number of values below it; sortedness and validity are kept |
| Treaps.Treap.InsertLeft | treap.go:79-88 | the index is the count of values below the new one, and the contents gain the value at that index |
| Treaps.InsertedRightSound | treap.go:91-100 | InsertRight's steps insert the value after every value not above it; sortedness and validity are kept |
| Treaps.Treap.InsertRight | treap.go:91-100 | the index is the count of values not above the new one, and the contents gain the value at that index |
| Treaps.ErasedAllSound | treap.go:103-111 | the middle part of the two splits holds exactly the equivalent values; merging the outer parts removes them all and keeps the order |
| Treaps.Treap.EraseAll | treap.go:103-111 | the reported count is the number of equivalent values, and the contents are the old ones with all of them removed |
| Treaps.ErasedLeftmostSound | treap.go:114-127 | the first n equivalent values are cut out (all of them when n is negative or too large), right after the values below |
| Treaps.Treap.EraseLeftmost | treap.go:114-127 | the count is n clamped to the number of equivalent values; exactly that many values are cut out, starting where the equivalent ones begin |
| Treaps.ErasedRightmostSound | treap.go:130-144 | the last n equivalent values are cut out (all of them when n is negative or too large), ending where the equivalent values end |
| Treaps.Treap.EraseRightmost | treap.go:130-144 | the count is n clamped to the number of equivalent values; exactly that many values are cut out, ending where the equivalent ones end |
| Treaps.ErasedRangeSound | treap.go:149-174 | for a well-formed range, the middle part holds exactly the values in the range, and merging the outer parts removes them |
| Treaps.Treap.EraseRange | treap.go:149-174 | the end below the start panics, and so does an equal start and end with an exclusive bound, with Go's messages, leaving the contents unchanged; otherwise the count and the removal are exactly the values in the range |
| Treaps.ErasedAtSound | treap.go:179-206 | from an index in range, min(count, values left) values are cut out at that index, and order and validity are kept |
| Treaps.Treap.EraseAt | treap.go:179-206 | a negative count panics; a negative index counts from the end; an index still out of range erases nothing; otherwise min(count, values left) values are cut out at the index |
| Treaps.FromEnd | treap.go:189-197 | a negative index counts from the end; the normalised index is in range exactly when the raw index lies in [-size, size), which is At's test at treap.go:221 |
| Treaps.EraseLastExample | treap.go:179-206 | EraseAt(-1, 1) on the values 1 and 5 erases 5 and reports one erased value |
| Treaps.Treap.EraseSpan | treap.go:198-205 | the splits and merge of EraseAt cut min(count, values left) values out at a valid index |
| Treaps.LowerBoundSound | treap.go:209-211 | lookupLeftmostUnmatch with condLess finds the first value not below v at index k, where k counts the values below v; every value before k is below v, none from k on |
| Treaps.Treap.FindLowerBound | treap.go:209-211 | the first value not below v and its index, or (nil, 0) when every value is below v |
| Treaps.UpperBoundSound | treap.go:214-216 | lookupRightmostMatch with condLeq finds the last value not above v; every later value is above v |
| Treaps.Treap.FindUpperBound | treap.go:214-216 | the last value not above v and its index, or (nil, 0) when every value is above v |
| Treaps.LookupAtIndex | treap.go:219-230 | lookupLeftmostUnmatch with condCutN(i) finds the node at position i, with index i |
| Treaps.Treap.At | treap.go:219-230 | the node at the index, a negative index counting from the end, or nil when out of range |
| Treaps.Treap.Size | treap.go:233-235 | the number of stored values |
| Treaps.Treap.Empty | treap.go:238-240 | true exactly when no value is stored |
| Treaps.Treap.Clear | treap.go:243-245 | the treap stays valid and holds nothing |
| Treaps.Treap.Leftmost | treap.go:248-250 | the node at position 0, or nil when empty |
| Treaps.Treap.Rightmost | treap.go:253-255 | the node at the last position, or nil when empty |
| Treaps.PoppedLeftmostSound | treap.go:258-267 | cutting one node off the front yields the first value and the valid, sorted rest |
| Treaps.Treap.PopLeftmost | treap.go:258-267 | an empty treap reports failure; otherwise the first value is returned and removed |
| Treaps.PoppedRightmostSound | treap.go:270-280 | cutting all but one node off the front leaves the last value on the right, and the valid, sorted rest on the left |
| Treaps.Treap.PopRightmost | treap.go:270-280 | an empty treap reports failure; otherwise the last value is returned and removed |
| Treaps.SplitSound | treap.go:283-301 | both parts of any split of a valid treap are valid and sorted |
| Treaps.Treap.SplitBy | treap.go:283-301 | two new treaps with the same comparator hold the two parts, both valid, together the old contents in order; the receiver is emptied |
| Treaps.ValueCutSound | treap.go:304-311 | splitting by condLess(v) cuts at the count of values below v, and by condLeq(v) at the count not above v |
| Treaps.Treap.SplitBefore | treap.go:304-306 | the left treap holds the values below v, the right one the rest |
| Treaps.Treap.SplitAfter | treap.go:309-311 | the left treap holds the values not above v, the right one the rest |
| Treaps.Treap.Cut | treap.go:316-325 | the left treap holds the first n values (for negative n, all but the last -n, at least none), the right one the rest |
| Treaps.CountRangeSound | treap.go:330-363 | the two lookups find the first value in the range and the last, and their index difference is the number of values in it |
| Treaps.Treap.CountRange | treap.go:330-363 | the same two panics as EraseRange; otherwise the number of values in the range |
| Treaps.PointRange | treap.go:366-368 | the closed range from v to v is well formed and holds exactly the values equivalent to v |
| Treaps.Treap.Count | treap.go:366-368 | the number of values equivalent to v |
| Treaps.Merge | treap.go:425-438 | a nil side yields the other; otherwise a new treap with left's comparator holding left's values then right's; it is valid when both inputs are valid, share the comparator, and no value on the right is below one on the left |

## Left out

- Parent links, `safeSetParent` (node.go:38-43) and in-place rewiring. Subtrees are values and handles are paths, so the model does not capture aliasing between a `*Node` held by a caller and a tree that is changed later.
- Nodes.Merge and Nodes.Split: the parent updates at node.go:55, 61, 74-75 and 81-82 are not modelled. A version over heap nodes with parent fields needed far more proof effort than the verification budget allows, so subtrees are values.
- Nodes.Next, Nodes.Prev, Nodes.Index, Nodes.Leftmost and Nodes.Rightmost: Go climbs through parent links and relies on them being consistent with the child links. Here a parent is the path without its last step, so that consistency is built in rather than proved.
- `Node.Valid` (node.go:173-175) is the nil test on a handle. Here that test is `h.Some?`, so it has no member of its own.
- Randomness. Priorities are parameters: `NewNode`, `InsertLeft`, `InsertRight` and the constructor take the draws of `rand.Int`/`randFn` as arguments. The heap property holds whatever the draws are, but expected depth is not modelled.
- `sort.Slice` in the constructor is a parameter `sorted`, required to be a sorted permutation of `values`. Go's sort is not modelled, nor is the fact that it sorts the caller's `values` slice in place (treap.go:46-48).
- Treaps.Treap.constructor: the `lessFn == nil` and `randFn == nil` panics are left out, because Dafny function values cannot be nil.
- `NewTreap` and `NewAutoOrderTreapWithRand` (treap.go:22-29) differ from the modelled constructors only in where the priorities come from, which is a parameter here.
- Treaps.NewAutoOrderTreap: models `cmp.Less` for `int` only. Other `cmp.Ordered` types, such as floats with NaN or strings, are left out.
- `Root` and the iterators `Elements`, `ElementsBackwards`, `Values` and `ValuesBackwards` (treap.go:374-420) are left out. They expose the root, or walk with `Leftmost`/`Next` and `Rightmost`/`Prev`, which are modelled.
- Treaps.Merge: the comparator match that Go leaves to the caller is a hypothesis of the validity conclusion, not a precondition. In Go, `merge(left.root, right.root)` rewires the inputs' nodes in place: both input treaps keep their roots, which now point into the merged node graph. The model leaves the inputs as they were, so their contents after the call are not modelled (see the parent-links line above).
- Treaps.Treap.PopLeftmost and Treaps.Treap.PopRightmost: Go's zero value of `T` on an empty treap is a parameter `zero`.
- Nodes.Value: Go's zero value of `T` for a nil node is a parameter `zero`.
- Integer overflow of Go's `int` is not modelled: sizes and indices are unbounded.
- The user comparator is assumed to be a strict weak order (`StrictWeakOrder`), which Go leaves to the caller. Behaviour under an inconsistent comparator is not modelled.

## Findings

| source | as written | input that shows it | evidently intended | confidence | as-written member | corrected member |
|---|---|---|---|---|---|---|
| node.go:159-162 | `Index` on a nil node returns 0 | a nil handle and the first node of a non-empty tree both get index 0 | -1 for a nil node, which no real node's index equals, as node_test.go:357 expects | not executed | Nodes.IndexOfNilIsFirst | Nodes.IndexOrSentinel |
| treap_test.go:126 | the test expects `EraseAt(-1, 1)` on the values 1 and 5 to panic, but the code normalises -1 to the last index and erases one value | `EraseAt(-1, 1)` on the values 1 and 5 | negative indexing, as the doc comment at treap.go:177-178 says: erase 5 and report 1; the test, not the code, is at fault | not executed | Treaps.EraseLastExample | Treaps.Treap.EraseAt |
