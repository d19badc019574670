# A verified model of the `collection` Go library

This project models the core of the `collection` library (module
`github.com/maguerrido/collection`) in Dafny and proves what the library's
documentation and code promise about it:

- `sortedset`: an ordered set kept in an AVL tree whose nodes cache their
  height and subtree size, ordered by a caller-supplied three-way comparator.
  It is modelled as an algebraic `Tree` datatype with the recursive
  `pushRecursive`/`removeRecursive` as functions. The `SortedSet` object wraps
  one root. Modules: `SortedSetNode` (shape, rotations, invariants),
  `SortedSetPush`, `SortedSetRemove`, `SortedSet` and `SortedSetFinding`.
  `Ordering` holds the comparator laws and the reference definitions
  `SortedInsert`/`SortedDelete` on sorted sequences.
- `list` and `linkedlist`: a doubly-linked list whose elements carry a
  `parent` pointer. The two files hold the same code under two type names
  (`List` and `LinkedList`), so one class, `LinkedList.List`, models both.
  Each operation is a method over real `Element` objects with
  `next`/`prev`/`parent`/`value` fields, proved against the ghost sequences
  `elems` and `vals`. `ListSpec` and `ListSort` hold the sequence functions and
  lemmas the methods are specified by.
- `stack` and `queue`: singly-linked LIFO and FIFO containers with a length
  counter. `Stacks.Stack` and `Queues.Queue` are classes over
  `SinglyLinked.Node` objects, each proved against the ghost sequence `vals`
  and the reference functions `Pushed`/`Popped`.
- `hashmap`: a separate-chaining hash table that doubles and rehashes when a
  push finds more entries than `cap * loadFactor`. `HashMaps.HashMap` keeps
  its buckets in an `array` of chains, each chain a sequence of
  (hash code, key, value) entries. Its invariant `Valid` ties the table to
  the ghost map `contents`: every entry sits in the bucket of its hash code,
  no chain holds a key twice, every key has an entry, and `len` counts the
  entries. Each operation is stated on `contents`, and rehashing is proved to
  preserve it.

The callbacks of the Go API become parameters: the three-way `compare`, the
`equals` and `condition` predicates, and a key's `Hash`. A `Do` method returns
the trace of calls it makes, as pairs (procedure index, value), instead of
calling procedures. A `String` method takes a rendering function `show` in
place of `fmt`'s `%v`. Go's `nil` results become `Option` values (`None`), and
`nil` elements or marks become `null`.

Where the Go code does something its authors evidently did not intend, the
model keeps the code as written and adds a corrected twin (see
"## Findings"). The `SortedSet` class is built on the corrected removal,
`SortedSetRemove.Remove`. The Go removal as written is
`SortedSetRemove.RemoveAsWritten`, and its lemmas fix exactly the inputs on
which the two differ.

`linkedlist/linkedlist.go` repeats `list/list.go` line for line apart from
comments and the type name. The "## Model" table cites `list/list.go` for
every list member and gives the matching `linkedlist/linkedlist.go` lines
in the row's last cell.

## Model

| member | source | states |
|---|---|---|
| SortedSetNode.MaxInt | sortedset/sortedset.go:67-73 | the result is at least both arguments and equal to one of them |
| SortedSetNode.Recomputed | sortedset/sortedset.go:253-254 | a node rebuilt over children whose cached height and size are right gets a right `h` (1 + the larger child height) and `len` (1 + both child sizes) |
| SortedSetNode.LengthIsCount | sortedset/sortedset.go:61-66 | in a tree whose cached fields are right, a node's cached `len` is the number of values below it, so `Len` counts the set |
| SortedSetNode.HeightOfNode | sortedset/sortedset.go:44-49 | in such a tree, the cached height is positive exactly at a node and never negative |
| SortedSetNode.Leftmost | sortedset/sortedset.go:74-82 | `min`'s walk down the left children reaches the first value in in-order |
| SortedSetNode.Rightmost | sortedset/sortedset.go:212-216 | `Max`'s walk down the right children reaches the last value in in-order |
| SortedSetNode.SortedIffSearchTree | sortedset/sortedset.go:238-275 | the in-order values are strictly ascending exactly when, at every node, every left-subtree value compares less and every right-subtree value compares greater |
| SortedSetNode.RotateLeft | sortedset/sortedset.go:50-60 | the right child is promoted to subtree root, with the old root as its left child taking over the child's left subtree; the in-order values are unchanged |
| SortedSetNode.RotateRight | sortedset/sortedset.go:83-93 | the mirror image: the left child is promoted and the in-order values are unchanged |
| SortedSetNode.RotateLeftCached | sortedset/sortedset.go:55-58 | recomputing the demoted node first and then the promoted root leaves every cached `h` and `len` right |
| SortedSetNode.RotateRightCached | sortedset/sortedset.go:88-91 | the same for the right rotation |
| SortedSetNode.RotateRightRepairs | sortedset/sortedset.go:333-335 | at balance 2 with a left child of balance 0 or 1 (left-left), one right rotation restores the AVL balance and the cached fields; the height drops by one exactly when the child leaned left |
| SortedSetNode.RotateLeftRepairs | sortedset/sortedset.go:341-343 | the mirror (right-right) case |
| SortedSetNode.LeftRightRepairs | sortedset/sortedset.go:260-263 | at balance 2 with a left child of balance -1, the left-right double rotation restores balance and cached fields and lowers the height by one |
| SortedSetNode.RightLeftRepairs | sortedset/sortedset.go:268-271 | the mirror (right-left) case |
| SortedSetPush.RebalanceAfterPush | sortedset/sortedset.go:256-273 | choosing the rotation by comparing `v` with the heavy child's value, as Push does, yields an AVL tree with the same in-order values; the node is returned as is when its balance is within ±1, otherwise the height drops by one |
| SortedSetPush.Push | sortedset/sortedset.go:238-275 | `pushRecursive` keeps the tree AVL at every node (search order, balance, cached `h`/`len`), its values become `SortedInsert` of the old ones, and the height grows by at most one |
| SortedSetPush.PushHere | sortedset/sortedset.go:248-250 | a value comparing equal to the node's overwrites it in place; shape and cached fields stay |
| SortedSetRemove.RebalanceAfterRemove | sortedset/sortedset.go:332-348 | choosing the rotation by the sign of the heavy child's balance keeps the in-order values |
| SortedSetRemove.RebalanceAfterRemoveRepairs | sortedset/sortedset.go:332-348 | after a removal the rebalanced node is AVL, untouched when its balance is within ±1, and at most one lower |
| SortedSetRemove.Remove | sortedset/sortedset.go:288-351 | the corrected removal: the tree stays AVL, its values become `SortedDelete` of the old ones, the flag is true exactly when an equal value was present, and the height falls by at most one |
| SortedSetRemove.RemoveHere | sortedset/sortedset.go:303-312 | a node with at most one child is replaced by that child (or by nothing), which removes exactly the matched value |
| SortedSetRemove.RemoveSuccessor | sortedset/sortedset.go:317-321 | with two children, copying the in-order successor up and removing it from the right subtree removes exactly the matched value |
| SortedSetRemove.RemoveAsWritten | sortedset/sortedset.go:288-351 | the Go removal as written, including the cleared child left linked on the one-child path: cached fields stay non-negative and an empty tree gives (empty, false) |
| SortedSetRemove.RemoveAsWrittenAbsent | sortedset/sortedset.go:289-298 | on an AVL tree holding no value equal to `v`, the removal as written returns the tree unchanged and false |
| SortedSetRemove.RemoveAsWrittenAgrees | sortedset/sortedset.go:293-321 | whenever the search does not end at a node with exactly one child (absent value, leaf, or two children), the removal as written gives the same tree and flag as the corrected one |
| SortedSetRemove.RemoveAsWrittenOneChild | sortedset/sortedset.go:313-316 | when the search ends at a node with exactly one child, the removal as written reports true but keeps as many in-order values as before, one of them the cleared `nil`, and its cached `len` is one less than that count, while the corrected removal has one fewer value |
| SortedSetRemove.RemoveAsWrittenErased | sortedset/sortedset.go:288-351 | on every AVL tree and value, the removal as written reports the same flag as the corrected removal, and its tree with the cleared nodes erased is exactly the corrected tree |
| SortedSetRemove.OneChildAsWritten | sortedset/sortedset.go:313-316 | at such a node itself, the result still has two in-order values |
| SortedSet.Contains | sortedset/sortedset.go:138-148 | true exactly when some stored value is `==` to `v` |
| SortedSet.ContainsByComparator | sortedset/sortedset.go:159-171 | true only when some stored value compares 0 with `v` |
| SortedSet.ContainsByComparatorComplete | sortedset/sortedset.go:159-171 | on an AVL tree the comparator descent is true exactly when some stored value compares 0 with `v` |
| SortedSet.CloneTree | sortedset/sortedset.go:122-129 | the copy holds the same values and cached fields in the same shape |
| SortedSet.AppendInOrder | sortedset/sortedset.go:369-376 | `sliceRecursive` appends the subtree's values in ascending in-order |
| SortedSet.Do | sortedset/sortedset.go:180-189 | every procedure is applied to every value in ascending in-order |
| SortedSet.StringOf | sortedset/sortedset.go:394-399 | `stringRecursive` renders every value followed by a space, in in-order |
| SortedSet.String | sortedset/sortedset.go:381-391 | `[`, then the rendering with its trailing spaces trimmed, then `]` |
| SortedSet.StringIsJoined | sortedset/sortedset.go:381-391 | when no rendering is empty or ends in a space, the result is `[]` for an empty set and otherwise the values joined by single spaces in brackets |
| SortedSet.PushKeepsSearchTree | sortedset/sortedset.go:238-275 | after Push every left-subtree value compares less than its node and every right-subtree value greater |
| SortedSet.PushLength | sortedset/sortedset.go:238-254 | after Push the value is stored and `len` grows by one exactly when no equal value was present |
| SortedSet.PushOverwriteKeepsShape | sortedset/sortedset.go:248-250 | pushing a value equal to a stored one keeps the tree's shape, height and `len` |
| SortedSet.RemoveLength | sortedset/sortedset.go:288-351 | after the corrected removal `len` falls by one exactly when it reports true, nothing changes when it reports false, and no value equal to `v` remains |
| SortedSet.MinMaxAreExtreme | sortedset/sortedset.go:208-226 | Min compares at most and Max at least every stored value |
| SortedSet.PushAllSorted | sortedset/sortedset.go:104-110 | pushing already-ascending distinct values one by one, as NewBySlice does, keeps them in that order |
| SortedSet.SortedSet.constructor | sortedset/sortedset.go:96-98 | New gives an empty set |
| SortedSet.SortedSet.Push | sortedset/sortedset.go:233-235 | the set stays AVL and its values become `SortedInsert` of the old ones |
| SortedSet.SortedSet.Remove | sortedset/sortedset.go:281-285 | with the corrected removal the set stays AVL, its values become `SortedDelete` of the old ones, and the result is true exactly when an equal value was present |
| SortedSet.SortedSet.RemoveAll | sortedset/sortedset.go:355-357 | the set becomes empty |
| SortedSet.SortedSet.IsEmpty | sortedset/sortedset.go:193-195 | true exactly when the set holds no values |
| SortedSet.SortedSet.Len | sortedset/sortedset.go:199-204 | the number of stored values |
| SortedSet.SortedSet.Max | sortedset/sortedset.go:208-217 | the last in-order value, or nothing for an empty set |
| SortedSet.SortedSet.Min | sortedset/sortedset.go:221-226 | the first in-order value, or nothing for an empty set |
| SortedSet.SortedSet.Slice | sortedset/sortedset.go:362-366 | the values in ascending in-order |
| SortedSet.SortedSet.Clone | sortedset/sortedset.go:115-119 | a new set with the same tree |
| SortedSet.NewBySlice | sortedset/sortedset.go:104-110 | a valid set whose values are those of pushing the slice's values in order |
| SortedSetFinding.PushTwoValues | sortedset/sortedset.go:238-275 | pushing `x` then a greater `y` into an empty set builds the AVL tree with root `x` and right child `y` |
| SortedSetFinding.RemoveOneChildAsWritten | sortedset/sortedset.go:313-316 | removing `x` from that tree as written reports true, yet the in-order values become `[y, nil]`, `len` is 1 and Max returns `nil` |
| SortedSetFinding.RemoveOneChildCorrected | sortedset/sortedset.go:313-316 | the corrected removal leaves the single node `y` |
| Ordering.InsertSorted | sortedset/sortedset.go:238-275 | inserting into an ascending sequence keeps it ascending |
| Ordering.InsertElements | sortedset/sortedset.go:238-251 | an insertion holds the pushed value, only the old values besides it, and every old value not equal to it |
| Ordering.InsertLength | sortedset/sortedset.go:238-251 | an insertion grows the sequence by one exactly when no equal value was present |
| Ordering.DeleteSorted | sortedset/sortedset.go:288-351 | deleting from an ascending sequence keeps it ascending |
| Ordering.DeleteElements | sortedset/sortedset.go:288-351 | a deletion shrinks the sequence by one exactly when an equal value was present and adds nothing |
| Ordering.DeleteLeavesNone | sortedset/sortedset.go:288-351 | after a deletion from an ascending sequence no value equal to `v` remains |
| Ordering.DeleteAbsent | sortedset/sortedset.go:289-291 | deleting a value that is not present changes nothing |
| Ordering.DeleteBySuccessor | sortedset/sortedset.go:317-320 | in an ascending sequence, deleting the value at `x` equals moving the first value after `x` into its place and deleting that value from the rest, the result staying ascending |
| LinkedList.Element.constructor | list/list.go:9-21 | an element is built holding exactly the given value, neighbours and parent; the same code is linkedlist/linkedlist.go:10-21 |
| LinkedList.List.constructor | list/list.go:74-76 | New gives a valid, empty list; the same code is linkedlist/linkedlist.go:65-67 |
| LinkedList.List.IsEmpty | list/list.go:189-191 | on a valid list, true exactly when the list has no elements; the same code is linkedlist/linkedlist.go:181-183 |
| LinkedList.List.Len | list/list.go:195-197 | the length counter equals the number of values in the list; the same code is linkedlist/linkedlist.go:187-189 |
| LinkedList.List.Contains | list/list.go:110-112 | for a tracked element, true exactly when it is one of this list's elements (the `parent` test); the same code is linkedlist/linkedlist.go:102-104 |
| LinkedList.List.Front | list/list.go:158-163 | null exactly when the list is empty, otherwise the first element, holding the first value; the same code is linkedlist/linkedlist.go:150-155 |
| LinkedList.List.Back | list/list.go:91-96 | null exactly when the list is empty, otherwise the last element, holding the last value; the same code is linkedlist/linkedlist.go:82-87 |
| LinkedList.List.Get | list/list.go:168-185 | the element at zero-based position `index` whichever end the walk starts from, and null when `index < 0` or `index >= len`; the same code is linkedlist/linkedlist.go:160-177 |
| LinkedList.List.Search | list/list.go:442-449 | the index of the first `==` match and its element, or -1 and null when the value is absent; the same code is linkedlist/linkedlist.go:435-442 |
| LinkedList.List.SearchByComparator | list/list.go:456-463 | the index of the first value the `equals` callback accepts and its element, or -1 and null when none does; the same code is linkedlist/linkedlist.go:450-457 |
| LinkedList.List.Slice | list/list.go:481-487 | the values front to back; the list is unchanged; the same code is linkedlist/linkedlist.go:475-481 |
| LinkedList.List.Do | list/list.go:117-123 | every procedure is applied to every value, front to back; the list is unchanged; the same code is linkedlist/linkedlist.go:109-115 |
| LinkedList.List.String | list/list.go:508-518 | `[]` when empty, otherwise `[`, the values' renderings joined by single spaces, then `]`; the same code is linkedlist/linkedlist.go:501-511 |
| LinkedList.List.Equals | list/list.go:127-137 | true exactly when both lists hold the same values in the same order (equal lengths checked first); the same code is linkedlist/linkedlist.go:119-129 |
| LinkedList.List.EqualsByComparator | list/list.go:143-153 | true exactly when the lengths agree and `equals` accepts every pair of values at the same position; the same code is linkedlist/linkedlist.go:135-145 |
| LinkedList.List.PushBack | list/list.go:272-281 | the value is appended as a new back element, earlier elements keep their positions and the length grows by one; the same code is linkedlist/linkedlist.go:264-273 |
| LinkedList.List.PushBackList | list/list.go:285-292 | the other list's values are appended in order; a nil other, or this list itself when empty, changes nothing; the same code is linkedlist/linkedlist.go:277-284 |
| LinkedList.List.PushFront | list/list.go:313-322 | the value is prepended as a new front element and the length grows by one; the same code is linkedlist/linkedlist.go:305-314 |
| LinkedList.List.PushFrontList | list/list.go:326-333 | the other list's values are prepended keeping their order; a nil other, or this list itself when empty, changes nothing; the same code is linkedlist/linkedlist.go:318-325 |
| LinkedList.List.Clone | list/list.go:100-106 | a new valid list of fresh elements holding the same values in the same order; the same code is linkedlist/linkedlist.go:92-98 |
| LinkedList.List.Unlink | list/list.go:532-551 | unlink drops the element at position `k` from the chain, keeps every other element in order and clears the element's links |
| LinkedList.List.Detach | list/list.go:391-394 | the element at position `k` leaves the list, the others keep their order, the element's links and parent are cleared and one element fewer is counted |
| LinkedList.List.RemoveElement | list/list.go:387-396 | a member element is removed and its value returned with ok; any other element gives (nil, false) and no change; the same code is linkedlist/linkedlist.go:379-388 |
| LinkedList.List.Remove | list/list.go:367-377 | only the first `==` match is removed; true exactly when the value was present; otherwise nothing changes; the same code is linkedlist/linkedlist.go:359-369 |
| LinkedList.List.PushAfter | list/list.go:255-268 | a fresh element holding `v` is inserted right after a member mark and returned; a foreign or nil mark gives null and no change; the same code is linkedlist/linkedlist.go:247-260 |
| LinkedList.List.InsertAfter | list/list.go:259-267 | the new element lands at the position after the mark, every other element keeps its order |
| LinkedList.List.PushBefore | list/list.go:296-309 | a fresh element holding `v` is inserted right before a member mark and returned; a foreign or nil mark gives null and no change; the same code is linkedlist/linkedlist.go:288-301 |
| LinkedList.List.InsertBefore | list/list.go:300-308 | the new element lands at the mark's position, every other element keeps its order |
| LinkedList.List.MoveAfter | list/list.go:201-218 | with both elements members, `e` is moved to just after `mark` (the rest keep their order) and true is returned; `e == mark` is a no-op returning true; a foreign element gives false and no change; the same code is linkedlist/linkedlist.go:193-210 |
| LinkedList.List.MoveBefore | list/list.go:222-239 | with both elements members, `e` is moved to just before `mark` and true is returned; `e == mark` is a no-op returning true; a foreign element gives false and no change; the same code is linkedlist/linkedlist.go:214-231 |
| LinkedList.List.RelinkAfter | list/list.go:209-216 | an unlinked element is linked back in right after the mark, fixing `back` when the mark was last |
| LinkedList.List.RelinkBefore | list/list.go:230-237 | an unlinked element is linked back in right before the mark, fixing `front` when the mark was first |
| LinkedList.List.MoveToBack | list/list.go:243-245 | a member element ends up last with the others in order; a foreign element gives false and no change; the same code is linkedlist/linkedlist.go:235-237 |
| LinkedList.List.MoveToFront | list/list.go:249-251 | as written: a member element other than the front ends up SECOND, behind the old front (see Findings); the same code is linkedlist/linkedlist.go:241-243 |
| LinkedList.List.MoveToFrontCorrected | list/list.go:249-251 | the intended behaviour: a member element ends up first with the others in order; the same code is linkedlist/linkedlist.go:241-243 |
| LinkedList.List.Swap | list/list.go:522-528 | with both elements members their values are exchanged and nothing else changes; otherwise false and no change; the same code is linkedlist/linkedlist.go:515-521 |
| LinkedList.List.Sort | list/list.go:495-503 | the values end up non-decreasing under the comparator and are a permutation of the old values; the elements stay in place; the same code is linkedlist/linkedlist.go:488-496 |
| LinkedList.List.SelectionSort | list/list.go:466-476 | selection sort leaves the values non-decreasing and a permutation of the old values; the same code is linkedlist/linkedlist.go:460-470 |
| LinkedList.List.SelectRound | list/list.go:467-475 | one outer round swaps a least remaining value into position `p`, extending the sorted prefix by one |
| LinkedList.List.LastMinimum | list/list.go:468-473 | the inner walk (`compare(j, minor) < 1`) finds the LAST position holding a least value of the suffix |
| LinkedList.List.QuickSort | list/list.go:336-338 | quicksort over the whole list leaves the values non-decreasing and a permutation of the old values |
| LinkedList.List.QuickSortRange | list/list.go:341-363 | quickSortRecursive sorts the values between `front` and `back` and only permutes values inside that range |
| LinkedList.List.Partition | list/list.go:343-359 | Lomuto partition: the pivot (the back value) lands at position `p` with no greater value before it and only greater values after it |
| LinkedList.List.PartitionLoop | list/list.go:344-353 | the partition loop keeps every value up to the moving boundary at most the pivot and the rest greater |
| LinkedList.List.PartitionFinish | list/list.go:354-359 | the final swap puts the pivot between the two parts |
| LinkedList.List.RemoveAll | list/list.go:381-383 | as written: the list becomes empty but its old elements still report Contains (see Findings); the same code is linkedlist/linkedlist.go:373-375 |
| LinkedList.List.RemoveAllCorrected | list/list.go:381-383 | the intended behaviour: the list becomes empty and no old element reports Contains; the same code is linkedlist/linkedlist.go:373-375 |
| LinkedList.List.RemoveFrom | list/list.go:401-417 | with both marks members, removes `start` through `end`, or `start` through the back when `end` comes first, and returns that count; otherwise 0 and no change; the same code is linkedlist/linkedlist.go:393-409 |
| LinkedList.List.RemoveRange | list/list.go:405-415 | the removal loop cuts exactly `count` consecutive elements starting at `start` |
| LinkedList.List.RemoveIf | list/list.go:422-437 | exactly the values meeting the condition are removed, the survivors keep their order, and the count is the number removed; the same code is linkedlist/linkedlist.go:414-429 |
| LinkedList.List.Sift | list/list.go:424-435 | the RemoveIf walk leaves exactly the non-matching elements, in order |
| LinkedList.NewBySlice | list/list.go:80-86 | a new valid list holding the slice's values in order; the same code is linkedlist/linkedlist.go:71-77 |
| ListSpec.IndexOf | list/list.go:442-449 | the first position holding `v`, or -1 exactly when `v` is absent |
| ListSpec.FirstIndex | list/list.go:456-463 | the first position whose value satisfies the predicate, or -1 exactly when none does |
| ListSpec.RemovedFirst | list/list.go:367-377 | dropping the first occurrence removes one copy of `v` from the multiset of values and shortens the list only when `v` was present |
| ListSpec.InsertAtMultiset | list/list.go:255-268 | inserting adds exactly the new value, and removing it again gives back the old sequence |
| ListSpec.WithoutMultiset | list/list.go:532-551 | unlinking the element at a position removes exactly its value |
| ListSpec.MovedAfterPlaces | list/list.go:201-218 | after MoveAfter, `e` sits right after `mark` and removing it again gives the old sequence without `e` |
| ListSpec.MovedBeforePlaces | list/list.go:222-239 | after MoveBefore, `e` sits right before `mark` and the other elements keep their order |
| ListSpec.MovedAfterLast | list/list.go:243-245 | moving after the back element is appending `e` to the others |
| ListSpec.MovedBeforeFirst | list/list.go:249-251 | moving before the front element is prepending `e` to the others (the intended MoveToFront) |
| ListSpec.CutIs | list/list.go:401-417 | cutting `c` elements at `i` keeps exactly the elements before `i` and after `i + c`, in order |
| ListSpec.RemovedIfKeeps | list/list.go:422-437 | every survivor of RemoveIf fails the condition and was in the list, and every value that fails it survives |
| ListSpec.RemovedIfSplits | list/list.go:422-437 | the survivors and the removed values together are exactly the old values |
| ListSpec.TakenLength | list/list.go:422-437 | the count of removed values plus the number of survivors is the old length |
| ListSpec.TakenMeets | list/list.go:422-437 | every removed value meets the condition |
| ListSpec.Swapped | list/list.go:522-528 | exchanging two positions swaps their values, keeps all others and the multiset |
| ListSpec.PairwiseIsEquality | list/list.go:127-153 | EqualsByComparator with `==` as the callback is Equals |
| ListSort.SelectStep | list/list.go:467-475 | swapping a least value of the unsorted suffix into position `p` extends the sorted, least-first prefix by one |
| ListSort.LastLeastStep | list/list.go:469-473 | the test `compare(j, minor) < 1` keeps `minor` at the last position of a least value seen so far |
| ListSort.SelectedAll | list/list.go:466-476 | once every position but the last is selected, the whole list is non-decreasing |
| ListSort.PartitionTake | list/list.go:345-352 | a value at most the pivot is swapped to just past the boundary, which keeps the partition invariant |
| ListSort.PartitionSkip | list/list.go:344-345 | a value greater than the pivot stays where it is and the invariant holds |
| ListSort.PartitionClose | list/list.go:354-359 | swapping the pivot to just past the boundary leaves no greater value before it and no smaller-or-equal value after it |
| ListSort.QuickSortJoin | list/list.go:341-363 | sorting both sides of a partitioned range sorts the range and only permutes its values |
| ListSort.SwappedRearranges | list/list.go:351-359 | a swap of two positions inside a range permutes that range and leaves everything outside it |
| ListSort.RearrangedAll | list/list.go:495-503 | permuting the whole range permutes the multiset of values |
| Traversal.TrimRight | sortedset/sortedset.go:387 | `strings.TrimRight(s, " ")`: a prefix of `s` not ending in a space, with only spaces cut off |
| Traversal.Visit | list/list.go:119-121 | the calls made for one value are that value handed to each procedure in turn, appended to the calls so far |
| Traversal.LeadingRun | stack/stack.go:125-136 | the longest prefix whose values all meet the condition; the next value, if any, fails it |
| Stacks.Pushed | stack/stack.go:162-166 | the pushed value is on top of the old values |
| Stacks.Popped | stack/stack.go:111-120 | nothing from an empty stack; otherwise the top value and the values below it |
| Stacks.GetAfterPush | stack/stack.go:111-166 | Get right after Push returns the pushed value and restores the previous stack (LIFO) |
| Stacks.Reversed | stack/stack.go:44-50 | the reversal of a sequence |
| Stacks.PushAllReversed | stack/stack.go:44-50 | pushing a slice's values in order leaves them reversed on top of the old values, the last value on top |
| Stacks.Stack.constructor | stack/stack.go:37-39 | New gives a valid, empty stack |
| Stacks.Stack.Of | stack/stack.go:54-56 | the stack built from a cloned chain and its length is valid and holds that chain's values |
| Stacks.Stack.IsEmpty | stack/stack.go:140-142 | on a valid stack, true exactly when it holds no values |
| Stacks.Stack.Len | stack/stack.go:146-148 | the length counter is the number of values |
| Stacks.Stack.Peek | stack/stack.go:153-158 | the top value, or nothing when empty; the stack is unchanged |
| Stacks.Stack.Push | stack/stack.go:162-166 | the value becomes the new top node over the old nodes |
| Stacks.Stack.Get | stack/stack.go:111-120 | the top value is returned and removed, or nothing on an empty stack |
| Stacks.Stack.GetIf | stack/stack.go:125-136 | pops and returns the longest run from the top whose values meet the condition, stopping at the first that does not |
| Stacks.Stack.RemoveAll | stack/stack.go:170-172 | the stack becomes empty |
| Stacks.Stack.Search | stack/stack.go:177-184 | -1 exactly when `v` is absent, otherwise the index counted from the bottom (`len - 1` for the top) of the match nearest the top |
| Stacks.Stack.SearchByComparator | stack/stack.go:192-199 | the same with the `equals` callback in place of `==` |
| Stacks.Stack.Slice | stack/stack.go:204-210 | the values from top to bottom; the stack is unchanged |
| Stacks.Stack.Do | stack/stack.go:69-76 | every procedure is applied to every value from top to bottom and the stack is left empty |
| Stacks.Stack.String | stack/stack.go:215-225 | `[]` when empty, otherwise the values top to bottom joined by single spaces in brackets |
| Stacks.Stack.Equals | stack/stack.go:80-90 | true exactly when both stacks hold the same values in the same order |
| Stacks.Stack.EqualsByComparator | stack/stack.go:96-106 | true exactly when the lengths agree and `equals` accepts every pair at the same depth |
| Stacks.Stack.Clone | stack/stack.go:54-56 | a new valid stack of fresh nodes with the same values in the same order |
| Stacks.Stack.CloneFrom | stack/stack.go:59-64 | `cloneRecursive` builds a fresh chain holding the values from the given node down |
| Stacks.NewBySlice | stack/stack.go:44-50 | a valid stack holding the slice reversed, its last value on top |
| Queues.Pushed | queue/queue.go:161-170 | the pushed value is behind the old values |
| Queues.Popped | queue/queue.go:106-118 | nothing from an empty queue; otherwise the front value and the values behind it |
| Queues.GetAfterPush | queue/queue.go:106-170 | Get after Push returns the old front, or the pushed value when the queue was empty, and the rest keep their order (FIFO) |
| Queues.PushAllInOrder | queue/queue.go:42-48 | pushing a slice's values in order appends them in that order |
| Queues.Queue.constructor | queue/queue.go:36-38 | New gives a valid, empty queue |
| Queues.Queue.IsEmpty | queue/queue.go:139-141 | on a valid queue, true exactly when it holds no values |
| Queues.Queue.Len | queue/queue.go:145-147 | the length counter is the number of values |
| Queues.Queue.Peek | queue/queue.go:152-157 | the front value, or nothing when empty; the queue is unchanged |
| Queues.Queue.Push | queue/queue.go:161-170 | the value becomes the new back node behind the old nodes |
| Queues.Queue.Get | queue/queue.go:106-118 | the front value is returned and removed, `front` and `back` both becoming nil with the last one; nothing on an empty queue |
| Queues.Queue.GetIf | queue/queue.go:124-135 | removes and returns the longest front run whose values meet the condition |
| Queues.Queue.RemoveAll | queue/queue.go:174-176 | the queue becomes empty |
| Queues.Queue.Search | queue/queue.go:181-188 | the zero-based index from the front of the first `==` match, or -1 when absent |
| Queues.Queue.SearchByComparator | queue/queue.go:195-202 | the same with the `equals` callback |
| Queues.Queue.Slice | queue/queue.go:207-213 | the values front to back; the queue is unchanged |
| Queues.Queue.Do | queue/queue.go:64-71 | every procedure is applied to every value front to back and the queue is left empty |
| Queues.Queue.String | queue/queue.go:218-228 | `[]` when empty, otherwise the values front to back joined by single spaces in brackets |
| Queues.Queue.Equals | queue/queue.go:75-85 | true exactly when both queues hold the same values in the same order |
| Queues.Queue.EqualsByComparator | queue/queue.go:91-101 | true exactly when the lengths agree and `equals` accepts every pair at the same position |
| Queues.Queue.Clone | queue/queue.go:53-59 | a new valid queue of fresh nodes with the same values in the same order |
| Queues.NewBySlice | queue/queue.go:42-48 | a valid queue holding the slice's values in order |
| HashMaps.BucketOf | hashmap/hashmap.go:154-156 | `hash`: the bucket of a non-negative hash code is `hashCode % cap`, always a valid bucket index |
| HashMaps.Enumerated | hashmap/hashmap.go:173-181 | in a table that stands for map `m`, every entry is a pair of `m`, and entering the entries bucket by bucket, chain by chain, builds exactly `m` |
| HashMaps.PlacedSize | hashmap/hashmap.go:166-168 | in such a table the number of entries over all chains is the number of keys of `m` |
| HashMaps.PlacedOverwrite | hashmap/hashmap.go:196-200 | giving a found entry a new value keeps every entry in its bucket with unique keys, and the table then stands for the map with that key's value replaced |
| HashMaps.PlacedPrepend | hashmap/hashmap.go:201-220 | for a key its bucket does not hold, a new entry at the head of the bucket's chain (empty or not) gives a table standing for the map with the new pair added |
| HashMaps.PlacedRemove | hashmap/hashmap.go:252-270 | unlinking the entry at any position of a chain (head or interior) gives a table standing for the map without that key, and the key held that entry's value |
| HashMaps.SearchChain | hashmap/hashmap.go:56-63 | `node.search`: the first position in the chain whose key equals `key`, or -1 when no key does |
| HashMaps.MapChain | hashmap/hashmap.go:176-178 | entering one chain's pairs into the result map in chain order |
| HashMaps.DoChain | hashmap/hashmap.go:129-133 | applying every procedure to each value of one chain, in chain order |
| HashMaps.StringChain | hashmap/hashmap.go:318-322 | appending each `key:value ` rendering of one chain, in chain order |
| HashMaps.HashMap.EntriesEnumerate | hashmap/hashmap.go:166-181 | every entry of a valid map is one of its pairs, the entries build the whole map, and `len` is the number of pairs |
| HashMaps.HashMap.constructor | hashmap/hashmap.go:86-99 | New makes `cap` buckets, using 16 when `cap <= 0` and 0.75 when `loadFactor <= 0`; the map is valid and empty |
| HashMaps.HashMap.IsEmpty | hashmap/hashmap.go:160-162 | true exactly when the map holds no pairs |
| HashMaps.HashMap.Len | hashmap/hashmap.go:166-168 | the number of pairs |
| HashMaps.HashMap.Get | hashmap/hashmap.go:140-150 | the value paired with the key; nothing for the nil key, an empty map or an absent key |
| HashMaps.HashMap.Push | hashmap/hashmap.go:187-222 | the nil key gives false and no change; any other key gives true, and the map then pairs it with `v` (overwritten or added) while keeping every other pair; when the table held more pairs than `cap * loadFactor` it is replaced by a fresh one of at least twice the capacity, otherwise the table and capacity stay; the map stays valid through any rehashing |
| HashMaps.HashMap.Put | hashmap/hashmap.go:191-220 | Push of a key: the pairs become the old pairs with `key` paired with `v`; when `len > cap * loadFactor` held on entry the table is fresh and the capacity at least doubled, otherwise the table and capacity stay |
| HashMaps.HashMap.Store | hashmap/hashmap.go:194-220 | with the bucket found, an existing entry of the key is overwritten, otherwise a new entry is prepended; the buckets array and capacity stay |
| HashMaps.HashMap.Overwrite | hashmap/hashmap.go:196-200 | the found entry takes the new value; its key's pair changes and nothing else does |
| HashMaps.HashMap.Prepend | hashmap/hashmap.go:201-220 | the new entry heads its bucket's chain; the pair is added and `len` grows by one |
| HashMaps.HashMap.ReHashing | hashmap/hashmap.go:226-239 | a fresh table of at least twice the capacity replaces the old one and the map keeps exactly the same pairs |
| HashMaps.HashMap.Grow | hashmap/hashmap.go:227-230 | the buckets are replaced by twice as many empty ones, `len` becomes 0, and the old buckets are handed back unchanged |
| HashMaps.HashMap.ReinsertAll | hashmap/hashmap.go:231-238 | pushing every entry of the old table, bucket by bucket, rebuilds exactly the map the old table stood for |
| HashMaps.HashMap.ReinsertChain | hashmap/hashmap.go:232-237 | pushing one old chain's entries in chain order adds their pairs to the map |
| HashMaps.HashMap.Remove | hashmap/hashmap.go:243-272 | a present key's pair is removed and its value returned; the nil key or an absent key gives nothing and no change; buckets and capacity stay |
| HashMaps.HashMap.Unlink | hashmap/hashmap.go:252-270 | unlinking the entry at a chain position removes exactly its key's pair and returns its value |
| HashMaps.HashMap.RemoveAll | hashmap/hashmap.go:276-278 | no buckets, capacity 0, load factor 0 and no pairs |
| HashMaps.HashMap.Map | hashmap/hashmap.go:173-181 | a map holding exactly the pairs of the hash map |
| HashMaps.HashMap.Clone | hashmap/hashmap.go:113-121 | a new valid map with the same pairs and load factor, and at least the capacity New would give |
| HashMaps.HashMap.PushChain | hashmap/hashmap.go:116-118 | pushing one chain's pairs in chain order into the clone |
| HashMaps.HashMap.Do | hashmap/hashmap.go:127-135 | every procedure is applied to every value, bucket by bucket and each chain from its head; the map is unchanged |
| HashMaps.HashMap.Search | hashmap/hashmap.go:283-292 | nothing exactly when no key is paired with `v`; otherwise a key paired with `v` |
| HashMaps.HashMap.SearchByComparator | hashmap/hashmap.go:299-308 | nothing exactly when `equals` accepts no stored value; otherwise a key whose value it accepts |
| HashMaps.HashMap.String | hashmap/hashmap.go:313-324 | `[]` when empty, otherwise the `key:value` renderings in table order joined by single spaces in brackets |
| HashMaps.NewByMap | hashmap/hashmap.go:103-109 | a new valid map holding exactly the given pairs, with New's load factor and at least New's capacity |

## Left out

- LinkedList.List.RemoveElement: requires `Tracked(e)`, that an element whose `parent` is this list is one of its elements. `RemoveAll` as written breaks that, and Go then unlinks an element that is no longer in the chain; the model does not follow Go there.
- LinkedList.List.PushAfter: requires `Tracked(mark)`, for the same reason as `RemoveElement`.
- LinkedList.List.PushBefore: requires `Tracked(mark)`, for the same reason as `RemoveElement`.
- LinkedList.List.MoveAfter: requires `Tracked` of both elements, for the same reason as `RemoveElement`.
- LinkedList.List.MoveBefore: requires `Tracked` of both elements, for the same reason as `RemoveElement`.
- LinkedList.List.MoveToBack: requires `Tracked(e)`, for the same reason as `RemoveElement`.
- LinkedList.List.MoveToFront: requires `Tracked(e)`, for the same reason as `RemoveElement`.
- LinkedList.List.MoveToFrontCorrected: requires `Tracked(e)`, for the same reason as `RemoveElement`.
- LinkedList.List.Swap: requires `Tracked` of both elements, for the same reason as `RemoveElement`.
- LinkedList.List.RemoveFrom: requires `Tracked(e)`, for the same reason as `RemoveElement`.
- LinkedList.List.Contains: answers the membership question only for a tracked element; for the elements `RemoveAll` leaves behind it returns true, as Go does, and that case is stated by `RemoveAll`.
- LinkedList.List.Detach: keeps the removed element's `value`, where Go's `clear` (list/list.go:25-27) sets it to nil; a generic `T` has no nil. Its links and parent are cleared as in Go.
- LinkedList.List.PushBackList: requires `other != this` unless this list is empty; on a non-empty list pushed onto itself Go walks the list it is growing and never stops.
- LinkedList.List.PushFrontList: requires `other != this` unless this list is empty, for the same reason as `PushBackList`.
- `Equals` and `EqualsByComparator` of the list, the stack and the queue take a non-null `other`; Go dereferences it and panics on nil.
- The `Element` accessors `Next`, `Prev`, `Value` and `Set` (list/list.go:29-59) are reads and writes of the element's fields, not separate members.
- The nodes' `clear` in `stack`, `queue` and `hashmap` only drops references for the garbage collector; nothing observable depends on it.
- Go's `==` on `interface{}` values is Dafny equality on `T`; the panic on incomparable dynamic types is not modelled.
- `fmt`'s `%v` is a caller-supplied `show` function; `Do` procedures are returned as call traces rather than run.
- The comparator of `sortedset` is a pure function assumed to be a total preorder (`IsComparator`); Go trusts its caller with that.
- The recursive tree updates of `sortedset` work on node values: nodes are never shared in Go, so no aliasing is lost.
- SortedSet.SortedSet.Remove: uses the corrected removal `SortedSetRemove.Remove`, not the Go removal as written (see "## Findings").
- SortedSetRemove.RemoveAsWritten: its own contract states only the empty case and non-negative heights; what it does is stated by `RemoveAsWrittenAbsent`, `RemoveAsWrittenAgrees`, `RemoveAsWrittenOneChild` and `RemoveAsWrittenErased`.
- A key's `Hash` is a function `hash: K -> nat` fixed per map and a key's `Equals` is `==`; negative hash codes, on which Go indexes out of range, are not modelled.
- The `float64` load factor is an exact `real`; rounding is not modelled.
- HashMaps.HashMap.Push: requires `cap > 0` for a non-nil key; after `RemoveAll` Go divides by a zero capacity and panics.
- HashMaps.HashMap.Remove: requires `cap > 0` for a non-nil key, for the same reason as `Push`.
- HashMaps.HashMap.Search: does not say which key is returned when several keys hold the value; Go returns the first in bucket order.
- HashMaps.HashMap.SearchByComparator: does not say which key is returned when several match, as for `Search`.
- HashMaps.HashMap.Clone: states only that the capacity is at least the initial one; the exact capacity depends on the rehashes during the copy.
- HashMaps.NewByMap: states only that the capacity is at least the initial one; Go ranges over the map in an unspecified order, so the model picks keys in an unspecified order.
- The hash chains are sequences of entries rather than linked nodes; the nodes never leave the map, so no aliasing is lost.
- `iterator.go`, `hashable.go` and `collection.go` hold interfaces only and are not part of this model; neither are the time-complexity claims.

## Findings

| source | as written | input that shows it | evidently intended | confidence | as-written member | corrected member |
|---|---|---|---|---|---|---|
| sortedset/sortedset.go:313-316 | removing a node with one child copies the child's value into the node but leaves the cleared child attached | push 1, push 2, remove 1: the in-order values become 2, nil, `Len` is 1 and `Max` returns nil | the node is replaced by its only child | not executed | SortedSetFinding.RemoveOneChildAsWritten | SortedSetFinding.RemoveOneChildCorrected |
| list/list.go:249-251 | `MoveToFront` moves the element after the front element | list a, b, c and `MoveToFront(c)` gives a, c, b | c, a, b | not executed | LinkedList.List.MoveToFront | LinkedList.List.MoveToFrontCorrected |
| list/list.go:381-383 | `RemoveAll` resets the list but leaves each old element's `parent` pointing at it | push a then `RemoveAll`: `Contains` of a's element is still true | `Contains` is false for every old element | not executed | LinkedList.List.RemoveAll | LinkedList.List.RemoveAllCorrected |
