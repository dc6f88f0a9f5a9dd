# SingleLinkedList in Dafny

This project models `SingleLinkedList<Type>`, a generic singly-linked list in a C++ header. The model has three modules:

- **`LinkedList`** (`single_linked_list.dfy`): the container itself, modelled as imperative Dafny.
  - A `Node` class holds a `value` and a `next` link.
  - A `SingleLinkedList` class holds the sentinel node `head` (the C++ `head_`) and the counter `size` (the C++ `size_`). Three ghost fields give the abstract view:
    - `contents`: the elements, in order;
    - `nodes`: the real nodes, in chain order;
    - `Repr`: the set of nodes the list owns.
  - `Valid()` is the object invariant. It says that the `next` links starting at the sentinel visit exactly `nodes`, carrying `contents`, and end in null. It also says that no node repeats and that `size == |contents|`.
  - Iterators are `Node?` references. The sentinel is `before_begin()` and `null` is `end()`. `IsPosition(it, i)` gives each iterator its index, from -1 to |contents|.
  - `Valid()` also ties `Repr` to the chain: `Repr` holds exactly the nodes in `nodes`.
  - Every mutator except `Store` relinks `next` fields and updates `size` in place, as the C++ code does. Its frame allows no other node field to change. Each one states its new `contents` and `size`. It also states which nodes the chain keeps, gains or loses: exactly for the mutators that relink, and as "all new and disjoint from the source" for the constructors and assignment, which build a fresh chain. The mutators are:
    - `PushFront`, `PopFront`, `Clear`;
    - `InsertAfter`, `EraseAfter`;
    - `swap`, copy assignment;
    - the initializer-list and copy constructors, with the tail-walking `CopiringElement`;
    - `*it = v` through a mutable iterator (`Store`), which writes one node's `value` and no link.
- **`Comparison`** (`comparison.dfy`): the six free comparison operators, as pure functions over the element sequences the lists iterate.
  - `==` and `!=` call the three-argument `std::equal`.
  - The ordering operators call `std::lexicographical_compare`. That call is proved equivalent to the textbook lexicographic order, and the order is proved to be a strict total order.
- **`ListProperties`** (`list_properties.dfy`): properties that span several operations:
  - `EraseAfter` undoes `InsertAfter`;
  - swapping twice restores both lists;
  - a copy and its original are independent;
  - the scenario build {1, 2, 3}, push 0, pop twice, clear.

## Model

| member | source | states |
|---|---|---|
| LinkedList.Node.Sentinel | single-linked-list/single-linked-list.h:11 | the default node, used as the sentinel `head_`, has a null link (the member default at line 17) |
| LinkedList.Node.constructor | single-linked-list/single-linked-list.h:12-15 | a node holds the given value and link |
| LinkedList.SingleLinkedList.constructor | single-linked-list/single-linked-list.h:44 | a new list is valid and empty, with size 0 and a fresh sentinel |
| LinkedList.SingleLinkedList.FromValues | single-linked-list/single-linked-list.h:213-216 | the list holds exactly `values` in the given order (not reversed); size is their number; all nodes are new |
| LinkedList.SingleLinkedList.Copy | single-linked-list/single-linked-list.h:218-222 | the copy holds the source's elements in the same order with the same size; it shares no node and no sentinel with the source |
| LinkedList.SingleLinkedList.FindLast | single-linked-list/single-linked-list.h:29-32 | following `next` from the first node stops at the last node of the chain |
| LinkedList.SingleLinkedList.AppendBack | single-linked-list/single-linked-list.h:25-34 | one CopiringElement step appends `v`; the existing nodes stay in place; the new node is fresh and the only one added |
| LinkedList.SingleLinkedList.CopiringElement | single-linked-list/single-linked-list.h:22-37 | the elements become the old ones followed by `values` in order; the old nodes are kept; every added node is fresh |
| LinkedList.SingleLinkedList.CopiringElementFrom | single-linked-list/single-linked-list.h:22-37 | iterating `other` from begin() to end() appends `other`'s elements in order; the two lists stay disjoint |
| LinkedList.SingleLinkedList.GetSize | single-linked-list/single-linked-list.h:46 | the size is the number of elements |
| LinkedList.SingleLinkedList.IsEmpty | single-linked-list/single-linked-list.h:224-227 | true exactly when there are no elements |
| LinkedList.SingleLinkedList.PushFront | single-linked-list/single-linked-list.h:229-233 | the elements become `[value] + old`; size grows by 1; every existing node stays, in order, behind the one new node |
| LinkedList.SingleLinkedList.PopFront | single-linked-list/single-linked-list.h:246-253 | on a non-empty list, the first element and its node are removed; size drops by 1 |
| LinkedList.SingleLinkedList.Clear | single-linked-list/single-linked-list.h:235-244 | the loop driven by `size` ends with no elements, no nodes, an empty `Repr`, size 0 and a null sentinel link; on an empty list the sentinel link stays as it was |
| LinkedList.SingleLinkedList.Swap | single-linked-list/single-linked-list.h:255-259 | the two lists exchange elements, sizes, nodes and ownership; both stay valid; a self-swap changes nothing |
| LinkedList.SwapLists | single-linked-list/single-linked-list.h:261-264 | the free swap exchanges the elements, sizes, nodes and ownership of its two arguments, exactly as the member swap does |
| LinkedList.SingleLinkedList.Assign | single-linked-list/single-linked-list.h:64-70 | the target gets `rhs`'s elements and size; `rhs` is unchanged; self-assignment keeps the very same nodes; otherwise the target's chain is new and disjoint from `rhs` |
| LinkedList.SingleLinkedList.BeforeBegin | single-linked-list/single-linked-list.h:169-171 | before_begin() is the non-null position -1 (the sentinel) |
| LinkedList.SingleLinkedList.Begin | single-linked-list/single-linked-list.h:145-147 | begin() is position 0, and equals end() exactly when the list is empty |
| LinkedList.SingleLinkedList.End | single-linked-list/single-linked-list.h:149-151 | end() is position \|contents\| |
| LinkedList.SingleLinkedList.Advance | single-linked-list/single-linked-list.h:111-115 | `++` moves a non-end iterator from position i to position i + 1 |
| LinkedList.SingleLinkedList.Deref | single-linked-list/single-linked-list.h:124-126 | `*it` at position i is the i-th element |
| LinkedList.SingleLinkedList.Store | single-linked-list/single-linked-list.h:124-126 | `*it = v` through the mutable iterator's reference replaces the element at its position with `v` and no other; nodes, ownership and size are unchanged |
| LinkedList.SingleLinkedList.SamePosition | single-linked-list/single-linked-list.h:95-109 | two iterators compare equal exactly when they stand at the same position |
| LinkedList.SingleLinkedList.InsertAfter | single-linked-list/single-linked-list.h:181-193 | at before_begin() it acts exactly like PushFront; after the node at index i, `value` lands at index i + 1 of both elements and nodes; size grows by 1; the result is the new node, which now follows `pos` |
| LinkedList.SingleLinkedList.LinkAfter | single-linked-list/single-linked-list.h:188-191 | splicing a new node after node i inserts `value` at index i + 1 and keeps every other node and link |
| LinkedList.SingleLinkedList.EraseAfter | single-linked-list/single-linked-list.h:195-209 | at before_begin() it acts exactly like PopFront; after the node at index i, index i + 1 is removed from both elements and nodes; size drops by 1; the removed node leaves the list; the result is the new successor of `pos`, at the position after it |
| LinkedList.SingleLinkedList.UnlinkAfter | single-linked-list/single-linked-list.h:203-207 | unlinking after node i removes index i + 1 and returns the iterator at that position (possibly end()) |
| Comparison.Equal | single-linked-list/single-linked-list.h:266-269 | as written, `==` is true exactly when `lhs` equals the first \|lhs\| elements of `rhs` (defined only when `rhs` is at least as long) |
| Comparison.NotEqual | single-linked-list/single-linked-list.h:271-274 | as written, `!=` is the negation of that prefix test |
| Comparison.EqualAcceptsProperPrefix | single-linked-list/single-linked-list.h:266-269 | as written, `==` holds, and `!=` fails, for any proper prefix of `rhs` |
| Comparison.PrefixComparesEqual | single-linked-list/single-linked-list.h:266-269 | {1, 2} == {1, 2, 3} holds as written |
| Comparison.ListEqual | single-linked-list/single-linked-list.h:266-269 | the intended `==`: true exactly when both lists hold the same elements in the same order |
| Comparison.ListNotEqual | single-linked-list/single-linked-list.h:271-274 | the intended `!=`: true exactly when the element sequences differ |
| Comparison.Less | single-linked-list/single-linked-list.h:276-280 | std::lexicographical_compare is false against an empty `rhs`; from an empty `lhs` it is true exactly when `rhs` is non-empty |
| Comparison.LessIsLexicographic | single-linked-list/single-linked-list.h:276-280 | std::lexicographical_compare holds exactly when `lhs` is a proper prefix of `rhs`, or when the first differing element is smaller in `lhs` |
| Comparison.LessIrreflexive | single-linked-list/single-linked-list.h:276-280 | no list is less than itself |
| Comparison.LessAsymmetric | single-linked-list/single-linked-list.h:276-280 | `lhs < rhs` excludes `rhs < lhs` |
| Comparison.LessTransitive | single-linked-list/single-linked-list.h:276-280 | `<` is transitive |
| Comparison.LessTotal | single-linked-list/single-linked-list.h:276-280 | any two lists are equal or ordered one way or the other |
| Comparison.ListLess | single-linked-list/single-linked-list.h:276-280 | `<` is the lexicographic order |
| Comparison.ListLessOrEqual | single-linked-list/single-linked-list.h:282-286 | `<=`, written `!(rhs < lhs)`, is true exactly when `lhs < rhs` or the lists are equal |
| Comparison.ListGreater | single-linked-list/single-linked-list.h:288-292 | `>` holds exactly when `rhs` comes lexicographically before `lhs` |
| Comparison.ListGreaterOrEqual | single-linked-list/single-linked-list.h:294-298 | `>=`, written `!(lhs < rhs)`, is true exactly when `rhs < lhs` or the lists are equal |
| Comparison.EqualityAgreesWithOrder | single-linked-list/single-linked-list.h:266-298 | the intended `==` holds exactly when both `<=` and `>=` hold |
| Comparison.PrefixComesFirst | single-linked-list/single-linked-list.h:276-280 | {1, 2} < {1, 2, 3}, and not {1, 2} >= {1, 2, 3} |
| ListProperties.RemoveInsert | single-linked-list/single-linked-list.h:181-209 | removing the element just inserted at index k gives back the original sequence |
| ListProperties.InsertThenErase | single-linked-list/single-linked-list.h:181-209 | EraseAfter(pos) after InsertAfter(pos, v) restores the elements, nodes, ownership and size, for any valid `pos` |
| ListProperties.InsertThenEraseAtFront | single-linked-list/single-linked-list.h:181-209 | the same round trip from before_begin() |
| ListProperties.InsertThenEraseAfterNode | single-linked-list/single-linked-list.h:181-209 | the same round trip from a real node |
| ListProperties.SwapTwice | single-linked-list/single-linked-list.h:255-259 | swapping twice restores both lists' elements, sizes and nodes |
| ListProperties.SwapListsTwice | single-linked-list/single-linked-list.h:261-264 | the free swap applied twice restores both lists' elements, sizes and nodes, and leaves them disjoint for further use |
| ListProperties.StoreThenRead | single-linked-list/single-linked-list.h:124-126 | after `*it = v`, reading `*it` gives `v` and every other element is unchanged |
| ListProperties.PushOntoCopy | single-linked-list/single-linked-list.h:218-233 | pushing onto a copy leaves the original's elements as they were |
| ListProperties.PushOntoOriginal | single-linked-list/single-linked-list.h:218-233 | pushing onto the original leaves an earlier copy's elements as they were |
| ListProperties.Scenario | single-linked-list/single-linked-list.h:213-253 | building {1, 2, 3} then push 0, pop, pop, clear gives sizes 3, 4, 2, 0 and first elements 1, 0, 2, and ends empty |

## Left out

- Deallocation (`delete`) and the destructor, which calls `Clear` (single-linked-list/single-linked-list.h:52-54). Dafny has no explicit free. A removed node is unlinked and leaves `Repr`, so "exactly N deallocations" is not stated.
- Allocation failure, and the strong exception guarantee of copy-and-swap. Dafny has no exceptions, and `new` cannot fail.
- `size_t` width. `size` is an unbounded `nat`, so overflow of the counter is not modelled.
- The iterator trait typedefs, `operator->` and the `const_cast`s. Iterators are plain `Node?` references: reading through any iterator is `Deref`, and writing through a mutable `Iterator` is `Store`. `ConstIterator` is not a separate type, so the model does not stop a `ConstIterator` from being passed to `Store`. `cbegin`, `cend` and `cbefore_begin` are the same functions as `begin`, `end` and `before_begin`.
- Postfix `++` is the same step as prefix `++` (`Advance`). Its returning of the old position is not modelled separately.
- The asserts in the source become preconditions, and undefined behaviour is excluded the same way:
  - `PopFront` requires a non-empty list.
  - `EraseAfter` requires a non-empty list.
  - `InsertAfter` and `EraseAfter` require a non-null position of this list.
  - `Advance` requires a non-end position.
  - `Deref` requires a position at a real node.
- EraseAfter: additionally requires `pos.next != null`. Outside the sentinel branch, the source dereferences the successor without a check. Erasing after the last node is therefore undefined behaviour and is not modelled.
- Disjointness of two lists' sentinels and nodes is a precondition of `Swap`, `SwapLists`, `Assign` and `CopiringElementFrom` whenever the two lists are different objects. In C++, single ownership of nodes guarantees this.
- The quadratic cost of `CopiringElement`, which walks to the tail for every element. Only its result is modelled.
- The ordering operators are modelled for `int` elements, which stand in for the element type's `operator<`. Equality is generic.
- The comparison operators are functions of the two element sequences (`contents`), not of the list objects.
- Concurrency. The container has none.

## Findings

| source | as written | input that shows it | evidently intended | confidence | as-written member | corrected member |
|---|---|---|---|---|---|---|
| single-linked-list/single-linked-list.h:266-274 | `==` and `!=` call three-argument `std::equal(lhs.begin(), lhs.end(), rhs.begin())`, which compares only the first \|lhs\| elements of `rhs` and never compares lengths (and is undefined when `rhs` is shorter) | lhs = {1, 2}, rhs = {1, 2, 3}: `==` yields true and `!=` yields false | equal lengths and equal elements in order, e.g. the four-argument `std::equal` or a size check first | high; not executed | Comparison.PrefixComparesEqual | Comparison.ListEqual |
