# List-Java list containers in Dafny

The repository has two generic list containers. Both implement the same
`MyList` operations: `add`, indexed `add`, `get`, `remove` by index or by
value, `contains`, `sort`, `size`, `clean` and `toArray`.

- `MyArrayList` keeps its elements in a backing `Object[]`. It also has a
  `size` counter and a separate `capacity` field that starts at 10. It grows
  by doubling `capacity` and copying the old store into a new array.
- `MyLinkedList` is a doubly linked chain of `Node`s with `head`, `tail` and
  a `size` counter.

This project models both classes as Dafny classes whose methods update their
fields in place. Every method is specified against a ghost sequence
`Contents` of the elements. A `Valid()` predicate ties that sequence to the
concrete state:

- in `MyArrayList`, the first `size` slots of the store hold `Contents` and
  every later slot is `null`;
- in `MyLinkedList`, a ghost sequence `Nodes` lists the chain from `head` to
  `tail`, with `next` and `prev` links that agree and nodes that hold
  `Contents` in order.

The shared meaning of the operations on sequences is in `ListSpec.dfy`:
insertion at a position, removal at a position, and first-match search. Each
comes with lemmas that relate the operations to one another: round trips,
multiset bookkeeping, and "exactly the first occurrence". The comparator that
`sort` takes is a pure function `(T, T) -> int`, and `Ordering.dfy` defines
sortedness for it.

Java's `null` is `Option.None`. Every exception an operation can throw is a
`Failure`/`Fail` result carrying a `ListError`:

- `IndexOutOfBounds` for the explicit index checks;
- `ArrayIndexOutOfBounds` for the JVM's array bounds checks, including the
  one inside `System.arraycopy`;
- `IllegalArgument` for a non-positive initial capacity.

The quirks of the code are modelled as written, not corrected:

- The sized constructor `MyArrayList(n)` never updates `capacity`. Its store
  has length `n`, but `capacity` stays 10. `resize` therefore builds a store
  of length `2 * capacity`. The copy of `data.length` slots throws when the
  old store is longer than that, and by then `capacity` has already been
  doubled. When the two lengths are equal (`data.length == 2 * capacity`, as
  for `n == 20`, or for `n == 40` after one failed copy), the copy succeeds but
  the grown store is still full. Indexed `add` then throws on its first
  write. Plain `add` evaluates `size++` before the bounds check of
  `data[size++] = elm`, so it throws with `size` already one past the store's
  length. `MyArrayList.Add` states that the invariant is broken in that case.
- `MyArrayList.get` accepts `idx == size`. It returns the `null` slot after
  the last element, or throws `ArrayIndexOutOfBoundsException` when the store
  is full.
- `MyArrayList.toArray` returns the backing array itself, `null` slots
  included, not a copy.
- `MyLinkedList.clean` is documented as leaving the list empty. The code
  drops `head` and clears `head.next`, but it leaves `size` and `tail`
  unchanged. `MyLinkedList.Clean` sets the ghost `Nodes` and `Contents` to
  empty, as documented, and proves that `Valid()` then holds exactly when
  the list was already empty.

## Model

Source paths are relative to the repository root.

| member | source | states |
|---|---|---|
| ListSpec.InsertedAt | List/src/main/java/com/fersko/collections/list/MyList.java:5-27 | `add(i, x)` on a sequence: one longer, `x` at position `i`, elements before `i` in place, elements from `i` on one place later |
| ListSpec.RemovedAt | List/src/main/java/com/fersko/collections/list/MyList.java:5-27 | `remove(i)` on a sequence: one shorter, elements before `i` in place, elements after `i` one place earlier |
| ListSpec.FirstIndexOf | List/src/main/java/com/fersko/collections/list/MyArrayList.java:139-143 | the first-match search: no result exactly when `x` does not occur; otherwise an in-range position holding `x` with no `x` before it |
| ListSpec.RemovedAtInsertedAt | List/src/main/java/com/fersko/collections/list/MyList.java:5-27 | inserting at `i` and then removing at `i` gives back the original sequence |
| ListSpec.InsertedAtRemovedAt | List/src/main/java/com/fersko/collections/list/MyList.java:5-27 | removing at `i` and re-inserting the removed element at `i` gives back the original sequence |
| ListSpec.AppendIsInsertAtEnd | List/src/main/java/com/fersko/collections/list/MyLinkedList.java:114-115 | `add(elm)` is `add(size, elm)`: insertion at the end is appending |
| ListSpec.InsertedAtMultiset | List/src/main/java/com/fersko/collections/list/MyList.java:5-27 | insertion adds exactly one occurrence of the new element and keeps all others |
| ListSpec.RemovedAtMultiset | List/src/main/java/com/fersko/collections/list/MyList.java:5-27 | removal at `i` takes away exactly one occurrence of the element at `i` |
| ListSpec.RemovedFirstSpec | List/src/main/java/com/fersko/collections/list/MyArrayList.java:102-109 | `remove(x)` leaves the sequence unchanged when `x` is absent; otherwise it is one shorter with one `x` fewer, and every position before the first `x` keeps its element |
| ListSpec.SwappedMultiset | List/src/main/java/com/fersko/collections/list/MyArrayList.java:125-127 | exchanging two elements through a temporary keeps the multiset of elements |
| Ordering.SortedIsPairwise | List/src/main/java/com/fersko/collections/list/MyArrayList.java:120-132 | for a total, transitive comparator, ordered adjacent pairs order every pair |
| Ordering.TotalPreorderOnPermutation | List/src/main/java/com/fersko/collections/list/MyLinkedList.java:263-275 | a permutation of elements the comparator totally preorders is totally preordered too, so the comparator's property survives the swaps of `sort` |
| ArrayList.MyArrayList.constructor | List/src/main/java/com/fersko/collections/list/MyArrayList.java:12-17 | an empty list over a fresh all-`null` store of length 10 with `capacity` 10 |
| ArrayList.MyArrayList.Sized | List/src/main/java/com/fersko/collections/list/MyArrayList.java:19-24 | an empty list over a fresh store of the requested positive length; `capacity` stays 10 |
| ArrayList.NewWithCapacity | List/src/main/java/com/fersko/collections/list/MyArrayList.java:19-24 | `MyArrayList(n)` throws `IllegalArgumentException` exactly when `n <= 0`; otherwise an empty valid list whose store has length `n` and whose `capacity` is 10 |
| ArrayList.MyArrayList.Resize | List/src/main/java/com/fersko/collections/list/MyArrayList.java:27-32 | `capacity` doubles in every case; the copy succeeds exactly when the old store fits in `2 * capacity` slots; on success a fresh store of that length keeps every old slot at its position; on failure the old store stays |
| ArrayList.MyArrayList.AddAt | List/src/main/java/com/fersko/collections/list/MyArrayList.java:35-47 | throws `IndexOutOfBounds` with no change outside `[0, size]`; succeeds exactly when the index is in range and the store is not full or grows to a longer one, and then inserts `elm` at `idx`; otherwise throws `ArrayIndexOutOfBounds` with the elements unchanged; `capacity` doubles exactly when the store was full; a full store is replaced by a fresh one of length `2 * capacity` when the copy succeeds, and kept when it fails |
| ArrayList.MyArrayList.Add | List/src/main/java/com/fersko/collections/list/MyArrayList.java:50-55 | appends `elm` exactly when the store is not full or grows to a longer one; a successful growth replaces the store by a fresh one of length `2 * capacity`; a failed copy leaves a valid list with the old store; a grown store of the same length leaves `size` one past its end and `Valid()` false |
| ArrayList.MyArrayList.Get | List/src/main/java/com/fersko/collections/list/MyArrayList.java:60-65 | throws outside `[0, size]`; returns the element at `idx < size`; at `idx == size` returns the `null` slot, or throws `ArrayIndexOutOfBounds` when the store is full |
| ArrayList.MyArrayList.Clean | List/src/main/java/com/fersko/collections/list/MyArrayList.java:69-72 | no elements, over a fresh all-`null` store whose length is the `capacity` field |
| ArrayList.MyArrayList.RemoveAt | List/src/main/java/com/fersko/collections/list/MyArrayList.java:76-84 | throws with no change outside `[0, size)`; otherwise returns the old element at `idx`, removes it, and clears the old last slot |
| ArrayList.MyArrayList.Remove | List/src/main/java/com/fersko/collections/list/MyArrayList.java:102-109 | returns whether `elm` occurred, and the elements become the old ones with the first `elm` deleted |
| ArrayList.MyArrayList.DelElm | List/src/main/java/com/fersko/collections/list/MyArrayList.java:111-116 | the later elements shift one slot left in the same store, the old last slot becomes `null`, and the element at the index is gone |
| ArrayList.MyArrayList.Sort | List/src/main/java/com/fersko/collections/list/MyArrayList.java:120-132 | for a comparator that totally preorders the elements: the result is a permutation of the old elements with every adjacent pair in order, in the same store, with the same `size` and `null` tail |
| ArrayList.MyArrayList.BubblePass | List/src/main/java/com/fersko/collections/list/MyArrayList.java:123-129 | one pass over every adjacent pair keeps the permutation and settles one more slot at the end: every element from position `size - 1 - i` on is ordered after every element before it |
| ArrayList.MyArrayList.SwapNext | List/src/main/java/com/fersko/collections/list/MyArrayList.java:125-127 | the swap of slots `j` and `j + 1` exchanges those two elements and keeps the invariant |
| ArrayList.SwapStep | List/src/main/java/com/fersko/collections/list/MyArrayList.java:123-129 | a swapping step of a bubble pass keeps the settled suffix, carries the larger element one place on, and keeps the permutation |
| ArrayList.KeepStep | List/src/main/java/com/fersko/collections/list/MyArrayList.java:123-129 | a non-swapping step of a bubble pass carries the larger element one place on, and settles the suffix at the end of the pass |
| ArrayList.MyArrayList.Size | List/src/main/java/com/fersko/collections/list/MyArrayList.java:135-137 | the number of elements |
| ArrayList.MyArrayList.FindElm | List/src/main/java/com/fersko/collections/list/MyArrayList.java:139-143 | the position of the first element equal to `elm`, or none when there is no such element |
| ArrayList.MyArrayList.Contains | List/src/main/java/com/fersko/collections/list/MyArrayList.java:146-148 | true exactly when `elm` is one of the elements |
| ArrayList.MyArrayList.ToArray | List/src/main/java/com/fersko/collections/list/MyArrayList.java:152-154 | the backing store itself: the elements, then `null` up to its full length |
| LinkedList.Node.constructor | List/src/main/java/com/fersko/collections/list/MyLinkedList.java:36-40 | a node holding `elm` with no neighbours |
| LinkedList.MyLinkedList.constructor | List/src/main/java/com/fersko/collections/list/MyLinkedList.java:17-19 | an empty chain: no head, no tail, no elements |
| LinkedList.MyLinkedList.GetNodeAtIndex | List/src/main/java/com/fersko/collections/list/MyLinkedList.java:50-61 | throws outside `[0, size)`; otherwise the node at position `index` of the chain |
| LinkedList.MyLinkedList.Delete | List/src/main/java/com/fersko/collections/list/MyLinkedList.java:68-84 | unlinking the node at position `k` removes exactly that node and its element from the chain and keeps the invariant |
| LinkedList.MyLinkedList.FindNode | List/src/main/java/com/fersko/collections/list/MyLinkedList.java:92-99 | the first node from `head` that holds `elm`, or none when no node does |
| LinkedList.MyLinkedList.AddAt | List/src/main/java/com/fersko/collections/list/MyLinkedList.java:109-141 | throws with no change outside `[0, size]`; otherwise inserts `elm` at `idx` by a fresh node placed at position `idx`, other nodes keeping their order; `tail` changes only when inserting at the end |
| LinkedList.MyLinkedList.LinkFirst | List/src/main/java/com/fersko/collections/list/MyLinkedList.java:119-124 | the new node becomes the first of the chain and its element the first element; `tail` stays |
| LinkedList.MyLinkedList.LinkAfter | List/src/main/java/com/fersko/collections/list/MyLinkedList.java:126-136 | the new node is spliced in after position `k`; the `tail` assignment is unreachable because that node has a successor |
| LinkedList.MyLinkedList.Add | List/src/main/java/com/fersko/collections/list/MyLinkedList.java:183-194 | appends `elm` in a fresh node that becomes `tail`, keeping the invariant |
| LinkedList.MyLinkedList.Get | List/src/main/java/com/fersko/collections/list/MyLinkedList.java:204-209 | throws outside `[0, size)`; otherwise the element at `idx` |
| LinkedList.MyLinkedList.Clean | List/src/main/java/com/fersko/collections/list/MyLinkedList.java:211-222 | `head` becomes null and the old head loses its successor, but `size` and `tail` stay; the list is then valid exactly when it was already empty |
| LinkedList.MyLinkedList.RemoveAt | List/src/main/java/com/fersko/collections/list/MyLinkedList.java:232-239 | throws with no change outside `[0, size)`; otherwise returns the old element at `idx` and removes its node |
| LinkedList.MyLinkedList.Remove | List/src/main/java/com/fersko/collections/list/MyLinkedList.java:248-255 | returns whether `elm` occurred; the elements become the old ones with the first `elm` deleted; nothing changes when it did not occur |
| LinkedList.MyLinkedList.Sort | List/src/main/java/com/fersko/collections/list/MyLinkedList.java:263-275 | for a comparator that totally preorders the elements: only `data` fields change, the chain, `head`, `tail` and `size` stay, and the elements become a sorted permutation of the old ones |
| LinkedList.MyLinkedList.ExchangePass | List/src/main/java/com/fersko/collections/list/MyLinkedList.java:266-272 | the inner loop for node `i` at position `a` keeps the permutation and settles position `a`: its element is ordered before every later one |
| LinkedList.MyLinkedList.OrderPair | List/src/main/java/com/fersko/collections/list/MyLinkedList.java:267-271 | comparing nodes `i` and `j` and exchanging their elements when out of order keeps the permutation and extends the minimum at position `a` over position `b` |
| LinkedList.MyLinkedList.SwapData | List/src/main/java/com/fersko/collections/list/MyLinkedList.java:268-270 | exchanging two nodes' elements exchanges the two positions of the element sequence and keeps the invariant |
| LinkedList.ExchangeStep | List/src/main/java/com/fersko/collections/list/MyLinkedList.java:266-272 | a swapping step of the inner loop keeps the settled prefix, extends the minimum at position `a` one place, and keeps the permutation |
| LinkedList.SettleNext | List/src/main/java/com/fersko/collections/list/MyLinkedList.java:265-273 | once the element at `a` is ordered before every later one, positions up to `a` are settled |
| LinkedList.KeepOrderStep | List/src/main/java/com/fersko/collections/list/MyLinkedList.java:266-272 | a non-swapping step of the inner loop extends the minimum at position `a` one place |
| LinkedList.MyLinkedList.Size | List/src/main/java/com/fersko/collections/list/MyLinkedList.java:283-285 | the number of elements |
| LinkedList.MyLinkedList.Contains | List/src/main/java/com/fersko/collections/list/MyLinkedList.java:294-296 | true exactly when `elm` is one of the elements |
| LinkedList.MyLinkedList.ToArray | List/src/main/java/com/fersko/collections/list/MyLinkedList.java:305-312 | a fresh array of length `size` holding the elements from `head` to `tail` |

## Left out

- `equals`, `hashCode` and `toString` of both classes are not modelled. They
  compare nodes by identity, or the `capacity` field and the raw store, and
  format with `Arrays.toString`, so they have no list-level meaning.
- `List.java` is not part of this model. It is an interface with no
  implementation. `MyList.java` only declares the signatures that both
  classes implement.
- Java `int` overflow is not modelled: `capacity *= 2`, `size` and indices
  are unbounded integers.
- Null elements are not modelled. Elements are non-null values of `T`, and
  equality is Dafny's `==` in place of `equals`. The `NullPointerException`
  that `equals` would throw on a null element does not arise.
- The `Comparator` is a pure function `(T, T) -> int`. An exception it
  throws, or a side effect it has, is not modelled.
- ArrayList.MyArrayList.Sort: proves sortedness only for a comparator that
  totally preorders the elements (total and transitive). A Java `Comparator`
  that breaks its own contract can leave the array unsorted, and the model
  says nothing about that case.
- LinkedList.MyLinkedList.Sort: the same restriction to a comparator that
  totally preorders the elements.
- The `IntStream` ranges in `delElm` and `findElm` are modelled as `for`
  loops over the same index ranges.
- `MyLinkedList.toArray` returns a `T[]` created as `new Object[size]`. It is
  modelled as an array of `Option<T>` filled with `Some` values.
- Some parts of a source method are separate methods here:
  - the two branches of `MyLinkedList.add(idx, elm)` that link a new node in
    (`LinkFirst`, `LinkAfter`), each with the `size++` that follows them;
  - the inner loops of both `sort` methods (`BubblePass`, `ExchangePass`);
  - the compare-and-exchange of `MyLinkedList.sort` (`OrderPair`);
  - the three-assignment swaps of both `sort` methods (`SwapNext`,
    `SwapData`).
  Their bodies are the source's statements, with one exception. In
  `LinkAfter`, the source's `else { tail = newNode; }` branch is replaced by
  `assert false`, because the node after which the new one is linked always
  has a successor there.
- The JUnit tests and `UtilsListForTest.java` are not modelled. Their
  expected results are instances of the contracts above.
