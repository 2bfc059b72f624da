# Ring-shaped singly linked list

This project models the generic singly linked list `ua.procamp.LinkedList<T>`.
The list is built from `Node<T>` link cells, each holding `data` and `next`. The
list keeps a head reference `root` and a counter `listSize`. The chain is meant
to be a closed ring: the last node's `next` is the head, not null. The list
offers indexed `add`, `set`, `get` and `remove`, plus `contains`, `isEmpty`,
`size`, `clear` and the variadic factory `of`.

The Dafny model (module `Lists`, file `linked_list.dfy`) keeps the source's
form:

- `Node<T>` is a class with mutable `data` and `next: Node?<T>`.
- `LinkedList<T>` is a class with the fields `root` and `listSize`. It also has
  two ghost fields:
  - `spine`: the nodes at logical positions 0 .. listSize-1;
  - `Repr`: every node the list owns, including nodes a removal detached.
- `Valid()` is the invariant every operation keeps:
  - the spine has no repeated node;
  - the spine starts at `root`, and each spine node links to the next one;
  - a null `root` means size 0;
  - every owned node has a non-null `next` that is also owned.
- `Elements()` is the abstract contents: the `data` of the spine nodes.
- `RingClosed()` is the ring property: the last logical node points back at
  `root`. At size 0 it asks for no head, or a head that points at itself.
- `Walk(r, n, k)` is the node reached from `n` after `k` successor links, the
  value `Stream.iterate(n, next).skip(k)` yields. On a non-empty list the ring
  is closed exactly when `Walk` over `size` links returns to the head.

Each operation is a method that updates nodes and fields in place. Its
postcondition gives the new `Elements()` in terms of the old one. It also says
exactly when the ring survives. The ring survives:

- `add(0, x)` on a list with no head;
- every `add` at an index above 0, so every append to a list of one or more
  elements;
- `set`;
- `remove(i)` for 0 < i < size;
- `remove(0)` or `remove(1)` on a closed one-node ring, which leaves the head
  pointing at itself at size 0;
- `clear`.

The ring breaks:

- `add(0, x)` on a list with a head leaves the old last node pointing at the old
  head; at size 0 this includes the append `add(x)` after the only element was
  removed;
- `remove(0)` on a list of two or more elements does not repair the last node's
  link;
- `remove(size)` on a list of two or more elements leaves the new last node
  pointing at a node past the logical end.

The source's `IndexOutOfBoundsException` is an explicit outcome: `ok == false`
for the void operations, or `Outcome.IndexOutOfBounds` for `get`. In both cases
the state is unchanged.

Module `ListScenarios` (file `scenarios.dfy`) drives the list through its public
operations. It states what a caller observes in a few concrete scenarios. For
example, `remove(0)` on a one-element list leaves size 0 while `isEmpty()`
answers false, and a one-element list reports `contains(x) == false` for its own
element.

The model follows the code where a ring list would be expected to behave
otherwise:

- `isEmpty` tests `root == null`, not `size == 0`.
- Only some `add` calls keep the ring closed; `add(0, x)` on a list with a head
  breaks it, even at size 0.
- On a list whose ring is closed, `contains` skips the ring-closing node, so
  the last logical element is never found. On an open ring it can examine other
  nodes; see `Lists.LinkedList.Contains` under "Left out".

## Model

| member | source | states |
|---|---|---|
| `Lists.Node.constructor` | linked-list/src/main/java/ua/procamp/LinkedList.java:149-156 | a new node holds the given element and has no successor yet |
| `Lists.LinkedList.constructor` | linked-list/src/main/java/ua/procamp/LinkedList.java:14-15 | a new list has no head, no elements, and satisfies the invariant and the ring property |
| `Lists.LinkedList.Of` | linked-list/src/main/java/ua/procamp/LinkedList.java:24-28 | appending each element in turn yields a fresh list whose contents are exactly the arguments in order, whose size is their number, and whose ring is closed |
| `Lists.LinkedList.Add` | linked-list/src/main/java/ua/procamp/LinkedList.java:36-38 | `add(x)` always appends `x` at the logical tail, raises the size by one, and keeps a closed ring of one or more elements closed; at size 0 the ring is closed afterwards exactly when there was no head |
| `Lists.LinkedList.AddAt` | linked-list/src/main/java/ua/procamp/LinkedList.java:48-60 | fails, changing nothing, exactly when index < 0 or index > size; otherwise inserts the element at `index` (old[..index] + [x] + old[index..]), raises the size by one, keeps the head when index > 0, and gives the new node a non-null successor (itself, the old head, or the predecessor's old successor); at index 0 the ring is closed afterwards exactly when there was no head; above 0 a closed ring stays closed |
| `Lists.LinkedList.LinkFirst` | linked-list/src/main/java/ua/procamp/LinkedList.java:51-53 | the new node becomes the head and points at itself when there was no head, else at the old head; the contents gain the element in front; the ring is closed afterwards exactly when there was no head |
| `Lists.LinkedList.LinkAfter` | linked-list/src/main/java/ua/procamp/LinkedList.java:54-58 | the new node takes over the successor of the node at index-1 and becomes its successor; the contents gain the element at `index`; the head is unchanged; a closed ring stays closed |
| `Lists.LinkedList.Set` | linked-list/src/main/java/ua/procamp/LinkedList.java:70-73 | fails, changing nothing, exactly when index < 0 or index >= size; otherwise only position `index` changes, to the new element; no `next` link changes and a closed ring stays closed |
| `Lists.LinkedList.Get` | linked-list/src/main/java/ua/procamp/LinkedList.java:83-87 | fails exactly when the size is 0 or the index lies outside [0, size); otherwise returns the element at that position, changing nothing |
| `Lists.LinkedList.Remove` | linked-list/src/main/java/ua/procamp/LinkedList.java:96-105 | index 0 always succeeds and moves the head to its successor; another index fails, changing nothing, exactly when it is negative or above the size, and otherwise leaves the head in place; 0 < index < size deletes that position; index == size drops the last logical element; the size drops by one on success; the ring survives or breaks exactly as listed above |
| `Lists.LinkedList.UnlinkFirst` | linked-list/src/main/java/ua/procamp/LinkedList.java:97-98 | the head's successor becomes the head and the first element goes; on a closed ring of one node the ring stays closed, on a closed ring of two or more it breaks |
| `Lists.LinkedList.UnlinkAfter` | linked-list/src/main/java/ua/procamp/LinkedList.java:100-102 | the node at index-1 skips its successor; below the size that deletes position `index` and keeps a closed ring closed; at the size it drops the last logical element, and the ring then stays closed only for a one-node list |
| `Lists.LinkedList.Contains` | linked-list/src/main/java/ua/procamp/LinkedList.java:114-118 | on a list whose ring is closed, answers whether some position k < size-1 holds the element (the ring-closing node is never examined); false when there is no head |
| `Lists.LinkedList.IsEmpty` | linked-list/src/main/java/ua/procamp/LinkedList.java:126-128 | answers whether there is no head; a true answer means no elements, and a non-zero size means false |
| `Lists.LinkedList.Size` | linked-list/src/main/java/ua/procamp/LinkedList.java:136-138 | the counter equals the number of logical elements |
| `Lists.LinkedList.Clear` | linked-list/src/main/java/ua/procamp/LinkedList.java:144-147 | afterwards there is no head and no element, and the ring property holds |
| `Lists.LinkedList.GetNodeAtIndex` | linked-list/src/main/java/ua/procamp/LinkedList.java:158-160 | the loop's result is the node `Walk(Repr, root, index)` that `Stream.iterate(root, next).skip(index)` yields, and that node is the spine node at position `index` |
| `Lists.Walk` | linked-list/src/main/java/ua/procamp/LinkedList.java:159-159 | the node `Stream.iterate(n, node -> node.next).skip(k).findFirst()` yields: it exists (the stream is infinite and no owned node has a null link) and stays among the owned nodes |
| `Lists.LinkedList.WalkAlongSpine` | linked-list/src/main/java/ua/procamp/LinkedList.java:158-160 | on a valid list, following k < size successor links from the head reaches the node at logical position k |
| `Lists.LinkedList.RingClosedIsReturn` | linked-list/src/main/java/ua/procamp/LinkedList.java:51-57 | on a non-empty valid list, the ring is closed exactly when following `size` successor links from the head comes back to the head |
| `Lists.RemoveAtInsertAt` | linked-list/src/main/java/ua/procamp/LinkedList.java:48-60 | deleting position i from the contents after inserting at i gives back the old contents |
| `Lists.DistinctInsertAt` | linked-list/src/main/java/ua/procamp/LinkedList.java:50-50 | inserting a newly created node into the spine keeps its nodes distinct |
| `Lists.DistinctRemoveAt` | linked-list/src/main/java/ua/procamp/LinkedList.java:100-102 | unlinking a spine node keeps the rest distinct and leaves the removed node out |
| `Lists.ChainedInsertAt` | linked-list/src/main/java/ua/procamp/LinkedList.java:55-57 | relinking the predecessor to the new node, and the new node to the old successor, gives a chain with the new node at `index` |
| `Lists.ChainedRemoveAt` | linked-list/src/main/java/ua/procamp/LinkedList.java:101-102 | linking the predecessor to its successor's successor gives a chain without position `index` |
| `Lists.ValuesInsertAt` | linked-list/src/main/java/ua/procamp/LinkedList.java:48-60 | the data along the new chain is the old data with the new element inserted at `index` |
| `Lists.ValuesRemoveAt` | linked-list/src/main/java/ua/procamp/LinkedList.java:96-105 | the data along the shortened chain is the old data without position `index` |
| `ListScenarios.OfThree` | linked-list/src/main/java/ua/procamp/LinkedList.java:24-28 | `of(a, b, c)` gives `get(0) == a`, `get(1) == b`, `get(2) == c` and size 3 |
| `ListScenarios.RemoveMiddle` | linked-list/src/main/java/ua/procamp/LinkedList.java:96-105 | `of(1, 2, 3)` then `remove(1)` gives size 2, `get(0) == 1`, `get(1) == 3` |
| `ListScenarios.SingletonContains` | linked-list/src/main/java/ua/procamp/LinkedList.java:114-118 | after `add(0, x)` on a new list, `get(0) == x` and the size is 1, but `contains(x)` is false |
| `ListScenarios.EmptyContains` | linked-list/src/main/java/ua/procamp/LinkedList.java:114-118 | a new list is empty and contains nothing |
| `ListScenarios.RemoveOnlyElement` | linked-list/src/main/java/ua/procamp/LinkedList.java:126-128 | `remove(0)` on a one-element list leaves size 0 and `get(0)` failing, while `isEmpty()` is false |
| `ListScenarios.RemoveAtSizeOfSingleton` | linked-list/src/main/java/ua/procamp/LinkedList.java:96-105 | `remove(1)` on a one-element list succeeds and leaves the head in place, so the size is 0 while `isEmpty()` is false |
| `ListScenarios.ClearThenGet` | linked-list/src/main/java/ua/procamp/LinkedList.java:144-147 | after `clear()`, `isEmpty()` holds, the size is 0 and `get(0)` fails |
| `ListScenarios.BoundsAtSize` | linked-list/src/main/java/ua/procamp/LinkedList.java:49-100 | at index == size `add` succeeds and `get`/`set` fail; `add` at size+1 fails; `remove` at the (new) size succeeds |
| `ListScenarios.SetThenGet` | linked-list/src/main/java/ua/procamp/LinkedList.java:70-87 | `set(i, v)` then `get(i)` returns `v` for every i in [0, size) |
| `ListScenarios.AddThenRemove` | linked-list/src/main/java/ua/procamp/LinkedList.java:48-105 | `remove(i)` right after a successful `add(i, x)` restores the contents; the `add` succeeds exactly when 0 <= i <= size |

## Left out

- `file-reader/src/main/java/ua/procamp/FileReaders.java` is not part of this model. It only looks up a classpath resource and reads its lines, turning any failure into an empty string. That is I/O with no list logic.
- The Java stream pipelines in `getNodeAtIndex` and `contains` are written as `while` loops that walk `next` links. `Stream.iterate` in `getNodeAtIndex` is infinite, so its `orElse(null)` never applies; a null link met on the way would throw `NullPointerException` inside the lambda instead. Neither can happen here: the method is only called with an index below the size, and no owned node has a null link.
- `contains` compares with `==` on references. The model uses Dafny equality on `T`.
- Lists.LinkedList.Remove: `remove(0)` is required to find at least one logical element. With no head the source throws `NullPointerException`. With a stale head left at size 0, by `remove(0)` or by `remove(size)` on a one-element list, the source moves the head once more and the counter goes negative.
- Lists.LinkedList.UnlinkFirst: same exclusion as `Remove` at index 0.
- Lists.LinkedList.Contains: requires a closed ring, and so says nothing about the open rings the source can reach. After `add(0, x)` on a list with a head no node points back at the head: the walk returns true if it meets the element and otherwise never ends. After `remove(0)` on two or more elements the last node still points at the detached old head, whose successor is the new head: the walk examines every logical element, the last included, and stops at the detached node without examining it, so after `of(1, 2, 3); remove(0)` `contains(3)` is true and `contains(1)` is false. After `remove(size)` on two or more elements the new last node points at the dropped node: the walk can report the dropped element, or never end.
- `RingClosed()` at size 0 allows a head that points at itself. A head at size 0 is left by `remove(0)` or `remove(1)` on any one-element list, closed or not; for example `of(a, b); remove(2); remove(0)` leaves `b` as head with `b.next == b`. Where the head points at itself, `contains` ends at once; other size-0 heads are open rings, as above.
- `listSize` is an unbounded integer. Java `int` overflow of the counter is not modelled.
- Garbage collection is not modelled. Detached nodes stay in `Repr`. No modelled operation reads them through the spine, but on an open ring the source's `contains` can reach them (see above).
- The Java overloads `add(T)` and `add(int, T)` are `Add` and `AddAt`. The two branches of `add(int, T)` are the helpers `LinkFirst` and `LinkAfter`, and the two branches of `remove` are `UnlinkFirst` and `UnlinkAfter`. Each helper does exactly what its branch does, including the size update that the source makes after the branch.
