# Singly and doubly linked lists, modelled in Dafny

This project models `main.rs`, a small Rust program with two heap-linked
list types, and proves what their operations do.

- `SinglyLinkedList<T>` (module `Singly`, `singly.dfy`): nodes linked by a
  forward `next` pointer, a `head` pointer and a cached `tail` pointer;
  operations `new`, `append`, `find` and `remove_last`.
- `DoublyLinkedList<T>` (module `Doubly`, `doubly.dfy`): nodes also carry a
  `prev` back-pointer, and `tail` is a non-owning (weak) reference;
  the same four operations.
- `main` (module `Driver`, `driver.dfy`): its assertions, and a few more
  runs of the lists, written as client methods that see only the lists'
  contracts.

Each list is a class over `Node`/`NodeD` objects with mutable `next` (and
`prev`) fields. `Rc<RefCell<…>>` and `Weak<…>` both become plain nullable
references. Each list keeps a ghost sequence `nodes`, which is the chain
reachable from `head`. Its `Valid()` predicate states the invariants every
operation keeps:

- the chain is finite and has no repeated node, so it is acyclic;
- a present `tail` is a node on that chain, which is why the
  `upgrade().unwrap()` calls cannot panic;
- a present `tail` implies a present `head`;
- in the doubly list, each node's `prev` is its forward predecessor. The
  head's `prev` is absent, and so is the last node's once `remove_last` has
  cleared it.

The observable state is a `ListView`: the data along the chain from `head`,
plus the position of `tail` (singly) or whether `tail` is present (doubly).
The functions `Appended` and `TailRemoved` say what each operation does to
that view. Each mutating method is proved to take the view `v` to
`Appended(v, x)` or `TailRemoved(v)`. The lemmas then prove properties of
those functions, including over arbitrary runs of appends and removals.

## Behaviour as written: `remove_last` does not unlink anything

Going by its name and comments, `remove_last` should drop the last element.
The code does less, and the model follows the code:

- Singly (`main.rs:50-70`): the scan finds the node whose `next` is `tail`
  and makes it the new tail. When `tail` is the head, the scan finds nothing
  and `tail` becomes absent. No `next` link is cleared, and `head` is never
  reset. So `tail` can sit anywhere on the chain, and the model tracks its
  index.
- Doubly (`main.rs:133-141`): the method takes `tail`, leaving it absent,
  and clears the old tail's `prev`. `Rc::try_unwrap` then fails, because
  `head` or the predecessor's `next` still holds the node (`TailIsOwned`).
  So nothing is released and no `next` link changes.

An element leaves the chain only when a later `append` overwrites a `next`
link or `head`. As a result, two properties one would expect do not hold:

- "append then remove_last restores the previous list" does not hold in
  general. The appended element stays reachable (`AppendThenRemoveLast`).
  In the singly list, the old state comes back only when the node after
  `tail` was the last node and held the same value. So it never comes back
  when `tail` was the last node. In the doubly list, the old state comes
  back only from a list with no tail whose chain was exactly `[x]`. So it
  never comes back when a tail was present.
- "n appends then n removals give an empty list" fails for both lists.
  `tail` is absent, but every element is still on the chain from `head`
  (`Singly.AppendThenRemoveAll`, `Doubly.AppendThenRemoveAll`).

## Model

| member | source | states |
|---|---|---|
| `Singly.Appended` | main.rs:23-35 | append keeps the chain up to and including the old tail, then adds x as the last element and the new tail; with no tail, the chain becomes [x]; the result stays well formed |
| `Singly.TailRemoved` | main.rs:50-70 | remove_last keeps the chain unchanged; it moves tail back by one position, to absent when tail was the head, and does nothing when there is no tail |
| `Singly.AppendedAll` | main.rs:23-35 | any run of appends leaves tail on the chain or absent (absent only for an empty run on a list without a tail) |
| `Singly.TailRemovedTimes` | main.rs:50-70 | any run of remove_last calls leaves tail on the chain or absent |
| `Singly.AppendedAllChain` | main.rs:23-35 | appending a non-empty run xs gives the chain through the old tail followed by xs, with tail on the last node |
| `Singly.AppendedAllFromEmpty` | main.rs:18-35 | appending xs to a new list gives exactly xs from head, with tail on the last node |
| `Singly.TailRemovedTimesKeepsChain` | main.rs:50-70 | n calls of remove_last never change the chain; tail moves back n positions, stopping at absent |
| `Singly.AppendThenRemoveAll` | main.rs:18-70 | n appends to a new list and then n removals leave no tail, but all n elements are still on the chain from head |
| `Singly.RemoveLastThenAppend` | main.rs:23-70 | remove_last and then append(x) gives the prefix up to and including the new tail, followed by x, with tail on x; with no tail the chain becomes [x] |
| `Singly.AppendThenRemoveLast` | main.rs:23-70 | append(x) and then remove_last gives the chain through the old tail followed by x, with tail back where it was; this equals the old state exactly when the node after the old tail was the last one and held x, so never when the old tail was the last node |
| `Singly.Node.constructor` | main.rs:24 | a new node holds the data and has no next |
| `Singly.SinglyLinkedList.constructor` | main.rs:18-20 | new() has no head and no tail, and is valid with an empty view |
| `Singly.SinglyLinkedList.Append` | main.rs:23-35 | keeps the invariant; the view becomes Appended(old view, x); the new node is fresh and the new tail; it hangs off the old tail's next, or is the head when there was no tail; every node on the new chain was on the old chain or is fresh |
| `Singly.SinglyLinkedList.Find` | main.rs:38-47 | returns true exactly when x is held by a node reachable from head; changes nothing |
| `Singly.SinglyLinkedList.TailPredecessor` | main.rs:52-67 | the scan returns the node whose next is tail, and no other node's next is tail; it returns none when tail is the head or absent |
| `Singly.SinglyLinkedList.RemoveLast` | main.rs:50-70 | keeps the invariant; the view becomes TailRemoved(old view); only tail changes: head, every next link and the chain stay; the new tail's next is the old tail, or the old tail was the head |
| `Doubly.Appended` | main.rs:104-118 | with a tail, append adds x after the whole chain; without one, the chain becomes [x]; either way tail is present and holds x |
| `Doubly.TailRemoved` | main.rs:133-141 | remove_last keeps the chain and leaves tail absent |
| `Doubly.AppendedAll` | main.rs:104-118 | any run of appends keeps the view well formed |
| `Doubly.TailRemovedTimes` | main.rs:133-141 | any run of remove_last calls keeps the view well formed |
| `Doubly.AppendedAllChain` | main.rs:104-118 | appending a non-empty run xs gives the old chain followed by xs when a tail was present, or xs alone; tail is then present |
| `Doubly.AppendedAllFromEmpty` | main.rs:99-118 | appending xs to a new list gives exactly xs from head, with a tail exactly when xs is non-empty |
| `Doubly.TailRemovedTimesKeepsChain` | main.rs:133-141 | one or more calls of remove_last keep the chain and leave no tail; zero calls change nothing |
| `Doubly.AppendThenRemoveAll` | main.rs:99-141 | n appends to a new list and then n removals leave no tail, but all n elements are still on the chain from head |
| `Doubly.RemoveLastThenAppend` | main.rs:104-141 | remove_last and then append(x) leaves the chain [x] |
| `Doubly.AppendThenRemoveLast` | main.rs:104-141 | append(x) and then remove_last gives the old chain followed by x (or [x] when there was no tail) and no tail; this equals the old state exactly when there was no tail and the chain was [x], so never when a tail was present |
| `Doubly.NodeD.constructor` | main.rs:105 | a new node holds the data and has no next and no prev |
| `Doubly.DoublyLinkedList.constructor` | main.rs:99-101 | new() has no head and no tail, and is valid with an empty view |
| `Doubly.DoublyLinkedList.Append` | main.rs:104-118 | keeps the invariant, including prev being the forward predecessor; the view becomes Appended(old view, x); the new node is fresh and the new tail, its prev is the old tail, and it hangs off the old tail's next or is the head; every node on the new chain was on the old chain or is fresh |
| `Doubly.DoublyLinkedList.Find` | main.rs:121-130 | returns true exactly when x is held by a node reachable from head; changes nothing |
| `Doubly.DoublyLinkedList.PrevIsPredecessor` | main.rs:104-118 | while tail is present, every non-head node's prev is the node whose next leads to it |
| `Doubly.DoublyLinkedList.TailIsOwned` | main.rs:133-141 | a present tail is still held by head or by a predecessor's next, so try_unwrap cannot release it |
| `Doubly.DoublyLinkedList.RemoveLast` | main.rs:133-141 | keeps the invariant; the view becomes TailRemoved(old view); it writes only tail and the old tail's prev, which both become absent; head and the chain stay |
| `Driver.SinglyMain` | main.rs:155-164 | after appending 1, 2, 3 to a singly list, find(2) holds and find(4) does not; after remove_last the chain from head is still 1, 2, 3 |
| `Driver.DoublyMain` | main.rs:166-175 | after appending 1, 2, 3 to a doubly list, find(2) holds and find(4) does not; after remove_last the chain from head is still 1, 2, 3 |
| `Driver.FindOnNewLists` | main.rs:38-47 | find on a new list of either kind returns false |
| `Driver.SinglyRemoveOnlyElement` | main.rs:50-70 | removing the only element of a singly list leaves it findable; the next append replaces it |
| `Driver.SinglyRemoveThenAppend` | main.rs:23-70 | on a singly list, 1, 2, 3 then remove_last then append(4) gives a chain without 3 that holds 4 |
| `Driver.DoublyRemoveThenAppend` | main.rs:104-141 | on a doubly list, 1, 2, 3 then remove_last then append(4) gives a chain without 1 that holds 4 |
| `Driver.TwoSinglyLists` | main.rs:23-47 | two singly lists built side by side by the same run of appends share no node, stay valid, and find y exactly when y was appended |
| `Driver.TwoDoublyLists` | main.rs:104-130 | two doubly lists built side by side by the same run of appends share no node, stay valid, and find y exactly when y was appended |

## Left out

- `print` on both lists (`main.rs:71-79`, `main.rs:143-151`): writing to
  standard output is I/O. Its order is the chain from head, which
  `View().chain` gives. The driver returns that chain as a ghost value
  where `main` prints it.
- `main` as a program: only its appends, finds, removals and `assert!`s
  are modelled, as `Driver.SinglyMain` and `Driver.DoublyMain`.
- Reference counting (`Rc`, `Weak::upgrade`, `Rc::downgrade`,
  `Rc::try_unwrap`, `drop`) is memory management. References are plain
  object references. The model does not capture a chain being freed when
  `append` overwrites the last link to it; such nodes simply leave `nodes`.
- `RefCell` borrow checking is not modelled. The borrows are strictly
  sequential and cannot conflict.
- The "O(1)" comments at `main.rs:49` and `main.rs:132` are complexity
  claims, not behaviour. The singly version is in fact a linear scan.
- The `Debug` bound on `T` matters only for printing.
- Singly.SinglyLinkedList.Find, Doubly.DoublyLinkedList.Find: the
  `PartialEq` bound becomes Dafny's equality-supporting type
  parameter `T(==)`, whose equality is reflexive. The contract
  `found <==> x in View().chain` relies on that. Rust's `PartialEq` need not
  be reflexive: with `f64`, `find(NaN)` returns false even when NaN was
  appended. The model does not cover such types.
- Node data is a `const`: the source sets it when a node is created and
  never writes it again.
