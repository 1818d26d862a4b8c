// The assertions of `main` in main.rs, and a few further runs of the two
// lists, as client methods that see only the lists' contracts.
module Driver {
  import Singly
  import Doubly

  /** The singly half of `main`: append 1, 2, 3; `find(2)` holds and
      `find(4)` does not; after `remove_last` the chain printed from `head`
      is still 1, 2, 3 and `tail` is on the node holding 2. */
  method SinglyMain() returns (found2: bool, found4: bool, ghost printed: seq<int>)
    ensures found2 && !found4
    ensures printed == [1, 2, 3]
  {
    var sll := new Singly.SinglyLinkedList<int>();
    sll.Append(1);
    assert sll.View() == Singly.ListView([1], 0);
    sll.Append(2);
    assert sll.View() == Singly.ListView([1, 2], 1);
    sll.Append(3);
    assert sll.View() == Singly.ListView([1, 2, 3], 2);
    found2 := sll.Find(2);
    found4 := sll.Find(4);
    sll.RemoveLast();
    assert sll.View() == Singly.ListView([1, 2, 3], 1);
    assert sll.tail != null && sll.tail.data == 2;
    printed := sll.View().chain;
  }

  /** The doubly half of `main`: the same appends and finds; after
      `remove_last` the chain printed from `head` is still 1, 2, 3 and there
      is no tail. */
  method DoublyMain() returns (found2: bool, found4: bool, ghost printed: seq<int>)
    ensures found2 && !found4
    ensures printed == [1, 2, 3]
  {
    var dll := new Doubly.DoublyLinkedList<int>();
    dll.Append(1);
    assert dll.View() == Doubly.ListView([1], true);
    dll.Append(2);
    assert dll.View() == Doubly.ListView([1, 2], true);
    dll.Append(3);
    assert dll.View() == Doubly.ListView([1, 2, 3], true);
    found2 := dll.Find(2);
    found4 := dll.Find(4);
    dll.RemoveLast();
    assert dll.tail == null;
    printed := dll.View().chain;
  }

  /** `find` on a new list of either kind returns false. */
  method FindOnNewLists(x: int) returns (inSingly: bool, inDoubly: bool)
    ensures !inSingly && !inDoubly
  {
    var sll := new Singly.SinglyLinkedList<int>();
    inSingly := sll.Find(x);
    var dll := new Doubly.DoublyLinkedList<int>();
    inDoubly := dll.Find(x);
  }

  /** Removing the only element of a singly list clears `tail` but not
      `head`: the element is still found, and the next append replaces it. */
  method SinglyRemoveOnlyElement(x: int, y: int) returns (foundAfterRemove: bool, foundAfterAppend: bool)
    requires x != y
    ensures foundAfterRemove && !foundAfterAppend
  {
    var sll := new Singly.SinglyLinkedList<int>();
    sll.Append(x);
    sll.RemoveLast();
    assert sll.tail == null && sll.head != null;
    foundAfterRemove := sll.Find(x);
    sll.Append(y);
    foundAfterAppend := sll.Find(x);
  }

  /** A doubly `remove_last` followed by `append` restarts the chain: the
      earlier elements are no longer reachable from `head`. */
  method DoublyRemoveThenAppend() returns (found1: bool, found4: bool)
    ensures !found1 && found4
  {
    var dll := new Doubly.DoublyLinkedList<int>();
    dll.Append(1);
    dll.Append(2);
    dll.Append(3);
    dll.RemoveLast();
    dll.Append(4);
    assert dll.View().chain == [4];
    found1 := dll.Find(1);
    found4 := dll.Find(4);
  }

  /** A singly `remove_last` followed by `append` cuts the chain after the
      new tail: 1, 2, 3 becomes 1, 2, 4. */
  method SinglyRemoveThenAppend() returns (found3: bool, found4: bool)
    ensures !found3 && found4
  {
    var sll := new Singly.SinglyLinkedList<int>();
    sll.Append(1);
    assert sll.View() == Singly.ListView([1], 0);
    sll.Append(2);
    assert sll.View() == Singly.ListView([1, 2], 1);
    sll.Append(3);
    sll.RemoveLast();
    sll.Append(4);
    assert sll.View().chain == [1, 2, 4];
    found3 := sll.Find(3);
    found4 := sll.Find(4);
  }

  /** Append `x` to each of two singly lists that share no node. */
  method AppendToBothSingly(a: Singly.SinglyLinkedList<int>, b: Singly.SinglyLinkedList<int>, x: int)
    requires a != b && a.Valid() && b.Valid()
    requires forall n :: n in a.nodes ==> n !in b.nodes
    modifies a, a.tail, b, b.tail
    ensures a.Valid() && a.View() == Singly.Appended(old(a.View()), x)
    ensures b.Valid() && b.View() == Singly.Appended(old(b.View()), x)
    ensures forall n :: n in a.nodes ==> n !in b.nodes
    ensures forall n :: n in a.nodes ==> n in old(a.nodes) || fresh(n)
    ensures forall n :: n in b.nodes ==> n in old(b.nodes) || fresh(n)
  {
    assert a.tail == null || a.tail in a.nodes;
    a.Append(x);
    assert b.tail == null || b.tail in b.nodes;
    b.Append(x);
  }

  /** Two singly lists built side by side stay independent: appending to
      one never touches the other's nodes, so both stay valid and each
      holds exactly the run appended to it. */
  method TwoSinglyLists(xs: seq<int>, y: int) returns (inA: bool, inB: bool)
    ensures inA <==> y in xs
    ensures inB <==> y in xs
  {
    var a := new Singly.SinglyLinkedList<int>();
    var b := new Singly.SinglyLinkedList<int>();
    var i := 0;
    while i < |xs|
      invariant 0 <= i <= |xs|
      invariant fresh(a) && fresh(b) && a != b && a.Valid() && b.Valid()
      invariant forall n :: n in a.nodes ==> fresh(n)
      invariant forall n :: n in b.nodes ==> fresh(n)
      invariant forall n :: n in a.nodes ==> n !in b.nodes
      invariant a.View() == Singly.ListView(xs[..i], i - 1)
      invariant b.View() == Singly.ListView(xs[..i], i - 1)
    {
      assert xs[..i + 1] == xs[..i] + [xs[i]];
      assert a.tail == null || a.tail in a.nodes;
      assert b.tail == null || b.tail in b.nodes;
      AppendToBothSingly(a, b, xs[i]);
      i := i + 1;
    }
    assert xs[..i] == xs;
    inA := a.Find(y);
    inB := b.Find(y);
  }

  /** Append `x` to each of two doubly lists that share no node. */
  method AppendToBothDoubly(a: Doubly.DoublyLinkedList<int>, b: Doubly.DoublyLinkedList<int>, x: int)
    requires a != b && a.Valid() && b.Valid()
    requires forall n :: n in a.nodes ==> n !in b.nodes
    modifies a, a.tail, b, b.tail
    ensures a.Valid() && a.View() == Doubly.Appended(old(a.View()), x)
    ensures b.Valid() && b.View() == Doubly.Appended(old(b.View()), x)
    ensures forall n :: n in a.nodes ==> n !in b.nodes
    ensures forall n :: n in a.nodes ==> n in old(a.nodes) || fresh(n)
    ensures forall n :: n in b.nodes ==> n in old(b.nodes) || fresh(n)
  {
    assert a.tail == null || a.tail in a.nodes;
    a.Append(x);
    assert b.tail == null || b.tail in b.nodes;
    b.Append(x);
  }

  /** The same for two doubly lists. */
  method TwoDoublyLists(xs: seq<int>, y: int) returns (inA: bool, inB: bool)
    ensures inA <==> y in xs
    ensures inB <==> y in xs
  {
    var a := new Doubly.DoublyLinkedList<int>();
    var b := new Doubly.DoublyLinkedList<int>();
    var i := 0;
    while i < |xs|
      invariant 0 <= i <= |xs|
      invariant fresh(a) && fresh(b) && a != b && a.Valid() && b.Valid()
      invariant forall n :: n in a.nodes ==> fresh(n)
      invariant forall n :: n in b.nodes ==> fresh(n)
      invariant forall n :: n in a.nodes ==> n !in b.nodes
      invariant a.View() == Doubly.ListView(xs[..i], i > 0)
      invariant b.View() == Doubly.ListView(xs[..i], i > 0)
    {
      assert xs[..i + 1] == xs[..i] + [xs[i]];
      assert a.tail == null || a.tail in a.nodes;
      assert b.tail == null || b.tail in b.nodes;
      AppendToBothDoubly(a, b, xs[i]);
      i := i + 1;
    }
    assert xs[..i] == xs;
    inA := a.Find(y);
    inB := b.Find(y);
  }
}
