// The doubly linked list of main.rs: nodes carry an owning forward `next`
// pointer and a non-owning `prev` back-pointer; the list holds `head` and a
// non-owning (weak) `tail`.
//
// `Rc<RefCell<NodeD>>` and `Weak<…>` both become plain nullable references.
// `tail` is either absent or the last node of the chain, which is what makes
// `upgrade().unwrap()` safe. As written, `remove_last` only forgets `tail`
// and clears the old tail's `prev`: `Rc::try_unwrap` cannot succeed while
// `head` or the predecessor's `next` still holds the node, so no link of the
// chain changes.
module Doubly {

  /** Abstract state of a doubly linked list: the data along the forward
      chain from `head`, and whether `tail` is present. */
  datatype ListView<T> = ListView(chain: seq<T>, hasTail: bool)
  {
    /** A present `tail` implies a present `head`. */
    ghost predicate WellFormed()
    {
      hasTail ==> chain != []
    }
  }

  /** The state `new()` creates: no head, no tail. */
  ghost function Empty<T>(): ListView<T>
  {
    ListView([], false)
  }

  /** What `append(x)` does to the abstract state: with a tail, `x` goes after
      the whole chain; without one, `x` replaces the chain. */
  ghost function Appended<T>(v: ListView<T>, x: T): (r: ListView<T>)
    requires v.WellFormed()
    ensures r.WellFormed() && r.hasTail && r.chain[|r.chain| - 1] == x
    ensures v.hasTail ==> |r.chain| == |v.chain| + 1 && r.chain[..|v.chain|] == v.chain
    ensures !v.hasTail ==> |r.chain| == 1
  {
    if v.hasTail then ListView(v.chain + [x], true) else ListView([x], true)
  }

  /** What `remove_last()` does to the abstract state: `tail` is forgotten and
      the chain is kept. */
  ghost function TailRemoved<T>(v: ListView<T>): (r: ListView<T>)
    requires v.WellFormed()
    ensures r.WellFormed() && !r.hasTail && r.chain == v.chain
  {
    ListView(v.chain, false)
  }

  /** The state after appending every element of `xs`, in order. */
  ghost function AppendedAll<T>(v: ListView<T>, xs: seq<T>): (r: ListView<T>)
    requires v.WellFormed()
    ensures r.WellFormed()
    decreases |xs|
  {
    if xs == [] then v else AppendedAll(Appended(v, xs[0]), xs[1..])
  }

  /** The state after `n` calls of `remove_last()`. */
  ghost function TailRemovedTimes<T>(v: ListView<T>, n: nat): (r: ListView<T>)
    requires v.WellFormed()
    ensures r.WellFormed()
    decreases n
  {
    if n == 0 then v else TailRemovedTimes(TailRemoved(v), n - 1)
  }

  /** Appending a non-empty run of elements puts it after the chain when a
      tail is present and replaces the chain otherwise; a tail is left. */
  lemma {:induction false} AppendedAllChain<T>(v: ListView<T>, xs: seq<T>)
    requires v.WellFormed() && xs != []
    ensures AppendedAll(v, xs) == ListView((if v.hasTail then v.chain else []) + xs, true)
    decreases |xs|
  {
    var w := Appended(v, xs[0]);
    var kept := if v.hasTail then v.chain else [];
    assert w.chain == kept + [xs[0]];
    if |xs| == 1 {
      assert AppendedAll(v, xs) == AppendedAll(w, []) == w;
      assert xs == [xs[0]];
    } else {
      AppendedAllChain(w, xs[1..]);
      assert kept + [xs[0]] + xs[1..] == kept + xs by {
        assert [xs[0]] + xs[1..] == xs;
      }
    }
  }

  /** From a new list, appending `xs` yields exactly `xs` from head. */
  lemma AppendedAllFromEmpty<T>(xs: seq<T>)
    ensures AppendedAll(Empty(), xs).chain == xs
    ensures AppendedAll(Empty(), xs).hasTail == (xs != [])
  {
    if xs != [] {
      AppendedAllChain(Empty(), xs);
    }
  }

  /** Any positive number of removals never changes the chain and leaves no
      tail; zero removals change nothing. */
  lemma {:induction false} TailRemovedTimesKeepsChain<T>(v: ListView<T>, n: nat)
    requires v.WellFormed()
    ensures TailRemovedTimes(v, n) == if n == 0 then v else ListView(v.chain, false)
    decreases n
  {
    if n > 1 {
      TailRemovedTimesKeepsChain(TailRemoved(v), n - 1);
    }
  }

  /** Appending `xs` to a new list and then removing `|xs|` times leaves no
      tail, but every appended element is still reachable from `head`. */
  lemma AppendThenRemoveAll<T>(xs: seq<T>)
    ensures TailRemovedTimes(AppendedAll(Empty(), xs), |xs|) == ListView(xs, false)
  {
    AppendedAllFromEmpty(xs);
    TailRemovedTimesKeepsChain(AppendedAll(Empty(), xs), |xs|);
  }

  /** `remove_last()` followed by `append(x)` leaves the chain `[x]`. */
  lemma RemoveLastThenAppend<T>(v: ListView<T>, x: T)
    requires v.WellFormed()
    ensures Appended(TailRemoved(v), x) == ListView([x], true)
  {
  }

  /** `append(x)` followed by `remove_last()`: `x` stays on the chain after
      the old one (or alone, when there was no tail) and no tail is left.
      The old state comes back only from a tailless list whose chain was
      `[x]`, so never when a tail was present. */
  lemma AppendThenRemoveLast<T>(v: ListView<T>, x: T)
    requires v.WellFormed()
    ensures TailRemoved(Appended(v, x)) == ListView((if v.hasTail then v.chain else []) + [x], false)
    ensures TailRemoved(Appended(v, x)) == v <==> !v.hasTail && v.chain == [x]
    ensures v.hasTail ==> TailRemoved(Appended(v, x)).chain != v.chain
  {
    var r := TailRemoved(Appended(v, x));
    if v.hasTail {
      assert |r.chain| == |v.chain| + 1;
    }
  }

  /** A node of the list: `data` is fixed when the node is created. */
  class NodeD<T> {
    const data: T
    var next: NodeD?<T>
    var prev: NodeD?<T>

    constructor (data: T)
      ensures this.data == data && next == null && prev == null
    {
      this.data := data;
      next := null;
      prev := null;
    }
  }

  /** The data held by a sequence of nodes, in order. */
  ghost function DataOf<T>(ns: seq<NodeD<T>>): (s: seq<T>)
    ensures |s| == |ns|
  {
    if ns == [] then [] else [ns[0].data] + DataOf(ns[1..])
  }

  lemma {:induction false} DataOfAt<T>(ns: seq<NodeD<T>>, i: int)
    requires 0 <= i < |ns|
    ensures DataOf(ns)[i] == ns[i].data
  {
    if i > 0 {
      DataOfAt(ns[1..], i - 1);
    }
  }

  lemma {:induction false} DataOfSnoc<T>(ns: seq<NodeD<T>>, n: NodeD<T>)
    ensures DataOf(ns + [n]) == DataOf(ns) + [n.data]
  {
    if ns != [] {
      assert (ns + [n])[1..] == ns[1..] + [n];
      DataOfSnoc(ns[1..], n);
    }
  }

  class DoublyLinkedList<T(==)> {
    var head: NodeD?<T>
    var tail: NodeD?<T>
    /** The forward chain from `head`. */
    ghost var nodes: seq<NodeD<T>>

    /** The forward chain from `head` is `nodes`, finite and without repeats
        (so acyclic); `tail`, when present, is its last node; each node's
        `prev` is its forward predecessor, except that the head has none and
        the last node's was cleared when its tail status was removed. */
    ghost predicate Valid()
      reads this, nodes
    {
      (head == null <==> nodes == []) &&
      (head != null ==> head == nodes[0]) &&
      (forall i :: 0 <= i < |nodes| - 1 ==> nodes[i].next == nodes[i + 1]) &&
      (nodes != [] ==> nodes[|nodes| - 1].next == null) &&
      (forall i, j :: 0 <= i < j < |nodes| ==> nodes[i] != nodes[j]) &&
      (tail != null ==> nodes != [] && tail == nodes[|nodes| - 1]) &&
      (nodes != [] ==> nodes[0].prev == null) &&
      (forall i :: 0 < i < |nodes| - 1 ==> nodes[i].prev == nodes[i - 1]) &&
      (|nodes| > 1 ==> nodes[|nodes| - 1].prev == if tail == null then null else nodes[|nodes| - 2])
    }

    ghost function View(): ListView<T>
      reads this
    {
      ListView(DataOf(nodes), tail != null)
    }

    constructor ()
      ensures Valid() && View() == Empty()
      ensures head == null && tail == null
    {
      head, tail := null, null;
      nodes := [];
    }

    /** `append`: link a new node after `tail` in both directions, or make it
        `head` when there is no tail, and make it the new tail. */
    method Append(x: T)
      requires Valid()
      modifies this, tail
      ensures Valid() && View() == Appended(old(View()), x)
      ensures fresh(tail) && tail.data == x && tail.next == null && tail.prev == old(tail)
      ensures forall n :: n in nodes ==> n in old(nodes) || fresh(n)
      ensures old(tail) == null ==> head == tail
      ensures old(tail) != null ==> head == old(head) && old(tail).next == tail
    {
      var n := new NodeD(x);
      if tail != null {
        // Valid() puts `tail` on the chain, so upgrading the weak reference succeeds.
        var oldTail := tail;
        ghost var ns := nodes;
        oldTail.next := n;
        n.prev := oldTail;
        tail := n;
        nodes := nodes + [n];
        DataOfSnoc(ns, n);
        forall i | 0 <= i < |ns|
          ensures ns[i].prev == old(ns[i].prev)
          ensures i < |ns| - 1 ==> ns[i].next == ns[i + 1]
        {
          assert ns[i] != n;
          if i < |ns| - 1 {
            assert ns[i] != ns[|ns| - 1];
          }
        }
      } else {
        head := n;
        tail := n;
        nodes := [n];
      }
    }

    /** `find`: walk the chain from `head` until a node holds `x`. */
    method Find(x: T) returns (found: bool)
      requires Valid()
      ensures found <==> x in View().chain
    {
      var current := head;
      ghost var i := 0;
      while current != null
        invariant 0 <= i <= |nodes|
        invariant current == if i < |nodes| then nodes[i] else null
        invariant x !in DataOf(nodes)[..i]
        decreases |nodes| - i
      {
        DataOfAt(nodes, i);
        if current.data == x {
          return true;
        }
        current := current.next;
        i := i + 1;
      }
      assert DataOf(nodes)[..i] == DataOf(nodes);
      return false;
    }

    /** While `tail` is present, walking `prev` from any node reaches exactly
        the node whose `next` leads to it. */
    lemma PrevIsPredecessor()
      requires Valid() && tail != null
      ensures forall i :: 0 < i < |nodes| ==> nodes[i].prev == nodes[i - 1] && nodes[i - 1].next == nodes[i]
    {
    }

    /** Why `Rc::try_unwrap` in `remove_last` never releases the old tail:
        a present `tail` is still held by `head` or by its predecessor's
        `next`. */
    lemma TailIsOwned()
      requires Valid() && tail != null
      ensures tail == head || exists i :: 0 <= i < |nodes| - 1 && nodes[i].next == tail
    {
      if |nodes| > 1 {
        assert nodes[|nodes| - 2].next == tail;
      }
    }

    /** `remove_last`, as written: take `tail`, clear its `prev`; the attempt
        to release it fails because the chain still owns it, so `head` and
        every `next` link stay as they were. */
    method RemoveLast()
      requires Valid()
      modifies this`tail, (if tail == null then {} else {tail})`prev
      ensures Valid() && View() == TailRemoved(old(View()))
      ensures tail == null && head == old(head) && nodes == old(nodes)
      ensures old(tail) != null ==> old(tail).prev == null
    {
      if tail != null {
        var t := tail;
        tail := null;
        t.prev := null;
        forall i | 0 <= i < |nodes| - 1
          ensures nodes[i].prev == old(nodes[i].prev)
        {
          assert nodes[i] != nodes[|nodes| - 1];
        }
      }
    }
  }
}
