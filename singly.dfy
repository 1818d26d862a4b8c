// The singly linked list of main.rs: nodes linked by an owning forward
// `next` pointer, a `head` pointer and a cached `tail` pointer.
//
// `Rc<RefCell<Node>>` becomes a plain nullable reference. The list keeps a
// ghost sequence `nodes`, the chain reachable from `head`, and the ghost index
// of `tail` on that chain. As written, `remove_last` only moves `tail` back
// by one node and never unlinks anything, so `tail` may sit anywhere on the
// chain, not only at its end.
module Singly {

  /** Abstract state of a singly linked list: the data along the forward
      chain from `head`, and the position of `tail` on it (-1 when absent). */
  datatype ListView<T> = ListView(chain: seq<T>, tail: int)
  {
    /** `tail`, when present, is a position on the chain (so `head` is present too). */
    ghost predicate WellFormed()
    {
      -1 <= tail < |chain|
    }
  }

  /** The state `new()` creates: no head, no tail. */
  ghost function Empty<T>(): ListView<T>
  {
    ListView([], -1)
  }

  /** What `append(x)` does to the abstract state: the chain is cut after the
      old tail (or replaced entirely when there is no tail) and `x` becomes
      the last element and the new tail. */
  ghost function Appended<T>(v: ListView<T>, x: T): (r: ListView<T>)
    requires v.WellFormed()
    ensures r.WellFormed()
    ensures |r.chain| == v.tail + 2 && r.tail == |r.chain| - 1 && r.chain[r.tail] == x
    ensures forall i :: 0 <= i <= v.tail ==> r.chain[i] == v.chain[i]
  {
    if v.tail < 0 then ListView([x], 0) else ListView(v.chain[..v.tail + 1] + [x], v.tail + 1)
  }

  /** What `remove_last()` does to the abstract state: `tail` moves back one
      node (to absent when it was the head); the chain itself is kept. */
  ghost function TailRemoved<T>(v: ListView<T>): (r: ListView<T>)
    requires v.WellFormed()
    ensures r.WellFormed() && r.chain == v.chain
    ensures v.tail < 0 ==> r == v
    ensures v.tail >= 0 ==> r.tail == v.tail - 1
  {
    if v.tail < 0 then v else ListView(v.chain, v.tail - 1)
  }

  /** The state after appending every element of `xs`, in order. */
  ghost function AppendedAll<T>(v: ListView<T>, xs: seq<T>): (r: ListView<T>)
    requires v.WellFormed()
    ensures r.WellFormed()
    decreases |xs|
  {
    if xs == [] then v else AppendedAll(Appended(v, xs[0]), xs[1..])
  }

  /** The state after `n` calls of `remove_last()`. */
  ghost function TailRemovedTimes<T>(v: ListView<T>, n: nat): (r: ListView<T>)
    requires v.WellFormed()
    ensures r.WellFormed()
    decreases n
  {
    if n == 0 then v else TailRemovedTimes(TailRemoved(v), n - 1)
  }

  /** Appending a non-empty run of elements keeps the chain through the old
      tail, puts the run after it, and leaves `tail` on the last node. */
  lemma {:induction false} AppendedAllChain<T>(v: ListView<T>, xs: seq<T>)
    requires v.WellFormed() && xs != []
    ensures AppendedAll(v, xs).chain == v.chain[..v.tail + 1] + xs
    ensures AppendedAll(v, xs).tail == |AppendedAll(v, xs).chain| - 1
    decreases |xs|
  {
    var w := Appended(v, xs[0]);
    var kept := v.chain[..v.tail + 1];
    assert w.chain == kept + [xs[0]];
    if |xs| == 1 {
      assert AppendedAll(v, xs) == AppendedAll(w, []) == w;
      assert xs == [xs[0]];
    } else {
      AppendedAllChain(w, xs[1..]);
      assert w.chain[..w.tail + 1] == w.chain;
      assert kept + [xs[0]] + xs[1..] == kept + xs by {
        assert [xs[0]] + xs[1..] == xs;
      }
    }
  }

  /** From a new list, appending `xs` yields exactly `xs` from head. */
  lemma AppendedAllFromEmpty<T>(xs: seq<T>)
    ensures AppendedAll(Empty(), xs).chain == xs
    ensures AppendedAll(Empty(), xs).tail == |xs| - 1
  {
    if xs != [] {
      AppendedAllChain(Empty(), xs);
    }
  }

  /** `n` removals never change the chain; they walk `tail` back `n` nodes,
      stopping at absent. */
  lemma {:induction false} TailRemovedTimesKeepsChain<T>(v: ListView<T>, n: nat)
    requires v.WellFormed()
    ensures TailRemovedTimes(v, n).chain == v.chain
    ensures TailRemovedTimes(v, n).tail == if v.tail - n < -1 then -1 else v.tail - n
    decreases n
  {
    if n > 0 {
      TailRemovedTimesKeepsChain(TailRemoved(v), n - 1);
    }
  }

  /** Appending `xs` to a new list and then removing `|xs|` times leaves no
      tail, but every appended element is still reachable from `head`. */
  lemma AppendThenRemoveAll<T>(xs: seq<T>)
    ensures TailRemovedTimes(AppendedAll(Empty(), xs), |xs|) == ListView(xs, -1)
  {
    AppendedAllFromEmpty(xs);
    TailRemovedTimesKeepsChain(AppendedAll(Empty(), xs), |xs|);
  }

  /** `remove_last()` followed by `append(x)`: the chain is the prefix up to
      and including the new tail, followed by `x` (just `[x]` when there was
      no tail, since `remove_last` then does nothing). */
  lemma RemoveLastThenAppend<T>(v: ListView<T>, x: T)
    requires v.WellFormed()
    ensures var k := if v.tail < 0 then 0 else v.tail;
      Appended(TailRemoved(v), x) == ListView(v.chain[..k] + [x], k)
  {
  }

  /** `append(x)` followed by `remove_last()`: the chain is cut after the old
      tail and keeps `x`; only `tail` moves back. The old state comes back
      exactly when the node after the old tail was the last one and held `x`,
      so it never does when the old tail was the last node. */
  lemma AppendThenRemoveLast<T>(v: ListView<T>, x: T)
    requires v.WellFormed()
    ensures TailRemoved(Appended(v, x)) == ListView(v.chain[..v.tail + 1] + [x], v.tail)
    ensures TailRemoved(Appended(v, x)) == v <==> |v.chain| == v.tail + 2 && v.chain[v.tail + 1] == x
    ensures v.tail == |v.chain| - 1 ==> TailRemoved(Appended(v, x)).chain != v.chain
  {
    var kept := v.chain[..v.tail + 1];
    assert TailRemoved(Appended(v, x)).chain == kept + [x];
    if |v.chain| == v.tail + 2 && v.chain[v.tail + 1] == x {
      assert kept + [x] == v.chain;
    } else if |v.chain| == v.tail + 2 {
      assert (kept + [x])[v.tail + 1] != v.chain[v.tail + 1];
    } else {
      assert |kept + [x]| != |v.chain|;
    }
  }

  /** A node of the list: `data` is fixed when the node is created. */
  class Node<T> {
    const data: T
    var next: Node?<T>

    constructor (data: T)
      ensures this.data == data && next == null
    {
      this.data := data;
      next := null;
    }
  }

  /** The data held by a sequence of nodes, in order. */
  ghost function DataOf<T>(ns: seq<Node<T>>): (s: seq<T>)
    ensures |s| == |ns|
  {
    if ns == [] then [] else [ns[0].data] + DataOf(ns[1..])
  }

  lemma {:induction false} DataOfAt<T>(ns: seq<Node<T>>, i: int)
    requires 0 <= i < |ns|
    ensures DataOf(ns)[i] == ns[i].data
  {
    if i > 0 {
      DataOfAt(ns[1..], i - 1);
    }
  }

  lemma {:induction false} DataOfPrefix<T>(ns: seq<Node<T>>, k: int)
    requires 0 <= k <= |ns|
    ensures DataOf(ns[..k]) == DataOf(ns)[..k]
  {
    if k > 0 {
      assert ns[..k][1..] == ns[1..][..k - 1];
      DataOfPrefix(ns[1..], k - 1);
    }
  }

  lemma {:induction false} DataOfSnoc<T>(ns: seq<Node<T>>, n: Node<T>)
    ensures DataOf(ns + [n]) == DataOf(ns) + [n.data]
  {
    if ns != [] {
      assert (ns + [n])[1..] == ns[1..] + [n];
      DataOfSnoc(ns[1..], n);
    }
  }

  class SinglyLinkedList<T(==)> {
    var head: Node?<T>
    var tail: Node?<T>
    /** The forward chain from `head`. */
    ghost var nodes: seq<Node<T>>
    /** Position of `tail` on `nodes`, or -1 when `tail` is absent. */
    ghost var tailIndex: int

    /** The forward chain from `head` is `nodes`, finite and without repeats
        (so acyclic), and `tail`, when present, is a node on it. */
    ghost predicate Valid()
      reads this, nodes
    {
      (head == null <==> nodes == []) &&
      (head != null ==> head == nodes[0]) &&
      (forall i :: 0 <= i < |nodes| - 1 ==> nodes[i].next == nodes[i + 1]) &&
      (nodes != [] ==> nodes[|nodes| - 1].next == null) &&
      (forall i, j :: 0 <= i < j < |nodes| ==> nodes[i] != nodes[j]) &&
      -1 <= tailIndex < |nodes| &&
      tail == (if tailIndex < 0 then null else nodes[tailIndex])
    }

    ghost function View(): ListView<T>
      reads this
    {
      ListView(DataOf(nodes), tailIndex)
    }

    constructor ()
      ensures Valid() && View() == Empty()
      ensures head == null && tail == null
    {
      head, tail := null, null;
      nodes, tailIndex := [], -1;
    }

    /** `append`: link a new node after `tail`, or make it `head` when there
        is no tail, and make it the new tail. */
    method Append(x: T)
      requires Valid()
      modifies this, tail
      ensures Valid() && View() == Appended(old(View()), x)
      ensures fresh(tail) && tail.data == x && tail.next == null
      ensures forall n :: n in nodes ==> n in old(nodes) || fresh(n)
      ensures old(tail) == null ==> head == tail
      ensures old(tail) != null ==> head == old(head) && old(tail).next == tail
    {
      var n := new Node(x);
      if tail != null {
        ghost var ns, k := nodes, tailIndex;
        tail.next := n;
        tail := n;
        nodes := ns[..k + 1] + [n];
        tailIndex := k + 1;
        forall i | 0 <= i < k
          ensures ns[i].next == ns[i + 1]
        {
          assert ns[i] != ns[k];
        }
        DataOfSnoc(ns[..k + 1], n);
        DataOfPrefix(ns, k + 1);
      } else {
        head := n;
        tail := n;
        nodes := [n];
        tailIndex := 0;
      }
    }

    /** `find`: walk the chain from `head` until a node holds `x`. */
    method Find(x: T) returns (found: bool)
      requires Valid()
      ensures found <==> x in View().chain
    {
      var current := head;
      ghost var i := 0;
      while current != null
        invariant 0 <= i <= |nodes|
        invariant current == if i < |nodes| then nodes[i] else null
        invariant x !in DataOf(nodes)[..i]
        decreases |nodes| - i
      {
        DataOfAt(nodes, i);
        if current.data == x {
          return true;
        }
        current := current.next;
        i := i + 1;
      }
      assert DataOf(nodes)[..i] == DataOf(nodes);
      return false;
    }

    /** The scan inside `remove_last`: from `head`, find the node whose `next`
        is `tail`. No node points at the head, so when `tail` is the head (or
        absent) the scan runs off the end and yields nothing. */
    method TailPredecessor() returns (p: Node?<T>)
      requires Valid()
      ensures p == if tailIndex <= 0 then null else nodes[tailIndex - 1]
      ensures p != null ==> p.next == tail
      ensures tail != null ==> forall i :: 0 <= i < |nodes| && nodes[i].next == tail ==> nodes[i] == p
    {
      if head == null {
        return null;
      }
      var current := head;
      ghost var i := 0;
      while true
        invariant Valid()
        invariant 0 <= i < |nodes| && current == nodes[i]
        invariant current.next == if i + 1 < |nodes| then nodes[i + 1] else null
        invariant tailIndex <= 0 || i < tailIndex
        decreases |nodes| - i
      {
        var next := current.next;
        if next != null && next == tail {
          // Nodes on the chain are distinct, so `next` sits at `tailIndex`.
          assert nodes[i + 1] == nodes[tailIndex];
          forall j | 0 <= j < |nodes| && nodes[j].next == tail
            ensures j == i
          {
            assert nodes[j + 1] == nodes[tailIndex];
          }
          return current;
        } else if next != null {
          current := next;
          i := i + 1;
        } else {
          break;
        }
      }
      // `tail` is absent or is the head, and no node's `next` is the head.
      forall j | 0 <= j < |nodes| - 1
        ensures nodes[j].next != nodes[0]
      {
        assert nodes[j].next == nodes[j + 1];
      }
      return null;
    }

    /** `remove_last`, as written: `tail` becomes its predecessor (or absent
        when it was the head). No `next` link and not `head` is changed. */
    method RemoveLast()
      requires Valid()
      modifies this`tail, this`tailIndex
      ensures Valid() && View() == TailRemoved(old(View()))
      ensures old(tail) != null ==> tail == null || tail.next == old(tail)
      ensures old(tail) != null && tail == null ==> old(tail) == head
    {
      if tail != null {
        var p := TailPredecessor();
        tail := p;
        tailIndex := tailIndex - 1;
      }
    }
  }
}
