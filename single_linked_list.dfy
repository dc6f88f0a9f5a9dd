/**
 A generic singly-linked list with a sentinel head node. The element type must
 have a default value (`T(0)`) because the sentinel, like every node, stores a
 value, and the sentinel's is default-constructed.

 The abstract view of a list is the ghost sequence `contents`; the ghost
 sequence `nodes` lists the real nodes in chain order and the ghost set `Repr`
 holds the nodes the list owns. Iterators are `Node?` references: the sentinel
 `head` is before_begin(), `null` is end().
 */
module LinkedList {

  /** One storage cell: an element value and the link to its successor. */
  class Node<T(0)> {
    var value: T
    var next: Node?<T>

    /** The default node, used for the sentinel: its value is default-constructed. */
    constructor Sentinel()
      ensures next == null
    {
      next := null;
    }

    constructor (value: T, next: Node?<T>)
      ensures this.value == value && this.next == next
    {
      this.value := value;
      this.next := next;
    }
  }

  /** Link `i` of a chain: node `i` carries `contents[i]` and points at node
      `i + 1`, or at null when it is the last node. */
  ghost predicate LinkAt<T(0)>(nodes: seq<Node<T>>, contents: seq<T>, i: int)
    reads if 0 <= i < |nodes| then {nodes[i]} else {}
  {
    0 <= i < |nodes| && i < |contents| &&
    nodes[i].value == contents[i] &&
    nodes[i].next == (if i + 1 < |nodes| then nodes[i + 1] else null)
  }

  /** No node appears twice. */
  ghost predicate Distinct<X>(s: seq<X>)
  {
    forall i, j :: 0 <= i < j < |s| ==> s[i] != s[j]
  }

  /** The chain starting at `first` is exactly `nodes`, carrying `contents`,
      null-terminated and without repeated nodes; `repr` holds exactly these nodes. */
  ghost predicate Chain<T(0)>(first: Node?<T>, nodes: seq<Node<T>>, contents: seq<T>, repr: set<Node<T>>)
    reads repr
  {
    |nodes| == |contents| &&
    (forall i :: 0 <= i < |nodes| ==> nodes[i] in repr) &&
    (forall n :: n in repr ==> n in nodes) &&
    Distinct(nodes) &&
    first == (if nodes == [] then null else nodes[0]) &&
    (forall i {:trigger LinkAt(nodes, contents, i)} :: 0 <= i < |nodes| ==> LinkAt(nodes, contents, i))
  }

  class SingleLinkedList<T(0)> {
    /** The sentinel: never holds an element, never changes identity. */
    const head: Node<T>
    var size: nat
    ghost var contents: seq<T>
    ghost var nodes: seq<Node<T>>
    /** The real nodes this list owns, exactly those of the chain (the sentinel is not among them). */
    ghost var Repr: set<Node<T>>

    /** The chain hanging off the sentinel; `size` is not yet tied to it. */
    ghost predicate Linked()
      reads this`contents, this`nodes, this`Repr, head, Repr
    {
      head !in Repr && Chain(head.next, nodes, contents, Repr)
    }

    /** The object invariant: a well-formed chain whose length is `size`. */
    ghost predicate Valid()
      reads this, head, Repr
    {
      Linked() && size == |contents|
    }

    /** Iterator `it` stands at index `i`: -1 is before_begin() (the sentinel),
        |contents| is end() (null), anything in between is the node holding contents[i]. */
    ghost predicate IsPosition(it: Node?<T>, i: int)
      reads this
    {
      -1 <= i <= |nodes| &&
      it == (if i == -1 then head else if i == |nodes| then null else nodes[i])
    }

    /** Two distinct lists own disjoint chains and distinct sentinels, as
        single ownership of nodes guarantees. */
    ghost predicate Disjoint(other: SingleLinkedList<T>)
      reads this, other
    {
      this != other && head != other.head &&
      head !in other.Repr && other.head !in Repr && Repr !! other.Repr
    }

    constructor ()
      ensures Valid() && contents == [] && size == 0
      ensures fresh(head) && Repr == {}
    {
      head := new Node.Sentinel();
      size := 0;
      contents := [];
      nodes := [];
      Repr := {};
    }

    /** Construction from an initializer list: the elements in the given order. */
    constructor FromValues(values: seq<T>)
      ensures Valid() && contents == values && size == |values|
      ensures fresh(head) && fresh(Repr)
    {
      head := new Node.Sentinel();
      size := 0;
      contents := [];
      nodes := [];
      Repr := {};
      new;
      CopiringElement(values);
      size := |values|;
    }

    /** Copy construction: an independent chain holding the same elements in the same order. */
    constructor Copy(other: SingleLinkedList<T>)
      requires other.Valid()
      ensures Valid() && contents == other.contents && size == other.size
      ensures fresh(head) && fresh(Repr) && Disjoint(other)
    {
      head := new Node.Sentinel();
      size := 0;
      contents := [];
      nodes := [];
      Repr := {};
      new;
      CopiringElementFrom(other);
      size := other.GetSize();
    }

    /** The inner `while` of CopiringElement: from the first node, follow the
        links until the node whose link is null. */
    method FindLast() returns (last: Node<T>)
      requires Linked() && nodes != []
      ensures last == nodes[|nodes| - 1]
    {
      last := head.next;
      ghost var k := 0;
      while last.next != null
        invariant 0 <= k < |nodes| && last == nodes[k]
        decreases |nodes| - k
      {
        assert LinkAt(nodes, contents, k);
        last := last.next;
        k := k + 1;
      }
      assert LinkAt(nodes, contents, k);
    }

    /** One step of CopiringElement: link a new node holding `v` after the
        last node, or after the sentinel when the chain is empty. */
    method AppendBack(v: T)
      requires Linked()
      modifies this, head`next, Repr`next
      ensures Linked() && size == old(size)
      ensures contents == old(contents) + [v]
      ensures |nodes| == |old(nodes)| + 1 && nodes[..|old(nodes)|] == old(nodes)
      ensures Repr == old(Repr) + {nodes[|old(nodes)|]} && fresh(nodes[|old(nodes)|])
    {
      if head.next == null {
        var n := new Node(v, head.next);
        head.next := n;
        contents := contents + [v];
        nodes := nodes + [n];
        Repr := Repr + {n};
        assert LinkAt(nodes, contents, 0);
      } else {
        var last := FindLast();
        var n := new Node(v, null);
        last.next := n;
        contents := contents + [v];
        nodes := nodes + [n];
        Repr := Repr + {n};
        forall j | 0 <= j < |nodes|
          ensures LinkAt(nodes, contents, j)
        {
          if j < |nodes| - 1 {
            assert old(LinkAt(nodes, contents, j));
          }
        }
      }
    }

    /** Appends copies of `values`, in order, at the tail; `size` is left for the caller. */
    method CopiringElement(values: seq<T>)
      requires Linked()
      modifies this, head`next, Repr`next
      ensures Linked() && size == old(size)
      ensures contents == old(contents) + values
      ensures |nodes| >= |old(nodes)| && nodes[..|old(nodes)|] == old(nodes)
      ensures old(Repr) <= Repr && fresh(Repr - old(Repr))
    {
      for k := 0 to |values|
        invariant Linked() && size == old(size)
        invariant contents == old(contents) + values[..k]
        invariant |nodes| >= |old(nodes)| && nodes[..|old(nodes)|] == old(nodes)
        invariant old(Repr) <= Repr && fresh(Repr - old(Repr))
      {
        AppendBack(values[k]);
      }
    }

    /** CopiringElement instantiated with another list: iterates `other` from
        begin() to end() and appends a copy of each element. */
    method CopiringElementFrom(other: SingleLinkedList<T>)
      requires Linked() && other.Valid() && Disjoint(other)
      modifies this, head`next, Repr`next
      ensures Linked() && size == old(size)
      ensures contents == old(contents) + other.contents
      ensures |nodes| >= |old(nodes)| && nodes[..|old(nodes)|] == old(nodes)
      ensures old(Repr) <= Repr && fresh(Repr - old(Repr))
      ensures Disjoint(other)
    {
      var it := other.Begin();
      ghost var k := 0;
      while it != other.End()
        invariant Linked() && size == old(size)
        invariant other.Valid() && Disjoint(other)
        invariant 0 <= k <= |other.contents| && other.IsPosition(it, k)
        invariant contents == old(contents) + other.contents[..k]
        invariant |nodes| >= |old(nodes)| && nodes[..|old(nodes)|] == old(nodes)
        invariant old(Repr) <= Repr && fresh(Repr - old(Repr))
        decreases |other.contents| - k
      {
        AppendBack(other.Deref(it));
        it := other.Advance(it);
        k := k + 1;
      }
    }

    function GetSize(): (n: nat)
      requires Valid()
      reads this, head, Repr
      ensures n == |contents|
    {
      size
    }

    function IsEmpty(): (b: bool)
      requires Valid()
      reads this, head, Repr
      ensures b <==> contents == []
    {
      GetSize() == 0
    }

    /** A new first node holding `value`. */
    method PushFront(value: T)
      requires Valid()
      modifies this, head`next
      ensures Valid()
      ensures contents == [value] + old(contents) && size == old(size) + 1
      ensures |nodes| == |old(nodes)| + 1 && nodes[1..] == old(nodes)
      ensures Repr == old(Repr) + {nodes[0]} && fresh(nodes[0])
    {
      var n := new Node(value, head.next);
      head.next := n;
      size := size + 1;
      contents := [value] + contents;
      nodes := [n] + nodes;
      Repr := Repr + {n};
      forall j | 0 <= j < |nodes|
        ensures LinkAt(nodes, contents, j)
      {
        if j > 0 {
          assert old(LinkAt(nodes, contents, j - 1));
        }
      }
    }

    /** Unlinks the first node, which the list then no longer owns. */
    method PopFront()
      requires Valid() && !IsEmpty()
      modifies this, head`next
      ensures Valid()
      ensures contents == old(contents)[1..] && size == old(size) - 1
      ensures nodes == old(nodes)[1..] && Repr == old(Repr) - {old(nodes)[0]}
    {
      ghost var first := head.next;
      assert LinkAt(nodes, contents, 0);
      head.next := head.next.next;
      size := size - 1;
      contents := contents[1..];
      nodes := nodes[1..];
      Repr := Repr - {first};
      forall j | 0 <= j < |nodes|
        ensures LinkAt(nodes, contents, j)
      {
        assert old(LinkAt(nodes, contents, j + 1));
      }
    }

    /** Unlinks nodes from the front while `size` is non-zero; each round is
        exactly the unlinking PopFront does. */
    method Clear()
      requires Valid()
      modifies this, head`next
      ensures Valid() && contents == [] && size == 0 && nodes == [] && Repr == {}
      ensures head.next == null
      ensures old(contents) == [] ==> head.next == old(head.next)
    {
      while size != 0
        invariant Valid() && Repr <= old(Repr)
        invariant |old(nodes)| >= size && nodes == old(nodes)[|old(nodes)| - size..]
        decreases size
      {
        PopFront();
      }
    }

    /** Exchanges the chains and sizes of two lists; no node or value is touched. */
    method Swap(other: SingleLinkedList<T>)
      requires Valid() && other.Valid()
      requires this != other ==> Disjoint(other)
      modifies this, head`next, other, other.head`next
      ensures Valid() && other.Valid()
      ensures contents == old(other.contents) && other.contents == old(contents)
      ensures size == old(other.size) && other.size == old(size)
      ensures nodes == old(other.nodes) && other.nodes == old(nodes)
      ensures Repr == old(other.Repr) && other.Repr == old(Repr)
    {
      ghost var c, ns, r := contents, nodes, Repr;
      ghost var oc, ons, orr := other.contents, other.nodes, other.Repr;
      var chain := head.next;
      head.next := other.head.next;
      other.head.next := chain;
      var n := size;
      size := other.size;
      other.size := n;
      contents, nodes, Repr := oc, ons, orr;
      other.contents, other.nodes, other.Repr := c, ns, r;
    }

    /** Copy assignment by copy-and-swap; self-assignment does nothing. */
    method Assign(rhs: SingleLinkedList<T>)
      requires Valid() && rhs.Valid()
      requires this != rhs ==> Disjoint(rhs)
      modifies this, head`next
      ensures Valid() && rhs.Valid()
      ensures contents == old(rhs.contents) && size == old(rhs.size)
      ensures rhs.contents == old(rhs.contents) && rhs.size == old(rhs.size)
      ensures this == rhs ==> nodes == old(nodes)
      ensures this != rhs ==> Disjoint(rhs) && fresh(Repr)
    {
      if this != rhs {
        var copy := new SingleLinkedList.Copy(rhs);
        Swap(copy);
      }
    }

    /** before_begin(): the sentinel. */
    function BeforeBegin(): (it: Node?<T>)
      reads this
      ensures it != null && IsPosition(it, -1)
    {
      head
    }

    /** begin(): the first node, or end() when the list is empty. */
    function Begin(): (it: Node?<T>)
      requires Valid()
      reads this, head, Repr
      ensures IsPosition(it, 0)
      ensures it == End() <==> IsEmpty()
    {
      head.next
    }

    /** end(): the null iterator. */
    function End(): (it: Node?<T>)
      requires Valid()
      reads this, head, Repr
      ensures IsPosition(it, |contents|)
    {
      null
    }

    /** Prefix (and postfix) `++`: the iterator moves to the next position. */
    function Advance(it: Node?<T>): (r: Node?<T>)
      requires Valid() && it != null && (it == head || it in Repr)
      reads this, head, Repr
      ensures forall i :: IsPosition(it, i) ==> IsPosition(r, i + 1)
    {
      assert forall i :: IsPosition(it, i) && 0 <= i ==> LinkAt(nodes, contents, i);
      it.next
    }

    /** `*it`: the element at a dereferenceable position. */
    function Deref(it: Node?<T>): (v: T)
      requires Valid() && it != null && it in Repr
      reads this, head, Repr
      ensures forall i :: IsPosition(it, i) ==> 0 <= i < |contents| && v == contents[i]
    {
      assert forall i :: IsPosition(it, i) && 0 <= i ==> LinkAt(nodes, contents, i);
      it.value
    }

    /** `*it = v` through a mutable iterator: the element at that position is
        overwritten in place; no link changes. */
    method Store(it: Node<T>, v: T)
      requires Valid() && it in Repr
      modifies this, it`value
      ensures Valid() && size == old(size) && nodes == old(nodes) && Repr == old(Repr)
      ensures forall i :: 0 <= i < |nodes| && nodes[i] == it ==> contents == old(contents)[i := v]
    {
      ghost var i :| 0 <= i < |nodes| && nodes[i] == it;
      assert forall i' :: 0 <= i' < |nodes| && nodes[i'] == it ==> i' == i;
      it.value := v;
      contents := contents[i := v];
      forall j | 0 <= j < |nodes|
        ensures LinkAt(nodes, contents, j)
      {
        assert old(LinkAt(nodes, contents, j));
      }
    }

    /** Iterator `==`: two positions are equal exactly when they reference the same node. */
    function SamePosition(a: Node?<T>, b: Node?<T>): (r: bool)
      requires Valid()
      reads this, head, Repr
      ensures forall i, j :: IsPosition(a, i) && IsPosition(b, j) ==> (r <==> i == j)
    {
      a == b
    }

    /** Inserts `value` right after position `pos` and returns an iterator to the new node. */
    method InsertAfter(pos: Node?<T>, value: T) returns (it: Node?<T>)
      requires Valid() && pos != null && (pos == head || pos in nodes)
      modifies this, pos`next
      ensures Valid() && size == old(size) + 1
      ensures it != null && fresh(it) && it.value == value && pos.next == it
      ensures Repr == old(Repr) + {it}
      ensures pos == head ==>
        contents == [value] + old(contents) && nodes == [it] + old(nodes)
      ensures forall i :: 0 <= i < |old(nodes)| && old(nodes)[i] == pos ==>
        contents == InsertAt(old(contents), i + 1, value) && nodes == InsertAt(old(nodes), i + 1, it)
    {
      if pos == BeforeBegin() {
        PushFront(value);
        it := head.next;
        assert LinkAt(nodes, contents, 0);
      } else {
        ghost var i :| 0 <= i < |nodes| && nodes[i] == pos;
        assert forall i' :: 0 <= i' < |nodes| && nodes[i'] == pos ==> i' == i;
        it := LinkAfter(pos, i, value);
      }
    }

    /** The non-sentinel branch of InsertAfter: a new node holding `value` is
        linked between node `i` and its successor. */
    method LinkAfter(pos: Node<T>, ghost i: nat, value: T) returns (it: Node<T>)
      requires Valid() && i < |nodes| && nodes[i] == pos
      modifies this, pos`next
      ensures Valid() && size == old(size) + 1
      ensures fresh(it) && it.value == value && pos.next == it
      ensures Repr == old(Repr) + {it}
      ensures contents == InsertAt(old(contents), i + 1, value) && nodes == InsertAt(old(nodes), i + 1, it)
    {
      assert LinkAt(nodes, contents, i);
      var elem := new Node(value, pos.next);
      pos.next := elem;
      size := size + 1;
      contents := InsertAt(contents, i + 1, value);
      nodes := InsertAt(nodes, i + 1, elem);
      Repr := Repr + {elem};
      it := elem;
      InsertAtDistinct(old(nodes), i + 1, elem);
      forall j | 0 <= j < |nodes|
        ensures LinkAt(nodes, contents, j)
      {
        if j < i {
          assert old(LinkAt(nodes, contents, j));
        } else if i + 1 < j {
          assert old(LinkAt(nodes, contents, j - 1));
        }
      }
    }

    /** Unlinks the node right after position `pos` and returns the iterator that now follows `pos`. */
    method EraseAfter(pos: Node?<T>) returns (it: Node?<T>)
      requires Valid() && !IsEmpty() && pos != null && (pos == head || pos in nodes)
      requires pos.next != null
      modifies this, pos`next
      ensures Valid() && size == old(size) - 1 && it == pos.next
      ensures Repr == old(Repr) - {old(pos.next)}
      ensures pos == head ==> contents == old(contents)[1..] && nodes == old(nodes)[1..]
      ensures forall i :: 0 <= i < |old(nodes)| - 1 && old(nodes)[i] == pos ==>
        contents == RemoveAt(old(contents), i + 1) && nodes == RemoveAt(old(nodes), i + 1)
      ensures forall i :: IsPosition(pos, i) ==> IsPosition(it, i + 1)
    {
      if pos == BeforeBegin() {
        PopFront();
        it := head.next;
      } else {
        ghost var i :| 0 <= i < |nodes| && nodes[i] == pos;
        assert forall i' :: 0 <= i' < |nodes| && nodes[i'] == pos ==> i' == i;
        assert LinkAt(nodes, contents, i);
        it := UnlinkAfter(pos, i);
      }
    }

    /** The non-sentinel branch of EraseAfter: node `i + 1` is unlinked and
        node `i` points at what followed it. */
    method UnlinkAfter(pos: Node<T>, ghost i: nat) returns (it: Node?<T>)
      requires Valid() && i + 1 < |nodes| && nodes[i] == pos
      modifies this, pos`next
      ensures Valid() && size == old(size) - 1 && it == pos.next
      ensures Repr == old(Repr) - {old(nodes)[i + 1]}
      ensures contents == RemoveAt(old(contents), i + 1) && nodes == RemoveAt(old(nodes), i + 1)
      ensures IsPosition(it, i + 1)
    {
      assert LinkAt(nodes, contents, i);
      assert LinkAt(nodes, contents, i + 1);
      ghost var gone := pos.next;
      pos.next := pos.next.next;
      size := size - 1;
      contents := RemoveAt(contents, i + 1);
      nodes := RemoveAt(nodes, i + 1);
      Repr := Repr - {gone};
      it := pos.next;
      RemoveAtDistinct(old(nodes), i + 1);
      forall j | 0 <= j < |nodes|
        ensures LinkAt(nodes, contents, j)
      {
        if j < i {
          assert old(LinkAt(nodes, contents, j));
        } else if i < j {
          assert old(LinkAt(nodes, contents, j + 1));
        }
      }
    }
  }

  /** `s` with `x` inserted so that it lands at index `k`. */
  ghost function InsertAt<X>(s: seq<X>, k: nat, x: X): (r: seq<X>)
    requires k <= |s|
    ensures |r| == |s| + 1 && r[k] == x
    ensures forall j :: 0 <= j < k ==> r[j] == s[j]
    ensures forall j :: k < j < |r| ==> r[j] == s[j - 1]
  {
    s[..k] + [x] + s[k..]
  }

  /** `s` without the element at index `k`. */
  ghost function RemoveAt<X>(s: seq<X>, k: nat): (r: seq<X>)
    requires k < |s|
    ensures |r| == |s| - 1
    ensures forall j :: 0 <= j < k ==> r[j] == s[j]
    ensures forall j :: k <= j < |r| ==> r[j] == s[j + 1]
  {
    s[..k] + s[k + 1..]
  }

  lemma InsertAtDistinct<X>(s: seq<X>, k: nat, x: X)
    requires k <= |s| && Distinct(s) && x !in s
    ensures Distinct(InsertAt(s, k, x))
  {
  }

  lemma RemoveAtDistinct<X>(s: seq<X>, k: nat)
    requires k < |s| && Distinct(s)
    ensures Distinct(RemoveAt(s, k)) && s[k] !in RemoveAt(s, k)
  {
  }

  /** The free `swap(lhs, rhs)`. */
  method SwapLists<T(0)>(lhs: SingleLinkedList<T>, rhs: SingleLinkedList<T>)
    requires lhs.Valid() && rhs.Valid()
    requires lhs != rhs ==> lhs.Disjoint(rhs)
    modifies lhs, lhs.head`next, rhs, rhs.head`next
    ensures lhs.Valid() && rhs.Valid()
    ensures lhs.contents == old(rhs.contents) && rhs.contents == old(lhs.contents)
    ensures lhs.size == old(rhs.size) && rhs.size == old(lhs.size)
    ensures lhs.nodes == old(rhs.nodes) && rhs.nodes == old(lhs.nodes)
    ensures lhs.Repr == old(rhs.Repr) && rhs.Repr == old(lhs.Repr)
  {
    lhs.Swap(rhs);
  }
}
