/**
 Properties that relate several list operations: inverse pairs, independence
 of copies, and the concrete push/pop/clear scenario.
 */
module ListProperties {
  import opened LinkedList

  /** Removing what was just inserted at the same index gives back the sequence. */
  lemma RemoveInsert<X>(s: seq<X>, k: nat, x: X)
    requires k <= |s|
    ensures RemoveAt(InsertAt(s, k, x), k) == s
  {
  }

  /** EraseAfter(pos) undoes InsertAfter(pos, v): the same elements, nodes and size. */
  method InsertThenErase<T(0)>(l: SingleLinkedList<T>, pos: Node?<T>, v: T)
    requires l.Valid() && pos != null && (pos == l.head || pos in l.nodes)
    modifies l, pos`next
    ensures l.Valid()
    ensures l.contents == old(l.contents) && l.size == old(l.size)
    ensures l.nodes == old(l.nodes) && l.Repr == old(l.Repr)
  {
    if pos == l.head {
      InsertThenEraseAtFront(l, v);
    } else {
      ghost var i :| 0 <= i < |l.nodes| && l.nodes[i] == pos;
      InsertThenEraseAfterNode(l, pos, i, v);
    }
  }

  /** The round trip from before_begin(). */
  method InsertThenEraseAtFront<T(0)>(l: SingleLinkedList<T>, v: T)
    requires l.Valid()
    modifies l, l.head`next
    ensures l.Valid()
    ensures l.contents == old(l.contents) && l.size == old(l.size)
    ensures l.nodes == old(l.nodes) && l.Repr == old(l.Repr)
  {
    var it := l.InsertAfter(l.BeforeBegin(), v);
    it := l.EraseAfter(l.BeforeBegin());
  }

  /** The round trip from the real node at index `i`. */
  method InsertThenEraseAfterNode<T(0)>(l: SingleLinkedList<T>, pos: Node<T>, ghost i: nat, v: T)
    requires l.Valid() && i < |l.nodes| && l.nodes[i] == pos
    modifies l, pos`next
    ensures l.Valid()
    ensures l.contents == old(l.contents) && l.size == old(l.size)
    ensures l.nodes == old(l.nodes) && l.Repr == old(l.Repr)
  {
    var it := l.InsertAfter(pos, v);
    ghost var mid, midContents := l.nodes, l.contents;
    assert mid == InsertAt(old(l.nodes), i + 1, it) && midContents == InsertAt(old(l.contents), i + 1, v);
    assert mid[i] == pos && i < |mid| - 1;
    var next := l.EraseAfter(pos);
    assert l.nodes == RemoveAt(mid, i + 1) && l.contents == RemoveAt(midContents, i + 1);
    RemoveInsert(old(l.contents), i + 1, v);
    RemoveInsert(old(l.nodes), i + 1, it);
  }

  /** swap is its own inverse. */
  method SwapTwice<T(0)>(a: SingleLinkedList<T>, b: SingleLinkedList<T>)
    requires a.Valid() && b.Valid() && (a != b ==> a.Disjoint(b))
    modifies a, a.head`next, b, b.head`next
    ensures a.Valid() && b.Valid()
    ensures a.contents == old(a.contents) && a.size == old(a.size) && a.nodes == old(a.nodes)
    ensures b.contents == old(b.contents) && b.size == old(b.size) && b.nodes == old(b.nodes)
  {
    a.Swap(b);
    a.Swap(b);
  }

  /** The free swap is its own inverse too, and leaves both lists ready for another swap. */
  method SwapListsTwice<T(0)>(a: SingleLinkedList<T>, b: SingleLinkedList<T>)
    requires a.Valid() && b.Valid() && (a != b ==> a.Disjoint(b))
    modifies a, a.head`next, b, b.head`next
    ensures a.Valid() && b.Valid() && (a != b ==> a.Disjoint(b))
    ensures a.contents == old(a.contents) && a.size == old(a.size) && a.nodes == old(a.nodes)
    ensures b.contents == old(b.contents) && b.size == old(b.size) && b.nodes == old(b.nodes)
  {
    SwapLists(a, b);
    SwapLists(a, b);
  }

  /** Writing through `*it` changes the element there, which reads back as
      written, and no other element. */
  method StoreThenRead<T(0)>(l: SingleLinkedList<T>, it: Node<T>, ghost i: nat, v: T)
    requires l.Valid() && i < |l.nodes| && l.nodes[i] == it
    modifies l, it`value
    ensures l.Valid() && l.size == old(l.size) && it in l.Repr
    ensures l.Deref(it) == v
    ensures forall j :: 0 <= j < |l.contents| && j != i ==> l.contents[j] == old(l.contents[j])
  {
    l.Store(it, v);
    assert l.IsPosition(it, i);
  }

  /** Pushing onto a copy leaves the original as it was. */
  method PushOntoCopy<T(0)>(a: SingleLinkedList<T>, v: T) returns (b: SingleLinkedList<T>)
    requires a.Valid()
    ensures a.Valid() && b.Valid() && b.Disjoint(a)
    ensures b.contents == [v] + a.contents && b.size == a.size + 1
  {
    b := new SingleLinkedList.Copy(a);
    b.PushFront(v);
  }

  /** Pushing onto the original leaves an earlier copy as it was. */
  method PushOntoOriginal<T(0)>(a: SingleLinkedList<T>, v: T) returns (b: SingleLinkedList<T>)
    requires a.Valid()
    modifies a, a.head`next
    ensures a.Valid() && b.Valid()
    ensures a.contents == [v] + old(a.contents) && b.contents == old(a.contents)
  {
    b := new SingleLinkedList.Copy(a);
    a.PushFront(v);
  }

  /** Build {1, 2, 3}, push 0 at the front, pop twice, then clear; `sizes`
      and `fronts` record GetSize() and the first element after each step. */
  method Scenario() returns (l: SingleLinkedList<int>, sizes: seq<nat>, fronts: seq<int>)
    ensures l.Valid() && l.IsEmpty() && l.contents == []
    ensures sizes == [3, 4, 2, 0] && fronts == [1, 0, 2]
  {
    l := new SingleLinkedList.FromValues([1, 2, 3]);
    var n := l.GetSize();
    var f := l.Deref(l.Begin());
    sizes, fronts := [n], [f];
    l.PushFront(0);
    assert l.contents == [0, 1, 2, 3];
    n := l.GetSize();
    f := l.Deref(l.Begin());
    sizes, fronts := sizes + [n], fronts + [f];
    l.PopFront();
    assert l.contents == [1, 2, 3];
    l.PopFront();
    assert l.contents == [2, 3];
    n := l.GetSize();
    f := l.Deref(l.Begin());
    sizes, fronts := sizes + [n], fronts + [f];
    l.Clear();
    n := l.GetSize();
    sizes := sizes + [n];
  }
}
