/** The circular doubly linked list of common/list.h.
 *
 * An avl_node begins with its list entity and the code casts freely between the two, so one class
 * stands for both: the head of a list is a node whose tree fields are never used.
 */
module OonfList {
  import opened Basics

  newtype int8 = x: int | -128 <= x < 128

  /** struct avl_node: the list entity (next, prev) and the tree fields around it. */
  class Node<K> {
    var next: Node?<K>
    var prev: Node?<K>
    var parent: Node?<K>
    var left: Node?<K>
    var right: Node?<K>
    const key: K
    var balance: int8
    var follower: bool

    constructor (key: K)
      ensures this.key == key && next == null && prev == null
    {
      this.key := key;
      next, prev, parent, left, right := null, null, null, null, null;
      balance, follower := 0, false;
    }
  }

  ghost function Elems<T>(s: seq<T>): (r: set<T>) {
    set x | x in s
  }

  /** Position i of the ring: the head at both ends, the i-th element of s in between. */
  ghost function At<K>(head: Node<K>, s: seq<Node<K>>, i: nat): (r: Node<K>)
    requires i <= |s| + 1
    ensures r == head || r in s
  {
    if i == 0 || i == |s| + 1 then head else s[i - 1]
  }

  /** The two rings of pointers run through exactly head and then the elements of s. */
  ghost predicate Ring<K>(head: Node<K>, s: seq<Node<K>>)
    reads head`next, head`prev, Elems(s)`next, Elems(s)`prev
  {
    && head !in s
    && Distinct(s)
    && (forall i: nat {:trigger At(head, s, i).next} :: i <= |s| ==> At(head, s, i).next == At(head, s, i + 1))
    && (forall i: nat {:trigger At(head, s, i).prev} :: 1 <= i <= |s| + 1 ==> At(head, s, i).prev == At(head, s, i - 1))
  }

  ghost function Inserted<T>(s: seq<T>, i: nat, x: T): (r: seq<T>)
    requires i <= |s|
  {
    s[..i] + [x] + s[i..]
  }

  lemma DistinctConcat<T>(s: seq<T>, t: seq<T>)
    ensures Distinct(s + t) <==> Distinct(s) && Distinct(t) && Elems(s) !! Elems(t)
  {
    var r := s + t;
    assert forall i :: 0 <= i < |s| ==> s[i] == r[i];
    assert forall j :: 0 <= j < |t| ==> t[j] == r[|s| + j];
    if Distinct(s) && Distinct(t) && !Distinct(r) {
      var i, j :| 0 <= i < j < |r| && r[i] == r[j];
      assert i < |s| <= j ==> s[i] in Elems(s) && t[j - |s|] in Elems(t);
    }
  }

  lemma DistinctInserted<T>(s: seq<T>, i: nat, x: T)
    requires i <= |s|
    requires Distinct(s) && x !in s
    ensures Distinct(Inserted(s, i, x))
  {
  }

  /** oonf_list_init_head */
  method InitHead<K>(head: Node<K>)
    modifies head`next, head`prev
    ensures Ring(head, [])
  {
    head.next, head.prev := head, head;
  }

  /** __oonf_list_add, for prev and next that are neighbours at position i of a ring. */
  method ListAdd<K>(prev: Node<K>, next: Node<K>, new_: Node<K>, ghost head: Node<K>, ghost s: seq<Node<K>>,
                    ghost i: nat)
    requires Ring(head, s)
    requires i <= |s| && prev == At(head, s, i) && next == At(head, s, i + 1)
    requires new_ != head && new_ !in s
    modifies head`next, head`prev, Elems(s)`next, Elems(s)`prev, new_`next, new_`prev
    ensures Ring(head, Inserted(s, i, new_))
  {
    new_.next := next;
    new_.prev := prev;
    next.prev := new_;
    prev.next := new_;
    ghost var r := Inserted(s, i, new_);
    DistinctInserted(s, i, new_);
    forall k: nat | k <= |r|
      ensures At(head, r, k).next == At(head, r, k + 1) && At(head, r, k + 1).prev == At(head, r, k)
    {
      if k < i {
        assert At(head, r, k) == At(head, s, k) && At(head, r, k + 1) == At(head, s, k + 1);
      } else if k > i + 1 {
        assert At(head, r, k) == At(head, s, k - 1) && At(head, r, k + 1) == At(head, s, k);
      }
    }
  }

  /** oonf_list_remove of the i-th element: its neighbours are joined and its own pointers cleared. */
  method ListRemove<K>(entity: Node<K>, ghost head: Node<K>, ghost s: seq<Node<K>>, ghost i: nat)
    requires Ring(head, s)
    requires i < |s| && s[i] == entity
    modifies head`next, head`prev, Elems(s)`next, Elems(s)`prev
    ensures Ring(head, Without(s, i))
    ensures entity.next == null && entity.prev == null
  {
    assert entity == At(head, s, i + 1);
    var prev, next := entity.prev, entity.next;
    assert prev == At(head, s, i) && next == At(head, s, i + 2);
    prev.next := next;
    next.prev := prev;
    entity.next, entity.prev := null, null;
    ghost var r := Without(s, i);
    forall k: nat | k <= |r|
      ensures At(head, r, k).next == At(head, r, k + 1) && At(head, r, k + 1).prev == At(head, r, k)
    {
      if k < i {
        assert At(head, r, k) == At(head, s, k) && At(head, r, k + 1) == At(head, s, k + 1);
      } else if k > i {
        assert At(head, r, k) == At(head, s, k + 1) && At(head, r, k + 1) == At(head, s, k + 2);
      } else {
        assert At(head, r, k) == At(head, s, k) && At(head, r, k + 1) == At(head, s, k + 2);
      }
    }
  }

  /** oonf_list_add_head and oonf_list_add_tail */
  method AddHead<K>(head: Node<K>, new_: Node<K>, ghost s: seq<Node<K>>)
    requires Ring(head, s) && new_ != head && new_ !in s
    modifies head`next, head`prev, Elems(s)`next, Elems(s)`prev, new_`next, new_`prev
    ensures Ring(head, [new_] + s)
  {
    assert head == At(head, s, 0);
    ListAdd(head, head.next, new_, head, s, 0);
    assert Inserted(s, 0, new_) == [new_] + s;
  }

  method AddTail<K>(head: Node<K>, new_: Node<K>, ghost s: seq<Node<K>>)
    requires Ring(head, s) && new_ != head && new_ !in s
    modifies head`next, head`prev, Elems(s)`next, Elems(s)`prev, new_`next, new_`prev
    ensures Ring(head, s + [new_])
  {
    assert head == At(head, s, |s| + 1);
    ListAdd(head.prev, head, new_, head, s, |s|);
    assert Inserted(s, |s|, new_) == s + [new_];
  }

  /** oonf_list_is_empty */
  method IsEmpty<K>(head: Node<K>, ghost s: seq<Node<K>>) returns (r: bool)
    requires Ring(head, s)
    ensures r <==> s == []
  {
    assert head == At(head, s, 0) == At(head, s, |s| + 1);
    r := head.next == head && head.prev == head;
  }

  /** oonf_list_merge: the elements of the second list follow those of the first, and the second is empty. */
  method Merge<K>(addTo: Node<K>, removeFrom: Node<K>, ghost s: seq<Node<K>>, ghost t: seq<Node<K>>)
    requires Ring(addTo, s) && Ring(removeFrom, t)
    requires addTo != removeFrom && addTo !in t && removeFrom !in s && Elems(s) !! Elems(t)
    modifies addTo`next, addTo`prev, removeFrom`next, removeFrom`prev, Elems(s)`next, Elems(s)`prev, Elems(t)`next,
      Elems(t)`prev
    ensures Ring(addTo, s + t) && Ring(removeFrom, [])
  {
    var empty := IsEmpty(removeFrom, t);
    if empty {
      assert s + t == s;
      return;
    }
    ghost var last, r := At(addTo, s, |s|), s + t;
    assert addTo.prev == last by { assert addTo == At(addTo, s, |s| + 1); }
    assert removeFrom.next == t[0] by { assert removeFrom == At(removeFrom, t, 0); }
    assert removeFrom.prev == t[|t| - 1] by { assert removeFrom == At(removeFrom, t, |t| + 1); }
    addTo.prev.next := removeFrom.next;
    removeFrom.next.prev := addTo.prev;
    addTo.prev := removeFrom.prev;
    removeFrom.prev.next := addTo;
    InitHead(removeFrom);
    DistinctConcat(s, t);
    forall k: nat | k <= |r|
      ensures At(addTo, r, k).next == At(addTo, r, k + 1) && At(addTo, r, k + 1).prev == At(addTo, r, k)
    {
      if k < |s| {
        assert At(addTo, r, k) == At(addTo, s, k) && At(addTo, r, k + 1) == At(addTo, s, k + 1);
      } else if k > |s| {
        assert At(addTo, r, k) == At(removeFrom, t, k - |s|)
          && (k < |r| ==> At(addTo, r, k + 1) == At(removeFrom, t, k + 1 - |s|));
      } else {
        assert At(addTo, r, k) == last && At(addTo, r, k + 1) == t[0];
      }
    }
  }
}
