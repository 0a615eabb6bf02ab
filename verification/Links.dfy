/** The two doubly linked lists that run through the elements, and the pointer surgery on them. */
module Links {
  import opened HashTypes
  import opened TableSpec

  /** The element at position i; null outside the list. */
  function EltAt(s: seq<Item>, i: int): Elem? {
    if 0 <= i < |s| then s[i].elt else null
  }

  /** The element at position i, as a set. */
  ghost function Near(s: seq<Item>, i: int): set<Elem> {
    if 0 <= i < |s| then {s[i].elt} else {}
  }

  ghost function Elts(s: seq<Item>): set<Elem> {
    set x | x in s :: x.elt
  }

  /** The next pointers lead through s to null. */
  ghost predicate AppNextLinked(s: seq<Item>)
    reads Elts(s)`next
  {
    forall i {:trigger s[i].elt.next} :: 0 <= i < |s| ==> s[i].elt.next == EltAt(s, i + 1)
  }

  ghost predicate AppPrevLinked(s: seq<Item>)
    reads Elts(s)`prev
  {
    forall i {:trigger s[i].elt.prev} :: 0 <= i < |s| ==> s[i].elt.prev == EltAt(s, i - 1)
  }

  /** s is the application list: prev is the exact inverse of next, null at the ends. */
  ghost predicate AppLinked(s: seq<Item>)
    reads Elts(s)`prev, Elts(s)`next
  {
    AppPrevLinked(s) && AppNextLinked(s)
  }

  /** The hhNext pointers lead through s to null. */
  ghost predicate HhNextLinked(s: seq<Item>)
    reads Elts(s)`hhNext
  {
    forall i {:trigger s[i].elt.hhNext} :: 0 <= i < |s| ==> s[i].elt.hhNext == EltAt(s, i + 1)
  }

  ghost predicate HhPrevLinked(s: seq<Item>)
    reads Elts(s)`hhPrev
  {
    forall i {:trigger s[i].elt.hhPrev} :: 0 <= i < |s| ==> s[i].elt.hhPrev == EltAt(s, i - 1)
  }

  /** s is a bucket chain. */
  ghost predicate HhLinked(s: seq<Item>)
    reads Elts(s)`hhPrev, Elts(s)`hhNext
  {
    HhPrevLinked(s) && HhNextLinked(s)
  }

  /** The handles hold the keys and hash values that the items say. */
  ghost predicate Keyed(s: seq<Item>)
    reads Elts(s)`key, Elts(s)`hashv
  {
    forall x :: x in s ==> x.elt.key == x.key && x.elt.hashv == x.hashv
  }

  /** Links a new element in front of a chain. */
  method LinkFront(e: Elem, first: Elem?, ghost x: Item, ghost c: seq<Item>)
    requires HhLinked(c) && NoDup(c) && first == EltAt(c, 0)
    requires x.elt == e && e !in Elts(c)
    modifies e`hhNext, e`hhPrev
    modifies (if first == null then {} else {first})`hhPrev
    ensures HhLinked([x] + c)
  {
    e.hhNext := first;
    e.hhPrev := null;
    if first != null {
      first.hhPrev := e;
    }
  }

  /** Unlinks position k of a chain; returns the new front. */
  method UnlinkHh(d: Elem, first: Elem?, ghost k: nat, ghost c: seq<Item>) returns (front: Elem?)
    requires HhLinked(c) && NoDup(c) && first == EltAt(c, 0)
    requires k < |c| && c[k].elt == d
    modifies Near(c, k - 1)`hhNext, Near(c, k + 1)`hhPrev
    ensures front == EltAt(c[..k] + c[k + 1..], 0)
    ensures HhLinked(c[..k] + c[k + 1..])
  {
    front := first;
    if front == d {
      front := d.hhNext;
    }
    if d.hhPrev != null {
      d.hhPrev.hhNext := d.hhNext;
    }
    if d.hhNext != null {
      d.hhNext.hhPrev := d.hhPrev;
    }
  }

  /** Appends to a non-empty application list. */
  method AppendApp(add: Elem, tail: Elem, ghost x: Item, ghost s: seq<Item>)
    requires AppLinked(s) && NoDup(s) && s != [] && tail == s[|s| - 1].elt
    requires x.elt == add && add !in Elts(s) && add.next == null
    modifies add`prev, tail`next
    ensures AppLinked(s + [x])
  {
    tail.next := add;
    add.prev := tail;
  }

  /** Unlinks position k of an application list of at least two elements; returns the new ends. */
  method UnlinkApp(d: Elem, head: Elem?, tail: Elem?, ghost k: nat, ghost s: seq<Item>) returns (newHead: Elem?, newTail: Elem?)
    requires AppLinked(s) && NoDup(s) && |s| > 1 && head == EltAt(s, 0) && tail == EltAt(s, |s| - 1)
    requires k < |s| && s[k].elt == d
    modifies Near(s, k - 1)`next, Near(s, k + 1)`prev
    ensures AppLinked(s[..k] + s[k + 1..])
    ensures newHead == EltAt(s[..k] + s[k + 1..], 0) && newTail == EltAt(s[..k] + s[k + 1..], |s| - 2)
  {
    newHead, newTail := head, tail;
    if d == tail {
      newTail := d.prev;
    }
    if d.prev != null {
      d.prev.next := d.next;
    } else {
      newHead := d.next;
    }
    if d.next != null {
      d.next.prev := d.prev;
    }
  }
}
