/** HASH_SRT on the heap: the application list is sorted by relinking it, without moving an element. */
module ListSort {
  import opened HashTypes
  import opened TableSpec
  import opened Links
  import opened StableSort

  /** The item of an element in the table. */
  function ItemOf(e: Elem): Item
    reads e`key, e`hashv
  {
    Item(e, e.key, e.hashv)
  }

  /** s is linked by next; what the last element points to is open. */
  ghost predicate NextWithin(s: seq<Item>)
    reads Elts(s)`next
  {
    forall i {:trigger s[i].elt.next} :: 0 <= i < |s| - 1 ==> s[i].elt.next == EltAt(s, i + 1)
  }

  /** The output list: prev is exact, next is exact up to the last element, whose next is open. */
  ghost predicate Output(s: seq<Item>, list: Elem?, tail: Elem?)
    reads Elts(s)`next, Elts(s)`prev
  {
    && NextWithin(s) && list == EltAt(s, 0) && tail == EltAt(s, |s| - 1)
    && forall i {:trigger s[i].elt.prev} :: 0 <= i < |s| ==> s[i].elt.prev == EltAt(s, i - 1)
  }

  /** Puts e at the end of the output. */
  method Emit(e: Elem, list: Elem?, tail: Elem?, ghost x: Item, ghost out: seq<Item>) returns (newList: Elem)
    requires Output(out, list, tail) && NoDup(out) && x.elt == e && e !in Elts(out)
    modifies e`prev, (if tail == null then {} else {tail})`next
    ensures Output(out + [x], newList, e)
  {
    if tail != null {
      tail.next := e;
      newList := list;
    } else {
      newList := e;
    }
    e.prev := tail;
  }

  /** Finds the second run: at most insize elements from p. */
  method SplitRun(p: Elem, insize: nat, ghost s: seq<Item>) returns (q: Elem?, psize: nat)
    requires AppNextLinked(s) && s != [] && p == s[0].elt && insize > 0
    ensures psize == |Take(s, insize)| && q == EltAt(Drop(s, insize), 0)
  {
    q, psize := p, 0;
    var i := 0;
    while i < insize
      invariant i <= insize && psize == i < |s| + 1 && q == EltAt(s, i)
      invariant i < |s|  || i == insize
    {
      psize := psize + 1;
      q := q.next;
      if q == null {
        break;
      }
      i := i + 1;
    }
  }

  // ---------------------------------------------------------------- one merge

  /** The three lists of a merge share no element. */
  ghost predicate Apart3(out: seq<Item>, p: seq<Item>, q: seq<Item>) {
    && NoDup(out) && NoDup(p) && NoDup(q)
    && Elts(out) !! Elts(p) && Elts(out) !! Elts(q) && Elts(p) !! Elts(q)
  }

  lemma EltsConcat(s: seq<Item>, t: seq<Item>)
    ensures Elts(s + t) == Elts(s) + Elts(t)
  {
    assert forall x :: x in s + t <==> x in s || x in t;
  }

  lemma Shift(out: seq<Item>, p: seq<Item>, q: seq<Item>)
    requires Apart3(out, p, q) && p != []
    ensures Apart3(out + [p[0]], p[1..], q)
    ensures p[0].elt !in Elts(out) && p[0].elt !in Elts(p[1..]) && p[0].elt !in Elts(q)
    ensures Elts(out + [p[0]]) == Elts(out) + {p[0].elt} && Elts(p) == {p[0].elt} + Elts(p[1..])
  {
    assert p[0].elt in Elts(p);
    EltsConcat([p[0]], p[1..]);
    EltsConcat(out, [p[0]]);
    assert p == [p[0]] + p[1..];
    forall y | y in p[1..] ensures y in p && y.elt != p[0].elt {
      var i :| 0 <= i < |p[1..]| && p[1..][i] == y;
      assert p[i + 1] == y;
    }
    assert Elts([p[0]]) == {p[0].elt};
  }

  /** The left run from p (its size is psize) and the rest of the list from q. */
  ghost predicate Merging(p: Elem?, q: Elem?, psize: nat, list: Elem?, tail: Elem?,
                          left: seq<Item>, rest: seq<Item>, out: seq<Item>)
    reads Elts(left)`next, Elts(left)`key, Elts(left)`hashv
    reads Elts(rest)`next, Elts(rest)`key, Elts(rest)`hashv
    reads Elts(out)`next, Elts(out)`prev
  {
    && psize == |left| && (left != [] ==> p == left[0].elt) && q == EltAt(rest, 0)
    && NextWithin(left) && AppNextLinked(rest) && Output(out, list, tail)
    && Keyed(left) && Keyed(rest)
  }

  /** Merging the rest of the left run with at most k elements of the right list. */
  function StillToCome(cmp: (Item, Item) -> int, left: seq<Item>, rest: seq<Item>, k: nat): seq<Item> {
    Merge(cmp, left, Take(rest, k))
  }

  lemma TakeLeft(cmp: (Item, Item) -> int, left: seq<Item>, rest: seq<Item>, k: nat)
    requires left != [] && (k == 0 || rest == [] || cmp(left[0], rest[0]) <= 0)
    ensures StillToCome(cmp, left, rest, k) == [left[0]] + StillToCome(cmp, left[1..], rest, k)
  {
    if k == 0 || rest == [] {
      assert Take(rest, k) == [];
      assert left[1..] + [] == left[1..];
    } else {
      assert Take(rest, k)[0] == rest[0];
    }
  }

  lemma TakeRight(cmp: (Item, Item) -> int, left: seq<Item>, rest: seq<Item>, k: nat)
    requires rest != [] && k > 0 && (left == [] || cmp(left[0], rest[0]) > 0)
    ensures StillToCome(cmp, left, rest, k) == [rest[0]] + StillToCome(cmp, left, rest[1..], k - 1)
    ensures Drop(rest, k) == Drop(rest[1..], k - 1)
  {
    assert Take(rest, k) == [rest[0]] + Take(rest[1..], k - 1);
    assert Take(rest, k)[1..] == Take(rest[1..], k - 1);
  }

  /** Moves the head of the left run to the output; returns the next of that head. */
  method EmitLeft(p: Elem, q: Elem?, list: Elem?, tail: Elem?,
                  ghost left: seq<Item>, ghost rest: seq<Item>, ghost out: seq<Item>)
    returns (next: Elem?, newList: Elem)
    requires left != [] && Merging(p, q, |left|, list, tail, left, rest, out) && Apart3(out, left, rest)
    modifies p`prev, Elts(out)`next
    ensures Merging(next, q, |left| - 1, newList, p, left[1..], rest, out + [left[0]])
  {
    Shift(out, left, rest);
    assert tail != null ==> tail in Elts(out) by {
      if tail != null {
        assert out[|out| - 1] in out;
      }
    }
    next := p.next;
    newList := Emit(p, list, tail, left[0], out);
  }

  /** Moves the head of the right run to the output. */
  method EmitRight(p: Elem?, q: Elem, psize: nat, list: Elem?, tail: Elem?,
                   ghost left: seq<Item>, ghost rest: seq<Item>, ghost out: seq<Item>)
    returns (next: Elem?, newList: Elem)
    requires rest != [] && Merging(p, q, psize, list, tail, left, rest, out) && Apart3(out, left, rest)
    modifies q`prev, Elts(out)`next
    ensures Merging(p, next, psize, newList, q, left, rest[1..], out + [rest[0]])
  {
    Shift(out, rest, left);
    assert tail != null ==> tail in Elts(out) by {
      if tail != null {
        assert out[|out| - 1] in out;
      }
    }
    next := q.next;
    newList := Emit(q, list, tail, rest[0], out);
  }

  /** What the steps of a merge leave alone: the elements in play, the final output, the list beyond the right run. */
  ghost predicate SameGoal(cmp: (Item, Item) -> int, out: seq<Item>, left: seq<Item>, rest: seq<Item>, k: nat,
                           goal: seq<Item>, beyond: seq<Item>, all: set<Elem>)
  {
    && Apart3(out, left, rest) && Elts(out) + Elts(left) + Elts(rest) == all
    && out + StillToCome(cmp, left, rest, k) == goal && Drop(rest, k) == beyond
  }

  lemma GoalLeft(cmp: (Item, Item) -> int, out: seq<Item>, left: seq<Item>, rest: seq<Item>, k: nat,
                 goal: seq<Item>, beyond: seq<Item>, all: set<Elem>)
    requires SameGoal(cmp, out, left, rest, k, goal, beyond, all)
    requires left != [] && (k == 0 || rest == [] || cmp(left[0], rest[0]) <= 0)
    ensures SameGoal(cmp, out + [left[0]], left[1..], rest, k, goal, beyond, all)
  {
    hide NoDup, StillToCome, Elts;
    Shift(out, left, rest);
    TakeLeft(cmp, left, rest, k);
  }

  lemma GoalRight(cmp: (Item, Item) -> int, out: seq<Item>, left: seq<Item>, rest: seq<Item>, k: nat,
                  goal: seq<Item>, beyond: seq<Item>, all: set<Elem>)
    requires SameGoal(cmp, out, left, rest, k, goal, beyond, all)
    requires rest != [] && k > 0 && (left == [] || cmp(left[0], rest[0]) > 0)
    ensures SameGoal(cmp, out + [rest[0]], left, rest[1..], k - 1, goal, beyond, all)
  {
    hide NoDup, StillToCome, Elts;
    Shift(out, rest, left);
    TakeRight(cmp, left, rest, k);
  }

  lemma GoalReached(cmp: (Item, Item) -> int, out: seq<Item>, rest: seq<Item>, k: nat,
                    goal: seq<Item>, beyond: seq<Item>, all: set<Elem>)
    requires SameGoal(cmp, out, [], rest, k, goal, beyond, all) && (k == 0 || rest == [])
    ensures out == goal && rest == beyond && Elts(out) + Elts(rest) == all
  {
    assert Take(rest, k) == [];
  }

  /** One round of the inner loop. */
  method MergeStep(p0: Elem?, q0: Elem?, psize0: nat, qsize0: nat, list0: Elem?, tail0: Elem?, cmp: (Item, Item) -> int,
                   ghost left0: seq<Item>, ghost rest0: seq<Item>, ghost out0: seq<Item>,
                   ghost goal: seq<Item>, ghost beyond: seq<Item>, ghost all: set<Elem>)
    returns (p: Elem?, q: Elem?, psize: nat, qsize: nat, list: Elem?, tail: Elem?,
             ghost left: seq<Item>, ghost rest: seq<Item>, ghost out: seq<Item>)
    requires psize0 > 0 || (qsize0 > 0 && q0 != null)
    requires Merging(p0, q0, psize0, list0, tail0, left0, rest0, out0)
    requires SameGoal(cmp, out0, left0, rest0, qsize0, goal, beyond, all)
    modifies all`next, all`prev
    ensures Merging(p, q, psize, list, tail, left, rest, out)
    ensures SameGoal(cmp, out, left, rest, qsize, goal, beyond, all)
    ensures psize + qsize < psize0 + qsize0
  {
    hide StillToCome, NextWithin, AppNextLinked, Output, NoDup;
    p, q, psize, qsize := p0, q0, psize0, qsize0;
    left, rest := left0, rest0;
    var fromRight := psize == 0;
    if psize > 0 && qsize > 0 && q != null {
      fromRight := cmp(ItemOf(p), ItemOf(q)) > 0;
    }
    if fromRight {
      GoalRight(cmp, out0, left, rest, qsize, goal, beyond, all);
      assert rest[0] in rest;
      tail := q;
      q, list := EmitRight(p, q, psize, list0, tail0, left, rest, out0);
      qsize := qsize - 1;
      out, rest := out0 + [rest[0]], rest[1..];
    } else {
      GoalLeft(cmp, out0, left, rest, qsize, goal, beyond, all);
      assert left[0] in left;
      tail := p;
      p, list := EmitLeft(p, q, list0, tail0, left, rest, out0);
      psize := psize - 1;
      out, left := out0 + [left[0]], left[1..];
    }
  }

  /** The inner loop: merges the left run with at most insize elements from q on. */
  method MergeRuns(p0: Elem, q0: Elem?, psize0: nat, insize: nat, list0: Elem?, tail0: Elem?, cmp: (Item, Item) -> int,
                   ghost left0: seq<Item>, ghost rest0: seq<Item>, ghost out0: seq<Item>, ghost all: set<Elem>)
    returns (q: Elem?, list: Elem?, tail: Elem?)
    requires Merging(p0, q0, psize0, list0, tail0, left0, rest0, out0) && Apart3(out0, left0, rest0)
    requires all == Elts(out0) + Elts(left0) + Elts(rest0)
    modifies all`next, all`prev
    ensures var out := out0 + StillToCome(cmp, left0, rest0, insize);
            var rest := Drop(rest0, insize);
            && q == EltAt(rest, 0) && AppNextLinked(rest) && Keyed(rest) && Output(out, list, tail)
            && Apart3(out, [], rest) && Elts(out) + Elts(rest) == all
  {
    hide StillToCome, NextWithin, AppNextLinked, Output, Apart3, Keyed, Drop;
    var p: Elem?, psize, qsize := p0, psize0, insize;
    q, list, tail := q0, list0, tail0;
    ghost var left, rest, out := left0, rest0, out0;
    ghost var goal, beyond := out0 + StillToCome(cmp, left0, rest0, insize), Drop(rest0, insize);
    while psize > 0 || (qsize > 0 && q != null)
      invariant Merging(p, q, psize, list, tail, left, rest, out)
      invariant SameGoal(cmp, out, left, rest, qsize, goal, beyond, all)
      decreases psize + qsize
    {
      p, q, psize, qsize, list, tail, left, rest, out :=
        MergeStep(p, q, psize, qsize, list, tail, cmp, left, rest, out, goal, beyond, all);
    }
    GoalReached(cmp, out, rest, qsize, goal, beyond, all);
  }

  // ---------------------------------------------------------------- one pass

  /** The number of merges in a pass over n elements. */
  function Merges(n: nat, k: nat): nat
    requires k > 0
    decreases n
  {
    if n == 0 then 0 else if n <= 2 * k then 1 else 1 + Merges(n - 2 * k, k)
  }

  /** Cutting the remaining list into a run of k and the rest keeps the links. */
  lemma SplitLinks(s: seq<Item>, k: nat)
    requires AppNextLinked(s) && Keyed(s)
    ensures NextWithin(Take(s, k)) && AppNextLinked(Drop(s, k)) && Keyed(Take(s, k)) && Keyed(Drop(s, k))
  {
  }

  lemma SplitApart(out: seq<Item>, s: seq<Item>, k: nat)
    requires Apart3(out, [], s)
    ensures Apart3(out, Take(s, k), Drop(s, k)) && Elts(Take(s, k)) + Elts(Drop(s, k)) == Elts(s)
  {
    EltsConcat(Take(s, k), Drop(s, k));
    assert s == Take(s, k) + Drop(s, k);
    forall x, y | x in Take(s, k) && y in Drop(s, k) ensures x.elt != y.elt {
    }
  }

  /** What the rounds of a pass leave alone: the elements, the final output, the number of merges. */
  ghost predicate PassGoal(cmp: (Item, Item) -> int, out: seq<Item>, rem: seq<Item>, k: nat, merges: nat,
                           goal: seq<Item>, n: nat, all: set<Elem>)
  {
    && k > 0 && Apart3(out, [], rem) && Elts(out) + Elts(rem) == all
    && out + Pass(cmp, rem, k) == goal && merges + Merges(|rem|, k) == n
  }

  lemma DropDrop(s: seq<Item>, k: nat)
    ensures Drop(Drop(s, k), k) == Drop(s, 2 * k)
    ensures |Drop(s, 2 * k)| == if |s| <= 2 * k then 0 else |s| - 2 * k
  {
  }

  lemma MergesUnfold(n: nat, k: nat)
    requires n > 0 && k > 0
    ensures Merges(n, k) == 1 + Merges(if n <= 2 * k then 0 else n - 2 * k, k)
  {
  }

  lemma PassUnfold(cmp: (Item, Item) -> int, rem: seq<Item>, k: nat)
    requires k > 0 && rem != []
    ensures var rest := Drop(Drop(rem, k), k);
            && |rest| < |rem|
            && Pass(cmp, rem, k) == StillToCome(cmp, Take(rem, k), Drop(rem, k), k) + Pass(cmp, rest, k)
            && Merges(|rem|, k) == 1 + Merges(|rest|, k)
  {
    hide Merge, Merges, Drop, Take;
    DropDrop(rem, k);
    MergesUnfold(|rem|, k);
  }

  lemma PassRound(cmp: (Item, Item) -> int, out: seq<Item>, rem: seq<Item>, k: nat, merges: nat,
                  goal: seq<Item>, n: nat, all: set<Elem>)
    requires PassGoal(cmp, out, rem, k, merges, goal, n, all) && rem != []
    ensures var more := StillToCome(cmp, Take(rem, k), Drop(rem, k), k);
            var rest := Drop(Drop(rem, k), k);
            && |rest| < |rem|
            && (Apart3(out + more, [], rest) && Elts(out + more) + Elts(rest) == all
                ==> PassGoal(cmp, out + more, rest, k, merges + 1, goal, n, all))
  {
    hide Apart3, Elts, Pass, Merges, StillToCome, Take, Drop;
    var more, rest := StillToCome(cmp, Take(rem, k), Drop(rem, k), k), Drop(Drop(rem, k), k);
    PassUnfold(cmp, rem, k);
    assert out + (more + Pass(cmp, rest, k)) == (out + more) + Pass(cmp, rest, k);
  }

  /** Everything a pass knows between two merges. */
  ghost predicate Passing(p: Elem?, list: Elem?, tail: Elem?, rem: seq<Item>, out: seq<Item>)
    reads Elts(rem)`next, Elts(rem)`key, Elts(rem)`hashv, Elts(out)`next, Elts(out)`prev
  {
    p == EltAt(rem, 0) && AppNextLinked(rem) && Keyed(rem) && Output(out, list, tail)
  }

  /** One round of a pass: the next two runs are found and merged. */
  method MergeRound(p0: Elem, insize: nat, list0: Elem?, tail0: Elem?, cmp: (Item, Item) -> int, ghost merges: nat,
                    ghost rem: seq<Item>, ghost out: seq<Item>, ghost goal: seq<Item>, ghost n: nat, ghost all: set<Elem>)
    returns (p: Elem?, list: Elem?, tail: Elem?)
    requires rem != [] && insize > 0
    requires Passing(p0, list0, tail0, rem, out) && PassGoal(cmp, out, rem, insize, merges, goal, n, all)
    modifies all`next, all`prev
    ensures var more := StillToCome(cmp, Take(rem, insize), Drop(rem, insize), insize);
            var rest := Drop(Drop(rem, insize), insize);
            && |rest| < |rem| && Passing(p, list, tail, rest, out + more)
            && PassGoal(cmp, out + more, rest, insize, merges + 1, goal, n, all)
  {
    hide NextWithin, AppNextLinked, Keyed, Output, Apart3, StillToCome, Pass, Merges, Elts;
    ghost var left, rest := Take(rem, insize), Drop(rem, insize);
    PassRound(cmp, out, rem, insize, merges, goal, n, all);
    SplitLinks(rem, insize);
    SplitApart(out, rem, insize);
    var q, psize := SplitRun(p0, insize, rem);
    p, list, tail := MergeRuns(p0, q, psize, insize, list0, tail0, cmp, left, rest, out, all);
  }

  /** Ends the output list with null. */
  method CloseList(list: Elem?, tail: Elem?, ghost out: seq<Item>)
    requires Output(out, list, tail) && NoDup(out) && out != []
    modifies out[|out| - 1].elt`next
    ensures AppLinked(out)
  {
    tail.next := null;
  }

  lemma PassStart(cmp: (Item, Item) -> int, s: seq<Item>, k: nat)
    requires NoDup(s) && k > 0
    ensures PassGoal(cmp, [], s, k, 0, Pass(cmp, s, k), Merges(|s|, k), Elts(s)) && Output([], null, null)
  {
    assert [] + Pass(cmp, s, k) == Pass(cmp, s, k);
  }

  lemma PassEnd(cmp: (Item, Item) -> int, out: seq<Item>, rem: seq<Item>, k: nat, merges: nat,
                goal: seq<Item>, n: nat, all: set<Elem>)
    requires PassGoal(cmp, out, rem, k, merges, goal, n, all) && EltAt(rem, 0) == null
    ensures out == goal && merges == n && Elts(out) == all && NoDup(out)
  {
    assert rem == [];
  }

  /** A pass of the outer loop, from the list `first` to its merged form. */
  method MergePass(first: Elem, insize: nat, cmp: (Item, Item) -> int, ghost s: seq<Item>)
    returns (list: Elem?, tail: Elem?, nmerges: nat)
    requires s != [] && NoDup(s) && AppNextLinked(s) && Keyed(s) && first == s[0].elt && insize > 0
    modifies Elts(s)`next, Elts(s)`prev
    ensures AppLinked(Pass(cmp, s, insize)) && nmerges == Merges(|s|, insize)
    ensures Elts(Pass(cmp, s, insize)) == Elts(s) && NoDup(Pass(cmp, s, insize))
    ensures list == EltAt(Pass(cmp, s, insize), 0) && tail == EltAt(Pass(cmp, s, insize), |s| - 1)
  {
    hide AppNextLinked, NextWithin, Keyed, Pass, Merges, StillToCome;
    ghost var goal, n, all := Pass(cmp, s, insize), Merges(|s|, insize), Elts(s);
    ghost var out: seq<Item>, rem := [], s;
    var p: Elem? := first;
    list, tail, nmerges := null, null, 0;
    PassStart(cmp, s, insize);
    while p != null
      invariant Passing(p, list, tail, rem, out) && PassGoal(cmp, out, rem, insize, nmerges, goal, n, all)
      decreases |rem|
    {
      p, list, tail := MergeRound(p, insize, list, tail, cmp, nmerges, rem, out, goal, n, all);
      nmerges := nmerges + 1;
      out, rem := out + StillToCome(cmp, Take(rem, insize), Drop(rem, insize), insize), Drop(Drop(rem, insize), insize);
    }
    PassEnd(cmp, out, rem, insize, nmerges, goal, n, all);
    assert out[|out| - 1] in out;
    CloseList(list, tail, out);
  }

  // ---------------------------------------------------------------- the sort

  lemma MergesOne(n: nat, k: nat)
    requires n > 0 && k > 0
    ensures Merges(n, k) <= 1 <==> n <= 2 * k
  {
  }

  lemma PassKeyed(cmp: (Item, Item) -> int, s: seq<Item>, k: nat)
    requires k > 0 && Keyed(s)
    ensures Keyed(Pass(cmp, s, k))
  {
    PassPermutes(cmp, s, k);
    forall x | x in Pass(cmp, s, k) ensures x in s {
      assert x in multiset(Pass(cmp, s, k));
    }
  }

  lemma NextOf(s: seq<Item>)
    requires AppLinked(s)
    ensures AppNextLinked(s)
  {
  }

  /** What one more pass does to the sort still to come: either it was the last, or the rest starts from its result. */
  lemma SortStep(cmp: (Item, Item) -> int, s: seq<Item>, k: nat)
    requires s != [] && k > 0
    ensures |Pass(cmp, s, k)| == |s|
    ensures Merges(|s|, k) <= 1 ==> SortFrom(cmp, s, k) == Pass(cmp, s, k) && Passes(|s|, k) == 1
    ensures Merges(|s|, k) > 1 ==>
              && 2 * k < |s| && SortFrom(cmp, s, k) == SortFrom(cmp, Pass(cmp, s, k), 2 * k)
              && Passes(|s|, k) == 1 + Passes(|s|, 2 * k)
  {
    MergesOne(|s|, k);
  }

  /** The sort: passes with doubling run length until a pass needs one merge only. */
  method SortList(head: Elem, cmp: (Item, Item) -> int, ghost s: seq<Item>)
    returns (newHead: Elem?, newTail: Elem?, ghost passes: nat)
    requires s != [] && NoDup(s) && AppLinked(s) && Keyed(s) && head == EltAt(s, 0)
    modifies Elts(s)`next, Elts(s)`prev
    ensures AppLinked(Sort(cmp, s)) && Elts(Sort(cmp, s)) == Elts(s) && Keyed(Sort(cmp, s))
    ensures newHead == EltAt(Sort(cmp, s), 0) && newTail == EltAt(Sort(cmp, s), |s| - 1)
    ensures passes == Passes(|s|, 1)
  {
    hide Pass, Merges, SortFrom, Passes, AppLinked, AppNextLinked, NoDup;
    var insize, looping := 1, true;
    var list: Elem?, tail: Elem? := head, null;
    ghost var cur := s;
    passes := 0;
    newHead, newTail := null, null;
    while looping
      invariant insize > 0 && |cur| == |s| && Elts(cur) == Elts(s) && NoDup(cur) && AppLinked(cur) && Keyed(cur)
      invariant list == EltAt(cur, 0)
      invariant looping ==> insize <= |s|
      invariant looping ==> SortFrom(cmp, cur, insize) == Sort(cmp, s) && passes + Passes(|s|, insize) == Passes(|s|, 1)
      invariant !looping ==> cur == Sort(cmp, s) && passes == Passes(|s|, 1)
      invariant !looping ==> newHead == list && newTail == EltAt(cur, |s| - 1)
      decreases looping, |s| - insize
    {
      SortStep(cmp, cur, insize);
      PassKeyed(cmp, cur, insize);
      NextOf(cur);
      var nmerges;
      list, tail, nmerges := MergePass(list, insize, cmp, cur);
      cur := Pass(cmp, cur, insize);
      passes := passes + 1;
      if nmerges <= 1 {
        looping := false;
        newTail := tail;
        newHead := list;
      }
      insize := insize * 2;
    }
  }
}
