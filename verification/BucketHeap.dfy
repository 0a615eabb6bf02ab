/** The bucket array and its chains on the heap: add, delete, and the moves of an expansion. */
module BucketHeap {
  import opened Bits
  import opened Seqs
  import opened HashTypes
  import opened TableSpec
  import opened Links

  // ---------------------------------------------------------------- the bucket array

  /** Each bucket holds the front of its chain, its count and its multiplier. */
  ghost predicate BucketsOk(a: array<Bucket>, chains: seq<seq<Item>>, mults: seq<nat>)
    reads a
  {
    && a.Length == |chains| == |mults|
    && forall b :: 0 <= b < a.Length ==> a[b] == Bucket(EltAt(chains[b], 0), |chains[b]|, mults[b])
  }

  ghost function ChainElts(chains: seq<seq<Item>>): set<Elem> {
    set b, x | 0 <= b < |chains| && x in chains[b] :: x.elt
  }

  ghost predicate ChainsLinked(chains: seq<seq<Item>>)
    reads ChainElts(chains)`hhPrev, ChainElts(chains)`hhNext
  {
    forall b :: 0 <= b < |chains| ==> HhLinked(chains[b])
  }

  /** No element is on two chains. */
  ghost predicate Apart(chains: seq<seq<Item>>) {
    forall b, c :: 0 <= b < |chains| && 0 <= c < |chains| && b != c ==> Elts(chains[b]) !! Elts(chains[c])
  }

  /** HASH_ADD_TO_BKT without the expansion test: one more element at the front of chain b. */
  method PushBkt(a: array<Bucket>, b: nat, e: Elem, ghost x: Item, ghost chains: seq<seq<Item>>, ghost mults: seq<nat>)
    requires BucketsOk(a, chains, mults) && ChainsLinked(chains) && Apart(chains)
    requires b < |chains| && b == Bkt(x.hashv, |chains|) && NoDup(chains[b])
    requires x.elt == e && e !in ChainElts(chains)
    modifies a, e`hhNext, e`hhPrev, ChainElts(chains)`hhPrev
    ensures BucketsOk(a, Push(chains, x), mults) && ChainsLinked(Push(chains, x))
  {
    ghost var c := chains[b];
    var first := a[b].hhHead;
    a[b] := a[b].(count := a[b].count + 1);
    if first != null {
      assert c[0] in c;
    }
    LinkFront(e, first, x, c);
    a[b] := a[b].(hhHead := e);
    forall d | 0 <= d < |chains| && d != b
      ensures HhLinked(chains[d])
    {
      assert first != null ==> first !in Elts(chains[d]);
      assert e !in Elts(chains[d]);
    }
  }

  /** HASH_DEL_IN_BKT on position k of chain b. */
  method RemoveBkt(a: array<Bucket>, b: nat, d: Elem, ghost k: nat, ghost chains: seq<seq<Item>>, ghost mults: seq<nat>)
    requires BucketsOk(a, chains, mults) && ChainsLinked(chains) && Apart(chains)
    requires b < |chains| && NoDup(chains[b]) && k < |chains[b]| && chains[b][k].elt == d
    modifies a, Near(chains[b], k - 1)`hhNext, Near(chains[b], k + 1)`hhPrev
    ensures BucketsOk(a, chains[b := chains[b][..k] + chains[b][k + 1..]], mults)
    ensures ChainsLinked(chains[b := chains[b][..k] + chains[b][k + 1..]])
  {
    ghost var c := chains[b];
    assert Near(c, k - 1) <= Elts(c) && Near(c, k + 1) <= Elts(c);
    a[b] := a[b].(count := a[b].count - 1);
    var front := UnlinkHh(d, a[b].hhHead, k, c);
    a[b] := a[b].(hhHead := front);
    forall e | 0 <= e < |chains| && e != b ensures HhLinked(chains[e]) {
      assert Elts(chains[e]) !! Elts(c);
    }
  }

  // ---------------------------------------------------------------- moving one element during an expansion

  lemma OversPush(nc: seq<seq<Item>>, x: Item, ideal: nat)
    requires |nc| > 0
    ensures var b := Bkt(x.hashv, |nc|);
            Sum(Overs(Push(nc, x), ideal)) == Sum(Overs(nc, ideal)) + if |nc[b]| + 1 > ideal then 1 else 0
  {
    var b := Bkt(x.hashv, |nc|);
    assert Overs(Push(nc, x), ideal) == Overs(nc, ideal)[b := Over(|nc[b]| + 1, ideal)];
    SumUpdate(Overs(nc, ideal), b, Over(|nc[b]| + 1, ideal));
  }

  lemma MultsPush(nc: seq<seq<Item>>, x: Item, ideal: nat)
    requires |nc| > 0 && ideal > 0
    ensures var b := Bkt(x.hashv, |nc|);
            Mults(Push(nc, x), ideal) ==
            if |nc[b]| + 1 > ideal then Mults(nc, ideal)[b := (|nc[b]| + 1) / ideal] else Mults(nc, ideal)
  {
  }

  /** The body of the inner loop of HASH_EXPAND_BUCKETS: the element goes to the front of its new bucket; `over` says
      whether its chain position exceeds the ideal length. */
  method MoveToNewBkt(a: array<Bucket>, e: Elem, ideal: nat, ghost x: Item, ghost nc: seq<seq<Item>>) returns (over: nat)
    requires BucketsOk(a, nc, Mults(nc, ideal)) && ChainsLinked(nc) && Apart(nc) && a.Length > 0
    requires NoDup(nc[Bkt(x.hashv, |nc|)])
    requires x.elt == e && e.hashv == x.hashv && e !in ChainElts(nc)
    requires ideal > 0
    modifies a, e`hhNext, e`hhPrev, ChainElts(nc)`hhPrev
    ensures BucketsOk(a, Push(nc, x), Mults(Push(nc, x), ideal)) && ChainsLinked(Push(nc, x))
    ensures Sum(Overs(Push(nc, x), ideal)) == Sum(Overs(nc, ideal)) + over
  {
    var b := Bkt(e.hashv, a.Length);
    OversPush(nc, x, ideal);
    MultsPush(nc, x, ideal);
    PushBkt(a, b, e, x, nc, Mults(nc, ideal));
    over := 0;
    if a[b].count > ideal {
      over := 1;
      a[b] := a[b].(expandMult := a[b].count / ideal);
    }
  }

  /** Every item of nc is one of `order`, in its own bucket, once. */
  ghost predicate Placed(nc: seq<seq<Item>>, order: seq<Item>)
    requires |nc| > 0
  {
    && (forall b, x :: 0 <= b < |nc| && x in nc[b] ==> x in order && Bkt(x.hashv, |nc|) == b)
    && (forall b :: 0 <= b < |nc| ==> NoDup(nc[b]))
  }

  ghost predicate Disjoint(nc: seq<seq<Item>>, c: seq<Item>) {
    forall b, x :: 0 <= b < |nc| && x in nc[b] ==> x !in c
  }

  lemma SameElt(s: seq<Item>, x: Item, y: Item)
    requires NoDup(s) && x in s && y in s && x.elt == y.elt
    ensures x == y
  {
    var i :| 0 <= i < |s| && s[i] == x;
    var j :| 0 <= j < |s| && s[j] == y;
  }

  lemma PlacedApart(nc: seq<seq<Item>>, order: seq<Item>)
    requires |nc| > 0 && Placed(nc, order) && NoDup(order)
    ensures Apart(nc)
  {
    forall b, c, x, y | 0 <= b < |nc| && 0 <= c < |nc| && b != c && x in nc[b] && y in nc[c] ensures x.elt != y.elt {
      if x.elt == y.elt {
        SameElt(order, x, y);
        assert false;
      }
    }
  }

  lemma NotYetPlaced(nc: seq<seq<Item>>, c: seq<Item>, order: seq<Item>, x: Item)
    requires |nc| > 0 && Placed(nc, order) && NoDup(order) && Disjoint(nc, c) && x in c && x in order
    ensures x.elt !in ChainElts(nc)
  {
    forall b, y | 0 <= b < |nc| && y in nc[b] ensures y.elt != x.elt {
      if y.elt == x.elt {
        SameElt(order, x, y);
        assert false;
      }
    }
  }

  lemma TailMembers(c: seq<Item>)
    requires NoDup(c) && c != []
    ensures NoDup(c[1..]) && forall y :: y in c[1..] ==> y in c && y.elt != c[0].elt
  {
    forall y | y in c[1..] ensures y.elt != c[0].elt {
      var i :| 0 <= i < |c[1..]| && c[1..][i] == y;
      assert c[i + 1] == y;
    }
  }

  /** nc is filled so far, `rest` of the old chain is still to be moved. */
  ghost predicate Plan(nc: seq<seq<Item>>, rest: seq<Item>, order: seq<Item>) {
    && |nc| > 0 && Placed(nc, order) && Disjoint(nc, rest)
    && NoDup(rest) && NoDup(order) && (forall x :: x in rest ==> x in order)
  }

  lemma PlanStep(nc: seq<seq<Item>>, rest: seq<Item>, order: seq<Item>)
    requires Plan(nc, rest, order) && rest != []
    ensures Plan(Push(nc, rest[0]), rest[1..], order)
    ensures Apart(nc) && rest[0].elt !in ChainElts(nc) && rest[0].elt !in Elts(rest[1..])
    ensures ChainElts(Push(nc, rest[0])) <= ChainElts(nc) + {rest[0].elt}
  {
    var x := rest[0];
    var b := Bkt(x.hashv, |nc|);
    TailMembers(rest);
    PlacedApart(nc, order);
    NotYetPlaced(nc, rest, order, x);
    forall y | y in nc[b] ensures y.elt != x.elt {
      assert y.elt in ChainElts(nc);
    }
    assert NoDup([x] + nc[b]);
    forall d, y | 0 <= d < |nc| && y in Push(nc, x)[d] ensures y in order && Bkt(y.hashv, |nc|) == d && y !in rest[1..] {
      assert y == x || y in nc[d];
    }
  }

  lemma PushElts(nc: seq<seq<Item>>, x: Item)
    requires |nc| > 0
    ensures ChainElts(Push(nc, x)) <= ChainElts(nc) + {x.elt}
  {
  }

  ghost predicate Moving(a: array<Bucket>, ideal: nat, nc: seq<seq<Item>>, rest: seq<Item>)
    reads a, ChainElts(nc)`hhPrev, ChainElts(nc)`hhNext, Elts(rest)`hhNext, Elts(rest)`key, Elts(rest)`hashv
  {
    BucketsOk(a, nc, Mults(nc, ideal)) && ChainsLinked(nc) && HhNextLinked(rest) && Keyed(rest)
  }

  method MoveFirst(a: array<Bucket>, thh: Elem, ideal: nat, ghost nc: seq<seq<Item>>, ghost rest: seq<Item>)
    returns (nxt: Elem?, over: nat)
    requires |nc| > 0 && ideal > 0 && rest != [] && thh == rest[0].elt
    requires Moving(a, ideal, nc, rest) && Apart(nc) && NoDup(nc[Bkt(rest[0].hashv, |nc|)])
    requires thh !in ChainElts(nc) && thh !in Elts(rest[1..])
    modifies a, thh`hhNext, thh`hhPrev, ChainElts(nc)`hhPrev
    ensures nxt == EltAt(rest[1..], 0)
    ensures Moving(a, ideal, Push(nc, rest[0]), rest[1..])
    ensures Sum(Overs(Push(nc, rest[0]), ideal)) == Sum(Overs(nc, ideal)) + over
  {
    assert HhNextLinked(rest[1..]) && Keyed(rest[1..]);
    nxt := thh.hhNext;
    over := MoveToNewBkt(a, thh, ideal, rest[0], nc);
  }

  /** The inner loop of HASH_EXPAND_BUCKETS: walks old chain c, starting at `first`. */
  method MoveChain(a: array<Bucket>, first: Elem?, ideal: nat, ghost c: seq<Item>, ghost nc0: seq<seq<Item>>,
                   ghost order: seq<Item>) returns (over: nat)
    requires Moving(a, ideal, nc0, c) && Plan(nc0, c, order) && ideal > 0
    requires first == EltAt(c, 0)
    modifies a, Elts(c)`hhNext, Elts(c)`hhPrev, ChainElts(nc0)`hhPrev
    ensures Moving(a, ideal, PushAll(nc0, c), []) && Plan(PushAll(nc0, c), [], order)
    ensures Sum(Overs(PushAll(nc0, c), ideal)) == Sum(Overs(nc0, ideal)) + over
  {
    var thh := first;
    ghost var rest, nc := c, nc0;
    over := 0;
    while thh != null
      invariant thh == EltAt(rest, 0) && Elts(rest) <= Elts(c)
      invariant ChainElts(nc) <= ChainElts(nc0) + Elts(c)
      invariant Moving(a, ideal, nc, rest) && Plan(nc, rest, order)
      invariant PushAll(nc, rest) == PushAll(nc0, c)
      invariant Sum(Overs(nc, ideal)) == Sum(Overs(nc0, ideal)) + over
      decreases |rest|
    {
      PlanStep(nc, rest, order);
      var nxt, o := MoveFirst(a, thh, ideal, nc, rest);
      over := over + o;
      thh := nxt;
      nc, rest := Push(nc, rest[0]), rest[1..];
    }
  }

  lemma {:induction false} PushAllMembers(nc: seq<seq<Item>>, c: seq<Item>, b: nat, x: Item)
    requires |nc| > 0 && b < |nc| && x in PushAll(nc, c)[b]
    ensures x in nc[b] || x in c
    decreases |c|
  {
    if c != [] {
      PushAllMembers(Push(nc, c[0]), c[1..], b, x);
    }
  }

  /** The old chains before chain i are moved, the others are not. */
  ghost predicate Outer(nc: seq<seq<Item>>, t: Tab, i: nat) {
    && Partition(t) && i <= |t.chains| && |nc| == 2 * |t.chains|
    && Placed(nc, t.order)
    && (forall b, x :: 0 <= b < |nc| && x in nc[b] ==> Bkt(x.hashv, |t.chains|) < i)
    && ChainElts(nc) <= ChainElts(t.chains)
    && RehashFrom(nc, t.chains[i..]) == Rehash(t.chains)
  }

  lemma OuterStart(nc: seq<seq<Item>>, t: Tab)
    requires Partition(t) && nc == seq(2 * |t.chains|, _ => [])
    ensures Outer(nc, t, 0)
  {
    assert t.chains[0..] == t.chains;
  }

  lemma OuterPlan(nc: seq<seq<Item>>, t: Tab, i: nat)
    requires Outer(nc, t, i) && i < |t.chains|
    ensures Plan(nc, t.chains[i], t.order) && ChainElts(nc) <= ChainElts(t.chains)
    ensures Keyed(t.order) ==> Keyed(t.chains[i])
  {
    assert forall x :: x in t.chains[i] ==> x in t.order;
  }

  lemma OuterEnd(nc: seq<seq<Item>>, t: Tab)
    requires Outer(nc, t, |t.chains|)
    ensures nc == Rehash(t.chains)
  {
  }

  lemma OuterStep(nc: seq<seq<Item>>, t: Tab, i: nat)
    requires Outer(nc, t, i) && i < |t.chains| && Plan(PushAll(nc, t.chains[i]), [], t.order)
    ensures Outer(PushAll(nc, t.chains[i]), t, i + 1)
  {
    var c := t.chains[i];
    var nc2 := PushAll(nc, c);
    forall b, x: Item | 0 <= b < |nc2| && x in nc2[b]
      ensures Bkt(x.hashv, |t.chains|) < i + 1 && x.elt in ChainElts(t.chains)
    {
      PushAllMembers(nc, c, b, x);
      assert x in nc[b] ==> x.elt in ChainElts(nc);
    }
    assert t.chains[i..][1..] == t.chains[i + 1..];
  }

  lemma PartitionApart(t: Tab)
    requires Partition(t)
    ensures Apart(t.chains) && ChainElts(t.chains) <= Elts(t.order)
  {
    forall b, c, x, y | 0 <= b < |t.chains| && 0 <= c < |t.chains| && b != c && x in t.chains[b] && y in t.chains[c]
      ensures x.elt != y.elt
    {
      if x.elt == y.elt {
        SameElt(t.order, x, y);
        assert false;
      }
    }
  }

  /** The new buckets hold nc; the old chains from i on are still walkable. */
  ghost predicate OuterHeap(newBuckets: array<Bucket>, ideal: nat, nc: seq<seq<Item>>, old_: seq<seq<Item>>, i: nat)
    reads newBuckets, ChainElts(nc)`hhPrev, ChainElts(nc)`hhNext, ChainElts(old_)`hhNext
  {
    && BucketsOk(newBuckets, nc, Mults(nc, ideal)) && ChainsLinked(nc)
    && forall b :: i <= b < |old_| ==> HhNextLinked(old_[b])
  }

  lemma HeapStart(a: array<Bucket>, ideal: nat, nc: seq<seq<Item>>, old_: seq<seq<Item>>)
    requires a.Length == 2 * |old_| && nc == seq(2 * |old_|, _ => []) && ChainsLinked(old_)
    requires forall b :: 0 <= b < a.Length ==> a[b] == Bucket(null, 0, 0)
    ensures OuterHeap(a, ideal, nc, old_, 0) && Sum(Overs(nc, ideal)) == 0
  {
    SumZero(Overs(nc, ideal));
  }

  lemma HeapEnd(a: array<Bucket>, ideal: nat, nc: seq<seq<Item>>, old_: seq<seq<Item>>)
    requires OuterHeap(a, ideal, nc, old_, |old_|)
    ensures BucketsOk(a, nc, Mults(nc, ideal)) && ChainsLinked(nc)
  {
  }

  /** One round of the outer loop of HASH_EXPAND_BUCKETS. */
  method MoveOldBkt(first: Elem?, newBuckets: array<Bucket>, ideal: nat, ghost nc: seq<seq<Item>>, ghost t: Tab,
                    ghost i: nat) returns (over: nat)
    requires ideal > 0 && i < |t.chains| && Apart(t.chains) && Keyed(t.chains[i])
    requires Plan(nc, t.chains[i], t.order) && ChainElts(nc) <= ChainElts(t.chains)
    requires OuterHeap(newBuckets, ideal, nc, t.chains, i) && first == EltAt(t.chains[i], 0)
    modifies newBuckets, ChainElts(t.chains)`hhPrev, ChainElts(t.chains)`hhNext
    ensures OuterHeap(newBuckets, ideal, PushAll(nc, t.chains[i]), t.chains, i + 1)
    ensures Plan(PushAll(nc, t.chains[i]), [], t.order)
    ensures Sum(Overs(PushAll(nc, t.chains[i]), ideal)) == Sum(Overs(nc, ideal)) + over
  {
    ghost var c := t.chains[i];
    assert Elts(c) <= ChainElts(t.chains);
    over := MoveChain(newBuckets, first, ideal, c, nc, t.order);
    forall b | i < b < |t.chains| ensures HhNextLinked(t.chains[b]) {
      assert Elts(t.chains[b]) !! Elts(c);
      assert old(HhNextLinked(t.chains[b]));
    }
  }

  /** The outer loop of HASH_EXPAND_BUCKETS; returns nonideal_items. */
  method MoveChains(buckets: array<Bucket>, newBuckets: array<Bucket>, ideal: nat, ghost t: Tab) returns (nonideal: nat)
    requires Partition(t) && Keyed(t.order) && ideal > 0
    requires BucketsOk(buckets, t.chains, t.mults) && ChainsLinked(t.chains)
    requires newBuckets != buckets && newBuckets.Length == 2 * buckets.Length
    requires forall b :: 0 <= b < newBuckets.Length ==> newBuckets[b] == Bucket(null, 0, 0)
    modifies newBuckets, ChainElts(t.chains)`hhPrev, ChainElts(t.chains)`hhNext
    ensures BucketsOk(newBuckets, Rehash(t.chains), Mults(Rehash(t.chains), ideal)) && ChainsLinked(Rehash(t.chains))
    ensures nonideal == Sum(Overs(Rehash(t.chains), ideal))
  {
    hide Outer, Plan, OuterHeap, Partition, Keyed, Apart, ChainElts, Rehash, PushAll, Overs, Mults;
    ghost var nc := seq(2 * |t.chains|, _ => []);
    OuterStart(nc, t);
    HeapStart(newBuckets, ideal, nc, t.chains);
    PartitionApart(t);
    nonideal := 0;
    var i := 0;
    while i < buckets.Length
      invariant i <= buckets.Length && Outer(nc, t, i)
      invariant OuterHeap(newBuckets, ideal, nc, t.chains, i)
      invariant Sum(Overs(nc, ideal)) == nonideal
    {
      OuterPlan(nc, t, i);
      var over := MoveOldBkt(buckets[i].hhHead, newBuckets, ideal, nc, t, i);
      nonideal := nonideal + over;
      OuterStep(nc, t, i);
      nc := PushAll(nc, t.chains[i]);
      i := i + 1;
    }
    OuterEnd(nc, t);
    HeapEnd(newBuckets, ideal, nc, t.chains);
  }

  lemma IdealPositive(n: nat, log2: nat)
    requires n > 0
    ensures IdealByShift(n, log2) > 0
  {
    IdealIsCeiling(n, log2);
  }
}
