/** What bucket expansion does, and that every operation keeps the table invariant. */
module TableLaws {
  import opened Bits
  import opened Seqs
  import opened HashTypes
  import opened TableSpec

  // ---------------------------------------------------------------- bucket expansion

  /** The subsequence of the items that belong to bucket j of n. */
  function Pick(items: seq<Item>, j: nat, n: nat): (r: seq<Item>)
    requires n > 0
    ensures forall x :: x in r ==> x in items && Bkt(x.hashv, n) == j
    ensures forall x :: x in items && Bkt(x.hashv, n) == j ==> x in r
  {
    if items == [] then []
    else if Bkt(items[0].hashv, n) == j then [items[0]] + Pick(items[1..], j, n)
    else Pick(items[1..], j, n)
  }

  lemma {:induction false} PushAllAt(nc: seq<seq<Item>>, items: seq<Item>, j: nat)
    requires j < |nc|
    ensures PushAll(nc, items)[j] == Reverse(Pick(items, j, |nc|)) + nc[j]
    decreases |items|
  {
    if items != [] {
      PushAllAt(Push(nc, items[0]), items[1..], j);
    }
  }

  lemma {:induction false} PickNone(items: seq<Item>, j: nat, n: nat)
    requires n > 0
    requires forall x :: x in items ==> Bkt(x.hashv, n) != j
    ensures Pick(items, j, n) == []
  {
    if items != [] {
      PickNone(items[1..], j, n);
    }
  }

  /** The old bucket whose items bucket j of the doubled array may receive. */
  function OldBkt(j: nat, n: nat): nat {
    if j < n then j else j - n
  }

  ghost predicate InOwnBuckets(chains: seq<seq<Item>>, base: nat, k: nat) {
    forall b, x :: 0 <= b < |chains| && x in chains[b] ==> Bkt(x.hashv, Pow2(k)) == base + b
  }

  ghost predicate AllIn(c: seq<Item>, b: nat, k: nat) {
    forall x :: x in c ==> Bkt(x.hashv, Pow2(k)) == b
  }

  lemma TailInOwnBuckets(chains: seq<seq<Item>>, base: nat, k: nat)
    requires InOwnBuckets(chains, base, k) && chains != []
    ensures InOwnBuckets(chains[1..], base + 1, k)
    ensures AllIn(chains[0], base, k)
  {
    forall b, x | 0 <= b < |chains[1..]| && x in chains[1..][b]
      ensures Bkt(x.hashv, Pow2(k)) == base + 1 + b
    {
      assert x in chains[b + 1];
    }
  }

  /** A chain of old bucket `base` has nothing for the new buckets that other old buckets feed. */
  lemma PickElsewhere(c: seq<Item>, base: nat, k: nat, j: nat)
    requires j < Pow2(k + 1) && base < Pow2(k) && OldBkt(j, Pow2(k)) != base
    requires AllIn(c, base, k)
    ensures Pick(c, j, Pow2(k + 1)) == []
  {
    forall x | x in c ensures Bkt(x.hashv, Pow2(k + 1)) != j {
      BktSplit(x.hashv, k);
    }
    PickNone(c, j, Pow2(k + 1));
  }

  /** What old chain c, in old bucket `base`, brings to new chain j, which old bucket o feeds. */
  lemma OneChainAt(nc: seq<seq<Item>>, c: seq<Item>, base: nat, k: nat, j: nat, o: nat)
    requires |nc| == Pow2(k + 1) && j < |nc| && o == OldBkt(j, Pow2(k)) && base < Pow2(k)
    requires AllIn(c, base, k)
    ensures PushAll(nc, c)[j] == if base == o then Reverse(Pick(c, j, |nc|)) + nc[j] else nc[j]
  {
    hide Bkt, AllIn, PushAll, Pick, Pow2, OldBkt;
    PushAllAt(nc, c, j);
    if base != o {
      PickElsewhere(c, base, k, j);
      assert Reverse([]) + nc[j] == nc[j];
    }
  }

  lemma RehashUnfold(nc: seq<seq<Item>>, chains: seq<seq<Item>>)
    requires |nc| > 0 && chains != []
    ensures RehashFrom(nc, chains) == RehashFrom(PushAll(nc, chains[0]), chains[1..])
  {
  }

  lemma RehashNone(nc: seq<seq<Item>>)
    requires |nc| > 0
    ensures RehashFrom(nc, []) == nc
  {
  }

  lemma {:induction false} RehashFromAt(nc: seq<seq<Item>>, chains: seq<seq<Item>>, base: nat, k: nat, j: nat, o: nat)
    requires |nc| == Pow2(k + 1) && j < |nc| && o == OldBkt(j, Pow2(k))
    requires base + |chains| <= Pow2(k)
    requires InOwnBuckets(chains, base, k)
    ensures RehashFrom(nc, chains)[j] ==
            if base <= o < base + |chains| then Reverse(Pick(chains[o - base], j, |nc|)) + nc[j] else nc[j]
    decreases |chains|
  {
    hide InOwnBuckets, AllIn, PushAll, Pick, Pow2, OldBkt, RehashFrom, Reverse, Bkt, BitAnd;
    if chains == [] {
      RehashNone(nc);
    } else {
      var c, rest := chains[0], chains[1..];
      TailInOwnBuckets(chains, base, k);
      OneChainAt(nc, c, base, k, j, o);
      RehashFromAt(PushAll(nc, c), rest, base + 1, k, j, o);
      RehashUnfold(nc, chains);
      assert base < o < base + |chains| ==> chains[o - base] == rest[o - (base + 1)];
    }
  }

  lemma OldBktRange(j: nat, k: nat)
    requires j < Pow2(k + 1)
    ensures OldBkt(j, Pow2(k)) < Pow2(k) && Pow2(k + 1) == 2 * Pow2(k)
  {
  }

  /** Each new chain is the reverse of the subsequence of the one old chain that can feed it. */
  lemma RehashAt(chains: seq<seq<Item>>, k: nat, j: nat)
    requires |chains| == Pow2(k) && j < Pow2(k + 1)
    requires InOwnBuckets(chains, 0, k)
    ensures OldBkt(j, Pow2(k)) < |chains|
    ensures Rehash(chains)[j] == Reverse(Pick(chains[OldBkt(j, Pow2(k))], j, Pow2(k + 1)))
  {
    hide PushAll, Pick, Reverse, Bkt, BitAnd, InOwnBuckets, RehashFrom, OldBkt, Pow2;
    var nc: seq<seq<Item>>, o := seq(2 * |chains|, _ => []), OldBkt(j, Pow2(k));
    OldBktRange(j, k);
    RehashFromAt(nc, chains, 0, k, j, o);
    var r := Reverse(Pick(chains[o], j, |nc|));
    assert nc[j] == [] && r + [] == r;
  }

  lemma LensPush(nc: seq<seq<Item>>, x: Item)
    requires |nc| > 0
    ensures Sum(Lens(Push(nc, x))) == Sum(Lens(nc)) + 1
  {
    var b := Bkt(x.hashv, |nc|);
    assert Lens(Push(nc, x)) == Lens(nc)[b := |nc[b]| + 1];
    SumUpdate(Lens(nc), b, |nc[b]| + 1);
  }

  lemma {:induction false} LensPushAll(nc: seq<seq<Item>>, items: seq<Item>)
    requires |nc| > 0
    ensures Sum(Lens(PushAll(nc, items))) == Sum(Lens(nc)) + |items|
    decreases |items|
  {
    if items != [] {
      LensPush(nc, items[0]);
      LensPushAll(Push(nc, items[0]), items[1..]);
    }
  }

  lemma {:induction false} LensRehash(nc: seq<seq<Item>>, chains: seq<seq<Item>>)
    requires |nc| > 0
    ensures Sum(Lens(RehashFrom(nc, chains))) == Sum(Lens(nc)) + Sum(Lens(chains))
    decreases |chains|
  {
    if chains != [] {
      LensPushAll(nc, chains[0]);
      LensRehash(PushAll(nc, chains[0]), chains[1..]);
      assert Lens(chains)[1..] == Lens(chains[1..]);
    }
  }

  /** An expansion loses no item and invents none. */
  lemma RehashTotal(chains: seq<seq<Item>>)
    requires |chains| > 0
    ensures Sum(Lens(Rehash(chains))) == Sum(Lens(chains))
  {
    var nc := seq(2 * |chains|, _ => []);
    LensRehash(nc, chains);
    SumZero(Lens(nc));
  }

  lemma {:induction false} PickNoDup(items: seq<Item>, j: nat, n: nat)
    requires n > 0 && NoDup(items)
    ensures NoDup(Pick(items, j, n))
  {
    if items != [] {
      PickNoDup(items[1..], j, n);
      var r := Pick(items[1..], j, n);
      forall x | x in r ensures x.elt != items[0].elt {
        var i :| 0 <= i < |items[1..]| && items[1..][i] == x;
        assert items[i + 1] == x;
      }
    }
  }

  lemma ReverseMembers(p: seq<Item>)
    ensures forall x :: x in Reverse(p) <==> x in p
  {
    var r := Reverse(p);
    forall x | x in p ensures x in r {
      var i :| 0 <= i < |p| && p[i] == x;
      assert r[|p| - 1 - i] == x;
    }
  }

  /** Expansion keeps the invariant. */
  lemma ExpandKeepsPartition(t: Tab)
    requires Partition(t)
    ensures Partition(Expand(t)) && (Covered(t) ==> Inv(Expand(t)))
  {
    var u := Expand(t);
    var k := t.log2;
    assert InOwnBuckets(t.chains, 0, k);
    RehashTotal(t.chains);
    forall b | 0 <= b < |u.chains|
      ensures NoDup(u.chains[b])
      ensures forall x :: x in u.chains[b] ==> x in t.order && Bkt(x.hashv, Pow2(k + 1)) == b
      ensures forall x :: x in t.chains[OldBkt(b, Pow2(k))] && Bkt(x.hashv, Pow2(k + 1)) == b ==> x in u.chains[b]
    {
      RehashAt(t.chains, k, b);
      var p := Pick(t.chains[OldBkt(b, Pow2(k))], b, Pow2(k + 1));
      PickNoDup(t.chains[OldBkt(b, Pow2(k))], b, Pow2(k + 1));
      ReverseMembers(p);
    }
    forall x | x in u.order ensures x in u.chains[Bkt(x.hashv, |u.chains|)] {
      BktSplit(x.hashv, k);
    }
  }

  // ---------------------------------------------------------------- add, delete, reorder

  /** The filter bit of a hash value is its remainder by the size of the filter. */
  lemma BloomBitIsMod(hashv: nat, nbits: nat)
    ensures BloomBit(hashv, nbits) == hashv % Pow2(nbits)
  {
    MaskIsMod(hashv, nbits);
  }

  lemma NoTableOrMake(nbits: nat)
    ensures Inv(Make(nbits)) && WF(NoTable(nbits))
  {
    SumZero(Lens(Make(nbits).chains));
  }

  /** The table after the add, if it does not expand. */
  function Added(u: Tab, x: Item): Tab
    requires |u.chains| > 0
  {
    u.(order := u.order + [x], chains := Push(u.chains, x), bloom := u.bloom + {BloomBit(x.hashv, u.nbits)})
  }

  lemma AddedKeepsInv(u: Tab, x: Item)
    requires Inv(u) && forall y :: y in u.order ==> y.elt != x.elt
    ensures Inv(Added(u, x))
  {
    hide BitAnd, Pow2, Sum, Lens;
    var v := Added(u, x);
    var b := Bkt(x.hashv, |u.chains|);
    LensPush(u.chains, x);
    assert forall y :: y in v.order <==> y in u.order || y == x;
    assert forall y :: y in v.chains[b] <==> y in u.chains[b] || y == x;
    forall c | 0 <= c < |v.chains| ensures NoDup(v.chains[c]) {
      assert NoDup(u.chains[c]);
    }
    forall c, y | 0 <= c < |v.chains| && y in v.chains[c] ensures y in v.order && Bkt(y.hashv, |v.chains|) == c {
      assert y != x ==> y in u.chains[c];
    }
    forall y | y in v.order ensures y in v.chains[Bkt(y.hashv, |v.chains|)] {
      assert y != x ==> y in u.chains[Bkt(y.hashv, |u.chains|)];
    }
  }

  /** The filter bit may as well be set before the expansion: expansion does not look at it. */
  lemma AddIsAddedMaybeExpanded(t: Tab, x: Item)
    requires WF(t)
    ensures var v := Added(if t.order == [] then Make(t.nbits) else t, x);
            |v.chains| > 0 && (AddItem(t, x) == v || AddItem(t, x) == Expand(v))
  {
  }

  lemma AddKeepsWF(t: Tab, x: Item)
    requires WF(t) && forall y :: y in t.order ==> y.elt != x.elt
    ensures WF(AddItem(t, x)) && Inv(AddItem(t, x))
    ensures AddItem(t, x).order == t.order + [x]
  {
    NoTableOrMake(t.nbits);
    AddedKeepsInv(if t.order == [] then Make(t.nbits) else t, x);
    AddIsAddedMaybeExpanded(t, x);
    ExpandKeepsPartition(Added(if t.order == [] then Make(t.nbits) else t, x));
  }

  lemma WithoutUnfold(s: seq<Item>, x: Item)
    requires s != []
    ensures Without(s, x) == if s[0] == x then s[1..] else [s[0]] + Without(s[1..], x)
  {
  }

  lemma TailNoDup(s: seq<Item>)
    requires NoDup(s) && s != []
    ensures NoDup(s[1..]) && forall i :: 0 < i < |s| ==> s[i] != s[0]
  {
  }

  lemma CutTail(s: seq<Item>, i: nat)
    requires 0 < i < |s|
    ensures s[i] == s[1..][i - 1] && s[..i] + s[i + 1..] == [s[0]] + (s[1..][..i - 1] + s[1..][i..])
  {
  }

  lemma {:induction false} WithoutAt(s: seq<Item>, i: nat)
    requires i < |s| && NoDup(s)
    ensures Without(s, s[i]) == s[..i] + s[i + 1..]
  {
    hide Without, NoDup;
    WithoutUnfold(s, s[i]);
    if i == 0 {
      assert s[..0] + s[1..] == s[1..];
    } else {
      TailNoDup(s);
      CutTail(s, i);
      WithoutAt(s[1..], i - 1);
    }
  }

  /** Removing an item that occurs once removes that item only. */
  lemma WithoutMembers(s: seq<Item>, x: Item)
    requires NoDup(s) && x in s
    ensures NoDup(Without(s, x)) && |Without(s, x)| == |s| - 1
    ensures forall y :: y in Without(s, x) ==> y in s && y != x
    ensures forall y :: y in s && y != x ==> y in Without(s, x)
  {
    var i :| 0 <= i < |s| && s[i] == x;
    WithoutAt(s, i);
    forall y | y in s && y != x ensures y in Without(s, x) {
      var j :| 0 <= j < |s| && s[j] == y;
      assert if j < i then Without(s, x)[j] == y else Without(s, x)[j - 1] == y;
    }
  }

  /** Deletion removes x from its chain and leaves the other chains alone. */
  lemma DelChains(t: Tab, x: Item, u: Tab)
    requires Inv(t) && x in t.order && |t.order| > 1 && u == DelItem(t, x)
    ensures |u.chains| == |t.chains|
    ensures Sum(Lens(u.chains)) == |t.order| - 1
    ensures forall c :: 0 <= c < |u.chains| ==> NoDup(u.chains[c])
    ensures forall c, y {:trigger y in u.chains[c]} {:trigger y in t.chains[c]} ::
              0 <= c < |u.chains| ==> (y in u.chains[c] <==> y in t.chains[c] && y != x)
  {
    hide BitAnd, Pow2, Without;
    var b := Bkt(x.hashv, |t.chains|);
    WithoutMembers(t.chains[b], x);
    assert Lens(u.chains) == Lens(t.chains)[b := |t.chains[b]| - 1];
    SumUpdate(Lens(t.chains), b, |t.chains[b]| - 1);
  }

  lemma DelKeepsInv(t: Tab, x: Item, u: Tab)
    requires Inv(t) && x in t.order && |t.order| > 1 && u == DelItem(t, x)
    ensures Inv(u)
  {
    WithoutMembers(t.order, x);
    DelChains(t, x, u);
  }

  lemma DelKeepsWF(t: Tab, x: Item)
    requires WF(t) && x in t.order
    ensures WF(DelItem(t, x))
    ensures DelItem(t, x).order == Without(t.order, x)
  {
    WithoutMembers(t.order, x);
    if |t.order| > 1 {
      DelKeepsInv(t, x, DelItem(t, x));
    }
  }

  lemma {:induction false} CountAtMostOne(s: seq<Item>, x: Item)
    requires NoDup(s)
    ensures multiset(s)[x] <= 1
  {
    if s != [] {
      CountAtMostOne(s[1..], x);
      assert s == [s[0]] + s[1..];
      if x in s[1..] {
        var i :| 0 <= i < |s[1..]| && s[1..][i] == x;
        assert s[i + 1] == x;
      }
    }
  }

  lemma PermutationMembers(s: seq<Item>, o: seq<Item>)
    requires NoDup(s) && multiset(o) == multiset(s)
    ensures NoDup(o) && |o| == |s|
    ensures forall x :: x in o ==> x in s
    ensures forall x :: x in s ==> x in o
  {
    assert |multiset(o)| == |multiset(s)|;
    forall x ensures x in o <==> x in s {
      assert x in o <==> x in multiset(o);
    }
    forall i, j | 0 <= i < j < |o| ensures o[i].elt != o[j].elt {
      if o[i].elt == o[j].elt {
        assert o[i] in s && o[j] in s && o[i] == o[j];
        assert o == o[..j] + [o[j]] + o[j + 1..];
        assert o[i] in multiset(o[..j]) by { assert o[..j][i] == o[i]; }
        CountAtMostOne(s, o[i]);
        assert false;
      }
    }
  }

  /** Reordering the application list (HASH_SRT) keeps the invariant. */
  lemma ReorderKeepsWF(t: Tab, o: seq<Item>)
    requires WF(t) && multiset(o) == multiset(t.order)
    ensures WF(t.(order := o))
  {
    PermutationMembers(t.order, o);
  }
}
