/** Facts about table values and lists that the methods of the hash table rely on. */
module TableFacts {
  import opened Bits
  import opened Seqs
  import opened HashTypes
  import opened TableSpec
  import opened TableLaws
  import opened TableRuns
  import opened Links
  import opened BucketHeap
  import opened StableSort

  /** The chains of t have no place for x yet, and with x at the front of its chain the two structures agree. */
  ghost predicate ReadyFor(t: Tab, x: Item) {
    && |t.chains| > 0 && Apart(t.chains) && NoDup(t.chains[Bkt(x.hashv, |t.chains|)])
    && x.elt !in ChainElts(t.chains) && Partition(t.(chains := Push(t.chains, x)))
  }

  lemma ExpandElts(t: Tab)
    requires Partition(t)
    ensures ChainElts(Expand(t).chains) <= Elts(t.order)
    ensures |Expand(t).chains| == 2 * |t.chains|
  {
    ExpandKeepsPartition(t);
    PartitionApart(Expand(t));
  }

  /** The table value between the append to the application list and the entry into a chain. */
  function Listed(t: Tab, x: Item): Tab {
    var u := if t.order == [] then Make(t.nbits) else t;
    u.(order := u.order + [x], bloom := u.bloom + {BloomBit(x.hashv, u.nbits)})
  }

  lemma ListedFresh(t: Tab, x: Item)
    requires t.order == []
    ensures Listed(t, x) == Make(t.nbits).(order := [x], bloom := {BloomBit(x.hashv, t.nbits)})
  {
    hide BloomBit, Pow2;
  }

  lemma ListedKeeps(t: Tab, x: Item)
    requires t.order != []
    ensures Listed(t, x).order == t.order + [x] && Listed(t, x) == t.(order := Listed(t, x).order, bloom := Listed(t, x).bloom)
  {
  }

  lemma AddStart(t: Tab, x: Item)
    requires WF(t) && x.elt !in Elts(t.order)
    ensures ReadyFor(Listed(t, x), x) && NoDup(t.order) && x in Listed(t, x).order
    ensures Listed(t, x).order == t.order + [x] && Listed(t, x).bloom == t.bloom + {BloomBit(x.hashv, t.nbits)}
  {
    var u := if t.order == [] then Make(t.nbits) else t;
    NoTableOrMake(t.nbits);
    PartitionApart(u);
    forall y | y in u.order ensures y.elt != x.elt {
      assert y.elt in Elts(t.order);
    }
    AddedKeepsInv(u, x);
  }

  lemma EmptyBloom(t: Tab)
    requires WF(t) && t.order == []
    ensures t.bloom == {} && Elts(t.order) == {}
  {
  }

  lemma WFSizes(t: Tab)
    requires WF(t)
    ensures t.order != [] ==> |t.chains| > 0 && |t.chains| == |t.mults|
    ensures |Make(t.nbits).chains| > 0 && |Make(t.nbits).chains| == |Make(t.nbits).mults|
  {
  }

  lemma AbsentElt(s: seq<Item>, x: Item)
    requires x.elt !in Elts(s)
    ensures forall y :: y in s ==> y.elt != x.elt
  {
    forall y | y in s ensures y.elt != x.elt {
      assert y.elt in Elts(s);
    }
  }

  /** The filter bit may be set before the element enters its chain: nothing there looks at it. */
  lemma AddTwoWays(t: Tab, x: Item)
    requires t.order != [] ==> |t.chains| > 0 && |t.chains| == |t.mults|
    requires |Make(t.nbits).chains| > 0 && |Make(t.nbits).chains| == |Make(t.nbits).mults|
    ensures AddItem(t, x) == TableSpec.AddToBkt(Listed(t, x), x)
    ensures AddItem(t, x).nbits == t.nbits && AddItem(t, x).bloom == Listed(t, x).bloom
  {
    hide Rehash, Push, Mults, Overs, Sum, Shr, IdealByShift, BloomBit, Bkt;
  }

  lemma AddResult(t: Tab, x: Item, fcn: Key -> nat)
    requires WF(t) && Hashed(t, fcn) && x.hashv == fcn(x.key) && x.elt !in Elts(t.order)
    ensures WF(AddItem(t, x)) && Hashed(AddItem(t, x), fcn)
    ensures |Listed(t, x).chains| > 0 && |Listed(t, x).chains| == |Listed(t, x).mults|
    ensures AddItem(t, x) == TableSpec.AddToBkt(Listed(t, x), x)
    ensures AddItem(t, x).order == t.order + [x] && AddItem(t, x).nbits == t.nbits
    ensures AddItem(t, x).bloom == Listed(t, x).bloom
  {
    hide Inv, Elts, Expand, Push, Pow2;
    AbsentElt(t.order, x);
    AddKeepsWF(t, x);
    WFSizes(t);
    AddTwoWays(t, x);
  }

  lemma PositionOf(s: seq<Item>, d: Elem) returns (k: nat)
    requires Keyed(s) && d in Elts(s)
    ensures k < |s| && s[k] == Item(d, d.key, d.hashv)
  {
    k :| 0 <= k < |s| && s[k].elt == d;
    assert s[k] in s;
  }

  lemma ChainPlace(t: Tab, x: Item) returns (j: nat)
    requires WF(t) && x in t.order
    ensures NoDup(t.order) && Apart(t.chains) && |t.chains| > 0
    ensures var c := t.chains[Bkt(x.hashv, |t.chains|)]; NoDup(c) && j < |c| && c[j] == x
  {
    var c := t.chains[Bkt(x.hashv, |t.chains|)];
    assert x in c;
    j :| 0 <= j < |c| && c[j] == x;
    PartitionApart(t);
  }

  lemma HashedWithout(t: Tab, fcn: Key -> nat, x: Item)
    requires Hashed(t, fcn) && NoDup(t.order) && x in t.order && |t.chains| > 0
    ensures Hashed(DelItem(t, x), fcn)
  {
    WithoutMembers(t.order, x);
  }

  lemma WFChainElts(t: Tab)
    requires WF(t)
    ensures ChainElts(t.chains) <= Elts(t.order) && Elts([]) == {}
  {
    if t.order != [] {
      PartitionApart(t);
    }
  }

  lemma SameEltUnless(s: seq<Item>, x: Item, y: Item)
    requires NoDup(s) && x in s && y in s && x != y
    ensures x.elt != y.elt
  {
    if x.elt == y.elt {
      SameElt(s, x, y);
      assert false;
    }
  }

  lemma WithoutElts(s: seq<Item>, x: Item)
    requires NoDup(s) && x in s
    ensures Elts(Without(s, x)) == Elts(s) - {x.elt}
  {
    hide Without;
    WithoutMembers(s, x);
    forall e | e in Elts(s) && e != x.elt ensures e in Elts(Without(s, x)) {
      var y :| y in s && y.elt == e;
      assert y in Without(s, x);
    }
    forall y | y in Without(s, x) ensures y.elt != x.elt {
      SameEltUnless(s, x, y);
    }
  }

  /** What a deletion may rely on, the position of x in its chain, and what the value is afterwards. */
  lemma DelPlace(t: Tab, fcn: Key -> nat, x: Item, k: nat) returns (j: nat)
    requires WF(t) && Hashed(t, fcn) && k < |t.order| && t.order[k] == x
    ensures NoDup(t.order) && Apart(t.chains) && |t.chains| > 0
    ensures var b := Bkt(x.hashv, |t.chains|); var c := t.chains[b];
            var o := t.order[..k] + t.order[k + 1..];
            && NoDup(c) && j < |c| && c[j] == x
            && Elts(o) == Elts(t.order) - {x.elt} && Elts([]) == {}
            && (if |t.order| == 1 then DelItem(t, x) == NoTable(t.nbits)
                else DelItem(t, x) == t.(order := o, chains := t.chains[b := c[..j] + c[j + 1..]]))
    ensures WF(DelItem(t, x)) && Hashed(DelItem(t, x), fcn) && DelItem(t, x).nbits == t.nbits
    ensures x.elt !in ChainElts(DelItem(t, x).chains)
  {
    hide WF, Partition, NoDup, Elts, ChainElts, Apart, Without, Hashed;
    j := ChainPlace(t, x);
    WithoutAt(t.order, k);
    WithoutAt(t.chains[Bkt(x.hashv, |t.chains|)], j);
    WithoutElts(t.order, x);
    DelKeepsWF(t, x);
    HashedWithout(t, fcn, x);
    WFChainElts(DelItem(t, x));
  }

  lemma EmptyBuckets(a: array<Bucket>, nbits: nat)
    requires a.Length == 32 && forall b :: 0 <= b < a.Length ==> a[b] == Bucket(null, 0, 0)
    ensures var t := Make(nbits);
            && BucketsOk(a, t.chains, t.mults) && ChainsLinked(t.chains) && ChainElts(t.chains) == {}
            && t.log2 == INITIAL_LOG2 && Pow2(INITIAL_LOG2) == 32 == |t.chains| && t.order == []
            && t.ideal == t.nonideal == t.ineff == t.noexpand == 0
  {
    assert Pow2(INITIAL_LOG2) == 32;
  }

  lemma SnocFacts(s: seq<Item>, x: Item)
    requires Keyed(s) && x.elt.key == x.key && x.elt.hashv == x.hashv
    ensures Keyed(s + [x]) && Elts(s + [x]) == Elts(s) + {x.elt}
    ensures EltAt(s + [x], |s|) == x.elt && EltAt(s + [x], 0) == if s == [] then x.elt else EltAt(s, 0)
    ensures s != [] ==> EltAt(s, |s| - 1) == s[|s| - 1].elt && s[|s| - 1].elt in Elts(s)
  {
  }

  lemma SingleFacts(x: Item)
    ensures Elts([x]) == {x.elt} && EltAt([x], 0) == x.elt
    ensures AppLinked([x]) <==> x.elt.prev == null && x.elt.next == null
    ensures Keyed([x]) <==> x.elt.key == x.key && x.elt.hashv == x.hashv
  {
    assert x in [x];
    if AppLinked([x]) {
      assert [x][0].elt.prev == null && [x][0].elt.next == null;
    }
  }

  lemma CutFacts(s: seq<Item>, k: nat)
    requires k < |s|
    ensures var r := s[..k] + s[k + 1..];
            && Elts(r) <= Elts(s) && Near(s, k - 1) <= Elts(s) && Near(s, k + 1) <= Elts(s)
            && (Keyed(s) ==> Keyed(r))
  {
    assert forall x :: x in s[..k] + s[k + 1..] ==> x in s;
  }

  lemma CutChain(chains: seq<seq<Item>>, b: nat, j: nat)
    requires b < |chains| && j < |chains[b]|
    ensures Elts(chains[b]) <= ChainElts(chains)
    ensures ChainElts(chains[b := chains[b][..j] + chains[b][j + 1..]]) <= ChainElts(chains)
  {
    CutFacts(chains[b], j);
  }

  // ---------------------------------------------------------------- sorting and iterating

  lemma WFNoDup(t: Tab)
    requires WF(t)
    ensures NoDup(t.order)
  {
  }

  /** A sort is a reordering, so the value it leaves is a table value. */
  lemma SortFacts(t: Tab, fcn: Key -> nat, cmp: (Item, Item) -> int)
    requires WF(t) && Hashed(t, fcn)
    ensures NoDup(t.order)
    ensures var u := t.(order := StableSort.Sort(cmp, t.order)); WF(u) && Hashed(u, fcn)
    ensures EltAt(t.order, 0) == null <==> t.order == []
    ensures t.order == [] ==> StableSort.Sort(cmp, t.order) == []
  {
    hide WF, NoDup, SortFrom;
    WFNoDup(t);
    SortFromPermutes(cmp, t.order, 1);
    ReorderKeepsWF(t, StableSort.Sort(cmp, t.order));
    PermutationMembers(t.order, StableSort.Sort(cmp, t.order));
  }

  /** The items that a selective deletion leaves. */
  function Kept(s: seq<Item>, del: Item -> bool): seq<Item> {
    if s == [] then [] else (if del(s[0]) then [] else [s[0]]) + Kept(s[1..], del)
  }

  lemma {:induction false} KeptSnoc(s: seq<Item>, x: Item, del: Item -> bool)
    ensures Kept(s + [x], del) == if del(x) then Kept(s, del) else Kept(s, del) + [x]
  {
    if s == [] {
      assert s + [x] == [x];
      assert Kept([x], del) == (if del(x) then [] else [x]) + Kept([], del);
    } else {
      assert (s + [x])[1..] == s[1..] + [x];
      KeptSnoc(s[1..], x, del);
    }
  }

  lemma DelOrder(t: Tab, x: Item)
    requires WF(t) && x in t.order
    ensures |t.chains| > 0 && DelItem(t, x).order == Without(t.order, x)
  {
    DelKeepsWF(t, x);
  }

  lemma RestAt(s: seq<Item>, all: seq<Item>, k: nat, n: nat)
    requires k <= |all| && n <= |s| && s[n..] == all[k..]
    ensures EltAt(s, n) == EltAt(all, k) && EltAt(s, n + 1) == EltAt(all, k + 1)
    ensures EltAt(all, k) != null ==> n < |s| && s[n].elt == all[k].elt
  {
    assert k < |all| ==> s[n..][0] == all[k..][0];
    assert k + 1 < |all| ==> s[n..][1] == all[k..][1];
  }

  /** The elements of a list, in its order. */
  function Elements(s: seq<Item>): seq<Elem> {
    seq(|s|, i requires 0 <= i < |s| => s[i].elt)
  }

  lemma ElementsSnoc(s: seq<Item>, k: nat)
    requires k < |s|
    ensures Elements(s[..k + 1]) == Elements(s[..k]) + [s[k].elt]
  {
  }

  /** Where a walk of the list stands: at its position's element, or past the end. */
  lemma Standing(s: seq<Item>, k: nat)
    requires k <= |s|
    ensures EltAt(s, k) == null <==> k == |s|
    ensures k < |s| ==> EltAt(s, k) == s[k].elt
    ensures k == |s| ==> s[..k] == s && s[k..] == [] && EltAt(s, k + 1) == null
    ensures Elements(s[..0]) == []
  {
  }

  lemma Around(p: seq<Item>, all: seq<Item>, k: nat, s: seq<Item>)
    requires k < |all| && s == p + all[k..]
    ensures |p| < |s| && s[|p|] == all[k] && s[..|p|] == p && s[|p|..] == all[k..] && s[|p| + 1..] == all[k + 1..]
    ensures s == (p + [all[k]]) + all[k + 1..]
  {
  }

  lemma TakeSnoc(s: seq<Item>, k: nat)
    requires k < |s|
    ensures s[..k + 1] == s[..k] + [s[k]]
  {
  }

  /** One round of the loop on the list: position |Kept(all[..k])| holds all[k], and goes if `del` says so. */
  lemma IterStep(s: seq<Item>, all: seq<Item>, k: nat, del: Item -> bool)
    requires k < |all| && s == Kept(all[..k], del) + all[k..] && NoDup(s)
    ensures var n := |Kept(all[..k], del)|;
            && n < |s| && s[n] == all[k] && EltAt(s, n + 1) == EltAt(all, k + 1)
            && Kept(all[..k + 1], del) + all[k + 1..] == (if del(all[k]) then Without(s, all[k]) else s)
            && |Kept(all[..k + 1], del)| == if del(all[k]) then n else n + 1
  {
    hide NoDup, Without, Kept, EltAt;
    var p, n := Kept(all[..k], del), |Kept(all[..k], del)|;
    TakeSnoc(all, k);
    KeptSnoc(all[..k], all[k], del);
    Around(p, all, k, s);
    RestAt(s, all, k, n);
    WithoutAt(s, n);
  }

  lemma {:induction false} KeptNone(s: seq<Item>, del: Item -> bool)
    ensures Kept([], del) == []
    ensures Kept(s, del) == [] <==> forall x :: x in s ==> del(x)
  {
    if s != [] {
      KeptNone(s[1..], del);
      assert s == [s[0]] + s[1..];
    }
  }
}
