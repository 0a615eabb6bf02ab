/** The hash table of uthash.h on the heap, proved against its value in TableSpec. */
module UtHash {
  import opened Bits
  import opened Seqs
  import opened HashTypes
  import opened TableSpec
  import opened TableRuns
  import opened TableGrowth
  import opened Links
  import opened Bloom
  import opened BucketHeap
  import opened TableFacts
  import opened StableSort
  import opened ListSort

  /** A use of a macro on a table. */
  datatype Call = AddCall(elt: Elem, key: Key) | DeleteCall(elt: Elem) | SortCall(cmp: (Item, Item) -> int)

  /** The elements of a table after a call. */
  ghost function EltsAfter(elts: set<Elem>, c: Call): set<Elem> {
    match c
    case AddCall(e, _) => elts + {e}
    case DeleteCall(e) => elts - {e}
    case SortCall(_) => elts
  }

  /** What the source asks of its callers: an added element is not in the table, a deleted one is. */
  ghost predicate Proper(elts: set<Elem>, c: Call) {
    && (c.AddCall? ==> c.elt !in elts)
    && (c.DeleteCall? ==> c.elt in elts)
  }

  ghost predicate AllProper(elts: set<Elem>, calls: seq<Call>)
    decreases |calls|
  {
    calls == [] || (Proper(elts, calls[0]) && AllProper(EltsAfter(elts, calls[0]), calls[1..]))
  }

  ghost function AddedElts(calls: seq<Call>): set<Elem> {
    set c | c in calls && c.AddCall? :: c.elt
  }

  /** The operation that a call is on a table of value t. */
  ghost predicate Denotes(c: Call, t: Tab, op: Op, fcn: Key -> nat) {
    match c
    case AddCall(e, key) => op == Op.Add(Item(e, key, fcn(key)))
    case DeleteCall(e) => op.Del? && op.x.elt == e
    case SortCall(cmp) => op == Reorder(StableSort.Sort(cmp, t.order))
  }

  /** The operations of a program of calls, each on the table that the ones before it lead to. */
  ghost predicate AllDenote(calls: seq<Call>, t: Tab, ops: seq<Op>, fcn: Key -> nat)
    requires WF(t) && LegalRun(t, fcn, ops)
    decreases |ops|
  {
    && |calls| == |ops|
    && (ops != [] ==>
          && Denotes(calls[0], t, ops[0], fcn)
          && AllDenote(calls[1..], Step(t, fcn, ops[0]), ops[1..], fcn))
  }

  /** One more call at the end of a program. */
  lemma {:induction false} DenoteThen(calls: seq<Call>, c: Call, t: Tab, ops: seq<Op>, op: Op, fcn: Key -> nat)
    requires WF(t) && LegalRun(t, fcn, ops) && AllDenote(calls, t, ops, fcn)
    requires Legal(Run(t, fcn, ops), fcn, op) && Denotes(c, Run(t, fcn, ops), op, fcn)
    ensures LegalRun(t, fcn, ops + [op]) && AllDenote(calls + [c], t, ops + [op], fcn)
    decreases |ops|
  {
    hide Denotes, Legal, Step, WF;
    RunThen(t, fcn, ops, op);
    if ops == [] {
      assert [] + [op] == [op] && [op][1..] == [] && calls + [c] == [c] && [c][1..] == [];
    } else {
      assert (ops + [op])[0] == ops[0] && (ops + [op])[1..] == ops[1..] + [op];
      assert (calls + [c])[0] == calls[0] && (calls + [c])[1..] == calls[1..] + [c];
      DenoteThen(calls[1..], c, Step(t, fcn, ops[0]), ops[1..], op, fcn);
    }
  }

  class HashTable {
    const fcn: Key -> nat    // HASH_FCN
    const useBloom: bool     // compiled with HASH_BLOOM
    const nbits: nat         // the value of HASH_BLOOM
    var head: Elem?          // the application's pointer to the first element; null: there is no table
    var buckets: array<Bucket>
    var numBuckets: nat
    var log2NumBuckets: nat
    var numItems: nat
    var tail: Elem?
    var idealChainMaxlen: nat
    var nonidealItems: nat
    var ineffExpands: nat
    var noexpand: nat
    var bloomBv: array<bv8>
    ghost var items: seq<Item>    // the application list
    ghost var bits: set<nat>      // the set bits of the filter
    ghost var view: Tab           // the whole table
    ghost var repr: set<Elem>     // the elements of the table

    /** head, tail, the application list and the keys. */
    ghost predicate AppOk()
      reads `head, `tail, `numItems, `items, `repr, repr`prev, repr`next, repr`key, repr`hashv
    {
      && Elts(items) <= repr && numItems == |items|
      && head == EltAt(items, 0) && tail == EltAt(items, |items| - 1) && AppLinked(items) && Keyed(items)
    }

    /** The bucket array, the chains and the counters. */
    ghost predicate HashOk()
      reads `buckets, `numBuckets, `log2NumBuckets, `idealChainMaxlen, `nonidealItems, `ineffExpands,
            `noexpand, `view, `repr, buckets, repr`hhPrev, repr`hhNext
    {
      && ChainElts(view.chains) <= repr
      && numBuckets == |view.chains| && numBuckets == Pow2(log2NumBuckets) && log2NumBuckets == view.log2
      && idealChainMaxlen == view.ideal && nonidealItems == view.nonideal
      && ineffExpands == view.ineff && noexpand == view.noexpand
      && BucketsOk(buckets, view.chains, view.mults) && ChainsLinked(view.chains)
    }

    /** The filter holds `bits`. */
    ghost predicate BloomOk()
      reads `bits, `bloomBv, bloomBv
    {
      useBloom ==>
        && 8 * bloomBv.Length >= Pow2(nbits)
        && forall i :: 0 <= i < 8 * bloomBv.Length ==> (BitTest(bloomBv[..], i) <==> i in bits)
    }

    /** The two arrays are different objects. */
    ghost predicate Separate()
      reads `buckets, `bloomBv
    {
      buckets as object != bloomBv as object
    }

    /** HASH_EXPAND_BUCKETS, first half: the doubled array and its figures. */
    method BuildBuckets() returns (newBuckets: array<Bucket>, ideal: nat, nonideal: nat)
      requires HashOk() && Partition(view) && Keyed(view.order) && numItems == |view.order| > 0
      modifies repr`hhPrev, repr`hhNext
      ensures fresh(newBuckets) && ideal == Expand(view).ideal && nonideal == Expand(view).nonideal
      ensures BucketsOk(newBuckets, Expand(view).chains, Expand(view).mults) && ChainsLinked(Expand(view).chains)
    {
      hide ChainsLinked, ChainElts, Partition, Keyed;
      newBuckets := new Bucket[2 * numBuckets](_ => Bucket(null, 0, 0));
      ideal := Shr(numItems, log2NumBuckets + 1) + if BitAnd(numItems, numBuckets * 2 - 1) != 0 then 1 else 0;
      IdealPositive(numItems, log2NumBuckets + 1);
      nonideal := MoveChains(buckets, newBuckets, ideal, view);
    }

    /** HASH_EXPAND_BUCKETS, second half: the new array replaces the old one and the expansion is judged. */
    method InstallBuckets(newBuckets: array<Bucket>, ideal: nat, nonideal: nat, ghost u: Tab)
      requires numBuckets == |view.chains| && numBuckets == Pow2(log2NumBuckets) && log2NumBuckets == view.log2
      requires numItems == |view.order| && ineffExpands == view.ineff && noexpand == view.noexpand
      requires BucketsOk(newBuckets, u.chains, u.mults) && ChainsLinked(u.chains) && ChainElts(u.chains) <= repr
      requires |u.chains| == 2 * numBuckets && ideal == u.ideal && nonideal == u.nonideal
      requires var ineff := if nonideal > Shr(numItems, 1) then view.ineff + 1 else 0;
               u == view.(log2 := view.log2 + 1, chains := u.chains, mults := u.mults, ideal := ideal,
                          nonideal := nonideal, ineff := ineff, noexpand := if ineff > 1 then 1 else view.noexpand)
      modifies `buckets, `numBuckets, `log2NumBuckets, `idealChainMaxlen, `nonidealItems, `ineffExpands, `noexpand, `view
      ensures view == u && HashOk() && buckets == newBuckets
    {
      hide ChainsLinked, BucketsOk, ChainElts;
      idealChainMaxlen, nonidealItems := ideal, nonideal;
      numBuckets := numBuckets * 2;
      log2NumBuckets := log2NumBuckets + 1;
      buckets := newBuckets;
      ineffExpands := if nonidealItems > Shr(numItems, 1) then ineffExpands + 1 else 0;
      if ineffExpands > 1 {
        noexpand := 1;
      }
      view := u;
    }

    lemma Sized()
      requires Partition(view)
      ensures |view.chains| > 0
    {
    }

    /** HASH_EXPAND_BUCKETS. */
    method ExpandBuckets()
      requires HashOk() && Partition(view) && Keyed(view.order) && numItems == |view.order| > 0 && Elts(view.order) <= repr
      modifies `buckets, `numBuckets, `log2NumBuckets, `idealChainMaxlen, `nonidealItems, `ineffExpands, `noexpand, `view
      modifies repr`hhPrev, repr`hhNext
      ensures view == Expand(old(view)) && HashOk() && fresh(buckets)
      ensures numBuckets == 2 * old(numBuckets) && log2NumBuckets == old(log2NumBuckets) + 1
      ensures ineffExpands == if 2 * nonidealItems > numItems then old(ineffExpands) + 1 else 0
      ensures noexpand == if ineffExpands >= 2 then 1 else old(noexpand)
    {
      hide Rehash, Mults, Overs, Sum, IdealByShift, Shr, BucketsOk, ChainsLinked, ChainElts, Partition, Keyed, Elts;
      Sized();
      ExpandElts(view);
      MoreThanHalf(Expand(view).nonideal, numItems);
      var newBuckets, ideal, nonideal := BuildBuckets();
      InstallBuckets(newBuckets, ideal, nonideal, Expand(view));
    }

    /** HASH_ADD_TO_BKT: the element, already listed and counted, enters its chain; a chain at its allowance makes the
        table expand, unless expansion was given up. */
    method AddToBkt(e: Elem, ghost x: Item)
      requires HashOk() && Keyed(view.order) && x in view.order && x.elt == e && e.hashv == x.hashv
      requires Elts(view.order) <= repr && numItems == |view.order| && ReadyFor(view, x)
      modifies `buckets, `numBuckets, `log2NumBuckets, `idealChainMaxlen, `nonidealItems, `ineffExpands, `noexpand, `view
      modifies buckets, repr`hhPrev, repr`hhNext
      ensures view == TableSpec.AddToBkt(old(view), x) && HashOk()
      ensures buckets == old(buckets) || fresh(buckets)
    {
      hide Expand, Partition, AppLinked;
      var b := Bkt(e.hashv, numBuckets);
      PushElts(view.chains, x);
      PushBkt(buckets, b, e, x, view.chains, view.mults);
      view := view.(chains := Push(view.chains, x));
      if buckets[b].count >= (buckets[b].expandMult + 1) * BKT_CAPACITY_THRESH && noexpand != 1 {
        ExpandBuckets();
      }
    }

    /** HASH_BLOOM_ADD. */
    method BloomAdd(hashv: nat)
      requires BloomOk()
      modifies `bits, bloomBv
      ensures BloomOk() && bits == old(bits) + {BloomBit(hashv, nbits)}
    {
      if useBloom {
        var idx := BitAnd(hashv, Pow2(nbits) - 1);
        BitSet(bloomBv, idx);
      }
      bits := bits + {BloomBit(hashv, nbits)};
    }

    /** HASH_BLOOM_TEST; true when there is no filter. */
    method BloomTest(hashv: nat) returns (maybe: bool)
      requires BloomOk()
      ensures maybe <==> !useBloom || BloomBit(hashv, nbits) in bits
    {
      maybe := true;
      if useBloom {
        var idx := BitAnd(hashv, Pow2(nbits) - 1);
        maybe := BitTest(bloomBv[..], idx);
      }
    }

    /** The bucket array of a new table, all zero, and its figures. */
    method MakeBuckets()
      modifies `buckets, `numBuckets, `log2NumBuckets, `idealChainMaxlen, `nonidealItems, `ineffExpands, `noexpand, `view
      ensures view == Make(nbits) && ChainElts(view.chains) == {} && HashOk() && fresh(buckets)
      ensures numBuckets == 32 && log2NumBuckets == 5
      ensures idealChainMaxlen == nonidealItems == ineffExpands == noexpand == 0
    {
      hide Make, BucketsOk, ChainsLinked, ChainElts, Pow2;
      numBuckets, log2NumBuckets := 32, INITIAL_LOG2;
      idealChainMaxlen, nonidealItems, ineffExpands, noexpand := 0, 0, 0, 0;
      view := Make(nbits);
      buckets := new Bucket[32](_ => Bucket(null, 0, 0));
      EmptyBuckets(buckets, nbits);
    }

    /** HASH_BLOOM_MAKE: a filter without a set bit. */
    method MakeFilter()
      modifies `bloomBv, `bits
      ensures bits == {} && BloomOk() && fresh(bloomBv)
    {
      hide BitTest, Pow2, BloomByteLen;
      bits := {};
      bloomBv := new bv8[BloomByteLen(nbits)](_ => 0);
      EmptyBits(bloomBv, nbits);
    }

    /** HASH_MAKE_TABLE, for the element that head points to. */
    method MakeTable()
      modifies `tail, `buckets, `numBuckets, `log2NumBuckets, `numItems, `idealChainMaxlen, `nonidealItems,
               `ineffExpands, `noexpand, `bloomBv, `view, `bits
      ensures view == Make(nbits) && ChainElts(view.chains) == {} && numItems == 0 && bits == {} && tail == head
      ensures HashOk() && BloomOk() && Separate()
      ensures fresh(buckets) && fresh(bloomBv)
      ensures numBuckets == 32 && log2NumBuckets == 5
      ensures idealChainMaxlen == nonidealItems == ineffExpands == noexpand == 0
    {
      hide Make, HashOk, BloomOk, ChainElts;
      tail, numItems := head, 0;
      MakeBuckets();
      MakeFilter();
    }

    /** The value may be relabelled where the bucket array does not show it. */
    ghost method Relist(u: Tab)
      requires HashOk() && u == view.(order := u.order, bloom := u.bloom)
      modifies `view
      ensures view == u && HashOk()
    {
      hide ChainsLinked, ChainElts, BucketsOk;
      view := u;
    }

    /** A new element joins the footprint. */
    ghost method Grow(e: Elem)
      requires AppOk() && HashOk()
      modifies `repr
      ensures repr == old(repr) + {e} && AppOk() && HashOk()
    {
      hide AppLinked, Keyed, Elts, ChainElts, ChainsLinked, BucketsOk;
      repr := repr + {e};
    }

    // -------------------------------------------------------------- the operations of the application

    ghost predicate Valid()
      reads this, repr, buckets, bloomBv
    {
      && WF(view) && Hashed(view, fcn)
      && view.order == items && view.bloom == bits && view.nbits == nbits && repr == Elts(items)
      && head == EltAt(items, 0)
      && (items != [] ==> AppOk() && HashOk() && BloomOk() && Separate())
    }

    /** No table yet. */
    constructor (fcn: Key -> nat, useBloom: bool, nbits: nat)
      ensures Valid() && view == NoTable(nbits)
      ensures this.fcn == fcn && this.useBloom == useBloom && this.nbits == nbits
      ensures fresh(buckets) && fresh(bloomBv)
    {
      this.fcn, this.useBloom, this.nbits := fcn, useBloom, nbits;
      head, tail := null, null;
      buckets := new Bucket[0];
      bloomBv := new bv8[0];
      numBuckets, log2NumBuckets, numItems := 0, 0, 0;
      idealChainMaxlen, nonidealItems, ineffExpands, noexpand := 0, 0, 0, 0;
      view, items, bits, repr := NoTable(nbits), [], {}, {};
    }

    /** HASH_ADD_KEYPTR with a null head, up to the entry into a chain: a table is made for the element. */
    method EnterFirst(add: Elem, ghost x: Item)
      requires x.elt == add && add.next == null && add.key == x.key && add.hashv == x.hashv
      modifies `head, `tail, `buckets, `numBuckets, `log2NumBuckets, `numItems, `idealChainMaxlen, `nonidealItems,
               `ineffExpands, `noexpand, `bloomBv, `view, `items, `bits, `repr, add`prev
      ensures items == [x] && bits == {} && repr == {add} == Elts(items) && head == EltAt(items, 0)
      ensures view == Make(nbits).(order := items, bloom := {BloomBit(x.hashv, nbits)})
      ensures AppOk() && HashOk() && BloomOk() && Separate() && fresh(buckets) && fresh(bloomBv)
    {
      hide AppLinked, Keyed, Elts, EltAt, HashOk, BloomOk, Make;
      head := add;
      add.prev := null;
      items, repr := [x], {add};
      MakeTable();
      numItems := numItems + 1;
      Relist(view.(order := items, bloom := {BloomBit(x.hashv, nbits)}));
      SingleFacts(x);
    }

    /** The new element at the end of the application list. */
    method AppendList(add: Elem, ghost x: Item)
      requires x.elt == add && add.next == null && add.key == x.key && add.hashv == x.hashv
      requires AppOk() && items != [] && NoDup(items) && add !in Elts(items) && add in repr
      modifies `tail, `numItems, `items, add`prev, repr`next
      ensures items == old(items) + [x] && Elts(items) == Elts(old(items)) + {add} && AppOk()
      ensures head == EltAt(items, 0)
    {
      hide AppLinked, Keyed, NoDup, Elts, EltAt;
      SnocFacts(items, x);
      AppendApp(add, tail, x, items);
      tail := add;
      numItems := numItems + 1;
      items := items + [x];
    }

    /** HASH_ADD_KEYPTR with a table, up to the entry into a chain: the element goes to the end of the list. */
    method EnterLast(add: Elem, ghost x: Item)
      requires view.nbits == nbits
      requires x.elt == add && add.next == null && add.key == x.key && add.hashv == x.hashv
      requires AppOk() && HashOk() && items != [] && items == view.order && NoDup(items) && add !in Elts(items)
      modifies `tail, `numItems, `view, `items, `repr, add`prev, add`next, repr`next
      ensures items == old(items) + [x] && repr == old(repr) + {add} && Elts(items) == Elts(old(items)) + {add}
      ensures head == EltAt(items, 0)
      ensures view == Listed(old(view), x)
      ensures AppOk() && HashOk()
    {
      hide AppOk, HashOk, NoDup, Elts, EltAt, Listed;
      Grow(add);
      AppendList(add, x);
      ListedKeeps(view, x);
      Relist(Listed(view, x));
    }

    /** HASH_ADD_KEYPTR from the entry into a chain on. */
    method EnterChain(add: Elem, ghost x: Item)
      requires AppOk() && HashOk() && BloomOk() && Separate() && items == view.order
      requires x in items && x.elt == add && ReadyFor(view, x)
      modifies `buckets, `numBuckets, `log2NumBuckets, `idealChainMaxlen, `nonidealItems, `ineffExpands, `noexpand,
               `view, `bits, buckets, bloomBv, repr`hhPrev, repr`hhNext
      ensures AppOk() && HashOk() && BloomOk() && Separate()
      ensures bits == old(bits) + {BloomBit(x.hashv, nbits)}
      ensures view == TableSpec.AddToBkt(old(view), x)
      ensures buckets == old(buckets) || fresh(buckets)
    {
      hide ReadyFor, AppLinked, ChainsLinked, ChainElts, BucketsOk, BitTest, TableSpec.AddToBkt;
      AddToBkt(add, x);
      label Chained:
      BloomAdd(add.hashv);
      assert AppOk() == old(AppOk()) && HashOk() == old@Chained(HashOk());
    }

    /** What an add finds: no table and nothing in it, or a table. */
    lemma Found(add: Elem, x: Item)
      requires Valid() && add !in repr && x.elt == add
      ensures view.order == items && view.bloom == bits && view.nbits == nbits && repr == Elts(items)
      ensures head == null ==> items == [] && repr == {} && bits == {}
      ensures head != null ==> items != [] && AppOk() && HashOk() && BloomOk() && Separate()
      ensures ReadyFor(Listed(view, x), x) && NoDup(items) && add !in Elts(items)
    {
      hide AppOk, HashOk, BloomOk, Hashed, Elts, Listed, ReadyFor, NoDup;
      AddStart(view, x);
      if head == null {
        EmptyBloom(view);
      }
    }

    /** HASH_ADD_KEYPTR up to the entry into a chain. */
    method EnterList(add: Elem, key: Key)
      requires Valid() && add !in repr
      modifies `head, `tail, `buckets, `numBuckets, `log2NumBuckets, `numItems, `idealChainMaxlen, `nonidealItems,
               `ineffExpands, `noexpand, `bloomBv, `view, `items, `bits, `repr
      modifies add`prev, add`next, add`key, add`hashv, repr`next
      ensures view == Listed(old(view), Item(add, key, fcn(key)))
      ensures items == old(items) + [Item(add, key, fcn(key))] && head == EltAt(items, 0)
      ensures repr == old(repr) + {add} == Elts(items) && bits == old(bits)
      ensures AppOk() && HashOk() && BloomOk() && Separate()
      ensures (buckets == old(buckets) || fresh(buckets)) && (bloomBv == old(bloomBv) || fresh(bloomBv))
    {
      hide Valid, AppOk, HashOk, BloomOk, Elts, NoDup, Make, Listed, ReadyFor;
      ghost var x := Item(add, key, fcn(key));
      Found(add, x);
      add.next := null;
      add.key, add.hashv := key, fcn(key);
      if head == null {
        ListedFresh(view, x);
        EnterFirst(add, x);
      } else {
        EnterLast(add, x);
      }
    }

    /** The counters and the bucket array show the value of the table. */
    lemma Shown()
      requires HashOk()
      ensures numBuckets == |view.chains| == buckets.Length && log2NumBuckets == view.log2
      ensures idealChainMaxlen == view.ideal && nonidealItems == view.nonideal
      ensures ineffExpands == view.ineff && noexpand == view.noexpand
      ensures |view.mults| == numBuckets
      ensures forall b :: 0 <= b < numBuckets ==>
                buckets[b].count == |view.chains[b]| && buckets[b].expandMult == view.mults[b]
    {
    }

    /** HASH_ADD_KEYPTR. */
    method Add(add: Elem, key: Key)
      requires Valid() && add !in repr
      modifies this, repr, buckets, bloomBv, add
      ensures Valid() && view == AddItem(old(view), Item(add, key, fcn(key))) && repr == old(repr) + {add}
      ensures (buckets == old(buckets) || fresh(buckets)) && (bloomBv == old(bloomBv) || fresh(bloomBv))
      ensures old(head) == null ==>
                && numBuckets == 32 && log2NumBuckets == 5
                && idealChainMaxlen == nonidealItems == ineffExpands == noexpand == 0
      ensures old(head) != null ==>
                numBuckets == old(var k := buckets[Bkt(fcn(key), numBuckets)];
                                  if k.count + 1 >= 10 * (k.expandMult + 1) && noexpand != 1
                                  then 2 * numBuckets else numBuckets)
      ensures old(head) != null && numBuckets == old(numBuckets) ==>
                && log2NumBuckets == old(log2NumBuckets) && idealChainMaxlen == old(idealChainMaxlen)
                && nonidealItems == old(nonidealItems) && ineffExpands == old(ineffExpands) && noexpand == old(noexpand)
    {
      hide AppOk, HashOk, BloomOk, ReadyFor, WF, Hashed, Elts, Make, Listed, AddItem, TableSpec.AddToBkt, Expand;
      ghost var x := Item(add, key, fcn(key));
      AddStart(view, x);
      AddResult(view, x, fcn);
      AbsentElt(view.order, x);
      AddFigures(view, x);
      if head != null {
        Shown();
      }
      EnterList(add, key);
      EnterChain(add, x);
      Shown();
    }

    /** HASH_FIND_IN_BKT. */
    method FindInBkt(b: nat, key: Key) returns (out: Elem?)
      requires HashOk() && b < |view.chains| && Keyed(view.chains[b])
      ensures match FirstWith(view.chains[b], key) case None => out == null case Some(x) => out == x.elt
    {
      ghost var rest := view.chains[b];
      assert HhLinked(rest);
      out := buckets[b].hhHead;
      while out != null
        invariant out == EltAt(rest, 0) && HhNextLinked(rest) && Keyed(rest)
        invariant FirstWith(rest, key) == FirstWith(view.chains[b], key)
        decreases |rest|
      {
        if out.key == key {
          break;
        }
        out := out.hhNext;
        rest := rest[1..];
      }
    }

    /** HASH_FIND: an element with the key if the table holds one, whether or not there is a Bloom filter. */
    method Find(key: Key) returns (out: Elem?)
      requires Valid()
      ensures match TableSpec.Find(view, key, fcn(key), false) case None => out == null case Some(x) => out == x.elt
      ensures out == null <==> forall x :: x in items ==> x.key != key
      ensures out != null ==> out in repr && out.key == key
    {
      out := null;
      FindLaw(view, fcn, key);
      if head != null {
        var hashv := fcn(key);
        var b := Bkt(hashv, numBuckets);
        var maybe := BloomTest(hashv);
        if maybe {
          out := FindInBkt(b, key);
        }
      }
    }

    /** HASH_DELETE of an element that is not alone, in the application list. */
    method UnlinkList(d: Elem, ghost k: nat)
      requires AppOk() && NoDup(items) && |items| > 1 && k < |items| && items[k].elt == d
      modifies `head, `tail, `numItems, `items, repr`prev, repr`next
      ensures items == old(items)[..k] + old(items)[k + 1..] && AppOk()
    {
      hide AppLinked, Keyed, Elts, EltAt, Near, NoDup;
      ghost var s := items[..k] + items[k + 1..];
      CutFacts(items, k);
      head, tail := UnlinkApp(d, head, tail, k, items);
      numItems := numItems - 1;
      items := s;
    }

    /** HASH_DELETE in the bucket of the element. */
    method UnlinkChain(d: Elem, ghost x: Item, ghost j: nat)
      requires HashOk() && Apart(view.chains) && |view.chains| > 0 && x.elt == d && x.hashv == d.hashv
      requires var c := view.chains[Bkt(x.hashv, |view.chains|)]; NoDup(c) && j < |c| && c[j] == x
      modifies `view, buckets, repr`hhPrev, repr`hhNext
      ensures var b := Bkt(x.hashv, |old(view).chains|); var c := old(view).chains[b];
              view == old(view).(chains := old(view).chains[b := c[..j] + c[j + 1..]])
      ensures HashOk()
    {
      hide ChainsLinked, BucketsOk, ChainElts, Elts, EltAt, Near, Apart, NoDup, Bkt;
      var b := Bkt(d.hashv, numBuckets);
      ghost var c := view.chains[b];
      CutFacts(c, j);
      CutChain(view.chains, b, j);
      RemoveBkt(buckets, b, d, j, view.chains, view.mults);
      view := view.(chains := view.chains[b := c[..j] + c[j + 1..]]);
    }

    /** The deleted element leaves the footprint. */
    ghost method Forget(d: Elem)
      requires AppOk() && HashOk() && d !in Elts(items) && d !in ChainElts(view.chains)
      modifies `repr
      ensures repr == old(repr) - {d} && AppOk() && HashOk()
    {
      hide AppLinked, Keyed, Elts, ChainElts, ChainsLinked, BucketsOk;
      repr := repr - {d};
    }

    /** HASH_DELETE of an element that is not alone. */
    method Unlink(d: Elem, ghost x: Item, ghost k: nat, ghost j: nat, ghost u: Tab)
      requires AppOk() && HashOk() && BloomOk() && Separate() && NoDup(items) && items == view.order
      requires |items| > 1 && k < |items| && items[k] == x && x.elt == d && x.hashv == d.hashv
      requires |view.chains| > 0 && Apart(view.chains)
      requires var c := view.chains[Bkt(x.hashv, |view.chains|)];
               var o := items[..k] + items[k + 1..];
               && NoDup(c) && j < |c| && c[j] == x && d !in Elts(o) && d !in ChainElts(u.chains)
               && u == view.(order := o, chains := view.chains[Bkt(x.hashv, |view.chains|) := c[..j] + c[j + 1..]])
      modifies `head, `tail, `numItems, `items, `view, `repr, buckets, repr
      ensures view == u && items == u.order && repr == old(repr) - {d}
      ensures AppOk() && HashOk() && BloomOk() && Separate()
    {
      hide AppOk, HashOk, AppLinked, Keyed, Elts, ChainElts, ChainsLinked, BucketsOk, BitTest, NoDup, Apart, Bkt;
      UnlinkList(d, k);
      UnlinkChain(d, x, j);
      Relist(u);
      Forget(d);
    }

    /** HASH_DELETE. */
    method Delete(d: Elem)
      requires Valid() && d in repr
      modifies this, repr, buckets
      ensures Valid() && view == DelItem(old(view), old(Item(d, d.key, d.hashv)))
      ensures repr == old(repr) - {d} && buckets == old(buckets) && bloomBv == old(bloomBv)
      ensures head == null <==> old(items) == [old(Item(d, d.key, d.hashv))]
      ensures numBuckets == old(numBuckets) && log2NumBuckets == old(log2NumBuckets)
      ensures idealChainMaxlen == old(idealChainMaxlen) && nonidealItems == old(nonidealItems)
      ensures ineffExpands == old(ineffExpands) && noexpand == old(noexpand)
    {
      hide HashOk, BloomOk, WF, Hashed, NoDup, DelItem, Elts, Apart;
      ghost var x := Item(d, d.key, d.hashv);
      ghost var k := PositionOf(items, d);
      ghost var j := DelPlace(view, fcn, x, k);
      ghost var u := DelItem(view, x);
      if d.prev == null && d.next == null {
        head := null;
        assert items[..k] + items[k + 1..] == [];
        view, items, bits, repr := u, [], {}, repr - {d};
      } else {
        Unlink(d, x, k, j, u);
      }
    }

    /** HASH_SRT on the application list. */
    method SortApp(cmp: (Item, Item) -> int) returns (ghost passes: nat)
      requires AppOk() && NoDup(items) && head != null
      modifies `head, `tail, `items, repr`prev, repr`next
      ensures AppOk() && items == StableSort.Sort(cmp, old(items)) && Elts(items) == Elts(old(items))
      ensures head == EltAt(items, 0) && passes == Passes(|old(items)|, 1)
    {
      hide AppLinked, Keyed, Elts, NoDup, Passes, StableSort.Sort;
      head, tail, passes := SortList(head, cmp, items);
      items := StableSort.Sort(cmp, items);
    }

    /** HASH_SRT: the application list is relinked; nothing else of the table changes. */
    method Sort(cmp: (Item, Item) -> int) returns (ghost passes: nat)
      requires Valid()
      modifies `head, `tail, `items, `view, repr`prev, repr`next
      ensures Valid() && view == old(view).(order := StableSort.Sort(cmp, old(view).order))
      ensures old(head) != null ==> passes == Passes(|old(items)|, 1)
    {
      hide AppOk, HashOk, BloomOk, WF, Hashed, Elts, EltAt, NoDup, Passes, StableSort.Sort;
      passes := 0;
      SortFacts(view, fcn, cmp);
      if head != null {
        passes := SortApp(cmp);
        Relist(view.(order := items));
      }
    }

    /** The pointers can be followed: the buckets lead through `chains`, head leads through `s`. */
    ghost predicate Walkable(chains: seq<seq<Item>>, s: seq<Item>)
      reads `head, `buckets, `numBuckets, buckets, ChainElts(chains)`hhNext, Elts(s)`next
    {
      && numBuckets == |chains| <= buckets.Length && head == EltAt(s, 0) && AppNextLinked(s)
      && forall b :: 0 <= b < |chains| ==> buckets[b].hhHead == EltAt(chains[b], 0) && HhNextLinked(chains[b])
    }

    /** What HASH_FSCK looks for in the first i buckets. */
    ghost predicate SoundChains(chains: seq<seq<Item>>, i: nat)
      requires i <= |chains| <= buckets.Length
      reads `buckets, buckets, ChainElts(chains)`hhPrev
    {
      forall b :: 0 <= b < i ==> HhPrevLinked(chains[b]) && buckets[b].count == |chains[b]|
    }

    /** Walks a chain: hh_prev must be the element before; the length is returned. */
    method FsckChain(first: Elem?, ghost c: seq<Item>) returns (count: nat, ok: bool)
      requires HhNextLinked(c) && first == EltAt(c, 0)
      ensures count == |c| && (ok <==> HhPrevLinked(c))
    {
      count, ok := 0, true;
      var thh, prev: Elem? := first, null;
      while thh != null
        invariant count <= |c| && thh == EltAt(c, count) && prev == EltAt(c, count - 1)
        invariant ok <==> forall i {:trigger c[i].elt.hhPrev} :: 0 <= i < count ==> c[i].elt.hhPrev == EltAt(c, i - 1)
        decreases |c| - count
      {
        if thh.hhPrev != prev {
          ok := false;
        }
        count := count + 1;
        prev := thh;
        thh := thh.hhNext;
      }
    }

    /** The first half of HASH_FSCK: every chain, every count, and the total. */
    method FsckBuckets(ghost chains: seq<seq<Item>>, ghost s: seq<Item>) returns (ok: bool)
      requires Walkable(chains, s)
      ensures ok <==> SoundChains(chains, |chains|) && Sum(Lens(chains)) == numItems
    {
      ok := true;
      var count, i := 0, 0;
      while i < numBuckets
        invariant i <= numBuckets && (ok <==> SoundChains(chains, i))
        invariant count + Sum(Lens(chains)[i..]) == Sum(Lens(chains))
      {
        var bktCount, linked := FsckChain(buckets[i].hhHead, chains[i]);
        count := count + bktCount;
        ok := ok && linked && buckets[i].count == bktCount;
        i := i + 1;
      }
      ok := ok && count == numItems;
    }

    /** The second half of HASH_FSCK: the application list. */
    method FsckApp(ghost s: seq<Item>) returns (ok: bool)
      requires head == EltAt(s, 0) && AppNextLinked(s)
      ensures ok <==> AppPrevLinked(s) && |s| == numItems
    {
      ok := true;
      var count, prev: Elem?, thh := 0, null, head;
      while thh != null
        invariant count <= |s| && thh == EltAt(s, count) && prev == EltAt(s, count - 1)
        invariant ok <==> forall i {:trigger s[i].elt.prev} :: 0 <= i < count ==> s[i].elt.prev == EltAt(s, i - 1)
        decreases |s| - count
      {
        if thh.prev != prev {
          ok := false;
        }
        count := count + 1;
        prev := thh;
        thh := thh.next;
      }
      ok := ok && count == numItems;
    }

    /** HASH_FSCK, on any table whose pointers can be followed, valid or not: it is content exactly when both lists are
        linked backwards as they are forwards, every count is its chain's length, and both totals are num_items. */
    method Fsck(ghost chains: seq<seq<Item>>, ghost s: seq<Item>) returns (ok: bool)
      requires head != null ==> Walkable(chains, s)
      ensures ok <==> head == null || (SoundChains(chains, |chains|) && Sum(Lens(chains)) == numItems &&
                                       AppPrevLinked(s) && |s| == numItems)
    {
      ok := true;
      if head != null {
        var b := FsckBuckets(chains, s);
        var a := FsckApp(s);
        ok := a && b;
      }
    }

    /** The invariant of the table implies what HASH_FSCK looks for, so it never complains. */
    lemma ValidIsSound()
      requires Valid() && head != null
      ensures Walkable(view.chains, items) && SoundChains(view.chains, |view.chains|)
      ensures Sum(Lens(view.chains)) == numItems == |items| && AppPrevLinked(items)
    {
      forall b | 0 <= b < |view.chains|
        ensures HhNextLinked(view.chains[b]) && HhPrevLinked(view.chains[b])
      {
        assert HhLinked(view.chains[b]);
      }
    }

    /** What the loop of HASH_ITER reads of the element at position n. */
    lemma Look(e: Elem, n: nat)
      requires Valid() && n < |items| && items[n].elt == e
      ensures ItemOf(e) == items[n] && e.next == EltAt(items, n + 1) && e in repr && NoDup(items)
    {
      hide HashOk, BloomOk, Hashed;
      assert items[n] in items;
    }

    /** One round of the loop: the body deletes el or not; then tmp's next is read. */
    method IterBody(el: Elem, tmp: Elem?, del: Item -> bool, ghost all: seq<Item>, ghost k: nat) returns (next: Elem?)
      requires Valid() && k < |all| && items == Kept(all[..k], del) + all[k..]
      requires el == all[k].elt && tmp == EltAt(all, k + 1)
      modifies this, repr, buckets
      ensures Valid() && repr <= old(repr) && buckets == old(buckets)
      ensures items == Kept(all[..k + 1], del) + all[k + 1..] && next == EltAt(all, k + 2)
    {
      hide HashOk, AppOk, BloomOk, WF, Hashed, NoDup, Kept, Elts, Without, DelItem;
      ghost var n := |Kept(all[..k], del)|;
      Look(el, n);
      var x := ItemOf(el);
      IterStep(items, all, k, del);
      if del(x) {
        DelOrder(view, x);
        Delete(el);
        RestAt(items, all, k + 1, n);
      } else {
        n := n + 1;
        RestAt(items, all, k + 1, n);
      }
      next := null;
      if tmp != null {
        Look(tmp, n);
        next := tmp.next;
      }
    }

    lemma HeadIsFirst()
      requires Valid()
      ensures head == EltAt(items, 0)
    {
      hide HashOk, AppOk, BloomOk, WF, Hashed;
    }

    /** A HASH_ITER loop whose body deletes the current element when `del` says so. */
    method DeleteWhere(del: Item -> bool) returns (visited: seq<Elem>)
      requires Valid()
      modifies this, repr, buckets
      ensures Valid() && items == Kept(old(items), del)
      ensures visited == Elements(old(items))
      ensures head == null <==> forall x :: x in old(items) ==> del(x)
    {
      hide Valid, NoDup, Kept, EltAt, Elements;
      ghost var all := items;
      ghost var k := 0;
      visited := [];
      var el := head;
      var tmp: Elem? := null;
      KeptNone(all, del);
      HeadIsFirst();
      Standing(all, 0);
      if head != null {
        Look(head, 0);
        tmp := head.next;
      }
      while el != null
        invariant Valid() && repr <= old(repr) && buckets == old(buckets)
        invariant k <= |all| && items == Kept(all[..k], del) + all[k..]
        invariant el == EltAt(all, k) && tmp == EltAt(all, k + 1)
        invariant visited == Elements(all[..k])
        decreases |all| - k
      {
        Standing(all, k);
        ElementsSnoc(all, k);
        visited := visited + [el];
        var next := IterBody(el, tmp, del, all, k);
        k, el, tmp := k + 1, tmp, next;
      }
      Standing(all, k);
      Standing(items, 0);
      HeadIsFirst();
    }

    // -------------------------------------------------------------- programs of calls

    /** What a call may rely on, and what it denotes. */
    lemma AddIsStep(c: Call, x: Item)
      requires Valid() && c.AddCall? && c.elt !in repr && x == Item(c.elt, c.key, fcn(c.key))
      ensures Legal(view, fcn, Op.Add(x)) && Step(view, fcn, Op.Add(x)) == AddItem(view, x)
    {
      hide HashOk, AppOk, BloomOk, AddItem;
      AbsentElt(items, x);
    }

    lemma DeleteIsStep(d: Elem)
      requires Valid() && d in repr
      ensures var x := Item(d, d.key, d.hashv);
              |view.chains| > 0 && Legal(view, fcn, Del(x)) && Step(view, fcn, Del(x)) == DelItem(view, x)
    {
      hide HashOk, BloomOk, DelItem, Hashed;
      var k := PositionOf(items, d);
      assert items[k] in items;
    }

    lemma SortIsStep(cmp: (Item, Item) -> int)
      requires Valid()
      ensures var o := StableSort.Sort(cmp, view.order);
              Legal(view, fcn, Reorder(o)) && Step(view, fcn, Reorder(o)) == view.(order := o)
    {
      hide HashOk, AppOk, BloomOk, StableSort.SortFrom;
      SortFromPermutes(cmp, view.order, 1);
    }

    /** One call, and HASH_FSCK after it. */
    method Do(c: Call) returns (ok: bool, ghost op: Op)
      requires Valid() && Proper(repr, c)
      modifies this, repr, buckets, bloomBv, if c.AddCall? then {c.elt} else {}
      ensures Valid() && repr == EltsAfter(old(repr), c) && ok
      ensures Denotes(c, old(view), op, fcn) && WF(old(view)) && Legal(old(view), fcn, op) && view == Step(old(view), fcn, op)
      ensures (buckets == old(buckets) || fresh(buckets)) && (bloomBv == old(bloomBv) || fresh(bloomBv))
    {
      hide HashOk, AppOk, BloomOk, WF, Hashed, Elts, Legal, Step, AddItem, DelItem, StableSort.Sort, Separate;
      match c {
        case AddCall(e, key) =>
          op := Op.Add(Item(e, key, fcn(key)));
          AddIsStep(c, op.x);
          Add(e, key);
        case DeleteCall(e) =>
          op := Del(Item(e, e.key, e.hashv));
          DeleteIsStep(e);
          Delete(e);
        case SortCall(cmp) =>
          op := Reorder(StableSort.Sort(cmp, view.order));
          SortIsStep(cmp);
          var _ := Sort(cmp);
      }
      if head != null {
        ValidIsSound();
      }
      ok := Fsck(view.chains, items);
    }

    /** Any proper program of calls is a legal run on the value of the table, and HASH_FSCK is content after each. */
    method Play(calls: seq<Call>) returns (ok: bool, ghost ops: seq<Op>)
      requires Valid() && AllProper(repr, calls)
      modifies this, repr, buckets, bloomBv, AddedElts(calls)
      ensures Valid() && ok
      ensures WF(old(view)) && LegalRun(old(view), fcn, ops) && view == Run(old(view), fcn, ops)
      ensures AllDenote(calls, old(view), ops, fcn)
    {
      hide HashOk, AppOk, BloomOk, WF, Hashed, Elts, Legal, Step, Separate, Denotes;
      ok, ops := true, [];
      var i := 0;
      ghost var start := view;
      while i < |calls|
        invariant i <= |calls| && Valid() && ok && AllProper(repr, calls[i..]) && repr <= old(repr) + AddedElts(calls)
        invariant (buckets == old(buckets) || fresh(buckets)) && (bloomBv == old(bloomBv) || fresh(bloomBv))
        invariant WF(start) && LegalRun(start, fcn, ops) && view == Run(start, fcn, ops)
        invariant AllDenote(calls[..i], start, ops, fcn)
      {
        var good, op := Do(calls[i]);
        RunThen(start, fcn, ops, op);
        DenoteThen(calls[..i], calls[i], start, ops, op, fcn);
        ok, ops := ok && good, ops + [op];
        assert calls[i..][1..] == calls[i + 1..] && calls[..i] + [calls[i]] == calls[..i + 1];
        i := i + 1;
      }
      assert calls[..i] == calls;
    }
  }
}
