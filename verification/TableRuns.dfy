/** Theorems about every run of adds, deletes, expansions and sorts. */
module TableRuns {
  import opened Basics
  import opened Bits
  import opened Seqs
  import opened HashTypes
  import opened TableSpec
  import opened TableLaws

  // ---------------------------------------------------------------- runs

  /** One use of a macro. Reorder stands for HASH_SRT: any rearrangement of the application list. */
  datatype Op = Add(x: Item) | Del(x: Item) | Reorder(order: seq<Item>)

  /** What the source asks of its caller: an added element is not in the table (its hash value is computed by
      the hash function), a deleted one is. */
  ghost predicate Legal(t: Tab, fcn: Key -> nat, op: Op) {
    match op
    case Add(x) => x.hashv == fcn(x.key) && forall y :: y in t.order ==> y.elt != x.elt
    case Del(x) => x in t.order
    case Reorder(o) => multiset(o) == multiset(t.order)
  }

  /** One operation; it keeps the table invariant. */
  ghost function Step(t: Tab, fcn: Key -> nat, op: Op): (u: Tab)
    requires WF(t) && Legal(t, fcn, op)
    ensures WF(u)
  {
    match op
    case Add(x) => AddKeepsWF(t, x); AddItem(t, x)
    case Del(x) => DelKeepsWF(t, x); DelItem(t, x)
    case Reorder(o) => ReorderKeepsWF(t, o); t.(order := o)
  }

  ghost predicate LegalRun(t: Tab, fcn: Key -> nat, ops: seq<Op>)
    requires WF(t)
    decreases |ops|
  {
    ops == [] || (Legal(t, fcn, ops[0]) && LegalRun(Step(t, fcn, ops[0]), fcn, ops[1..]))
  }

  ghost function Run(t: Tab, fcn: Key -> nat, ops: seq<Op>): (u: Tab)
    requires WF(t) && LegalRun(t, fcn, ops)
    ensures WF(u)
    decreases |ops|
  {
    if ops == [] then t else Run(Step(t, fcn, ops[0]), fcn, ops[1..])
  }

  /** One more operation at the end of a run. */
  lemma {:induction false} RunThen(t: Tab, fcn: Key -> nat, ops: seq<Op>, op: Op)
    requires WF(t) && LegalRun(t, fcn, ops) && Legal(Run(t, fcn, ops), fcn, op)
    ensures LegalRun(t, fcn, ops + [op]) && Run(t, fcn, ops + [op]) == Step(Run(t, fcn, ops), fcn, op)
    decreases |ops|
  {
    if ops == [] {
      assert [] + [op] == [op] && [op][1..] == [];
    } else {
      assert (ops + [op])[0] == ops[0] && (ops + [op])[1..] == ops[1..] + [op];
      RunThen(Step(t, fcn, ops[0]), fcn, ops[1..], op);
    }
  }

  // ---------------------------------------------------------------- load bound

  /** 1 for a bucket whose next add is sure to trigger an expansion. */
  function Full(count: nat, mult: nat): nat {
    if count >= (mult + 1) * BKT_CAPACITY_THRESH then 1 else 0
  }

  function Weights(t: Tab): seq<nat>
    requires |t.mults| == |t.chains|
  {
    seq(|t.chains|, i requires 0 <= i < |t.chains| => t.mults[i] + Full(|t.chains[i]|, t.mults[i]))
  }

  /** No chain is longer than its bucket's allowance, and the allowances are few. */
  ghost predicate Spread(t: Tab) {
    && |t.mults| == |t.chains|
    && (forall b :: 0 <= b < |t.chains| ==> |t.chains[b]| <= BKT_CAPACITY_THRESH * (t.mults[b] + 1))
    && Sum(Weights(t)) <= |t.chains|
  }

  ghost predicate Load(t: Tab) {
    && t.ideal <= BKT_CAPACITY_THRESH
    && t.ineff <= 2 && (t.noexpand == 1 <==> t.ineff == 2)
    && (t.noexpand != 1 ==> Spread(t))
  }

  lemma {:induction false} SpreadBoundsItems(t: Tab)
    requires Spread(t)
    ensures Sum(Lens(t.chains)) <= 19 * |t.chains|
  {
    SumBound(Lens(t.chains), Weights(t), 9, 10);
  }

  /** After a rehash a bucket's multiplier, plus one if it is already full, is at most count / ideal. */
  lemma WeightAfterRehash(count: nat, ideal: nat)
    requires 0 < ideal <= BKT_CAPACITY_THRESH
    ensures var m := MultFor(count, ideal);
            count <= BKT_CAPACITY_THRESH * (m + 1) && (m + Full(count, m)) * ideal <= count
  {
    var m := MultFor(count, ideal);
    if count > ideal {
      assert count == m * ideal + count % ideal;
      assert (m + 1) * ideal == m * ideal + ideal;
      MulApart(m + 1, BKT_CAPACITY_THRESH - ideal);
      assert (m + 1) * BKT_CAPACITY_THRESH == (m + 1) * ideal + (m + 1) * (BKT_CAPACITY_THRESH - ideal);
    }
  }

  lemma {:induction false} WeightedSum(ws: seq<nat>, cs: seq<nat>, k: nat)
    requires |ws| == |cs| && forall i :: 0 <= i < |ws| ==> ws[i] * k <= cs[i]
    ensures Sum(ws) * k <= Sum(cs)
  {
    if ws != [] {
      WeightedSum(ws[1..], cs[1..], k);
      assert (ws[0] + Sum(ws[1..])) * k == ws[0] * k + Sum(ws[1..]) * k;
    }
  }

  lemma MulCancel(s: nat, b: nat, k: nat)
    requires k > 0 && s * k <= k * b
    ensures s <= b
  {
    MulApart(s - b, k);
    assert (s - b) * k == s * k - b * k;
  }

  lemma CeilingAtMost(n: nat, b: nat, k: nat, m: nat)
    requires 0 < k && (k - 1) * b < n <= m * b
    ensures k <= m
  {
    MulApart(k - 1 - m, b);
    assert (k - 1) * b == (k - 1 - m) * b + m * b;
  }

  /** An expansion that starts with at most 20 items per old bucket leaves the load spread. */
  lemma ExpandSpreads(t: Tab)
    requires Inv(t) && t.order != []
    requires |t.order| <= 20 * |t.chains|
    ensures Expand(t).ideal <= BKT_CAPACITY_THRESH && Spread(Expand(t))
  {
    hide Rehash, MultFor, Full, Overs, Shr, IdealByShift, Sum;
    var u := Expand(t);
    var b, k, n := |u.chains|, u.ideal, |t.order|;
    IdealIsCeiling(n, t.log2 + 1);
    assert b == Pow2(t.log2 + 1);
    CeilingAtMost(n, b, k, BKT_CAPACITY_THRESH);
    RehashTotal(t.chains);
    forall i | 0 <= i < b
      ensures |u.chains[i]| <= BKT_CAPACITY_THRESH * (u.mults[i] + 1)
      ensures Weights(u)[i] * k <= Lens(u.chains)[i]
    {
      WeightAfterRehash(|u.chains[i]|, k);
    }
    WeightedSum(Weights(u), Lens(u.chains), k);
    MulCancel(Sum(Weights(u)), b, k);
  }

  lemma AddedKeepsSpread(t: Tab, x: Item)
    requires Inv(t) && Spread(t)
    ensures var v := Added(t, x);
            var b := Bkt(x.hashv, |t.chains|);
            |v.chains[b]| < (v.mults[b] + 1) * BKT_CAPACITY_THRESH ==> Spread(v)
  {
    var v := Added(t, x);
    var b := Bkt(x.hashv, |t.chains|);
    if |v.chains[b]| < (v.mults[b] + 1) * BKT_CAPACITY_THRESH {
      assert Weights(v) == Weights(t);
    }
  }

  lemma SpreadCarries(t: Tab, u: Tab)
    requires Spread(t) && u.chains == t.chains && u.mults == t.mults
    ensures Spread(u)
  {
    assert Weights(u) == Weights(t);
  }

  lemma InvSizes(t: Tab)
    requires Inv(t)
    ensures |t.chains| > 0 && |t.mults| == |t.chains| && Sum(Lens(t.chains)) == |t.order|
  {
  }

  lemma AddToBktKeepsLoad(s: Tab, x: Item)
    requires Inv(s) && Load(s) && forall y :: y in s.order ==> y.elt != x.elt
    requires |s.chains| > 0 && |s.mults| == |s.chains|
    ensures Load(AddToBkt(s.(order := s.order + [x]), x))
  {
    hide Inv, Spread, Rehash, Push, Mults, Overs, Lens;
    InvSizes(s);
    if s.noexpand != 1 {
      var v := Added(s, x);
      var u := AddToBkt(s.(order := s.order + [x]), x);
      AddedKeepsInv(s, x);
      SpreadBoundsItems(s);
      AddedKeepsSpread(s, x);
      var b := Bkt(x.hashv, |s.chains|);
      if |v.chains[b]| >= (v.mults[b] + 1) * BKT_CAPACITY_THRESH {
        ExpandSpreads(v);
        SpreadCarries(Expand(v), u);
      } else {
        SpreadCarries(v, u);
      }
    }
  }

  lemma MakeLoad(nbits: nat)
    ensures Inv(Make(nbits)) && Load(Make(nbits))
  {
    NoTableOrMake(nbits);
    SumZero(Weights(Make(nbits)));
  }

  lemma AddKeepsLoad(t: Tab, x: Item)
    requires WF(t) && Load(t) && forall y :: y in t.order ==> y.elt != x.elt
    ensures Load(AddItem(t, x))
  {
    var s := if t.order == [] then Make(t.nbits) else t;
    MakeLoad(t.nbits);
    InvSizes(s);
    AddToBktKeepsLoad(s, x);
    var v := AddToBkt(s.(order := s.order + [x]), x);
    if v.noexpand != 1 {
      SpreadCarries(v, AddItem(t, x));
    }
  }

  lemma DelKeepsLoad(t: Tab, x: Item)
    requires WF(t) && Load(t) && x in t.order
    ensures Load(DelItem(t, x))
  {
    if |t.order| > 1 {
      if t.noexpand != 1 {
        var b := Bkt(x.hashv, |t.chains|);
        var u := DelItem(t, x);
        WithoutMembers(t.chains[b], x);
        var w := u.mults[b] + Full(|u.chains[b]|, u.mults[b]);
        assert Weights(u) == Weights(t)[b := w];
        SumUpdate(Weights(t), b, w);
      }
    }
  }

  lemma {:induction false} RunKeepsLoad(t: Tab, fcn: Key -> nat, ops: seq<Op>)
    requires WF(t) && LegalRun(t, fcn, ops) && Load(t)
    ensures Load(Run(t, fcn, ops))
    decreases |ops|
  {
    if ops != [] {
      match ops[0]
      case Add(x) => AddKeepsLoad(t, x);
      case Del(x) => DelKeepsLoad(t, x);
      case Reorder(o) => assert Weights(t.(order := o)) == Weights(t);
    }
    if ops != [] {
      RunKeepsLoad(Step(t, fcn, ops[0]), fcn, ops[1..]);
    }
  }

  /** Over every run from the empty table: the ideal chain length never exceeds 10; while the table may still expand it
      holds at most 19 items per bucket and every chain obeys its allowance; expansion stops exactly at the second
      ineffective doubling in a row. */
  lemma LoadBound(nbits: nat, fcn: Key -> nat, ops: seq<Op>)
    requires LegalRun(NoTable(nbits), fcn, ops)
    ensures var t := Run(NoTable(nbits), fcn, ops);
            && t.ideal <= 10
            && (t.noexpand == 1 <==> t.ineff == 2)
            && (t.noexpand != 1 ==>
                  && |t.order| <= 19 * |t.chains|
                  && |t.mults| == |t.chains|
                  && forall b :: 0 <= b < |t.chains| ==> |t.chains[b]| <= 10 * (t.mults[b] + 1))
  {
    var t := Run(NoTable(nbits), fcn, ops);
    RunKeepsLoad(NoTable(nbits), fcn, ops);
    if t.noexpand != 1 && t.order != [] {
      SpreadBoundsItems(t);
    }
  }

  // ---------------------------------------------------------------- expansion figures

  lemma QuotientBounds(c: nat, k: nat)
    requires k > 0
    ensures (c / k) * k <= c < (c / k + 1) * k
  {
    assert c == (c / k) * k + c % k;
    assert (c / k + 1) * k == (c / k) * k + k;
  }

  /** How many items are beyond the k-th in their chain. */
  function Beyond(lens: seq<nat>, k: nat): nat {
    if lens == [] then 0 else (if lens[0] > k then lens[0] - k else 0) + Beyond(lens[1..], k)
  }

  lemma {:induction false} SumOfOvers(chains: seq<seq<Item>>, k: nat)
    ensures Sum(Overs(chains, k)) == Beyond(Lens(chains), k)
  {
    if chains != [] {
      SumOfOvers(chains[1..], k);
      assert Overs(chains, k)[1..] == Overs(chains[1..], k) && Lens(chains)[1..] == Lens(chains[1..]);
    }
  }

  lemma MoreThanHalf(x: nat, n: nat)
    ensures x > Shr(n, 1) <==> 2 * x > n
  {
    assert Shr(n, 1) == Shr(n / 2, 0);
  }

  /** Right after an expansion: the ideal length is the ceiling of items over buckets, a bucket's multiplier is the
      integer quotient of its count by it (0 when the count is within it), the items beyond it in their buckets are counted
      as nonideal, and the item total is unchanged. The doubling was ineffective if more than half of the items are
      beyond; the second such doubling in a row is the last. */
  lemma ExpandFigures(t: Tab)
    requires Partition(t) && t.order != []
    ensures var u := Expand(t);
            && (u.ideal - 1) * |u.chains| < |t.order| <= u.ideal * |u.chains|
            && |u.chains| == 2 * |t.chains| == |u.mults| && u.log2 == t.log2 + 1
            && u.order == t.order && Sum(Lens(u.chains)) == |t.order|
            && u.nonideal == Beyond(Lens(u.chains), u.ideal)
            && u.ineff == (if 2 * u.nonideal > |t.order| then t.ineff + 1 else 0)
            && u.noexpand == (if u.ineff >= 2 then 1 else t.noexpand)
            && forall b :: 0 <= b < |u.chains| ==>
                 if |u.chains[b]| > u.ideal
                 then u.mults[b] * u.ideal <= |u.chains[b]| < (u.mults[b] + 1) * u.ideal
                 else u.mults[b] == 0
  {
    hide Rehash, Shr, BitAnd;
    var u := Expand(t);
    IdealIsCeiling(|t.order|, t.log2 + 1);
    RehashTotal(t.chains);
    SumOfOvers(u.chains, u.ideal);
    MoreThanHalf(u.nonideal, |t.order|);
    forall b | 0 <= b < |u.chains| && |u.chains[b]| > u.ideal
      ensures u.mults[b] * u.ideal <= |u.chains[b]| < (u.mults[b] + 1) * u.ideal
    {
      QuotientBounds(|u.chains[b]|, u.ideal);
    }
  }

  // ---------------------------------------------------------------- the application list

  /** The sequence that a history of operations denotes: adds append, deletes take out one position. */
  function OrderHistory(s: seq<Item>, ops: seq<Op>): seq<Item>
    decreases |ops|
  {
    if ops == [] then s else
    var o := match ops[0] case Add(x) => s + [x] case Del(x) => Without(s, x) case Reorder(r) => r;
    OrderHistory(o, ops[1..])
  }

  /** The application list is that sequence, however many expansions happen on the way. */
  lemma {:induction false} OrderRefinesSequence(t: Tab, fcn: Key -> nat, ops: seq<Op>)
    requires WF(t) && LegalRun(t, fcn, ops)
    ensures Run(t, fcn, ops).order == OrderHistory(t.order, ops)
    decreases |ops|
  {
    if ops != [] {
      match ops[0] {
        case Add(x) => AddKeepsWF(t, x);
        case Del(x) => DelKeepsWF(t, x);
        case Reorder(_) =>
      }
      OrderRefinesSequence(Step(t, fcn, ops[0]), fcn, ops[1..]);
    }
  }

  // ---------------------------------------------------------------- lookups

  /** Every item carries the hash value of its key. */
  ghost predicate Hashed(t: Tab, fcn: Key -> nat) {
    forall x :: x in t.order ==> x.hashv == fcn(x.key)
  }

  /** HASH_FIND returns an item with the key exactly when there is one, and the Bloom filter changes no answer. */
  lemma FindLaw(t: Tab, fcn: Key -> nat, key: Key)
    requires WF(t) && Hashed(t, fcn)
    ensures var r := Find(t, key, fcn(key), true);
            && r == Find(t, key, fcn(key), false)
            && (r.Some? ==> r.value in t.order && r.value.key == key)
            && (r.None? <==> forall x :: x in t.order ==> x.key != key)
  {
    if t.order != [] {
      forall x | x in t.order && x.key == key ensures x in t.chains[Bkt(fcn(key), |t.chains|)] {
      }
    }
  }

  function MapStep(m: map<Key, Item>, op: Op): map<Key, Item> {
    match op
    case Add(x) => m[x.key := x]
    case Del(x) => m - {x.key}
    case Reorder(_) => m
  }

  /** The finite map that a history of operations denotes. */
  function History(m: map<Key, Item>, ops: seq<Op>): map<Key, Item>
    decreases |ops|
  {
    if ops == [] then m else History(MapStep(m, ops[0]), ops[1..])
  }

  /** No add repeats a key that is present. */
  predicate DistinctKeys(m: map<Key, Item>, ops: seq<Op>)
    decreases |ops|
  {
    ops == [] || ((ops[0].Add? ==> ops[0].x.key !in m) && DistinctKeys(MapStep(m, ops[0]), ops[1..]))
  }

  /** The items of s are the entries of m. */
  ghost predicate Lists(s: seq<Item>, m: map<Key, Item>) {
    && (forall k :: k in m ==> m[k] in s && m[k].key == k)
    && (forall x :: x in s ==> x.key in m && m[x.key] == x)
  }

  ghost predicate Agrees(t: Tab, fcn: Key -> nat, m: map<Key, Item>) {
    Hashed(t, fcn) && Lists(t.order, m)
  }

  lemma RemovedLists(s: seq<Item>, x: Item, w: seq<Item>, m: map<Key, Item>, m': map<Key, Item>)
    requires Lists(s, m) && x in s
    requires forall y :: y in w <==> y in s && y != x
    requires forall k :: k in m' <==> k in m && k != x.key
    requires forall k :: k in m' ==> m'[k] == m[k]
    ensures Lists(w, m')
  {
    assert m[x.key] == x;
  }

  lemma DelAgrees(t: Tab, fcn: Key -> nat, x: Item, m: map<Key, Item>)
    requires WF(t) && x in t.order && Agrees(t, fcn, m)
    ensures Agrees(DelItem(t, x), fcn, m - {x.key})
  {
    WithoutMembers(t.order, x);
    RemovedLists(t.order, x, Without(t.order, x), m, m - {x.key});
    DelKeepsWF(t, x);
  }

  lemma AddedLists(s: seq<Item>, x: Item, m: map<Key, Item>)
    requires Lists(s, m) && x.key !in m
    ensures Lists(s + [x], m[x.key := x])
  {
  }

  lemma AddAgrees(t: Tab, fcn: Key -> nat, x: Item, m: map<Key, Item>)
    requires WF(t) && Legal(t, fcn, Add(x)) && Agrees(t, fcn, m) && x.key !in m
    ensures Agrees(AddItem(t, x), fcn, m[x.key := x])
  {
    hide AddItem, Lists, WF, Inv;
    AddKeepsWF(t, x);
    AddedLists(t.order, x, m);
  }

  lemma ReorderAgrees(t: Tab, fcn: Key -> nat, o: seq<Item>, m: map<Key, Item>)
    requires WF(t) && multiset(o) == multiset(t.order) && Agrees(t, fcn, m)
    ensures Agrees(t.(order := o), fcn, m)
  {
    PermutationMembers(t.order, o);
  }

  lemma StepAgrees(t: Tab, fcn: Key -> nat, op: Op, m: map<Key, Item>)
    requires WF(t) && Legal(t, fcn, op) && Agrees(t, fcn, m) && (op.Add? ==> op.x.key !in m)
    ensures Agrees(Step(t, fcn, op), fcn, MapStep(m, op))
  {
    hide Agrees, AddItem, DelItem, NoDup;
    match op
    case Add(x) =>
      AddAgrees(t, fcn, x, m);
    case Del(x) =>
      DelAgrees(t, fcn, x, m);
    case Reorder(o) =>
      ReorderAgrees(t, fcn, o, m);
  }

  lemma {:induction false} RunAgrees(t: Tab, fcn: Key -> nat, ops: seq<Op>, m: map<Key, Item>)
    requires WF(t) && LegalRun(t, fcn, ops) && Agrees(t, fcn, m) && DistinctKeys(m, ops)
    ensures Agrees(Run(t, fcn, ops), fcn, History(m, ops))
    decreases |ops|
  {
    if ops != [] {
      StepAgrees(t, fcn, ops[0], m);
      RunAgrees(Step(t, fcn, ops[0]), fcn, ops[1..], MapStep(m, ops[0]));
    }
  }

  /** With distinct keys, HASH_FIND after any history of adds, deletes, expansions and sorts is lookup in the finite map
      of the history, with or without the Bloom filter. */
  lemma FindRefinesMap(nbits: nat, fcn: Key -> nat, ops: seq<Op>, key: Key, useBloom: bool)
    requires LegalRun(NoTable(nbits), fcn, ops) && DistinctKeys(map[], ops)
    ensures var m := History(map[], ops);
            Find(Run(NoTable(nbits), fcn, ops), key, fcn(key), useBloom) == if key in m then Some(m[key]) else None
  {
    var t, m := Run(NoTable(nbits), fcn, ops), History(map[], ops);
    RunAgrees(NoTable(nbits), fcn, ops, map[]);
    FindLaw(t, fcn, key);
    var r := Find(t, key, fcn(key), true);
    assert r.Some? ==> m[r.value.key] == r.value;
  }

  // ---------------------------------------------------------------- repeated keys

  /** The last item with the key. */
  function LastWith(s: seq<Item>, key: Key): (r: Option<Item>)
    ensures r.Some? ==> r.value in s && r.value.key == key
    ensures r.None? <==> forall x :: x in s ==> x.key != key
  {
    if s == [] then None
    else
      var r := LastWith(s[1..], key);
      if r.Some? then r else if s[0].key == key then Some(s[0]) else None
  }

  lemma {:induction false} FirstOfConcat(a: seq<Item>, b: seq<Item>, key: Key)
    ensures FirstWith(a + b, key) == if FirstWith(a, key).Some? then FirstWith(a, key) else FirstWith(b, key)
  {
    if a == [] {
      assert a + b == b;
    } else {
      assert (a + b)[1..] == a[1..] + b;
      FirstOfConcat(a[1..], b, key);
    }
  }

  /** Reversing a chain subsequence that keeps every item with the key turns the last of them into the first. */
  lemma {:induction false} FirstOfReversed(c: seq<Item>, key: Key, j: nat, n: nat)
    requires n > 0 && forall x :: x in c && x.key == key ==> Bkt(x.hashv, n) == j
    ensures FirstWith(Reverse(Pick(c, j, n)), key) == LastWith(c, key)
  {
    if c != [] {
      FirstOfReversed(c[1..], key, j, n);
      FirstOfConcat(Reverse(Pick(c[1..], j, n)), [c[0]], key);
    }
  }

  ghost predicate OneWith(s: seq<Item>, key: Key) {
    forall x, y :: x in s && y in s && x.key == key == y.key ==> x == y
  }

  lemma OneWithCons(x: Item, s: seq<Item>, key: Key)
    ensures OneWith([x] + s, key) <==>
            OneWith(s, key) && (x.key == key ==> forall y :: y in s && y.key == key ==> y == x)
  {
    assert forall y :: y in [x] + s <==> y == x || y in s;
  }

  lemma HeadApart(s: seq<Item>, y: Item)
    requires NoDup(s) && s != [] && y in s[1..]
    ensures NoDup(s[1..]) && y != s[0]
  {
    var i :| 0 <= i < |s[1..]| && s[1..][i] == y;
    assert s[i + 1] == y;
  }

  lemma {:induction false} FirstIsLast(s: seq<Item>, key: Key)
    requires NoDup(s)
    ensures FirstWith(s, key) == LastWith(s, key) <==> OneWith(s, key)
  {
    hide NoDup;
    if s == [] {
      assert OneWith(s, key);
    } else {
      assert s == [s[0]] + s[1..];
      OneWithCons(s[0], s[1..], key);
      TailNoDup(s);
      FirstIsLast(s[1..], key);
      hide OneWith;
      if s[0].key == key && LastWith(s[1..], key).Some? {
        HeadApart(s, LastWith(s[1..], key).value);
      }
    }
  }

  lemma OneWithInChain(t: Tab, fcn: Key -> nat, key: Key)
    requires Inv(t) && Hashed(t, fcn)
    ensures OneWith(t.chains[Bkt(fcn(key), |t.chains|)], key) <==> OneWith(t.order, key)
  {
    var c := t.chains[Bkt(fcn(key), |t.chains|)];
    assert forall x :: x in t.order && x.key == key ==> x in c;
    assert forall x :: x in c ==> x in t.order;
  }

  lemma OwnChain(t: Tab, fcn: Key -> nat, key: Key)
    requires Inv(t) && Hashed(t, fcn)
    ensures var c := t.chains[Bkt(fcn(key), |t.chains|)];
            NoDup(c) && forall x :: x in c && x.key == key ==> x.hashv == fcn(key)
    ensures |t.chains| == Pow2(t.log2) && InOwnBuckets(t.chains, 0, t.log2)
  {
  }

  /** The bucket of a hash value after the expansion is fed by the one before. */
  lemma OwnOldBkt(h: nat, k: nat)
    ensures Bkt(h, Pow2(k + 1)) < Pow2(k + 1) == 2 * Pow2(k) && OldBkt(Bkt(h, Pow2(k + 1)), Pow2(k)) == Bkt(h, Pow2(k))
  {
    hide Bkt;
    BktSplit(h, k);
  }

  /** After an expansion, too, the filter may be ignored. */
  lemma ExpandFilter(t: Tab, fcn: Key -> nat, key: Key, useBloom: bool)
    requires Inv(t) && t.order != [] && Hashed(t, fcn)
    ensures |Expand(t).chains| == 2 * |t.chains| == Pow2(t.log2 + 1) > 0
    ensures Find(Expand(t), key, fcn(key), useBloom) ==
            FirstWith(Rehash(t.chains)[Bkt(fcn(key), 2 * |t.chains|)], key)
  {
    hide Bkt, Rehash, FirstWith, BloomBit;
    ExpandKeepsPartition(t);
    FindLaw(Expand(t), fcn, key);
  }

  /** Whatever the chain of a key was, an expansion makes the last of its items with the key the one that is found. */
  lemma ExpandFindsLast(t: Tab, fcn: Key -> nat, key: Key, useBloom: bool)
    requires Inv(t) && t.order != [] && Hashed(t, fcn)
    ensures Find(Expand(t), key, fcn(key), useBloom) == LastWith(t.chains[Bkt(fcn(key), |t.chains|)], key)
  {
    hide Bkt, Pow2, Pick, Reverse, Inv, Hashed, InOwnBuckets, FirstWith, LastWith, Rehash, NoDup;
    var h := fcn(key);
    OwnChain(t, fcn, key);
    OwnOldBkt(h, t.log2);
    var c, j := t.chains[Bkt(h, |t.chains|)], Bkt(h, Pow2(t.log2 + 1));
    RehashAt(t.chains, t.log2, j);
    FirstOfReversed(c, key, j, Pow2(t.log2 + 1));
    ExpandFilter(t, fcn, key, useBloom);
  }

  /** The source asks for distinct keys. Without that, an expansion changes what HASH_FIND returns for a key exactly when
      the table holds more than one item under it: the chains come out reversed. */
  lemma ExpandKeepsFind(t: Tab, fcn: Key -> nat, key: Key, useBloom: bool)
    requires Inv(t) && t.order != [] && Hashed(t, fcn)
    ensures Find(Expand(t), key, fcn(key), useBloom) == Find(t, key, fcn(key), useBloom) <==> OneWith(t.order, key)
  {
    hide Bkt, Pow2, OneWith, LastWith, Expand, FirstWith, BloomBit;
    FindLaw(t, fcn, key);
    OwnChain(t, fcn, key);
    ExpandFindsLast(t, fcn, key, useBloom);
    FirstIsLast(t.chains[Bkt(fcn(key), |t.chains|)], key);
    OneWithInChain(t, fcn, key);
  }

  // ---------------------------------------------------------------- a run with a repeated key

  function Adds(s: seq<Item>): seq<Op> {
    if s == [] then [] else [Add(s[0])] + Adds(s[1..])
  }

  /** Different elements, all under one key. */
  ghost predicate SameKey(s: seq<Item>, fcn: Key -> nat, key: Key) {
    NoDup(s) && forall x :: x in s ==> x.key == key && x.hashv == fcn(key)
  }

  lemma {:induction false} ReverseSnoc(s: seq<Item>, x: Item)
    ensures Reverse(s + [x]) == [x] + Reverse(s)
  {
    if s == [] {
      assert [] + [x] == [x] && [x][1..] == [] && Reverse([x]) == Reverse([]) + [x];
    } else {
      assert (s + [x])[1..] == s[1..] + [x] && (s + [x])[0] == s[0];
      ReverseSnoc(s[1..], x);
    }
  }

  lemma SameKeyPrefix(s: seq<Item>, x: Item, fcn: Key -> nat, key: Key)
    requires SameKey(s + [x], fcn, key)
    ensures SameKey(s, fcn, key) && x.key == key && x.hashv == fcn(key) && forall y :: y in s ==> y.elt != x.elt
  {
    var r := s + [x];
    assert r[|s|] == x && forall i :: 0 <= i < |s| ==> r[i] == s[i];
  }

  /** One chain holds the items, newest first; no bucket has a multiplier. */
  ghost predicate Stacked(t: Tab, s: seq<Item>, fcn: Key -> nat, key: Key) {
    && Inv(t) && t.order == s && t.noexpand == 0 && |t.chains| > 0
    && t.chains[Bkt(fcn(key), |t.chains|)] == Reverse(s) && |t.mults| == |t.chains|
    && forall b :: 0 <= b < |t.mults| ==> t.mults[b] == 0
  }

  /** A table of just these items, or no table yet. */
  ghost predicate OneChain(t: Tab, s: seq<Item>, fcn: Key -> nat, key: Key) {
    && WF(t) && t.order == s && SameKey(s, fcn, key)
    && Stacked(if s == [] then Make(t.nbits) else t, s, fcn, key)
  }

  lemma NothingStacked(nbits: nat, fcn: Key -> nat, key: Key)
    ensures OneChain(NoTable(nbits), [], fcn, key)
  {
    hide Bkt;
    NoTableOrMake(nbits);
  }

  /** What one more add under the key makes of such a table before any expansion. */
  lemma AddedStacked(u: Tab, s: seq<Item>, x: Item, fcn: Key -> nat, key: Key)
    requires Stacked(u, s, fcn, key) && x.hashv == fcn(key) && forall y :: y in s ==> y.elt != x.elt
    ensures Stacked(Added(u, x), s + [x], fcn, key)
  {
    hide Bkt, Inv;
    AddedKeepsInv(u, x);
    ReverseSnoc(s, x);
  }

  /** The add expands the table if and only if it is the tenth. */
  lemma AddToStacked(t: Tab, s: seq<Item>, x: Item, fcn: Key -> nat, key: Key)
    requires t.order == s && Stacked(if s == [] then Make(t.nbits) else t, s, fcn, key) && x.hashv == fcn(key)
    ensures var v := Added(if s == [] then Make(t.nbits) else t, x);
            AddItem(t, x) == if |s| + 1 >= BKT_CAPACITY_THRESH then Expand(v) else v
  {
    hide Bkt, Pow2, BitAnd, Inv, Rehash, Mults, Overs, Reverse;
  }

  lemma AddedToChain(t: Tab, s: seq<Item>, x: Item, fcn: Key -> nat, key: Key)
    requires OneChain(t, s, fcn, key) && SameKey(s + [x], fcn, key)
    ensures Legal(t, fcn, Add(x))
    ensures var v := Added(if s == [] then Make(t.nbits) else t, x);
            && Stacked(v, s + [x], fcn, key)
            && AddItem(t, x) == if |s| + 1 >= BKT_CAPACITY_THRESH then Expand(v) else v
  {
    hide Stacked, SameKey, AddItem, Added, WF;
    SameKeyPrefix(s, x, fcn, key);
    AddedStacked(if s == [] then Make(t.nbits) else t, s, x, fcn, key);
    AddToStacked(t, s, x, fcn, key);
  }

  /** Up to nine items: the newest is found. */
  lemma NewestFound(t: Tab, s: seq<Item>, fcn: Key -> nat, key: Key, useBloom: bool)
    requires OneChain(t, s, fcn, key) && s != []
    ensures Find(t, key, fcn(key), useBloom) == Some(s[|s| - 1])
  {
    var r, x := s[..|s| - 1], s[|s| - 1];
    assert s == r + [x] && x in s;
    ReverseSnoc(r, x);
    FindLaw(t, fcn, key);
  }

  lemma {:induction false} LastOfConcat(s: seq<Item>, x: Item, key: Key)
    requires x.key == key
    ensures LastWith(s + [x], key) == Some(x)
  {
    if s == [] {
      assert s + [x] == [x];
    } else {
      assert (s + [x])[1..] == s[1..] + [x];
      LastOfConcat(s[1..], x, key);
    }
  }

  lemma ExpandedFindsOldest(v: Tab, s: seq<Item>, fcn: Key -> nat, key: Key, useBloom: bool)
    requires Inv(v) && v.order == s && s != [] && SameKey(s, fcn, key)
    requires v.chains[Bkt(fcn(key), |v.chains|)] == Reverse(s)
    ensures Find(Expand(v), key, fcn(key), useBloom) == Some(s[0])
  {
    hide Bkt, Expand, Inv, Find, NoDup;
    ExpandFindsLast(v, fcn, key, useBloom);
    assert s[0] in s && Reverse(s) == Reverse(s[1..]) + [s[0]];
    LastOfConcat(Reverse(s[1..]), s[0], key);
  }

  /** The tenth add makes the chain as long as it may be, the table expands, and the oldest is found. */
  lemma OldestFound(t: Tab, s: seq<Item>, x: Item, fcn: Key -> nat, key: Key, useBloom: bool)
    requires OneChain(t, s, fcn, key) && SameKey(s + [x], fcn, key) && |s| == BKT_CAPACITY_THRESH - 1
    ensures Legal(t, fcn, Add(x)) && Find(AddItem(t, x), key, fcn(key), useBloom) == Some(s[0])
  {
    AddedToChain(t, s, x, fcn, key);
    ExpandedFindsOldest(Added(t, x), s + [x], fcn, key, useBloom);
  }

  lemma SameKeyTake(s: seq<Item>, rest: seq<Item>, fcn: Key -> nat, key: Key)
    requires SameKey(s + rest, fcn, key)
    ensures SameKey(s, fcn, key)
  {
    assert forall i :: 0 <= i < |s| ==> (s + rest)[i] == s[i];
  }

  /** Adding the rest of up to nine items. */
  lemma {:induction false} AddsUpToNine(t: Tab, s: seq<Item>, rest: seq<Item>, fcn: Key -> nat, key: Key)
    requires OneChain(t, s, fcn, key) && SameKey(s + rest, fcn, key) && |s + rest| < BKT_CAPACITY_THRESH
    ensures LegalRun(t, fcn, Adds(rest)) && OneChain(Run(t, fcn, Adds(rest)), s + rest, fcn, key)
    decreases |rest|
  {
    if rest == [] {
      assert s + rest == s;
    } else {
      var x := rest[0];
      assert s + rest == (s + [x]) + rest[1..];
      SameKeyTake(s + [x], rest[1..], fcn, key);
      AddedToChain(t, s, x, fcn, key);
      AddsUpToNine(AddItem(t, x), s + [x], rest[1..], fcn, key);
      assert Adds(rest)[0] == Add(x) && Adds(rest)[1..] == Adds(rest[1..]);
    }
  }

  lemma {:induction false} AddsSnoc(s: seq<Item>, x: Item)
    ensures Adds(s + [x]) == Adds(s) + [Add(x)]
  {
    if s == [] {
      assert s + [x] == [x] && [x][1..] == [];
    } else {
      assert (s + [x])[1..] == s[1..] + [x];
      AddsSnoc(s[1..], x);
    }
  }

  /** A run that shows it: of ten elements added under one key, the ninth is found after nine adds, and the first after
      the tenth, which makes the table expand. */
  lemma RepeatedKeyRun(nbits: nat, fcn: Key -> nat, key: Key, s: seq<Item>, useBloom: bool)
    requires |s| == 10 && SameKey(s, fcn, key)
    ensures var t := NoTable(nbits);
            && LegalRun(t, fcn, Adds(s[..9])) && LegalRun(t, fcn, Adds(s))
            && Find(Run(t, fcn, Adds(s[..9])), key, fcn(key), useBloom) == Some(s[8])
            && Find(Run(t, fcn, Adds(s)), key, fcn(key), useBloom) == Some(s[0]) != Some(s[8])
  {
    var t, r := NoTable(nbits), s[..9];
    assert s == r + [s[9]] && [] + r == r;
    SameKeyTake(r, [s[9]], fcn, key);
    NothingStacked(nbits, fcn, key);
    AddsUpToNine(t, [], r, fcn, key);
    var nine := Run(t, fcn, Adds(r));
    NewestFound(nine, r, fcn, key, useBloom);
    OldestFound(nine, r, s[9], fcn, key, useBloom);
    AddsSnoc(r, s[9]);
    RunThen(t, fcn, Adds(r), Add(s[9]));
    assert s[0].elt != s[8].elt;
  }
}
