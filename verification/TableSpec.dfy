/** The hash table as a value: what each macro of uthash.h does to it. */
module TableSpec {
  import opened Basics
  import opened Bits
  import opened Seqs
  import opened HashTypes

  const INITIAL_LOG2: nat := 5
  const BKT_CAPACITY_THRESH: nat := 10

  /** A table. `order` is the application list; chains[b] is the chain of bucket b, mults[b] its expand_mult.
      `bloom` holds the indices of the set bits of the filter, which has 2^nbits bits. */
  datatype Tab = Tab(
    nbits: nat,
    order: seq<Item>,
    log2: nat,
    chains: seq<seq<Item>>,
    mults: seq<nat>,
    ideal: nat,
    nonideal: nat,
    ineff: nat,
    noexpand: nat,
    bloom: set<nat>
  )

  /** The null head: no table is allocated. */
  function NoTable(nbits: nat): Tab {
    Tab(nbits, [], 0, [], [], 0, 0, 0, 0, {})
  }

  /** HASH_MAKE_TABLE: everything zero except the bucket count. */
  function Make(nbits: nat): Tab {
    Tab(nbits, [], INITIAL_LOG2, seq(Pow2(INITIAL_LOG2), _ => []), seq(Pow2(INITIAL_LOG2), _ => 0), 0, 0, 0, 0, {})
  }

  // ---------------------------------------------------------------- bucket expansion

  /** Put x at the front of its chain. */
  function Push(nc: seq<seq<Item>>, x: Item): (r: seq<seq<Item>>)
    requires |nc| > 0
    ensures |r| == |nc|
  {
    var b := Bkt(x.hashv, |nc|);
    nc[b := [x] + nc[b]]
  }

  function PushAll(nc: seq<seq<Item>>, items: seq<Item>): (r: seq<seq<Item>>)
    requires |nc| > 0
    ensures |r| == |nc|
    decreases |items|
  {
    if items == [] then nc else PushAll(Push(nc, items[0]), items[1..])
  }

  function RehashFrom(nc: seq<seq<Item>>, chains: seq<seq<Item>>): (r: seq<seq<Item>>)
    requires |nc| > 0
    ensures |r| == |nc|
    decreases |chains|
  {
    if chains == [] then nc else RehashFrom(PushAll(nc, chains[0]), chains[1..])
  }

  /** The doubled bucket array, filled by walking the old chains in order. */
  function Rehash(chains: seq<seq<Item>>): (r: seq<seq<Item>>)
    requires |chains| > 0
    ensures |r| == 2 * |chains|
  {
    RehashFrom(seq(2 * |chains|, _ => []), chains)
  }

  function Lens(chains: seq<seq<Item>>): seq<nat> {
    seq(|chains|, i requires 0 <= i < |chains| => |chains[i]|)
  }

  /** expand_mult of a bucket that holds `count` items after a rehash. */
  function MultFor(count: nat, ideal: nat): nat {
    if ideal > 0 && count > ideal then count / ideal else 0
  }

  function Over(count: nat, ideal: nat): nat {
    if count > ideal then count - ideal else 0
  }

  function Mults(chains: seq<seq<Item>>, ideal: nat): seq<nat> {
    seq(|chains|, i requires 0 <= i < |chains| => MultFor(|chains[i]|, ideal))
  }

  function Overs(chains: seq<seq<Item>>, ideal: nat): seq<nat> {
    seq(|chains|, i requires 0 <= i < |chains| => Over(|chains[i]|, ideal))
  }

  /** HASH_EXPAND_BUCKETS. */
  function Expand(t: Tab): Tab
    requires |t.chains| > 0
  {
    var n := |t.order|;
    var ideal := IdealByShift(n, t.log2 + 1);
    var nc := Rehash(t.chains);
    var nonideal := Sum(Overs(nc, ideal));
    var ineff := if nonideal > Shr(n, 1) then t.ineff + 1 else 0;
    t.(log2 := t.log2 + 1, chains := nc, mults := Mults(nc, ideal), ideal := ideal, nonideal := nonideal,
       ineff := ineff, noexpand := if ineff > 1 then 1 else t.noexpand)
  }

  // ---------------------------------------------------------------- add, delete, find

  function BloomBit(hashv: nat, nbits: nat): nat {
    BitAnd(hashv, Pow2(nbits) - 1)
  }

  /** HASH_ADD_TO_BKT on a table that already counts and lists x. */
  function AddToBkt(t: Tab, x: Item): Tab
    requires |t.chains| > 0 && |t.mults| == |t.chains|
  {
    var b := Bkt(x.hashv, |t.chains|);
    var u := t.(chains := Push(t.chains, x));
    if |u.chains[b]| >= (u.mults[b] + 1) * BKT_CAPACITY_THRESH && u.noexpand != 1 then Expand(u) else u
  }

  /** HASH_ADD_KEYPTR. */
  function AddItem(t: Tab, x: Item): Tab
    requires t.order != [] ==> |t.chains| > 0 && |t.mults| == |t.chains|
  {
    var u := if t.order == [] then Make(t.nbits) else t;
    var v := AddToBkt(u.(order := u.order + [x]), x);
    v.(bloom := v.bloom + {BloomBit(x.hashv, v.nbits)})
  }

  function Without(s: seq<Item>, x: Item): seq<Item> {
    if s == [] then [] else if s[0] == x then s[1..] else [s[0]] + Without(s[1..], x)
  }

  /** HASH_DELETE: the last element takes the table with it. */
  function DelItem(t: Tab, x: Item): Tab
    requires |t.chains| > 0
  {
    if |t.order| == 1 then NoTable(t.nbits) else
    var b := Bkt(x.hashv, |t.chains|);
    t.(order := Without(t.order, x), chains := t.chains[b := Without(t.chains[b], x)])
  }

  /** The first item with the key, in the order of the sequence. */
  function FirstWith(s: seq<Item>, key: Key): (r: Option<Item>)
    ensures r.Some? ==> r.value in s && r.value.key == key
    ensures r.None? <==> forall x :: x in s ==> x.key != key
  {
    if s == [] then None else if s[0].key == key then Some(s[0]) else FirstWith(s[1..], key)
  }

  /** HASH_FIND for a key with the given hash value, consulting the Bloom filter first when there is one. */
  function Find(t: Tab, key: Key, hashv: nat, useBloom: bool): Option<Item>
    requires t.order != [] ==> |t.chains| > 0
  {
    if t.order == [] then None
    else if useBloom && BloomBit(hashv, t.nbits) !in t.bloom then None
    else FirstWith(t.chains[Bkt(hashv, |t.chains|)], key)
  }

  // ---------------------------------------------------------------- the invariant

  /** Every element object occurs once. */
  ghost predicate NoDup(s: seq<Item>) {
    forall i, j :: 0 <= i < j < |s| ==> s[i].elt != s[j].elt
  }

  /** What HASH_FSCK checks, and what makes lookups work: both structures hold the same elements, each in its own bucket. */
  ghost predicate Partition(t: Tab) {
    && NoDup(t.order)
    && |t.chains| == Pow2(t.log2) == |t.mults|
    && (forall b, x :: 0 <= b < |t.chains| && x in t.chains[b] ==> x in t.order && Bkt(x.hashv, |t.chains|) == b)
    && (forall x :: x in t.order ==> x in t.chains[Bkt(x.hashv, |t.chains|)])
    && (forall b :: 0 <= b < |t.chains| ==> NoDup(t.chains[b]))
    && Sum(Lens(t.chains)) == |t.order|
  }

  /** The filter has the bit of every stored item. */
  ghost predicate Covered(t: Tab) {
    forall x :: x in t.order ==> BloomBit(x.hashv, t.nbits) in t.bloom
  }

  ghost predicate Inv(t: Tab) {
    Partition(t) && Covered(t)
  }

  ghost predicate WF(t: Tab) {
    if t.order == [] then t == NoTable(t.nbits) else Inv(t)
  }
}
