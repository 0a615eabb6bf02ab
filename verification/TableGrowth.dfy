/** When the table doubles its buckets, and when it gives that up. */
module TableGrowth {
  import opened Bits
  import opened Seqs
  import opened HashTypes
  import opened TableSpec
  import opened TableLaws
  import opened TableRuns

  // ---------------------------------------------------------------- one add, one delete

  /** The table an element is added to: a new one if there is none. */
  function Before(t: Tab): Tab {
    if t.order == [] then Make(t.nbits) else t
  }

  /** A new table has 32 buckets, nothing in them, and zero figures. */
  lemma NewTable(nbits: nat)
    ensures var s := Make(nbits);
            && |s.chains| == |s.mults| == 32 && s.log2 == 5
            && s.ideal == s.nonideal == s.ineff == s.noexpand == 0 && s.bloom == {}
            && forall b :: 0 <= b < 32 ==> s.chains[b] == [] && s.mults[b] == 0
  {
    assert Pow2(5) == 32;
  }

  lemma ExpandSizes(t: Tab)
    requires |t.chains| > 0
    ensures |Expand(t).chains| == 2 * |t.chains| && Expand(t).order == t.order
  {
  }

  lemma TriggerCases(t: Tab, x: Item)
    requires |Before(t).chains| > 0 && |Before(t).mults| == |Before(t).chains|
    requires t.order != [] ==> |t.chains| > 0 && |t.mults| == |t.chains|
    ensures var s := Before(t);
            var b := Bkt(x.hashv, |s.chains|);
            AddItem(t, x) ==
            if |s.chains[b]| + 1 >= 10 * (s.mults[b] + 1) && s.noexpand != 1 then Expand(Added(s, x)) else Added(s, x)
  {
    hide Bkt, BloomBit, Pow2, Rehash, Mults, Overs, Sum, Shr, IdealByShift;
  }

  /** An add doubles the buckets if and only if the chain of the element comes to 10 times its multiplier plus one and
      expansion was not given up. If it does not, the element is in front of its chain and all else is as it was. */
  lemma ExpansionTrigger(t: Tab, x: Item)
    requires WF(t) && forall y :: y in t.order ==> y.elt != x.elt
    ensures var s, u := Before(t), AddItem(t, x);
            && |s.chains| > 0 && |s.mults| == |s.chains|
            && var b := Bkt(x.hashv, |s.chains|);
            && u.order == t.order + [x]
            && (if |s.chains[b]| + 1 >= 10 * (s.mults[b] + 1) && s.noexpand != 1
                then u == Expand(Added(s, x)) && |u.chains| == 2 * |s.chains|
                else && u.chains == s.chains[b := [x] + s.chains[b]] && u.mults == s.mults && u.log2 == s.log2
                     && u.ideal == s.ideal && u.nonideal == s.nonideal
                     && u.ineff == s.ineff && u.noexpand == s.noexpand)
  {
    hide Expand, Bkt, BloomBit, Pow2, Inv, AddItem;
    NoTableOrMake(t.nbits);
    InvSizes(Before(t));
    AddKeepsWF(t, x);
    TriggerCases(t, x);
    ExpandSizes(Added(Before(t), x));
  }

  /** What an add does to the number of buckets and the figures of the table. */
  lemma AddFigures(t: Tab, x: Item)
    requires WF(t) && forall y :: y in t.order ==> y.elt != x.elt
    ensures var u := AddItem(t, x);
            && (t.order == [] ==> |u.chains| == 32 && u.log2 == 5 && u.ideal == u.nonideal == u.ineff == u.noexpand == 0)
            && (t.order != [] ==>
                  && |t.chains| > 0 && |t.mults| == |t.chains|
                  && var b := Bkt(x.hashv, |t.chains|);
                  && |u.chains| == (if |t.chains[b]| + 1 >= 10 * (t.mults[b] + 1) && t.noexpand != 1
                                    then 2 * |t.chains| else |t.chains|)
                  && (|u.chains| == |t.chains| ==>
                        && u.log2 == t.log2 && u.ideal == t.ideal && u.nonideal == t.nonideal
                        && u.ineff == t.ineff && u.noexpand == t.noexpand))
  {
    hide Expand, Bkt, AddItem, Added, Make;
    ExpansionTrigger(t, x);
    NewTable(t.nbits);
  }

  /** A delete of the last item leaves no table; any other leaves all but the list and the chain of the item as it was. */
  lemma DelFigures(t: Tab, x: Item)
    requires WF(t) && x in t.order
    ensures var u := DelItem(t, x);
            && |t.chains| > 0
            && var b := Bkt(x.hashv, |t.chains|);
            && (|t.order| == 1 ==> u.order == [] && u.chains == [] && u.bloom == {})
            && (|t.order| > 1 ==>
                  && u.chains == t.chains[b := Without(t.chains[b], x)] && u.mults == t.mults && u.log2 == t.log2
                  && u.ideal == t.ideal && u.nonideal == t.nonideal && u.ineff == t.ineff
                  && u.noexpand == t.noexpand && u.bloom == t.bloom)
  {
    InvSizes(t);
  }

  // ---------------------------------------------------------------- the doublings of a run

  function Ceiling(n: nat, b: nat): nat {
    if b == 0 then 0 else (n + b - 1) / b
  }

  lemma CeilingUnique(n: nat, b: nat, k: nat)
    requires b > 0 && k > 0 && (k - 1) * b < n <= k * b
    ensures k == Ceiling(n, b)
  {
    var r := n - 1 - (k - 1) * b;
    assert k * b == (k - 1) * b + b;
    DivModUnique(n + b - 1, b, k, r);
  }

  /** More than half of the items are beyond the ideal length of their chain. */
  predicate Wasteful(t: Tab) {
    2 * Beyond(Lens(t.chains), Ceiling(|t.order|, |t.chains|)) > |t.order|
  }

  /** One entry for each doubling of the present table, true if it was wasteful. */
  function Logged(d: seq<bool>, t: Tab, u: Tab): seq<bool> {
    if u.order == [] then []
    else if |t.chains| > 0 && |u.chains| == 2 * |t.chains| then d + [Wasteful(u)]
    else d
  }

  ghost function Doublings(d: seq<bool>, t: Tab, fcn: Key -> nat, ops: seq<Op>): seq<bool>
    requires WF(t) && LegalRun(t, fcn, ops)
    decreases |ops|
  {
    if ops == [] then d
    else Doublings(Logged(d, t, Step(t, fcn, ops[0])), Step(t, fcn, ops[0]), fcn, ops[1..])
  }

  /** Two wasteful doublings in a row. */
  predicate TwoInARow(d: seq<bool>) {
    exists i :: 0 <= i < |d| - 1 && d[i] && d[i + 1]
  }

  /** The figures of a table are the judgement of its doublings. */
  ghost predicate Judged(t: Tab, d: seq<bool>) {
    var n := |d|;
    && (if t.order == [] then d == [] else t.log2 == 5 + n)
    && t.ineff == (if n >= 1 && d[n - 1] then if n >= 2 && d[n - 2] then 2 else 1 else 0)
    && (t.noexpand == 1 <==> t.ineff == 2)
    && forall i :: 0 <= i < n - 2 ==> !(d[i] && d[i + 1])
  }

  lemma JudgedMeans(t: Tab, d: seq<bool>)
    requires Judged(t, d)
    ensures t.noexpand == 1 <==> TwoInARow(d)
  {
    var n := |d|;
    if t.noexpand == 1 {
      assert 0 <= n - 2 < n - 1 && d[n - 2] && d[n - 2 + 1];
    }
    if TwoInARow(d) {
      var i :| 0 <= i < n - 1 && d[i] && d[i + 1];
      assert i == n - 2;
    }
  }

  lemma JudgedSize(t: Tab, d: seq<bool>)
    requires WF(t) && Judged(t, d) && t.order != []
    ensures |t.chains| == Pow2(5 + |d|)
  {
  }

  lemma JudgedNext(t: Tab, d: seq<bool>, u: Tab, w: bool)
    requires Judged(t, d) && t.noexpand != 1 && t.order != [] && u.order != [] && u.log2 == t.log2 + 1
    requires u.ineff == (if w then t.ineff + 1 else 0) && u.noexpand == (if u.ineff >= 2 then 1 else t.noexpand)
    ensures Judged(u, d + [w])
  {
  }

  lemma ListedSize(v: Tab)
    requires Partition(v)
    ensures |v.chains| > 0
  {
  }

  /** A doubling is judged by what it leaves. */
  lemma DoublingJudged(v: Tab, d: seq<bool>)
    requires Partition(v) && v.order != [] && Judged(v, d) && v.noexpand != 1
    ensures Judged(Expand(v), d + [Wasteful(Expand(v))])
  {
    hide Expand, Partition, Judged, Beyond;
    ListedSize(v);
    var u := Expand(v);
    ExpandFigures(v);
    CeilingUnique(|u.order|, |u.chains|, u.ideal);
    JudgedNext(v, d, u, Wasteful(u));
  }

  lemma SameFigures(t: Tab, d: seq<bool>, u: Tab)
    requires Judged(t, d) && (t.order == [] <==> u.order == [])
    requires u.log2 == t.log2 && u.ineff == t.ineff && u.noexpand == t.noexpand
    ensures Judged(u, d)
  {
  }

  lemma NoTableJudged(nbits: nat)
    ensures Judged(NoTable(nbits), [])
  {
  }

  lemma FirstJudged(u: Tab)
    requires u.order != [] && u.log2 == 5 && u.ineff == u.noexpand == 0
    ensures Judged(u, [])
  {
  }

  lemma NothingLogged(t: Tab, d: seq<bool>, u: Tab)
    requires WF(t) && t.order == [] && Judged(t, d)
    ensures d == [] && Logged(d, t, u) == [] && t.chains == []
  {
  }

  lemma FirstAdd(t: Tab, x: Item)
    requires WF(t) && t.order == []
    ensures var u := AddItem(t, x);
            && u.order == [x] && u.log2 == 5 && |u.chains| == 32
            && u.ideal == u.nonideal == u.ineff == u.noexpand == 0
            && forall b :: 0 <= b < |u.mults| ==> u.mults[b] == 0
  {
    hide Expand, Bkt;
    ExpansionTrigger(t, x);
    NewTable(t.nbits);
  }

  lemma AddedFigures(t: Tab, x: Item, d: seq<bool>)
    requires Inv(t) && t.order != [] && Judged(t, d) && forall y :: y in t.order ==> y.elt != x.elt
    ensures var v := Added(t, x);
            Partition(v) && v.order != [] && Judged(v, d) && v.noexpand == t.noexpand && v.chains != []
  {
    hide Judged, Bkt, BloomBit;
    AddedKeepsInv(t, x);
    SameFigures(t, d, Added(t, x));
  }

  lemma AddJudged(t: Tab, x: Item, d: seq<bool>)
    requires WF(t) && (forall y :: y in t.order ==> y.elt != x.elt) && Judged(t, d)
    ensures Judged(AddItem(t, x), Logged(d, t, AddItem(t, x)))
  {
    hide Judged, Expand, Inv, Bkt, AddItem, Added, Wasteful, BloomBit, Make;
    AddKeepsWF(t, x);
    if t.order != [] {
      InvSizes(t);
    }
    var u := AddItem(t, x);
    if t.order == [] {
      NothingLogged(t, d, u);
      FirstAdd(t, x);
      FirstJudged(u);
    } else {
      ExpansionTrigger(t, x);
      if |u.chains| == 2 * |t.chains| {
        AddedFigures(t, x, d);
        DoublingJudged(Added(t, x), d);
      } else {
        SameFigures(t, d, u);
      }
    }
  }

  lemma DelJudged(t: Tab, x: Item, d: seq<bool>)
    requires WF(t) && x in t.order && Judged(t, d)
    ensures Judged(DelItem(t, x), Logged(d, t, DelItem(t, x)))
  {
    hide Judged, Bkt, Without, Wasteful;
    DelFigures(t, x);
    DelKeepsWF(t, x);
    WithoutMembers(t.order, x);
    if |t.order| == 1 {
      NoTableJudged(t.nbits);
    } else {
      SameFigures(t, d, DelItem(t, x));
    }
  }

  lemma ReorderJudged(t: Tab, o: seq<Item>, d: seq<bool>)
    requires WF(t) && multiset(o) == multiset(t.order) && Judged(t, d)
    ensures Judged(t.(order := o), Logged(d, t, t.(order := o)))
  {
    assert |multiset(o)| == |multiset(t.order)|;
    if t.order == [] {
      NothingLogged(t, d, t.(order := o));
    }
  }

  lemma {:induction false} RunJudged(t: Tab, d: seq<bool>, fcn: Key -> nat, ops: seq<Op>)
    requires WF(t) && LegalRun(t, fcn, ops) && Judged(t, d)
    ensures Judged(Run(t, fcn, ops), Doublings(d, t, fcn, ops))
    decreases |ops|
  {
    hide Judged, Logged, WF, AddItem, DelItem;
    if ops != [] {
      var u := Step(t, fcn, ops[0]);
      match ops[0] {
        case Add(x) => AddJudged(t, x, d);
        case Del(x) => DelJudged(t, x, d);
        case Reorder(o) => ReorderJudged(t, o, d);
      }
      RunJudged(u, Logged(d, t, u), fcn, ops[1..]);
    }
  }

  /** Over every run from no table: expansion is given up if and only if two doublings in a row each left more than half
      of the items beyond the ideal length. As long as no two did, the table holds at most 19 items per bucket. It has 32
      buckets, doubled once for each entry of the log. */
  lemma GivenUp(nbits: nat, fcn: Key -> nat, ops: seq<Op>)
    requires LegalRun(NoTable(nbits), fcn, ops)
    ensures var t, d := Run(NoTable(nbits), fcn, ops), Doublings([], NoTable(nbits), fcn, ops);
            && (t.noexpand == 1 <==> TwoInARow(d))
            && (!TwoInARow(d) ==> |t.order| <= 19 * |t.chains|)
            && (t.order != [] ==> |t.chains| == Pow2(5 + |d|))
  {
    hide Judged, TwoInARow, Doublings;
    var t, d := Run(NoTable(nbits), fcn, ops), Doublings([], NoTable(nbits), fcn, ops);
    NoTableJudged(nbits);
    RunJudged(NoTable(nbits), [], fcn, ops);
    JudgedMeans(t, d);
    if t.order != [] {
      JudgedSize(t, d);
    }
    LoadBound(nbits, fcn, ops);
  }
}
