/** Bottom-up mergesort on sequences, the value of HASH_SRT, and what it guarantees. */
module StableSort {
  import opened Bits

  /** Merges two runs; on a tie the left one goes first. */
  function Merge<T>(cmp: (T, T) -> int, p: seq<T>, q: seq<T>): (r: seq<T>)
    ensures |r| == |p| + |q|
    decreases |p| + |q|
  {
    if p == [] then q
    else if q == [] then p
    else if cmp(p[0], q[0]) <= 0 then [p[0]] + Merge(cmp, p[1..], q)
    else [q[0]] + Merge(cmp, p, q[1..])
  }

  function Take<T>(s: seq<T>, k: nat): seq<T> {
    if k < |s| then s[..k] else s
  }

  function Drop<T>(s: seq<T>, k: nat): seq<T> {
    if k < |s| then s[k..] else []
  }

  /** One pass: neighbouring runs of length k are merged. */
  function Pass<T>(cmp: (T, T) -> int, s: seq<T>, k: nat): (r: seq<T>)
    requires k > 0
    ensures |r| == |s|
    decreases |s|
  {
    if s == [] then []
    else Merge(cmp, Take(s, k), Take(Drop(s, k), k)) + Pass(cmp, Drop(s, 2 * k), k)
  }

  /** Passes with doubling run length until one merge is enough. */
  function SortFrom<T>(cmp: (T, T) -> int, s: seq<T>, k: nat): (r: seq<T>)
    requires k > 0
    ensures |r| == |s|
    decreases |s| - 2 * k
  {
    var r := Pass(cmp, s, k);
    if |s| <= 2 * k then r else SortFrom(cmp, r, 2 * k)
  }

  function Sort<T>(cmp: (T, T) -> int, s: seq<T>): (r: seq<T>)
    ensures |r| == |s|
  {
    SortFrom(cmp, s, 1)
  }

  /** The number of passes over n elements from run length k. */
  function Passes(n: nat, k: nat): nat
    requires k > 0
    decreases n - 2 * k
  {
    if n <= 2 * k then 1 else 1 + Passes(n, 2 * k)
  }

  // ---------------------------------------------------------------- the number of passes

  lemma Pow2Double(p: nat, k: nat)
    ensures Pow2(p + 1) * k == Pow2(p) * (2 * k)
  {
    assert Pow2(p + 1) == 2 * Pow2(p);
  }

  lemma Pow2Zero(k: nat)
    ensures Pow2(0) * k == k
  {
  }

  lemma {:induction false} PassesFrom(n: nat, k: nat)
    requires k > 0
    ensures var p := Passes(n, k);
            p >= 1 && n <= Pow2(p) * k && (p > 1 ==> Pow2(p - 1) * k < n)
    decreases n - 2 * k
  {
    hide Pow2;
    Pow2Double(0, k);
    Pow2Zero(2 * k);
    if n > 2 * k {
      PassesFrom(n, 2 * k);
      var p := Passes(n, 2 * k);
      Pow2Double(p, k);
      Pow2Double(p - 1, k);
    }
  }

  lemma {:induction false} Pow2Mono(a: nat, b: nat)
    requires a <= b
    ensures Pow2(a) <= Pow2(b)
  {
    if a < b {
      Pow2Mono(a, b - 1);
    }
  }

  /** There are exactly max(1, ceil(log2 n)) passes: the least p >= 1 with n <= 2^p. */
  lemma PassCount(n: nat, p: nat)
    ensures p == Passes(n, 1) <==> p >= 1 && n <= Pow2(p) && forall r :: 1 <= r < p ==> Pow2(r) < n
  {
    PassesFrom(n, 1);
    var c := Passes(n, 1);
    forall r | 1 <= r < c ensures Pow2(r) < n {
      Pow2Mono(r, c - 1);
    }
    if p > c {
      assert !(Pow2(c) < n);
    }
  }

  // ---------------------------------------------------------------- permutation

  lemma MergeUnfold<T>(cmp: (T, T) -> int, p: seq<T>, q: seq<T>)
    requires p != [] && q != []
    ensures Merge(cmp, p, q) ==
            if cmp(p[0], q[0]) <= 0 then [p[0]] + Merge(cmp, p[1..], q) else [q[0]] + Merge(cmp, p, q[1..])
  {
  }

  lemma MergeEmpty<T>(cmp: (T, T) -> int, p: seq<T>, q: seq<T>)
    requires p == [] || q == []
    ensures Merge(cmp, p, q) == p + q
  {
    assert p + [] == p && [] + q == q;
  }

  lemma HeadTail<T>(s: seq<T>)
    requires s != []
    ensures multiset(s) == multiset{s[0]} + multiset(s[1..])
  {
    assert s == [s[0]] + s[1..];
  }

  lemma {:induction false} MergePermutes<T>(cmp: (T, T) -> int, p: seq<T>, q: seq<T>)
    ensures multiset(Merge(cmp, p, q)) == multiset(p) + multiset(q)
    decreases |p| + |q|
  {
    hide Merge;
    if p == [] || q == [] {
      MergeEmpty(cmp, p, q);
    } else {
      MergeUnfold(cmp, p, q);
      HeadTail(p);
      HeadTail(q);
      if cmp(p[0], q[0]) <= 0 {
        MergePermutes(cmp, p[1..], q);
      } else {
        MergePermutes(cmp, p, q[1..]);
      }
    }
  }

  lemma ThreeParts<T>(s: seq<T>, k: nat)
    ensures s == Take(s, k) + (Take(Drop(s, k), k) + Drop(s, 2 * k))
  {
  }

  lemma {:induction false} PassPermutes<T>(cmp: (T, T) -> int, s: seq<T>, k: nat)
    requires k > 0
    ensures multiset(Pass(cmp, s, k)) == multiset(s)
    decreases |s|
  {
    if s != [] {
      MergePermutes(cmp, Take(s, k), Take(Drop(s, k), k));
      PassPermutes(cmp, Drop(s, 2 * k), k);
      ThreeParts(s, k);
    }
  }

  lemma {:induction false} SortFromPermutes<T>(cmp: (T, T) -> int, s: seq<T>, k: nat)
    requires k > 0
    ensures multiset(SortFrom(cmp, s, k)) == multiset(s)
    decreases |s| - 2 * k
  {
    PassPermutes(cmp, s, k);
    if |s| > 2 * k {
      SortFromPermutes(cmp, Pass(cmp, s, k), 2 * k);
    }
  }

  // ---------------------------------------------------------------- order

  /** cmp is a total preorder on the elements of m. */
  ghost predicate TotalPreorder<T>(cmp: (T, T) -> int, m: multiset<T>) {
    && (forall x, y :: x in m && y in m ==> cmp(x, y) <= 0 || cmp(y, x) <= 0)
    && (forall x, y, z :: x in m && y in m && z in m && cmp(x, y) <= 0 && cmp(y, z) <= 0 ==> cmp(x, z) <= 0)
  }

  ghost predicate Sorted<T>(cmp: (T, T) -> int, s: seq<T>) {
    forall i, j :: 0 <= i < j < |s| ==> cmp(s[i], s[j]) <= 0
  }

  ghost predicate Below<T>(cmp: (T, T) -> int, a: T, s: seq<T>) {
    forall x :: x in s ==> cmp(a, x) <= 0
  }

  ghost predicate Within<T>(s: seq<T>, m: multiset<T>) {
    forall x :: x in s ==> x in m
  }

  lemma SortedTail<T>(cmp: (T, T) -> int, s: seq<T>)
    requires s != [] && Sorted(cmp, s)
    ensures Below(cmp, s[0], s[1..]) && Sorted(cmp, s[1..])
  {
    forall x | x in s[1..] ensures cmp(s[0], x) <= 0 {
      var i :| 0 <= i < |s[1..]| && s[1..][i] == x;
      assert s[i + 1] == x;
    }
  }

  lemma SortedFront<T>(cmp: (T, T) -> int, a: T, s: seq<T>)
    requires Below(cmp, a, s) && Sorted(cmp, s)
    ensures Sorted(cmp, [a] + s)
  {
  }

  lemma SortedCons<T>(cmp: (T, T) -> int, s: seq<T>)
    requires s != []
    ensures Sorted(cmp, s) <==> Below(cmp, s[0], s[1..]) && Sorted(cmp, s[1..])
  {
    hide Sorted, Below;
    assert s == [s[0]] + s[1..];
    if Sorted(cmp, s) {
      SortedTail(cmp, s);
    }
    if Below(cmp, s[0], s[1..]) && Sorted(cmp, s[1..]) {
      SortedFront(cmp, s[0], s[1..]);
    }
  }

  /** What is not above the head of a sorted sequence is not above any of it. */
  lemma BelowSorted<T>(cmp: (T, T) -> int, a: T, s: seq<T>, m: multiset<T>)
    requires TotalPreorder(cmp, m) && a in m && Within(s, m) && s != [] && Sorted(cmp, s) && cmp(a, s[0]) <= 0
    ensures Below(cmp, a, s)
  {
    SortedTail(cmp, s);
    assert forall x :: x in s ==> x == s[0] || x in s[1..];
  }

  lemma MergeMembers<T>(cmp: (T, T) -> int, p: seq<T>, q: seq<T>)
    ensures forall x :: x in Merge(cmp, p, q) ==> x in p || x in q
  {
    hide Merge;
    MergePermutes(cmp, p, q);
    forall x | x in Merge(cmp, p, q) ensures x in p || x in q {
      assert x in multiset(Merge(cmp, p, q));
    }
  }

  lemma BelowMerge<T>(cmp: (T, T) -> int, a: T, p: seq<T>, q: seq<T>)
    requires Below(cmp, a, p) && Below(cmp, a, q)
    ensures Below(cmp, a, Merge(cmp, p, q))
  {
    hide Merge;
    MergeMembers(cmp, p, q);
  }

  lemma EitherWay<T>(cmp: (T, T) -> int, a: T, b: T, m: multiset<T>)
    requires TotalPreorder(cmp, m) && a in m && b in m && cmp(a, b) > 0
    ensures cmp(b, a) <= 0
  {
  }

  lemma WithinTail<T>(s: seq<T>, m: multiset<T>)
    requires Within(s, m) && s != []
    ensures Within(s[1..], m) && s[0] in m
  {
  }

  lemma {:induction false} MergeSorted<T>(cmp: (T, T) -> int, p: seq<T>, q: seq<T>, m: multiset<T>)
    requires TotalPreorder(cmp, m) && Sorted(cmp, p) && Sorted(cmp, q)
    requires Within(p, m) && Within(q, m)
    ensures Sorted(cmp, Merge(cmp, p, q))
    decreases |p| + |q|
  {
    hide Merge, Sorted, Below, TotalPreorder, Within;
    if p == [] || q == [] {
      MergeEmpty(cmp, p, q);
      assert p + [] == p && [] + q == q;
    } else {
      MergeUnfold(cmp, p, q);
      SortedTail(cmp, p);
      SortedTail(cmp, q);
      WithinTail(p, m);
      WithinTail(q, m);
      if cmp(p[0], q[0]) <= 0 {
        MergeSorted(cmp, p[1..], q, m);
        BelowSorted(cmp, p[0], q, m);
        BelowMerge(cmp, p[0], p[1..], q);
        SortedFront(cmp, p[0], Merge(cmp, p[1..], q));
      } else {
        MergeSorted(cmp, p, q[1..], m);
        EitherWay(cmp, p[0], q[0], m);
        BelowSorted(cmp, q[0], p, m);
        BelowMerge(cmp, q[0], p, q[1..]);
        SortedFront(cmp, q[0], Merge(cmp, p, q[1..]));
      }
    }
  }

  /** Every aligned run of length k is sorted. */
  ghost predicate RunsSorted<T>(cmp: (T, T) -> int, s: seq<T>, k: nat)
    requires k > 0
    decreases |s|
  {
    s == [] || (Sorted(cmp, Take(s, k)) && RunsSorted(cmp, Drop(s, k), k))
  }

  lemma {:induction false} SingleRuns<T>(cmp: (T, T) -> int, s: seq<T>)
    ensures RunsSorted(cmp, s, 1)
    decreases |s|
  {
    if s != [] {
      SingleRuns(cmp, Drop(s, 1));
    }
  }

  /** One pass doubles the length of the sorted runs. */
  lemma {:induction false} PassRuns<T>(cmp: (T, T) -> int, s: seq<T>, k: nat, m: multiset<T>)
    requires k > 0 && TotalPreorder(cmp, m) && Within(s, m) && RunsSorted(cmp, s, k)
    ensures RunsSorted(cmp, Pass(cmp, s, k), 2 * k)
    decreases |s|
  {
    if s != [] {
      var p, q, rest := Take(s, k), Take(Drop(s, k), k), Drop(s, 2 * k);
      assert rest == Drop(Drop(s, k), k);
      MergeSorted(cmp, p, q, m);
      PassRuns(cmp, rest, k, m);
      var r := Pass(cmp, s, k);
      assert r == Merge(cmp, p, q) + Pass(cmp, rest, k);
      assert Take(r, 2 * k) == Merge(cmp, p, q);
      assert Drop(r, 2 * k) == Pass(cmp, rest, k);
    }
  }

  /** n passes from run length k. */
  function Iterate<T>(cmp: (T, T) -> int, s: seq<T>, k: nat, n: nat): (r: seq<T>)
    requires k > 0
    ensures |r| == |s|
    decreases n
  {
    if n == 0 then s else Iterate(cmp, Pass(cmp, s, k), 2 * k, n - 1)
  }

  lemma SelfWithin<T>(s: seq<T>)
    ensures Within(s, multiset(s))
  {
  }

  /** From sorted runs of length k, n passes lead to sorted runs of length d = k 2^n. */
  lemma {:induction false} IterateRuns<T>(cmp: (T, T) -> int, s: seq<T>, k: nat, n: nat, d: nat)
    requires k > 0 && d == Pow2(n) * k && d > 0
    requires TotalPreorder(cmp, multiset(s)) && RunsSorted(cmp, s, k)
    ensures RunsSorted(cmp, Iterate(cmp, s, k, n), d)
    decreases n
  {
    hide Pow2, TotalPreorder, RunsSorted, Pass;
    if n == 0 {
      Pow2Zero(k);
    } else {
      SelfWithin(s);
      PassRuns(cmp, s, k, multiset(s));
      PassPermutes(cmp, s, k);
      Pow2Double(n - 1, k);
      IterateRuns(cmp, Pass(cmp, s, k), 2 * k, n - 1, d);
    }
  }

  lemma {:induction false} SortIsIterate<T>(cmp: (T, T) -> int, s: seq<T>, k: nat)
    requires k > 0
    ensures SortFrom(cmp, s, k) == Iterate(cmp, s, k, Passes(|s|, k))
    decreases |s| - 2 * k
  {
    if |s| > 2 * k {
      SortIsIterate(cmp, Pass(cmp, s, k), 2 * k);
    } else {
      assert Iterate(cmp, s, k, 1) == Iterate(cmp, Pass(cmp, s, k), 2 * k, 0);
    }
  }

  /** After pass n every aligned run of 2^n elements is sorted; the sort is the last of its passes. */
  lemma RunsAfterPass<T>(cmp: (T, T) -> int, s: seq<T>, n: nat)
    requires TotalPreorder(cmp, multiset(s))
    ensures RunsSorted(cmp, Iterate(cmp, s, 1, n), Pow2(n))
    ensures Sort(cmp, s) == Iterate(cmp, s, 1, Passes(|s|, 1))
  {
    SingleRuns(cmp, s);
    IterateRuns(cmp, s, 1, n, Pow2(n));
    SortIsIterate(cmp, s, 1);
  }

  // ---------------------------------------------------------------- stability

  /** The elements equivalent to a, in order. */
  function Class<T>(cmp: (T, T) -> int, s: seq<T>, a: T): seq<T> {
    if s == [] then []
    else if cmp(s[0], a) <= 0 && cmp(a, s[0]) <= 0 then [s[0]] + Class(cmp, s[1..], a)
    else Class(cmp, s[1..], a)
  }

  lemma {:induction false} ClassConcat<T>(cmp: (T, T) -> int, s: seq<T>, t: seq<T>, a: T)
    ensures Class(cmp, s + t, a) == Class(cmp, s, a) + Class(cmp, t, a)
  {
    if s == [] {
      assert s + t == t;
    } else {
      assert (s + t)[1..] == s[1..] + t;
      ClassConcat(cmp, s[1..], t, a);
    }
  }

  lemma {:induction false} ClassNone<T>(cmp: (T, T) -> int, s: seq<T>, a: T)
    requires forall x :: x in s ==> cmp(x, a) > 0
    ensures Class(cmp, s, a) == []
  {
    if s != [] {
      ClassNone(cmp, s[1..], a);
    }
  }

  /** Elements above b keep out of the class of a when b is in it. */
  lemma AboveNone<T>(cmp: (T, T) -> int, p: seq<T>, b: T, a: T, m: multiset<T>)
    requires TotalPreorder(cmp, m) && Within(p, m) && b in m && a in m
    requires p != [] && Sorted(cmp, p) && cmp(p[0], b) > 0 && cmp(a, b) <= 0
    ensures Class(cmp, p, a) == []
  {
    assert p[0] in p && cmp(p[0], p[0]) <= 0;
    assert cmp(p[0], a) > 0;
    forall x | x in p ensures cmp(x, a) > 0 {
      SortedCons(cmp, p);
      assert cmp(p[0], x) <= 0;
    }
    ClassNone(cmp, p, a);
  }

  lemma {:induction false} MergeStable<T>(cmp: (T, T) -> int, p: seq<T>, q: seq<T>, a: T, m: multiset<T>)
    requires TotalPreorder(cmp, m) && Within(p, m) && Within(q, m) && a in m && Sorted(cmp, p) && Sorted(cmp, q)
    ensures Class(cmp, Merge(cmp, p, q), a) == Class(cmp, p, a) + Class(cmp, q, a)
    decreases |p| + |q|
  {
    if p != [] && q != [] {
      SortedCons(cmp, p);
      SortedCons(cmp, q);
      var r := Merge(cmp, p, q);
      if cmp(p[0], q[0]) <= 0 {
        assert r[1..] == Merge(cmp, p[1..], q);
        MergeStable(cmp, p[1..], q, a, m);
      } else {
        assert r[1..] == Merge(cmp, p, q[1..]);
        MergeStable(cmp, p, q[1..], a, m);
        if cmp(q[0], a) <= 0 && cmp(a, q[0]) <= 0 {
          AboveNone(cmp, p, q[0], a, m);
        }
      }
    }
  }

  lemma ClassThreeParts<T>(cmp: (T, T) -> int, s: seq<T>, k: nat, a: T)
    ensures Class(cmp, s, a) == Class(cmp, Take(s, k), a) + Class(cmp, Take(Drop(s, k), k), a) + Class(cmp, Drop(s, 2 * k), a)
  {
    var p, q, rest := Take(s, k), Take(Drop(s, k), k), Drop(s, 2 * k);
    ThreeParts(s, k);
    ClassConcat(cmp, p, q + rest, a);
    ClassConcat(cmp, q, rest, a);
  }

  lemma {:induction false} PassStable<T>(cmp: (T, T) -> int, s: seq<T>, k: nat, a: T, m: multiset<T>)
    requires k > 0 && TotalPreorder(cmp, m) && Within(s, m) && RunsSorted(cmp, s, k) && a in m
    ensures Class(cmp, Pass(cmp, s, k), a) == Class(cmp, s, a)
    decreases |s|
  {
    if s != [] {
      var p, q, rest := Take(s, k), Take(Drop(s, k), k), Drop(s, 2 * k);
      assert rest == Drop(Drop(s, k), k);
      MergeStable(cmp, p, q, a, m);
      PassStable(cmp, rest, k, a, m);
      ClassConcat(cmp, Merge(cmp, p, q), Pass(cmp, rest, k), a);
      ClassThreeParts(cmp, s, k, a);
    }
  }

  lemma {:induction false} SortFromCorrect<T>(cmp: (T, T) -> int, s: seq<T>, k: nat, m: multiset<T>)
    requires k > 0 && m == multiset(s) && TotalPreorder(cmp, m) && RunsSorted(cmp, s, k)
    ensures Sorted(cmp, SortFrom(cmp, s, k))
    ensures forall a :: a in m ==> Class(cmp, SortFrom(cmp, s, k), a) == Class(cmp, s, a)
    decreases |s| - 2 * k
  {
    var r := Pass(cmp, s, k);
    PassPermutes(cmp, s, k);
    PassRuns(cmp, s, k, m);
    forall a | a in m ensures Class(cmp, r, a) == Class(cmp, s, a) {
      PassStable(cmp, s, k, a, m);
    }
    if |s| > 2 * k {
      SortFromCorrect(cmp, r, 2 * k, m);
    } else {
      assert r == [] || Take(r, 2 * k) == r;
    }
  }

  /** For every total preorder: the result is sorted, is a permutation, and keeps equivalent elements in their order. */
  lemma SortCorrect<T>(cmp: (T, T) -> int, s: seq<T>)
    requires TotalPreorder(cmp, multiset(s))
    ensures Sorted(cmp, Sort(cmp, s))
    ensures multiset(Sort(cmp, s)) == multiset(s)
    ensures forall a :: a in s ==> Class(cmp, Sort(cmp, s), a) == Class(cmp, s, a)
  {
    SingleRuns(cmp, s);
    SortFromCorrect(cmp, s, 1, multiset(s));
    SortFromPermutes(cmp, s, 1);
  }

  lemma {:induction false} ClassMember<T>(cmp: (T, T) -> int, s: seq<T>, a: T)
    ensures forall x :: x in Class(cmp, s, a) ==> x in s && cmp(x, a) <= 0 && cmp(a, x) <= 0
    ensures forall x :: x in s && cmp(x, a) <= 0 && cmp(a, x) <= 0 ==> x in Class(cmp, s, a)
  {
    if s != [] {
      ClassMember(cmp, s[1..], a);
      assert s == [s[0]] + s[1..];
    }
  }

  lemma TailClasses<T>(cmp: (T, T) -> int, r: seq<T>, t: seq<T>, m: multiset<T>)
    requires r != [] && t != [] && r[0] == t[0]
    requires forall a :: a in m ==> Class(cmp, r, a) == Class(cmp, t, a)
    ensures forall a :: a in m ==> Class(cmp, r[1..], a) == Class(cmp, t[1..], a)
  {
    forall a | a in m ensures Class(cmp, r[1..], a) == Class(cmp, t[1..], a) {
      var x, y := Class(cmp, r[1..], a), Class(cmp, t[1..], a);
      if cmp(r[0], a) <= 0 && cmp(a, r[0]) <= 0 {
        assert ([r[0]] + x)[1..] == x && ([t[0]] + y)[1..] == y;
      }
    }
  }

  lemma ClassNotEmpty<T>(cmp: (T, T) -> int, r: seq<T>, t: seq<T>, m: multiset<T>)
    requires TotalPreorder(cmp, m) && Within(r, m) && r != []
    requires forall a :: a in m ==> Class(cmp, r, a) == Class(cmp, t, a)
    ensures r[0] in t
  {
    var a := r[0];
    assert a in r && a in m && cmp(a, a) <= 0;
    ClassMember(cmp, r, a);
    ClassMember(cmp, t, a);
  }

  lemma HeadsAgree<T>(cmp: (T, T) -> int, r: seq<T>, t: seq<T>, m: multiset<T>)
    requires TotalPreorder(cmp, m) && Within(r, m) && Within(t, m) && Sorted(cmp, r) && Sorted(cmp, t)
    requires forall a :: a in m ==> Class(cmp, r, a) == Class(cmp, t, a)
    requires r != [] && r[0] in t
    ensures r[0] == t[0]
  {
    var a, b := r[0], t[0];
    assert a in r && b in t && cmp(a, a) <= 0 && cmp(b, b) <= 0;
    SortedCons(cmp, r);
    SortedCons(cmp, t);
    assert cmp(b, a) <= 0;
    ClassMember(cmp, r, b);
    ClassMember(cmp, t, b);
    assert b in Class(cmp, t, b) && b in r;
    assert cmp(a, b) <= 0;
    assert Class(cmp, r, a)[0] == a && Class(cmp, t, a)[0] == b;
  }

  /** Those three properties leave one possible result. */
  lemma {:induction false} StableSortUnique<T>(cmp: (T, T) -> int, r: seq<T>, t: seq<T>, m: multiset<T>)
    requires TotalPreorder(cmp, m) && Within(r, m) && Within(t, m) && Sorted(cmp, r) && Sorted(cmp, t)
    requires forall a :: a in m ==> Class(cmp, r, a) == Class(cmp, t, a)
    ensures r == t
  {
    if r != [] {
      ClassNotEmpty(cmp, r, t, m);
      HeadsAgree(cmp, r, t, m);
      SortedCons(cmp, r);
      SortedCons(cmp, t);
      TailClasses(cmp, r, t, m);
      StableSortUnique(cmp, r[1..], t[1..], m);
    } else if t != [] {
      ClassNotEmpty(cmp, t, r, m);
    }
  }
}
