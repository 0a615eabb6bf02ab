/** Sums and reversal of sequences. */
module Seqs {

  function Sum(s: seq<nat>): nat {
    if s == [] then 0 else s[0] + Sum(s[1..])
  }

  lemma {:induction false} SumUpdate(s: seq<nat>, i: nat, v: nat)
    requires i < |s|
    ensures Sum(s[i := v]) + s[i] == Sum(s) + v
  {
    if i == 0 {
      assert s[i := v][1..] == s[1..];
    } else {
      assert s[i := v][1..] == s[1..][i - 1 := v];
      SumUpdate(s[1..], i - 1, v);
    }
  }

  lemma {:induction false} SumZero(s: seq<nat>)
    requires forall i :: 0 <= i < |s| ==> s[i] == 0
    ensures Sum(s) == 0
  {
    if s != [] {
      SumZero(s[1..]);
    }
  }

  /** A bound that holds at every index holds of the sums. */
  lemma {:induction false} SumBound(s: seq<nat>, t: seq<nat>, a: nat, b: nat)
    requires |s| == |t|
    requires forall i :: 0 <= i < |s| ==> s[i] <= a + b * t[i]
    ensures Sum(s) <= a * |s| + b * Sum(t)
  {
    if s != [] {
      SumBound(s[1..], t[1..], a, b);
      assert s[0] <= a + b * t[0];
      assert a * |s| == a + a * |s[1..]|;
      assert b * (t[0] + Sum(t[1..])) == b * t[0] + b * Sum(t[1..]);
    }
  }

  function Reverse<T>(s: seq<T>): (r: seq<T>)
    ensures |r| == |s|
    ensures forall i :: 0 <= i < |s| ==> r[i] == s[|s| - 1 - i]
  {
    if s == [] then [] else Reverse(s[1..]) + [s[0]]
  }
}
