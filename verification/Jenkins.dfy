/** HASH_JEN, the default hash function: Bob Jenkins' 96-bit mixer over 12-byte blocks of signed chars. */
module Jenkins {
  import opened Bits

  // ---------------------------------------------------------------- arithmetic on unsigned 32-bit words

  function Add(x: bv32, y: bv32): bv32 { x + y }

  function Sub(x: bv32, y: bv32): bv32 { x - y }

  function Xor(x: bv32, y: bv32): bv32 { x ^ y }

  function ShiftRight(x: bv32, k: bv6): bv32
    requires k < 32
  {
    x >> k
  }

  function ShiftLeft(x: bv32, k: bv6): bv32
    requires k < 32
  {
    x << k
  }

  lemma XorTwice(x: bv32, w: bv32)
    ensures Xor(Xor(x, w), w) == x
  {
  }

  lemma SubOfAdd(x: bv32, y: bv32)
    ensures Sub(Add(x, y), y) == x
  {
    calc {
      Sub(Add(x, y), y);
      Sub(x + y, y);
      (x + y) - y;
      x;
    }
  }

  lemma AddOfSub(x: bv32, y: bv32)
    ensures Add(Sub(x, y), y) == x
  {
    calc {
      Add(Sub(x, y), y);
      Add(x - y, y);
      (x - y) + y;
      x;
    }
  }

  lemma AddCommutes(x: bv32, y: bv32)
    ensures Add(x, y) == Add(y, x)
  {
    calc {
      Add(x, y);
      x + y;
      y + x;
      Add(y, x);
    }
  }

  lemma AddRegroups(x: bv32, y: bv32, z: bv32)
    ensures Add(Add(x, y), z) == Add(x, Add(y, z))
  {
    calc {
      Add(Add(x, y), z);
      Add(x + y, z);
      (x + y) + z;
      x + (y + z);
      Add(x, y + z);
      Add(x, Add(y, z));
    }
  }

  lemma CancelRight(x: bv32, r: bv32, q: bv32)
    requires Add(r, x) == Add(q, x)
    ensures r == q
  {
    hide Add, Sub;
    SubOfAdd(r, x);
    SubOfAdd(q, x);
  }

  lemma Cancel(x: bv32, r: bv32, q: bv32)
    requires Add(x, r) == Add(x, q)
    ensures r == q
  {
    hide Add;
    AddCommutes(x, r);
    AddCommutes(x, q);
    CancelRight(x, r, q);
  }

  // ---------------------------------------------------------------- the mixer

  /** _hj_i, _hj_j and hashv. */
  datatype Triple = Triple(i: bv32, j: bv32, h: bv32)

  /** One line of HASH_JEN_MIX: `x -= y; x -= z; x ^= w`. */
  function Line(x: bv32, y: bv32, z: bv32, w: bv32): bv32 {
    Xor(Sub(Sub(x, y), z), w)
  }

  function UnLine(x: bv32, y: bv32, z: bv32, w: bv32): bv32 {
    Add(Add(Xor(x, w), z), y)
  }

  /** Three of its nine lines; the shift amounts are what differs between the threes. */
  function Round(t: Triple, right: bv6, left: bv6, last: bv6): Triple
    requires right < 32 && left < 32 && last < 32
  {
    var a := Line(t.i, t.j, t.h, ShiftRight(t.h, right));
    var b := Line(t.j, t.h, a, ShiftLeft(a, left));
    var c := Line(t.h, a, b, ShiftRight(b, last));
    Triple(a, b, c)
  }

  /** HASH_JEN_MIX. */
  function Mix(t: Triple): Triple {
    Round(Round(Round(t, 13, 8, 13), 12, 16, 5), 3, 10, 15)
  }

  function UnRound(t: Triple, right: bv6, left: bv6, last: bv6): Triple
    requires right < 32 && left < 32 && last < 32
  {
    var c := UnLine(t.h, t.i, t.j, ShiftRight(t.j, last));
    var b := UnLine(t.j, c, t.i, ShiftLeft(t.i, left));
    var a := UnLine(t.i, b, c, ShiftRight(c, right));
    Triple(a, b, c)
  }

  function UnMix(t: Triple): Triple {
    UnRound(UnRound(UnRound(t, 3, 10, 15), 12, 16, 5), 13, 8, 13)
  }

  lemma LineInverse(x: bv32, y: bv32, z: bv32, w: bv32)
    ensures UnLine(Line(x, y, z, w), y, z, w) == x && Line(UnLine(x, y, z, w), y, z, w) == x
  {
    hide Add, Sub, Xor;
    XorTwice(Sub(Sub(x, y), z), w);
    AddOfSub(Sub(x, y), z);
    AddOfSub(x, y);
    SubOfAdd(Add(Xor(x, w), z), y);
    SubOfAdd(Xor(x, w), z);
    XorTwice(x, w);
  }

  lemma RoundInverse(t: Triple, right: bv6, left: bv6, last: bv6)
    requires right < 32 && left < 32 && last < 32
    ensures UnRound(Round(t, right, left, last), right, left, last) == t
    ensures Round(UnRound(t, right, left, last), right, left, last) == t
  {
    hide Line, UnLine, ShiftRight, ShiftLeft;
    var r := Round(t, right, left, last);
    LineInverse(t.h, r.i, r.j, ShiftRight(r.j, last));
    LineInverse(t.j, t.h, r.i, ShiftLeft(r.i, left));
    LineInverse(t.i, t.j, t.h, ShiftRight(t.h, right));
    var u := UnRound(t, right, left, last);
    LineInverse(t.h, t.i, t.j, ShiftRight(t.j, last));
    LineInverse(t.j, u.h, t.i, ShiftLeft(t.i, left));
    LineInverse(t.i, u.j, u.h, ShiftRight(u.h, right));
  }

  /** HASH_JEN_MIX is a bijection on triples of 32-bit words. */
  lemma MixBijective(t: Triple)
    ensures UnMix(Mix(t)) == t && Mix(UnMix(t)) == t
  {
    hide Round, UnRound;
    var a := Round(t, 13, 8, 13);
    var b := Round(a, 12, 16, 5);
    RoundInverse(t, 13, 8, 13);
    RoundInverse(a, 12, 16, 5);
    RoundInverse(b, 3, 10, 15);
    var x := UnRound(t, 3, 10, 15);
    var y := UnRound(x, 12, 16, 5);
    RoundInverse(t, 3, 10, 15);
    RoundInverse(x, 12, 16, 5);
    RoundInverse(y, 13, 8, 13);
  }

  lemma MixInjective(t: Triple, u: Triple)
    requires Mix(t) == Mix(u)
    ensures t == u
  {
    hide Mix, UnMix;
    MixBijective(t);
    MixBijective(u);
  }

  // ---------------------------------------------------------------- four chars in a word

  /** A signed char converted to unsigned: the sign bit is copied into the upper three bytes. */
  function SignExtend(b: bv8): bv32 {
    if b & 0x80 != 0 then (b as bv32) | 0xffffff00 else b as bv32
  }

  /** Four chars put together, low byte first, as the source adds them. */
  function Word(b0: bv8, b1: bv8, b2: bv8, b3: bv8): bv32 {
    Add(Add(Add(SignExtend(b0), ShiftLeft(SignExtend(b1), 8)), ShiftLeft(SignExtend(b2), 16)),
        ShiftLeft(SignExtend(b3), 24))
  }

  /** The low k bytes are zero. */
  predicate LowZero(x: bv32, k: nat) {
    match k
    case 1 => x & 0xff == 0
    case 2 => x & 0xffff == 0
    case 3 => x & 0xffffff == 0
    case _ => x == 0
  }

  lemma LowZeroShift(a: bv8)
    ensures LowZero(ShiftLeft(SignExtend(a), 24), 3)
  {
  }

  lemma LowZeroAdd2(a: bv8, r: bv32)
    requires LowZero(r, 3)
    ensures LowZero(Add(ShiftLeft(SignExtend(a), 16), r), 2)
  {
  }

  lemma LowZeroAdd1(a: bv8, r: bv32)
    requires LowZero(r, 2)
    ensures LowZero(Add(ShiftLeft(SignExtend(a), 8), r), 1)
  {
  }

  lemma Peel0(a: bv8, b: bv8, r: bv32, q: bv32)
    requires LowZero(r, 1) && LowZero(q, 1) && Add(SignExtend(a), r) == Add(SignExtend(b), q)
    ensures a == b
  {
  }

  lemma Peel1(a: bv8, b: bv8, r: bv32, q: bv32)
    requires LowZero(r, 2) && LowZero(q, 2)
    requires Add(ShiftLeft(SignExtend(a), 8), r) == Add(ShiftLeft(SignExtend(b), 8), q)
    ensures a == b
  {
  }

  lemma Peel2(a: bv8, b: bv8, r: bv32, q: bv32)
    requires LowZero(r, 3) && LowZero(q, 3)
    requires Add(ShiftLeft(SignExtend(a), 16), r) == Add(ShiftLeft(SignExtend(b), 16), q)
    ensures a == b
  {
  }

  lemma Peel3(a: bv8, b: bv8)
    requires ShiftLeft(SignExtend(a), 24) == ShiftLeft(SignExtend(b), 24)
    ensures a == b
  {
  }

  lemma Regroup(x0: bv32, x1: bv32, x2: bv32, x3: bv32)
    ensures Add(Add(Add(x0, x1), x2), x3) == Add(x0, Add(x1, Add(x2, x3)))
  {
    hide Add;
    AddRegroups(Add(x0, x1), x2, x3);
    AddRegroups(x0, x1, Add(x2, x3));
  }

  /** The word determines its four chars, each from the position up. */
  lemma WordInjective(a0: bv8, a1: bv8, a2: bv8, a3: bv8, b0: bv8, b1: bv8, b2: bv8, b3: bv8)
    requires Word(a0, a1, a2, a3) == Word(b0, b1, b2, b3)
    ensures a0 == b0 && a1 == b1 && a2 == b2 && a3 == b3
  {
    hide SignExtend, Add, ShiftLeft, LowZero;
    var x1, x2, x3 := ShiftLeft(SignExtend(a1), 8), ShiftLeft(SignExtend(a2), 16), ShiftLeft(SignExtend(a3), 24);
    var y1, y2, y3 := ShiftLeft(SignExtend(b1), 8), ShiftLeft(SignExtend(b2), 16), ShiftLeft(SignExtend(b3), 24);
    Regroup(SignExtend(a0), x1, x2, x3);
    Regroup(SignExtend(b0), y1, y2, y3);
    LowZeroShift(a3);
    LowZeroShift(b3);
    LowZeroAdd2(a2, x3);
    LowZeroAdd2(b2, y3);
    LowZeroAdd1(a1, Add(x2, x3));
    LowZeroAdd1(b1, Add(y2, y3));
    Peel0(a0, b0, Add(x1, Add(x2, x3)), Add(y1, Add(y2, y3)));
    Cancel(SignExtend(a0), Add(x1, Add(x2, x3)), Add(y1, Add(y2, y3)));
    Peel1(a1, b1, Add(x2, x3), Add(y2, y3));
    Cancel(x1, Add(x2, x3), Add(y2, y3));
    Peel2(a2, b2, x3, y3);
    Cancel(x2, x3, y3);
    Peel3(a3, b3);
  }

  // ---------------------------------------------------------------- blocks, tail, key

  function Char(s: seq<bv8>, n: nat): bv8 {
    if n < |s| then s[n] else 0
  }

  /** The word made of chars n to n + 3; missing chars add nothing. */
  function WordAt(s: seq<bv8>, n: nat): bv32 {
    Word(Char(s, n), Char(s, n + 1), Char(s, n + 2), Char(s, n + 3))
  }

  /** A 12-char block added to the triple. */
  function Absorb(t: Triple, block: seq<bv8>): Triple {
    Triple(Add(t.i, WordAt(block, 0)), Add(t.j, WordAt(block, 4)), Add(t.h, WordAt(block, 8)))
  }

  /** The last 0 to 11 chars and the key length added to the triple. The lowest byte of hashv is left to the length. */
  function AbsorbTail(t: Triple, rest: seq<bv8>, keylen: bv32): Triple {
    Triple(Add(t.i, WordAt(rest, 0)), Add(t.j, WordAt(rest, 4)),
           Add(Add(t.h, keylen), Word(0, Char(rest, 8), Char(rest, 9), Char(rest, 10))))
  }

  /** The triple after all of a key, from triple t. */
  function Jen(t: Triple, key: seq<bv8>, keylen: bv32): Triple
    decreases |key|
  {
    if |key| >= 12 then Jen(Mix(Absorb(t, key[..12])), key[12..], keylen) else Mix(AbsorbTail(t, key, keylen))
  }

  const START := Triple(0x9e3779b9, 0x9e3779b9, 0xfeedbeef)

  /** keylen, an unsigned. */
  function KeyLen(key: seq<bv8>): bv32
    requires |key| < 0x1_0000_0000
  {
    |key| as bv32
  }

  /** The internal triple that HASH_JEN ends with for a key. */
  function JenTriple(key: seq<bv8>): Triple
    requires |key| < 0x1_0000_0000
  {
    Jen(START, key, KeyLen(key))
  }

  function Mask(hashv: bv32, numBkts: bv32): bv32 {
    hashv & (numBkts - 1)
  }

  lemma WordAtInjective(x: seq<bv8>, y: seq<bv8>, n: nat)
    requires |x| == |y| && WordAt(x, n) == WordAt(y, n)
    ensures forall k :: n <= k < n + 4 && k < |x| ==> x[k] == y[k]
  {
    hide Word;
    WordInjective(Char(x, n), Char(x, n + 1), Char(x, n + 2), Char(x, n + 3),
                  Char(y, n), Char(y, n + 1), Char(y, n + 2), Char(y, n + 3));
    assert forall k :: 0 <= k < |x| ==> Char(x, k) == x[k] && Char(y, k) == y[k];
  }

  /** One block step is injective in its 12 chars, and in the triple it starts from. */
  lemma BlockInjective(t: Triple, u: Triple, x: seq<bv8>, y: seq<bv8>)
    requires |x| == |y| == 12 && Mix(Absorb(t, x)) == Mix(Absorb(u, y))
    ensures t == u ==> x == y
    ensures x == y ==> t == u
  {
    hide Mix, Add, Word, WordAt;
    MixInjective(Absorb(t, x), Absorb(u, y));
    if t == u {
      Cancel(t.i, WordAt(x, 0), WordAt(y, 0));
      Cancel(t.j, WordAt(x, 4), WordAt(y, 4));
      Cancel(t.h, WordAt(x, 8), WordAt(y, 8));
      WordAtInjective(x, y, 0);
      WordAtInjective(x, y, 4);
      WordAtInjective(x, y, 8);
    }
    if x == y {
      CancelRight(WordAt(x, 0), t.i, u.i);
      CancelRight(WordAt(x, 4), t.j, u.j);
      CancelRight(WordAt(x, 8), t.h, u.h);
    }
  }

  /** The part of hashv that the last chars make up. */
  function TailWord(rest: seq<bv8>): bv32 {
    Word(0, Char(rest, 8), Char(rest, 9), Char(rest, 10))
  }

  lemma TailWordInjective(x: seq<bv8>, y: seq<bv8>)
    requires |x| == |y| < 12 && TailWord(x) == TailWord(y)
    ensures forall k :: 8 <= k < |x| ==> x[k] == y[k]
  {
    hide Word;
    WordInjective(0, Char(x, 8), Char(x, 9), Char(x, 10), 0, Char(y, 8), Char(y, 9), Char(y, 10));
    assert forall k :: 0 <= k < |x| ==> Char(x, k) == x[k] && Char(y, k) == y[k];
  }

  lemma TailParts(t: Triple, u: Triple, x: seq<bv8>, y: seq<bv8>, keylen: bv32)
    requires Mix(AbsorbTail(t, x, keylen)) == Mix(AbsorbTail(u, y, keylen))
    ensures Add(t.i, WordAt(x, 0)) == Add(u.i, WordAt(y, 0)) && Add(t.j, WordAt(x, 4)) == Add(u.j, WordAt(y, 4))
    ensures Add(Add(t.h, keylen), TailWord(x)) == Add(Add(u.h, keylen), TailWord(y))
  {
    hide Mix, Add, Word, WordAt;
    MixInjective(AbsorbTail(t, x, keylen), AbsorbTail(u, y, keylen));
  }

  lemma ThreeRuns(x: seq<bv8>, y: seq<bv8>)
    requires |x| == |y| < 12
    requires forall k :: 0 <= k < 4 && k < |x| ==> x[k] == y[k]
    requires forall k :: 4 <= k < 8 && k < |x| ==> x[k] == y[k]
    requires forall k :: 8 <= k < |x| ==> x[k] == y[k]
    ensures x == y
  {
  }

  lemma TailSeparates(t: Triple, x: seq<bv8>, y: seq<bv8>, keylen: bv32)
    requires |x| == |y| < 12 && Mix(AbsorbTail(t, x, keylen)) == Mix(AbsorbTail(t, y, keylen))
    ensures x == y
  {
    hide Mix, Add, Word, WordAt, AbsorbTail, TailWord;
    TailParts(t, t, x, y, keylen);
    Cancel(t.i, WordAt(x, 0), WordAt(y, 0));
    Cancel(t.j, WordAt(x, 4), WordAt(y, 4));
    Cancel(Add(t.h, keylen), TailWord(x), TailWord(y));
    WordAtInjective(x, y, 0);
    WordAtInjective(x, y, 4);
    TailWordInjective(x, y);
    ThreeRuns(x, y);
  }

  lemma TailKeeps(t: Triple, u: Triple, x: seq<bv8>, keylen: bv32)
    requires Mix(AbsorbTail(t, x, keylen)) == Mix(AbsorbTail(u, x, keylen))
    ensures t == u
  {
    hide Mix, Add, Word, WordAt, AbsorbTail, TailWord;
    TailParts(t, u, x, x, keylen);
    CancelRight(WordAt(x, 0), t.i, u.i);
    CancelRight(WordAt(x, 4), t.j, u.j);
    CancelRight(TailWord(x), Add(t.h, keylen), Add(u.h, keylen));
    CancelRight(keylen, t.h, u.h);
  }

  /** The last step is injective in its chars, and in the triple it starts from. */
  lemma TailInjective(t: Triple, u: Triple, x: seq<bv8>, y: seq<bv8>, keylen: bv32)
    requires |x| == |y| < 12 && Mix(AbsorbTail(t, x, keylen)) == Mix(AbsorbTail(u, y, keylen))
    ensures t == u ==> x == y
    ensures x == y ==> t == u
  {
    hide Mix, AbsorbTail;
    if t == u {
      TailSeparates(t, x, y, keylen);
    }
    if x == y {
      TailKeeps(t, u, x, keylen);
    }
  }

  /** Equal chars carry different triples to different triples. */
  lemma {:induction false} JenInjective(t: Triple, u: Triple, key: seq<bv8>, keylen: bv32)
    requires Jen(t, key, keylen) == Jen(u, key, keylen)
    ensures t == u
    decreases |key|
  {
    hide Mix, Absorb, AbsorbTail;
    if |key| >= 12 {
      var b := key[..12];
      JenInjective(Mix(Absorb(t, b)), Mix(Absorb(u, b)), key[12..], keylen);
      BlockInjective(t, u, b, b);
    } else {
      TailInjective(t, u, key, key, keylen);
    }
  }

  /** A difference in one block or only in the tail survives to the end. */
  lemma {:induction false} JenSeparates(t: Triple, pre: seq<bv8>, x: seq<bv8>, y: seq<bv8>, post: seq<bv8>, keylen: bv32)
    requires |pre| % 12 == 0 && |x| == |y| && x != y
    requires |x| == 12 || (|x| < 12 && post == [])
    ensures Jen(t, pre + x + post, keylen) != Jen(t, pre + y + post, keylen)
    decreases |pre|
  {
    hide Mix, Absorb, AbsorbTail;
    var k, l := pre + x + post, pre + y + post;
    if |pre| >= 12 {
      assert k[..12] == pre[..12] == l[..12];
      assert k[12..] == pre[12..] + x + post && l[12..] == pre[12..] + y + post;
      JenSeparates(Mix(Absorb(t, pre[..12])), pre[12..], x, y, post, keylen);
    } else if |x| == 12 {
      assert k[..12] == x && k[12..] == post && l[..12] == y && l[12..] == post;
      if Jen(t, k, keylen) == Jen(t, l, keylen) {
        JenInjective(Mix(Absorb(t, x)), Mix(Absorb(t, y)), post, keylen);
        BlockInjective(t, t, x, y);
        assert false;
      }
    } else {
      assert k == x && l == y;
      if Jen(t, k, keylen) == Jen(t, l, keylen) {
        TailInjective(t, t, x, y, keylen);
        assert false;
      }
    }
  }

  /** Keys of the same length that differ in exactly one 12-char block, or only in the tail, end HASH_JEN with different
      triples, however long they are. */
  lemma KeysSeparate(pre: seq<bv8>, x: seq<bv8>, y: seq<bv8>, post: seq<bv8>)
    requires |pre| % 12 == 0 && |x| == |y| && x != y && |pre + x + post| < 0x1_0000_0000
    requires |x| == 12 || (|x| < 12 && post == [])
    ensures JenTriple(pre + x + post) != JenTriple(pre + y + post)
  {
    hide Jen;
    assert KeyLen(pre + x + post) == KeyLen(pre + y + post);
    hide KeyLen;
    JenSeparates(START, pre, x, y, post, KeyLen(pre + x + post));
  }

  // ---------------------------------------------------------------- words as numbers

  function Low(x: bv32): nat {
    if x & 1 != 0 then 1 else 0
  }

  function Half(x: bv32): bv32 { x >> 1 }

  function And(x: bv32, y: bv32): bv32 { x & y }

  /** The number that the lowest n digits of a word stand for. */
  function Digits(x: bv32, n: nat): nat
    decreases n
  {
    if n == 0 then 0 else Low(x) + 2 * Digits(Half(x), n - 1)
  }

  /** The number that a word stands for. */
  function Value(x: bv32): nat {
    Digits(x, 32)
  }

  /** The word of n ones. */
  function Ones(n: nat): bv32 {
    if n == 0 then 0 else ShiftLeft(Ones(n - 1), 1) | 1
  }

  lemma AllOnes(x: bv32)
    ensures And(x, Ones(32)) == x
  {
    assert Ones(8) == 0xff;
    assert Ones(16) == 0xffff;
    assert Ones(24) == 0xffffff;
    assert Ones(32) == 0xffffffff;
  }

  lemma HalfOnes(x: bv32, m: bv32)
    requires And(x, ShiftLeft(m, 1) | 1) == x
    ensures And(Half(x), m) == Half(x)
  {
  }

  lemma HalfOfOnes(x: bv32, n: nat)
    requires n > 0 && And(x, Ones(n)) == x
    ensures And(Half(x), Ones(n - 1)) == Half(x)
  {
    hide And, Half;
    HalfOnes(x, Ones(n - 1));
  }

  lemma NoOnes(x: bv32)
    ensures And(x, Ones(0)) == 0
  {
  }

  lemma SameWord(x: bv32, y: bv32)
    requires Half(x) == Half(y) && Low(x) == Low(y)
    ensures x == y
  {
  }

  lemma LowIsDigit(x: bv32)
    ensures Low(x) <= 1
  {
  }

  lemma {:induction false} DigitsInjective(x: bv32, y: bv32, n: nat)
    requires And(x, Ones(n)) == x && And(y, Ones(n)) == y && Digits(x, n) == Digits(y, n)
    ensures x == y
    decreases n
  {
    hide And, Half, Ones, Low;
    if n == 0 {
      NoOnes(x);
      NoOnes(y);
    } else {
      HalfOfOnes(x, n);
      HalfOfOnes(y, n);
      LowIsDigit(x);
      LowIsDigit(y);
      DigitsInjective(Half(x), Half(y), n - 1);
      SameWord(x, y);
    }
  }

  /** Different words stand for different numbers. */
  lemma ValueInjective(x: bv32, y: bv32)
    requires Value(x) == Value(y)
    ensures x == y
  {
    hide And, Ones, Digits;
    AllOnes(x);
    AllOnes(y);
    DigitsInjective(x, y, 32);
  }

  lemma AndWord(x: bv32, y: bv32)
    ensures Half(And(x, y)) == And(Half(x), Half(y)) && Low(And(x, y)) == Low(x) * Low(y)
  {
  }

  lemma AndOfDigits(a: nat, x: nat, b: nat, y: nat)
    requires a <= 1 && b <= 1
    ensures BitAnd(a + 2 * x, b + 2 * y) == a * b + 2 * BitAnd(x, y)
  {
    assert (a + 2 * x) % 2 == a && (a + 2 * x) / 2 == x;
    assert (b + 2 * y) % 2 == b && (b + 2 * y) / 2 == y;
  }

  /** `&` on words is `&` on the numbers. */
  lemma {:induction false} AndDigits(x: bv32, y: bv32, n: nat)
    ensures Digits(And(x, y), n) == BitAnd(Digits(x, n), Digits(y, n))
    decreases n
  {
    hide And, Half, Low, BitAnd;
    if n == 0 {
      AndOfDigits(0, 0, 0, 0);
    } else {
      AndWord(x, y);
      LowIsDigit(x);
      LowIsDigit(y);
      AndDigits(Half(x), Half(y), n - 1);
      AndOfDigits(Low(x), Digits(Half(x), n - 1), Low(y), Digits(Half(y), n - 1));
    }
  }

  lemma LessOne(x: bv32)
    ensures Low(x) == 1 ==> Half(Sub(x, 1)) == Half(x) && Low(Sub(x, 1)) == 0
    ensures Low(x) == 0 && Half(x) != 0 ==> Half(Sub(x, 1)) == Sub(Half(x), 1) && Low(Sub(x, 1)) == 1
  {
  }

  lemma {:induction false} DigitsOfZero(n: nat)
    ensures Digits(0, n) == 0
  {
    if n > 0 {
      DigitsOfZero(n - 1);
    }
  }

  /** Subtraction of one, when there is something to subtract it from. */
  lemma {:induction false} LessOneDigits(x: bv32, n: nat)
    requires Digits(x, n) > 0
    ensures Digits(Sub(x, 1), n) == Digits(x, n) - 1
    decreases n
  {
    hide Half, Low, Sub;
    LowIsDigit(x);
    LessOne(x);
    if Low(x) == 0 {
      DigitsOfZero(n - 1);
      LessOneDigits(Half(x), n - 1);
    }
  }

  lemma ZeroValue(x: bv32)
    ensures Value(x) == 0 <==> x == 0
  {
    hide Digits;
    DigitsOfZero(32);
    if Value(x) == 0 {
      ValueInjective(x, 0);
    }
  }

  lemma MaskIsAnd(hashv: bv32, numBkts: bv32)
    ensures Mask(hashv, numBkts) == And(hashv, Sub(numBkts, 1))
  {
    calc {
      Mask(hashv, numBkts);
      hashv & (numBkts - 1);
      And(hashv, numBkts - 1);
      And(hashv, Sub(numBkts, 1));
    }
  }

  /** The masked word is the bucket index of the table. */
  lemma MaskIsBkt(hashv: bv32, numBkts: bv32)
    requires numBkts != 0
    ensures Value(numBkts) > 0 && Value(Mask(hashv, numBkts)) == Bkt(Value(hashv), Value(numBkts))
  {
    hide Digits, And, Sub, Mask, BitAnd;
    ZeroValue(numBkts);
    LessOneDigits(numBkts, 32);
    MaskIsAnd(hashv, numBkts);
    AndDigits(hashv, Sub(numBkts, 1), 32);
  }

  lemma NoMask(hashv: bv32)
    ensures Mask(hashv, 0) == hashv
  {
  }

  /** HASH_JEN as a hash function of keys, for keys whose length is an unsigned. */
  function HashFcn(key: seq<bv8>): nat {
    if |key| < 0x1_0000_0000 then Value(JenTriple(key).h) else 0
  }

  // ---------------------------------------------------------------- the loop

  /** Terms added one by one from the highest, as the fall-through switch does, make the same sum. */
  lemma SumDown(w: bv32, x0: bv32, x1: bv32, x2: bv32, x3: bv32)
    ensures Add(Add(Add(Add(w, x3), x2), x1), x0) == Add(w, Add(Add(Add(x0, x1), x2), x3))
  {
    hide Add;
    AddRegroups(Add(Add(w, x3), x2), x1, x0);
    AddCommutes(x1, x0);
    AddRegroups(Add(w, x3), x2, Add(x0, x1));
    AddCommutes(x2, Add(x0, x1));
    AddRegroups(w, x3, Add(Add(x0, x1), x2));
    AddCommutes(x3, Add(Add(x0, x1), x2));
  }

  lemma ZeroTerms(w: bv32)
    ensures Add(w, SignExtend(0)) == w
    ensures Add(w, ShiftLeft(SignExtend(0), 8)) == w
    ensures Add(w, ShiftLeft(SignExtend(0), 16)) == w
    ensures Add(w, ShiftLeft(SignExtend(0), 24)) == w
  {
  }

  /** One run of cases of the switch: adds those of chars n + 3, n + 2, n + 1 (and n, if `low`) that the key still has. */
  method AddChars(w: bv32, rest: seq<bv8>, n: nat, low: bool) returns (r: bv32)
    ensures r == Add(w, Word(if low then Char(rest, n) else 0, Char(rest, n + 1), Char(rest, n + 2), Char(rest, n + 3)))
  {
    hide Add, SignExtend, ShiftLeft;
    ghost var x0 := SignExtend(if low then Char(rest, n) else 0);
    ghost var x1 := ShiftLeft(SignExtend(Char(rest, n + 1)), 8);
    ghost var x2 := ShiftLeft(SignExtend(Char(rest, n + 2)), 16);
    ghost var x3 := ShiftLeft(SignExtend(Char(rest, n + 3)), 24);
    SumDown(w, x0, x1, x2, x3);
    r := w;
    ZeroTerms(r);
    if |rest| > n + 3 {
      r := Add(r, ShiftLeft(SignExtend(rest[n + 3]), 24));
    }
    assert r == Add(w, x3);
    ZeroTerms(r);
    if |rest| > n + 2 {
      r := Add(r, ShiftLeft(SignExtend(rest[n + 2]), 16));
    }
    ZeroTerms(r);
    if |rest| > n + 1 {
      r := Add(r, ShiftLeft(SignExtend(rest[n + 1]), 8));
    }
    ZeroTerms(r);
    if low && |rest| > n {
      r := Add(r, SignExtend(rest[n]));
    }
  }

  /** HASH_JEN. */
  method HashJen(key: seq<bv8>, numBkts: bv32) returns (hashv: bv32, bkt: bv32)
    requires |key| < 0x1_0000_0000
    ensures hashv == JenTriple(key).h && Value(hashv) == HashFcn(key)
    ensures if numBkts == 0 then bkt == hashv else Value(numBkts) > 0 && Value(bkt) == Bkt(HashFcn(key), Value(numBkts))
  {
    hide Mix, Word, Add, Mask, KeyLen, Value, Bkt;
    hashv := 0xfeedbeef;
    var i: bv32, j: bv32 := 0x9e3779b9, 0x9e3779b9;
    var keylen := KeyLen(key);
    var at: nat, k: nat := 0, |key|;
    while k >= 12
      invariant at + k == |key|
      invariant Jen(Triple(i, j, hashv), key[at..], keylen) == JenTriple(key)
    {
      ghost var t, block := Triple(i, j, hashv), key[at..][..12];
      i := Add(i, Word(key[at], key[at + 1], key[at + 2], key[at + 3]));
      j := Add(j, Word(key[at + 4], key[at + 5], key[at + 6], key[at + 7]));
      hashv := Add(hashv, Word(key[at + 8], key[at + 9], key[at + 10], key[at + 11]));
      assert Triple(i, j, hashv) == Absorb(t, block);
      var m := Mix(Triple(i, j, hashv));
      i, j, hashv := m.i, m.j, m.h;
      assert key[at..][12..] == key[at + 12..];
      at, k := at + 12, k - 12;
    }
    ghost var t := Triple(i, j, hashv);
    var rest := key[at..];
    hashv := Add(hashv, keylen);
    hashv := AddChars(hashv, rest, 7, false);
    j := AddChars(j, rest, 4, true);
    i := AddChars(i, rest, 0, true);
    assert Triple(i, j, hashv) == AbsorbTail(t, rest, keylen);
    var m := Mix(Triple(i, j, hashv));
    hashv := m.h;
    bkt := Mask(hashv, numBkts);
    if numBkts == 0 {
      NoMask(hashv);
    } else {
      MaskIsBkt(hashv, numBkts);
    }
  }
}
