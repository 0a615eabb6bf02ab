/** HASH_JEN on numbers: what its operations on words are, what the mixer computes, and the hash values of some keys. */
module JenkinsNumbers {
  import opened Bits
  import opened Jenkins

  const WORDS: nat := 0x1_0000_0000

  // ---------------------------------------------------------------- exclusive or

  lemma XorWord(x: bv32, y: bv32)
    ensures Half(Xor(x, y)) == Xor(Half(x), Half(y)) && Low(Xor(x, y)) == if Low(x) != Low(y) then 1 else 0
  {
  }

  lemma XorOfDigits(a: nat, x: nat, b: nat, y: nat)
    requires a <= 1 && b <= 1
    ensures BitXor(a + 2 * x, b + 2 * y) == (if a != b then 1 else 0) + 2 * BitXor(x, y)
  {
    assert (a + 2 * x) % 2 == a && (a + 2 * x) / 2 == x;
    assert (b + 2 * y) % 2 == b && (b + 2 * y) / 2 == y;
  }

  lemma {:induction false} XorDigits(x: bv32, y: bv32, n: nat)
    ensures Digits(Xor(x, y), n) == BitXor(Digits(x, n), Digits(y, n))
    decreases n
  {
    hide Xor, Half, Low, BitXor;
    if n == 0 {
      XorOfDigits(0, 0, 0, 0);
    } else {
      XorWord(x, y);
      LowIsDigit(x);
      LowIsDigit(y);
      XorDigits(Half(x), Half(y), n - 1);
      XorOfDigits(Low(x), Digits(Half(x), n - 1), Low(y), Digits(Half(y), n - 1));
    }
  }

  // ---------------------------------------------------------------- addition and subtraction

  lemma {:induction false} DigitsBound(x: bv32, n: nat)
    ensures Digits(x, n) < Pow2(n)
    decreases n
  {
    hide Low, Half;
    if n > 0 {
      LowIsDigit(x);
      DigitsBound(Half(x), n - 1);
    }
  }

  lemma ManyWords()
    ensures Pow2(32) == WORDS
  {
    assert Pow2(8) == 0x100;
    assert Pow2(16) == 0x1_0000;
    assert Pow2(24) == 0x100_0000;
  }

  lemma ValueBound(x: bv32)
    ensures Value(x) < WORDS
  {
    hide Digits, Pow2;
    ManyWords();
    DigitsBound(x, 32);
  }

  /** The largest word stands for the largest number. */
  lemma LargestValue()
    ensures Value(0xffffffff) == WORDS - 1
  {
    assert Digits(0xf, 4) == 0xf;
    assert Digits(0xff, 8) == 0xff;
    assert Digits(0xfff, 12) == 0xfff;
    assert Digits(0xffff, 16) == 0xffff;
    assert Digits(0xfffff, 20) == 0xfffff;
    assert Digits(0xffffff, 24) == 0xffffff;
    assert Digits(0xfffffff, 28) == 0xfffffff;
  }

  lemma Succ(x: bv32)
    ensures Sub(Add(x, 1), 1) == x && (Add(x, 1) == 0 <==> x == 0xffffffff)
  {
  }

  lemma SuccValue(x: bv32)
    ensures Value(Add(x, 1)) == (Value(x) + 1) % WORDS
  {
    hide Digits, Add, Sub;
    Succ(x);
    ValueBound(x);
    ValueBound(Add(x, 1));
    ZeroValue(Add(x, 1));
    if Add(x, 1) == 0 {
      LargestValue();
    } else {
      LessOneDigits(Add(x, 1), 32);
    }
  }

  lemma MoveOne(x: bv32, y: bv32)
    ensures Add(x, y) == Add(Add(x, 1), Sub(y, 1)) && Add(x, 0) == x
  {
    calc {
      Add(Add(x, 1), Sub(y, 1));
      Add(x + 1, y - 1);
      (x + 1) + (y - 1);
      x + y;
      Add(x, y);
    }
  }

  lemma CarryOne(v: nat, w: nat)
    requires v < WORDS && 0 < w < WORDS
    ensures ((v + 1) % WORDS + (w - 1)) % WORDS == (v + w) % WORDS
  {
  }

  /** Addition of words is addition modulo 2^32. */
  lemma {:induction false} AddValue(x: bv32, y: bv32)
    ensures Value(Add(x, y)) == (Value(x) + Value(y)) % WORDS
    decreases Value(y)
  {
    hide Digits, Add, Sub;
    MoveOne(x, y);
    ZeroValue(y);
    ValueBound(x);
    ValueBound(y);
    if y != 0 {
      LessOneDigits(y, 32);
      SuccValue(x);
      AddValue(Add(x, 1), Sub(y, 1));
      CarryOne(Value(x), Value(y));
    }
  }

  /** The difference of unsigned numbers of 32 bits. */
  function Minus(x: nat, y: nat): nat {
    (x - y) % 0x1_0000_0000
  }

  lemma SubValue(x: bv32, y: bv32)
    ensures Value(Sub(x, y)) == Minus(Value(x), Value(y))
  {
    hide Digits, Add, Sub;
    AddOfSub(x, y);
    AddValue(Sub(x, y), y);
    ValueBound(Sub(x, y));
    ValueBound(x);
    ValueBound(y);
  }

  // ---------------------------------------------------------------- shifts

  lemma {:induction false} DigitsShort(x: bv32, n: nat)
    requires And(x, Ones(n)) == x
    ensures Digits(x, n + 1) == Digits(x, n)
    decreases n
  {
    hide And, Half, Ones, Low;
    if n == 0 {
      NoOnes(x);
      DigitsOfZero(1);
    } else {
      HalfOfOnes(x, n);
      DigitsShort(Half(x), n - 1);
    }
  }

  lemma LastDigit(x: bv32, n: nat)
    requires n > 0
    ensures Digits(x, n) == Low(x) + 2 * Digits(Half(x), n - 1)
  {
  }

  lemma HalfValue(x: bv32)
    ensures Value(Half(x)) == Value(x) / 2
  {
    hide And, Half, Ones, Low, Digits;
    AllOnes(x);
    HalfOfOnes(x, 32);
    DigitsShort(Half(x), 31);
    LowIsDigit(x);
    LastDigit(x, 32);
  }

  function HalfTimes(x: bv32, k: nat): bv32
    decreases k
  {
    if k == 0 then x else HalfTimes(Half(x), k - 1)
  }

  lemma {:induction false} HalfTimesValue(x: bv32, k: nat)
    ensures Value(HalfTimes(x, k)) == Shr(Value(x), k)
    decreases k
  {
    hide Half, Digits;
    if k > 0 {
      HalfValue(x);
      HalfTimesValue(Half(x), k - 1);
    }
  }

  function DoubleTimes(x: bv32, k: nat): bv32 {
    if k == 0 then x else ShiftLeft(DoubleTimes(x, k - 1), 1)
  }

  lemma Twice(x: bv32)
    ensures ShiftLeft(x, 1) == Add(x, x)
  {
  }

  lemma TwiceMod(a: nat)
    ensures (a % WORDS + a % WORDS) % WORDS == (2 * a) % WORDS
  {
  }

  lemma PowerZero()
    ensures Pow2(0) == 1
  {
  }

  lemma PowerStep(v: nat, k: nat)
    ensures v * Pow2(k + 1) == 2 * (v * Pow2(k))
  {
    assert Pow2(k + 1) == 2 * Pow2(k);
    DoubleMul(v, Pow2(k));
  }

  lemma {:induction false} DoubleTimesValue(x: bv32, k: nat)
    ensures Value(DoubleTimes(x, k)) == (Value(x) * Pow2(k)) % WORDS
  {
    hide Digits, ShiftLeft, Add, Pow2;
    ValueBound(x);
    if k == 0 {
      PowerZero();
    } else {
      var y := DoubleTimes(x, k - 1);
      DoubleTimesValue(x, k - 1);
      Twice(y);
      AddValue(y, y);
      TwiceMod(Value(x) * Pow2(k - 1));
      PowerStep(Value(x), k - 1);
    }
  }

  /** A shift amount as the operators take it. */
  function Amount(k: nat): bv6 {
    if k == 0 then 0 else Amount(k - 1) + 1
  }

  lemma OneMore(k: bv6, n: nat)
    requires k as nat == n && n < 31
    ensures (k + 1) as nat == n + 1 && k < 31
  {
  }

  lemma {:induction false} AmountIs(k: nat)
    requires k <= 31
    ensures Amount(k) as nat == k && Amount(k) < 32
  {
    if k > 0 {
      AmountIs(k - 1);
      OneMore(Amount(k - 1), k - 1);
    }
  }

  lemma AmountStep(k: nat)
    requires 0 < k <= 31
    ensures Amount(k) == Amount(k - 1) + 1 && Amount(k - 1) < 31
  {
    AmountIs(k - 1);
    OneMore(Amount(k - 1), k - 1);
  }

  lemma RightStep(x: bv32, k: bv6)
    requires k < 31
    ensures ShiftRight(Half(x), k) == ShiftRight(x, k + 1)
  {
    calc {
      ShiftRight(Half(x), k);
      (x >> 1) >> k;
      x >> (k + 1);
      ShiftRight(x, k + 1);
    }
  }

  lemma LeftStep(x: bv32, k: bv6)
    requires k < 31
    ensures ShiftLeft(ShiftLeft(x, k), 1) == ShiftLeft(x, k + 1)
  {
    calc {
      ShiftLeft(ShiftLeft(x, k), 1);
      (x << k) << 1;
      x << (k + 1);
      ShiftLeft(x, k + 1);
    }
  }

  lemma NoShift(x: bv32)
    ensures ShiftRight(x, 0) == x && ShiftLeft(x, 0) == x
  {
  }

  lemma {:induction false} RightSteps(x: bv32, k: nat)
    requires k <= 31
    ensures Amount(k) < 32 && HalfTimes(x, k) == ShiftRight(x, Amount(k))
    decreases k
  {
    hide Half, ShiftRight;
    NoShift(x);
    if k > 0 {
      AmountStep(k);
      RightSteps(Half(x), k - 1);
      RightStep(x, Amount(k - 1));
    }
  }

  lemma {:induction false} LeftSteps(x: bv32, k: nat)
    requires k <= 31
    ensures Amount(k) < 32 && DoubleTimes(x, k) == ShiftLeft(x, Amount(k))
    decreases k
  {
    hide ShiftLeft;
    NoShift(x);
    if k > 0 {
      AmountStep(k);
      LeftSteps(x, k - 1);
      LeftStep(x, Amount(k - 1));
    }
  }

  function Up(v: nat, k: nat): nat {
    (v * Pow2(k)) % WORDS
  }

  /** A shift to the right divides. */
  lemma RightValue(x: bv32, k: nat)
    requires k <= 31
    ensures Amount(k) < 32 && Value(ShiftRight(x, Amount(k))) == Shr(Value(x), k)
  {
    hide Digits, ShiftRight, Amount, Shr;
    RightSteps(x, k);
    HalfTimesValue(x, k);
  }

  /** A shift to the left multiplies, modulo 2^32. */
  lemma LeftValue(x: bv32, k: nat)
    requires k <= 31
    ensures Amount(k) < 32 && Value(ShiftLeft(x, Amount(k))) == Up(Value(x), k)
  {
    hide Digits, ShiftLeft, Pow2, Amount;
    LeftSteps(x, k);
    DoubleTimesValue(x, k);
  }

  // ---------------------------------------------------------------- the mixer

  lemma LineValue(x: bv32, y: bv32, z: bv32, w: bv32)
    ensures Value(Line(x, y, z, w)) == BitXor(Minus(Minus(Value(x), Value(y)), Value(z)), Value(w))
  {
    hide Digits, Sub, Xor;
    SubValue(x, y);
    SubValue(Sub(x, y), z);
    XorDigits(Sub(Sub(x, y), z), w, 32);
  }

  lemma RoundValue(t: Triple, right: nat, left: nat, last: nat)
    requires right <= 31 && left <= 31 && last <= 31
    ensures Amount(right) < 32 && Amount(left) < 32 && Amount(last) < 32
    ensures var a, b, c := Value(t.i), Value(t.j), Value(t.h);
            var a1 := BitXor(Minus(Minus(a, b), c), Shr(c, right));
            var b1 := BitXor(Minus(Minus(b, c), a1), Up(a1, left));
            var c1 := BitXor(Minus(Minus(c, a1), b1), Shr(b1, last));
            var r := Round(t, Amount(right), Amount(left), Amount(last));
            Value(r.i) == a1 && Value(r.j) == b1 && Value(r.h) == c1
  {
    hide Value, Line, ShiftRight, ShiftLeft, BitXor, Minus, Amount, Shr, Up;
    RightValue(t.h, right);
    LeftValue(t.i, left);
    RightValue(t.j, last);
    var r := Round(t, Amount(right), Amount(left), Amount(last));
    LineValue(t.i, t.j, t.h, ShiftRight(t.h, Amount(right)));
    LeftValue(r.i, left);
    LineValue(t.j, t.h, r.i, ShiftLeft(r.i, Amount(left)));
    RightValue(r.j, last);
    LineValue(t.h, r.i, r.j, ShiftRight(r.j, Amount(last)));
  }

  lemma Powers()
    ensures Pow2(3) == 8 && Pow2(5) == 32 && Pow2(8) == 256 && Pow2(10) == 1024
    ensures Pow2(12) == 4096 && Pow2(13) == 8192 && Pow2(15) == 32768 && Pow2(16) == 65536
  {
    assert Pow2(5) == 32 && Pow2(10) == 1024;
  }

  lemma Amounts()
    ensures Amount(3) == 3 && Amount(5) == 5 && Amount(8) == 8 && Amount(10) == 10
    ensures Amount(12) == 12 && Amount(13) == 13 && Amount(15) == 15 && Amount(16) == 16
  {
    assert Amount(5) == 5 && Amount(10) == 10;
  }

  /** HASH_JEN_MIX on the numbers that its words stand for: its nine lines, each two differences modulo 2^32 and an
      exclusive or with a neighbour shifted by 13, 8, 13, 12, 16, 5, 3, 10, 15 digits. */
  lemma MixOnNumbers(t: Triple)
    ensures var a, b, c := Value(t.i), Value(t.j), Value(t.h);
            var a1 := BitXor(Minus(Minus(a, b), c), c / 8192);
            var b1 := BitXor(Minus(Minus(b, c), a1), (a1 * 256) % 0x1_0000_0000);
            var c1 := BitXor(Minus(Minus(c, a1), b1), b1 / 8192);
            var a2 := BitXor(Minus(Minus(a1, b1), c1), c1 / 4096);
            var b2 := BitXor(Minus(Minus(b1, c1), a2), (a2 * 65536) % 0x1_0000_0000);
            var c2 := BitXor(Minus(Minus(c1, a2), b2), b2 / 32);
            var a3 := BitXor(Minus(Minus(a2, b2), c2), c2 / 8);
            var b3 := BitXor(Minus(Minus(b2, c2), a3), (a3 * 1024) % 0x1_0000_0000);
            var c3 := BitXor(Minus(Minus(c2, a3), b3), b3 / 32768);
            Value(Mix(t).i) == a3 && Value(Mix(t).j) == b3 && Value(Mix(t).h) == c3
  {
    hide Value, Round, BitXor, Minus, Pow2, Amount, Shr;
    Powers();
    Amounts();
    var r := Round(t, 13, 8, 13);
    var s := Round(r, 12, 16, 5);
    var u := Round(s, 3, 10, 15);
    RoundValue(t, 13, 8, 13);
    RoundValue(r, 12, 16, 5);
    RoundValue(s, 3, 10, 15);
    ShiftIsDiv(Value(t.h), 13);
    ShiftIsDiv(Value(r.j), 13);
    ShiftIsDiv(Value(r.h), 12);
    ShiftIsDiv(Value(s.j), 5);
    ShiftIsDiv(Value(s.h), 3);
    ShiftIsDiv(Value(u.j), 15);
  }

  // ---------------------------------------------------------------- some keys

  lemma MixEmpty()
    ensures Mix(Triple(0x9e3779b9, 0x9e3779b9, 0xfeedbeef)) == Triple(0x97bc015d, 0x89587730, 0x0ee1c8aa)
  {
    assert Round(Triple(0x9e3779b9, 0x9e3779b9, 0xfeedbeef), 13, 8, 13) == Triple(0x0115b67c, 0x8b82784e, 0x7251cc36);
    assert Round(Triple(0x0115b67c, 0x8b82784e, 0x7251cc36), 12, 16, 5) == Triple(0x034654e4, 0x410e5734, 0x2ff552a7);
    assert Round(Triple(0x034654e4, 0x410e5734, 0x2ff552a7), 3, 10, 15) == Triple(0x97bc015d, 0x89587730, 0x0ee1c8aa);
  }

  lemma MixA()
    ensures Mix(Triple(0x9e3779fa, 0x9e3779b9, 0xfeedbef0)) == Triple(0x8341d027, 0x95f9f26f, 0x9250fd39)
  {
    assert Round(Triple(0x9e3779fa, 0x9e3779b9, 0xfeedbef0), 13, 8, 13) == Triple(0x0115b63c, 0x8b82388d, 0x72518c36);
    assert Round(Triple(0x0115b63c, 0x8b82388d, 0x72518c36), 12, 16, 5) == Triple(0x0346d461, 0xc188d7f6, 0xab8d9960);
    assert Round(Triple(0x0346d461, 0xc188d7f6, 0xab8d9960), 3, 10, 15) == Triple(0x8341d027, 0x95f9f26f, 0x9250fd39);
  }

  lemma MixBlock()
    ensures Mix(Triple(0x91296aa9, 0x952d6ead, 0xf9e7b7e7)) == Triple(0xb60ee7e4, 0x4ef4b80d, 0x978f6694)
  {
    assert Round(Triple(0x91296aa9, 0x952d6ead, 0xf9e7b7e7), 13, 8, 13) == Triple(0x02138b28, 0x8ab9039e, 0x6d1f7ce9);
    assert Round(Triple(0x02138b28, 0x8ab9039e, 0x6d1f7ce9), 12, 16, 5) == Triple(0x0a3ddb56, 0xc80dab5f, 0x9c939b6e);
    assert Round(Triple(0x0a3ddb56, 0xc80dab5f, 0x9c939b6e), 3, 10, 15) == Triple(0xb60ee7e4, 0x4ef4b80d, 0x978f6694);
  }

  lemma MixLast()
    ensures Mix(Triple(0xb60ee7e0, 0x4ef4b80d, 0x978f66a1)) == Triple(0xaa9973a8, 0x2b5bf54d, 0x597c7043)
  {
    assert Round(Triple(0xb60ee7e0, 0x4ef4b80d, 0x978f66a1), 13, 8, 13) == Triple(0xcf8e7549, 0x69a39523, 0x5e5e1129);
    assert Round(Triple(0xcf8e7549, 0x69a39523, 0x5e5e1129), 12, 16, 5) == Triple(0x07892b1c, 0x28a058de, 0x2f718fe9);
    assert Round(Triple(0x07892b1c, 0x28a058de, 0x2f718fe9), 3, 10, 15) == Triple(0xaa9973a8, 0x2b5bf54d, 0x597c7043);
  }

  lemma EmptyKey()
    ensures JenTriple([]).h == 0x0ee1c8aa
  {
    MixEmpty();
    hide Mix;
    assert KeyLen([]) == 0;
    assert AbsorbTail(START, [], 0) == Triple(0x9e3779b9, 0x9e3779b9, 0xfeedbeef);
  }

  lemma KeyA()
    ensures JenTriple([0x41]).h == 0x9250fd39
  {
    MixA();
    hide Mix;
    assert KeyLen([0x41]) == 1;
    assert AbsorbTail(START, [0x41], 1) == Triple(0x9e3779fa, 0x9e3779b9, 0xfeedbef0);
  }

  lemma MixEleven()
    ensures Mix(Triple(0xa23a7bba, 0xa63e7fbe, 0x09f7c7fa)) == Triple(0x508d6dc2, 0x801fd2ab, 0xf52092fc)
  {
    assert Round(Triple(0xa23a7bba, 0xa63e7fbe, 0x09f7c7fa), 13, 8, 13) == Triple(0xf2047bbc, 0xae398008, 0x69bcbdfa);
    assert Round(Triple(0xf2047bbc, 0xae398008, 0x69bcbdfa), 12, 16, 5) == Triple(0xda08a671, 0xcc051b9d, 0xc5ced330);
    assert Round(Triple(0xda08a671, 0xcc051b9d, 0xc5ced330), 3, 10, 15) == Triple(0x508d6dc2, 0x801fd2ab, 0xf52092fc);
  }

  lemma ElevenChars()
    ensures JenTriple([1, 2, 3, 4, 5, 6, 7, 8, 9, 10, 11]).h == 0xf52092fc
  {
    MixEleven();
    hide Mix;
    var key: seq<bv8> := [1, 2, 3, 4, 5, 6, 7, 8, 9, 10, 11];
    assert KeyLen(key) == 11;
    assert AbsorbTail(START, key, 11) == Triple(0xa23a7bba, 0xa63e7fbe, 0x09f7c7fa);
  }

  lemma LongBlock(block: seq<bv8>)
    requires block == [0xf0, 0xf1, 0xf2, 0xf3, 0xf4, 0xf5, 0xf6, 0xf7, 0xf8, 0xf9, 0xfa, 0xfb]
    ensures Mix(Absorb(START, block)) == Triple(0xb60ee7e4, 0x4ef4b80d, 0x978f6694)
  {
    MixBlock();
    hide Mix;
  }

  lemma LongTail()
    ensures Mix(AbsorbTail(Triple(0xb60ee7e4, 0x4ef4b80d, 0x978f6694), [0xfc], 13)).h == 0x597c7043
  {
    MixLast();
    hide Mix;
  }

  lemma LongKey()
    ensures JenTriple([0xf0, 0xf1, 0xf2, 0xf3, 0xf4, 0xf5, 0xf6, 0xf7, 0xf8, 0xf9, 0xfa, 0xfb, 0xfc]).h == 0x597c7043
  {
    hide Mix, Absorb, AbsorbTail;
    var key: seq<bv8> := [0xf0, 0xf1, 0xf2, 0xf3, 0xf4, 0xf5, 0xf6, 0xf7, 0xf8, 0xf9, 0xfa, 0xfb, 0xfc];
    var block: seq<bv8> := [0xf0, 0xf1, 0xf2, 0xf3, 0xf4, 0xf5, 0xf6, 0xf7, 0xf8, 0xf9, 0xfa, 0xfb];
    assert KeyLen(key) == 13 && key[..12] == block && key[12..] == [0xfc];
    LongBlock(block);
    LongTail();
  }

  /** The hash values of the empty key, of the key "A", of the longest key without a block, and of a key of one block and a
      tail with all of its chars negative: they fix the start words, the byte order, the sign extension and the place of
      the key length. */
  lemma KnownHashes()
    ensures JenTriple([]).h == 0x0ee1c8aa
    ensures JenTriple([0x41]).h == 0x9250fd39
    ensures JenTriple([1, 2, 3, 4, 5, 6, 7, 8, 9, 10, 11]).h == 0xf52092fc
    ensures JenTriple([0xf0, 0xf1, 0xf2, 0xf3, 0xf4, 0xf5, 0xf6, 0xf7, 0xf8, 0xf9, 0xfa, 0xfb, 0xfc]).h == 0x597c7043
  {
    EmptyKey();
    KeyA();
    ElevenChars();
    LongKey();
  }
}
