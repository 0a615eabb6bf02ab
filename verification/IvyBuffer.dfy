/** make_message of ivybuffer.c: formatted text appended to a buffer that grows until it fits. */
module IvyBuffer {
  import opened Basics
  import opened Bits

  const IVY_BUFFER_SIZE: nat := 4096

  /** What the formatter returns for text that does not fit: its length (ISO C99), or -1 (older libraries). One of the
      latter also writes text that fits without its terminator, and returns its length. */
  datatype Convention = C99 | MinusOne | MinusOneUnterminated

  /** What vsnprintf leaves in the `room` bytes it is given. */
  function Written(was: Bytes, text: Bytes, conv: Convention): (r: Bytes)
    ensures |r| == |was|
    ensures |text| < |was| ==> r[..|text|] == text && r[|text|] == 0
  {
    var room := |was|;
    if |text| < room then text + [0] + was[|text| + 1..]
    else if room == 0 then was
    else if conv == MinusOneUnterminated then text[..room]
    else text[..room - 1] + [0]
  }

  /** What vsnprintf returns. */
  function Returned(room: nat, text: Bytes, conv: Convention): int {
    if |text| < room || conv == C99 || (conv == MinusOneUnterminated && |text| == room) then |text| else -1
  }

  /** The buffer size that a message of n bytes behind `base` bytes ends with, from a buffer of `size` bytes. */
  function FinalSize(size: nat, base: nat, n: nat, conv: Convention): (s: nat)
    requires 0 < size && base <= size
    ensures s > base + n && s >= size
    decreases base + n + 1 - size
  {
    if n < size - base then size
    else if conv == C99 || (conv == MinusOneUnterminated && n == size - base) then base + n + 1
    else FinalSize(2 * size, base, n, conv)
  }

  /** The number of calls of vsnprintf. */
  function Attempts(size: nat, base: nat, n: nat, conv: Convention): nat
    requires 0 < size && base <= size
    decreases base + n + 1 - size
  {
    if n < size - base then 1
    else if conv == C99 || (conv == MinusOneUnterminated && n == size - base) then 2
    else 1 + Attempts(2 * size, base, n, conv)
  }

  lemma OneRetry(size: nat, base: nat, n: nat, conv: Convention)
    requires 0 < size && base <= size && n >= size - base
    ensures var direct := conv == C99 || (conv == MinusOneUnterminated && n == size - base);
            && FinalSize(size, base, n, conv) == (if direct then base + n + 1 else FinalSize(2 * size, base, n, conv))
            && Attempts(size, base, n, conv) == if direct then 2 else 1 + Attempts(2 * size, base, n, conv)
  {
  }

  lemma FirstTry(size: nat, base: nat, n: nat, conv: Convention)
    requires 0 < size && base <= size
    ensures Attempts(size, base, n, conv) >= 1
    ensures n < size - base ==> FinalSize(size, base, n, conv) == size && Attempts(size, base, n, conv) == 1
  {
  }

  function Doubled(size: nat, times: nat): nat
    decreases times
  {
    if times == 0 then size else Doubled(2 * size, times - 1)
  }

  /** Doubling k times is multiplication by 2^k. */
  lemma {:induction false} DoubledIs(size: nat, k: nat)
    ensures Doubled(size, k) == Pow2(k) * size
    decreases k
  {
    if k > 0 {
      DoubledIs(2 * size, k - 1);
      DoubleMul(size, Pow2(k - 1));
    }
  }

  lemma {:induction false} GrowthSteps(size: nat, base: nat, n: nat, conv: Convention)
    requires 0 < size && base <= size
    ensures var s, a := FinalSize(size, base, n, conv), Attempts(size, base, n, conv);
            && a >= 1
            && (conv == C99 ==> if n < size - base then a == 1 && s == size else a == 2 && s == base + n + 1)
            && (conv == MinusOne ==> s == Doubled(size, a - 1) && (a == 1 || Doubled(size, a - 2) <= base + n))
            && (conv == MinusOneUnterminated ==>
                  || (s == Doubled(size, a - 1) && (a == 1 || Doubled(size, a - 2) < base + n))
                  || (a >= 2 && Doubled(size, a - 2) == base + n && s == base + n + 1))
            && (s == size || s <= 2 * (base + n) || s == base + n + 1)
    decreases base + n + 1 - size
  {
    hide FinalSize, Attempts;
    FirstTry(size, base, n, conv);
    if n >= size - base {
      OneRetry(size, base, n, conv);
      if !(conv == C99 || (conv == MinusOneUnterminated && n == size - base)) {
        GrowthSteps(2 * size, base, n, conv);
      }
    }
  }

  /** With C99, one call or two, and the buffer keeps its size or ends with just what is needed. With -1, every call but the
      first doubles it, and not more often than needed. With -1 and no terminator the same, unless a buffer is exactly
      filled: then it ends with one byte more. In any case it ends with its old size or at most twice the need. */
  lemma GrowthBounds(size: nat, base: nat, n: nat, conv: Convention)
    requires 0 < size && base <= size
    ensures var s, a := FinalSize(size, base, n, conv), Attempts(size, base, n, conv);
            && a >= 1
            && (conv == C99 ==> if n < size - base then a == 1 && s == size else a == 2 && s == base + n + 1)
            && (conv == MinusOne ==> s == Pow2(a - 1) * size && (a == 1 || Pow2(a - 2) * size <= base + n))
            && (conv == MinusOneUnterminated ==>
                  || (s == Pow2(a - 1) * size && (a == 1 || Pow2(a - 2) * size < base + n))
                  || (a >= 2 && Pow2(a - 2) * size == base + n && s == base + n + 1))
            && (s == size || s <= 2 * (base + n) || s == base + n + 1)
  {
    hide FinalSize, Attempts, Doubled, Pow2;
    GrowthSteps(size, base, n, conv);
    var a := Attempts(size, base, n, conv);
    DoubledIs(size, a - 1);
    if a >= 2 {
      DoubledIs(size, a - 2);
    }
  }

  lemma Fits(size: nat, base: nat, text: Bytes, conv: Convention)
    requires 0 < size && base <= size
    ensures var r := Returned(size - base, text, conv);
            r > -1 && r < size - base ==>
              r == |text| && FinalSize(size, base, |text|, conv) == size && Attempts(size, base, |text|, conv) == 1
  {
  }

  /** The retry is with a bigger buffer, on the way to the final size. */
  lemma Regrown(size: nat, base: nat, text: Bytes, conv: Convention)
    requires 0 < size && base <= size
    ensures var r := Returned(size - base, text, conv);
            var s := if r > -1 then base + r + 1 else size * 2;
            !(r > -1 && r < size - base) ==>
              && s > size && size <= base + |text|
              && FinalSize(s, base, |text|, conv) == FinalSize(size, base, |text|, conv)
              && 1 + Attempts(s, base, |text|, conv) == Attempts(size, base, |text|, conv)
  {
  }

  lemma Appended(before: Bytes, was: Bytes, text: Bytes, all: Bytes, conv: Convention)
    requires all == before + Written(was, text, conv)
    ensures |all| == |before| + |was| && all[..|before|] == before
    ensures |text| < |was| ==> all[..|before| + |text|] == before + text && all[|before| + |text|] == 0
  {
    if |text| < |was| {
      assert all[..|before| + |text|] == before + Written(was, text, conv)[..|text|];
    }
  }

  class IvyBuffer {
    var data: array?<bv8>
    var size: nat
    var offset: nat

    /** Nothing allocated yet, or an allocation of the recorded size. */
    ghost predicate Valid()
      reads this
    {
      size == 0 || data == null || (data.Length == size && offset <= size)
    }

    /** The text accumulated so far. */
    ghost function Text(): Bytes
      reads this, data
      requires Valid()
    {
      if size == 0 || data == null then [] else data[..offset]
    }

    constructor ()
      ensures Valid() && Text() == [] && size == 0
    {
      data, size, offset := null, 0, 0;
    }

    /** vsnprintf of `text` at the offset. */
    method Vsnprintf(text: Bytes, conv: Convention) returns (n: int)
      requires data != null && data.Length == size && offset <= size
      modifies data
      ensures n == Returned(size - offset, text, conv)
      ensures data[..] == old(data[..offset]) + Written(old(data[offset..]), text, conv)
    {
      var all := data[..offset] + Written(data[offset..], text, conv);
      forall k | 0 <= k < data.Length {
        data[k] := all[k];
      }
      n := Returned(size - offset, text, conv);
    }

    /** realloc: the bytes up to the smaller size survive. */
    method Realloc(newSize: nat)
      requires data != null && data.Length == size <= newSize
      modifies `data, `size
      ensures data != null && fresh(data) && data.Length == size == newSize
      ensures data[..old(size)] == old(data[..])
    {
      var d := new bv8[newSize];
      forall k | 0 <= k < data.Length {
        d[k] := data[k];
      }
      assert d[..data.Length] == data[..];
      data, size := d, newSize;
    }

    /** One round of the loop: print; if it did not fit, get a bigger buffer. */
    method Try(text: Bytes, conv: Convention, ghost before: Bytes) returns (r: int, done: bool)
      requires data != null && data.Length == size > 0 && offset <= size && data[..offset] == before
      modifies this, data
      ensures data != null && (data == old(data) || fresh(data)) && data.Length == size && old(offset) <= size
      ensures data[..old(offset)] == before
      ensures done ==> r == |text| && offset == old(offset) + |text| < size == old(size)
      ensures done ==> data[..offset] == before + text && data[offset] == 0
      ensures done ==> size == FinalSize(old(size), old(offset), |text|, conv)
      ensures done ==> 1 == Attempts(old(size), old(offset), |text|, conv)
      ensures !done ==> offset == old(offset) && old(size) < size && old(size) <= offset + |text|
      ensures !done ==> FinalSize(size, offset, |text|, conv) == FinalSize(old(size), offset, |text|, conv)
      ensures !done ==> 1 + Attempts(size, offset, |text|, conv) == Attempts(old(size), offset, |text|, conv)
    {
      hide Written, Returned, FinalSize, Attempts;
      ghost var was := data[offset..];
      Fits(size, offset, text, conv);
      Regrown(size, offset, text, conv);
      r := Vsnprintf(text, conv);
      Appended(before, was, text, data[..], conv);
      assert data[..offset] == data[..][..offset];
      done := r > -1 && r < size - offset;
      if done {
        offset := offset + r;
        assert data[..offset] == data[..][..offset];
      } else {
        ghost var held := data[..];
        Realloc(if r > -1 then offset + r + 1 else size * 2);
        assert data[..offset] == held[..offset];
      }
    }

    /** make_message: the text comes after what was there, once, with a terminator behind it. */
    method MakeMessage(text: Bytes, conv: Convention) returns (n: nat, ghost calls: nat)
      requires Valid()
      modifies this, data
      ensures Valid() && n == |text| && Text() == old(Text()) + text
      ensures data != null && data.Length == size && offset == |Text()| < size && data[offset] == 0
      ensures var start := if old(size == 0 || data == null) then 4096 else old(size);
              && size == FinalSize(start, |old(Text())|, |text|, conv)
              && calls == Attempts(start, |old(Text())|, |text|, conv)
    {
      hide Written, Returned, FinalSize, Attempts;
      if size == 0 || data == null {
        size, offset := IVY_BUFFER_SIZE, 0;
        data := new bv8[IVY_BUFFER_SIZE];
      }
      ghost var before, start, base := data[..offset], size, offset;
      calls := 0;
      var r, done := -1, false;
      while !done
        invariant data != null && data.Length == size > 0 && base <= size && data[..base] == before
        invariant data == old(data) || fresh(data)
        invariant !done ==> offset == base <= size
        invariant !done ==> FinalSize(size, base, |text|, conv) == FinalSize(start, base, |text|, conv)
        invariant !done ==> calls + Attempts(size, base, |text|, conv) == Attempts(start, base, |text|, conv)
        invariant done ==> r == |text| && offset == base + |text| < size
        invariant done ==> data[..offset] == before + text && data[offset] == 0
        invariant done ==> size == FinalSize(start, base, |text|, conv) && calls == Attempts(start, base, |text|, conv)
        decreases !done, base + |text| + 1 - size
      {
        r, done := Try(text, conv, before);
        calls := calls + 1;
      }
      n := r;
    }
  }
}
