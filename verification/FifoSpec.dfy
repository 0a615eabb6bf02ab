/** The fifo as a value, and what holds over every run of writes, reads and sends. */
module FifoSpec {
  import opened Basics

  const ALLOC_SIZE: nat := 262144
  const MAX_ALLOC_SIZE: nat := 32 * 1048576

  /** What a fifo holds, the size of its buffer, and the flag that makes it refuse writes. */
  datatype Fifo = Fifo(bytes: Bytes, cap: nat, full: bool)

  ghost predicate Ok(f: Fifo) {
    && f.cap % ALLOC_SIZE == 0 && ALLOC_SIZE <= f.cap <= MAX_ALLOC_SIZE
    && |f.bytes| < f.cap
  }

  function Init(): Fifo {
    Fifo([], ALLOC_SIZE, false)
  }

  function Aligned(n: nat): nat {
    (n / ALLOC_SIZE + 1) * ALLOC_SIZE
  }

  /** IvyFifoRealloc. */
  function Realloc(f: Fifo, n: nat): Fifo {
    if Aligned(n) > MAX_ALLOC_SIZE then f.(full := true)
    else if f.cap < Aligned(n) then Fifo(f.bytes, Aligned(n), false)
    else f
  }

  /** IvyFifoWrite: first perhaps a bigger buffer, then all of the data unless the fifo is full. */
  function Write(f: Fifo, data: Bytes): Fifo
    requires |f.bytes| <= f.cap
  {
    var g := if |data| >= f.cap - |f.bytes| then Realloc(f, |data| + |f.bytes|) else f;
    if g.full then g else g.(bytes := g.bytes + data)
  }

  function Min(a: nat, b: nat): nat {
    if a > b then b else a
  }

  /** IvyFifoDrain of n bytes. */
  function Drain(f: Fifo, n: nat): Fifo
    requires n <= |f.bytes|
  {
    Fifo(f.bytes[n..], f.cap, f.full && n == 0)
  }

  // ---------------------------------------------------------------- what a write does

  lemma AlignedBounds(n: nat)
    ensures n < Aligned(n) <= n + ALLOC_SIZE && Aligned(n) % ALLOC_SIZE == 0
    ensures Aligned(n) > MAX_ALLOC_SIZE <==> n >= MAX_ALLOC_SIZE
  {
  }

  /** With n the length the write would lead to: n fits the buffer and the fifo is not full, or n needs a bigger buffer
      and that stays within the maximum. */
  predicate Fits(held: nat, cap: nat, full: bool, more: nat) {
    (held + more < cap && !full) || cap <= held + more < MAX_ALLOC_SIZE
  }

  /** A write is taken whole or not at all. With n the length it would lead to, it is taken exactly when n fits the buffer
      and the fifo is not full, or n needs a bigger buffer and stays below 33554432. A fifo that refuses keeps its contents
      and its buffer, and is full; one that accepts is not full. A buffer that grows is the least multiple of 262144 above
      n; it never shrinks. */
  lemma WriteExact(f: Fifo, data: Bytes)
    requires Ok(f)
    ensures var n := |f.bytes| + |data|;
            var accepted := (n < f.cap && !f.full) || f.cap <= n < 33554432;
            var g := Write(f, data);
            && Ok(g) && (accepted <==> Fits(|f.bytes|, f.cap, f.full, |data|))
            && g.bytes == (if accepted then f.bytes + data else f.bytes)
            && (g.full <==> !accepted)
            && (if f.cap <= n < 33554432 then g.cap % 262144 == 0 && g.cap - 262144 <= n < g.cap else g.cap == f.cap)
            && g.cap == (if f.cap <= n < MAX_ALLOC_SIZE then Aligned(n) else f.cap)
            && g.cap >= f.cap
  {
    AlignedBounds(|f.bytes| + |data|);
  }

  /** A new fifo has a buffer of 262144 bytes and takes any message below 33554432 bytes, in a buffer of the least multiple
      of 262144 above its length. */
  lemma NewFifo(data: Bytes)
    requires data != []
    ensures Init().bytes == [] && Init().cap == 262144 && !Init().full
    ensures var g := Write(Init(), data);
            && (g.bytes == data <==> |data| < 33554432)
            && (|data| < 33554432 ==> g.cap % 262144 == 0 && g.cap - 262144 <= |data| < g.cap && !g.full)
            && (|data| >= 33554432 ==> g == Init().(full := true))
  {
    WriteExact(Init(), data);
    assert [] + data == data;
  }

  /** An empty fifo need not accept a write that fits: one oversized write makes it full, and only a drain of at least one
      byte or a write that needs a bigger buffer undoes that. It accepts exactly when it is not full. */
  lemma EmptyFifoAccepts(f: Fifo, data: Bytes)
    requires Ok(f) && f.bytes == [] && data != [] && |data| < f.cap
    ensures Write(f, data).bytes == data <==> !f.full
  {
    WriteExact(f, data);
  }

  lemma EmptyAndFull(big: Bytes, data: Bytes)
    requires |big| == 33554432 && |data| == 1
    ensures var f := Write(Init(), big);
            f.bytes == [] && f.full && Write(f, data).bytes == []
  {
    WriteExact(Init(), big);
    WriteExact(Write(Init(), big), data);
  }

  /** When a full fifo takes messages again: after n bytes have been drained, a message goes in exactly when at least one
      byte left and it fits the buffer, or it makes the buffer grow. Nothing asks for the fifo to be empty. */
  lemma RefusalEnds(f: Fifo, n: nat, data: Bytes)
    requires Ok(f) && f.full && n <= |f.bytes| && data != []
    ensures var m := |f.bytes| - n + |data|;
            Write(Drain(f, n), data).bytes == f.bytes[n..] + data <==> (n > 0 && m < f.cap) || f.cap <= m < 33554432
  {
    WriteExact(Drain(f, n), data);
    assert f.bytes[n..] + data != f.bytes[n..];
  }

  /** Two bytes, then a message that is too big: the next byte is lost, but goes in after one of the two has left, while
      the other is still there. */
  lemma OneByteIsEnough(two: Bytes, big: Bytes, one: Bytes)
    requires |two| == 2 && |big| == 33554432 && |one| == 1
    ensures var f := Write(Write(Init(), two), big);
            && f.bytes == two && f.full
            && Write(f, one).bytes == two
            && Drain(f, 1).bytes == two[1..] != []
            && Write(Drain(f, 1), one).bytes == two[1..] + one
  {
    var g := Write(Init(), two);
    WriteExact(Init(), two);
    assert [] + two == two;
    WriteExact(g, big);
    WriteExact(Write(g, big), one);
    RefusalEnds(Write(g, big), 1, one);
  }

  // ---------------------------------------------------------------- what a send does

  /** How far a send gets: bytes taken by the socket, calls of send(), and whether the last one failed. */
  datatype Sending = Sending(total: nat, calls: nat, failed: bool)

  /** n bytes are held, m of them before the end of the buffer; the socket takes up to `first` bytes in its next call and up
      to `second` in the one after, or fails if that is negative. There is a second call only when the first took all of
      the m bytes and more are held. */
  function Outcome(n: nat, m: nat, first: int, second: int): Sending
    requires m <= n
  {
    if first < 0 then Sending(0, 1, true)
    else if first < m || m == n then Sending(Min(first, m), 1, false)
    else if second < 0 then Sending(m, 2, true)
    else Sending(m + Min(second, n - m), 2, false)
  }

  /** No call fails: a condition on the socket that is known before the send. */
  predicate Willing(n: nat, m: nat, first: int, second: int) {
    first >= 0 && (m < n && first >= m ==> second >= 0)
  }

  /** A send fails exactly when a call that it makes fails. It leaves bytes behind only after a short or a failed call. */
  lemma OutcomeLaw(n: nat, m: nat, first: int, second: int)
    requires m <= n
    ensures var s := Outcome(n, m, first, second);
            && s.total <= n && 1 <= s.calls <= 2
            && (s.failed <==> !Willing(n, m, first, second))
            && (s.failed ==> (if s.calls == 1 then first else second) < 0)
            && (!s.failed ==> first >= 0 && (s.calls == 2 ==> second >= 0))
            && (!s.failed && s.total < n ==> if s.calls == 1 then first < m else second < n - m)
  {
  }

  // ---------------------------------------------------------------- runs

  /** One call. A send drains what the socket took: some length up to what there is. */
  datatype Op = WriteOp(data: Bytes) | ReadOp(size: nat) | SendOp(taken: nat)

  function Step(f: Fifo, op: Op): Fifo
    requires Ok(f)
  {
    match op
    case WriteOp(data) => Write(f, data)
    case ReadOp(size) => Drain(f, Min(size, |f.bytes|))
    case SendOp(taken) => Drain(f, Min(taken, |f.bytes|))
  }

  lemma StepOk(f: Fifo, op: Op)
    requires Ok(f)
    ensures Ok(Step(f, op)) && Step(f, op).cap >= f.cap
  {
    match op
    case WriteOp(data) => WriteExact(f, data);
    case ReadOp(_) =>
    case SendOp(_) =>
  }

  /** The bytes a call adds to the fifo. */
  function Accepted(f: Fifo, op: Op): Bytes
    requires Ok(f)
  {
    if op.WriteOp? && Fits(|f.bytes|, f.cap, f.full, |op.data|) then op.data else []
  }

  /** The bytes a call hands to the reader or to the socket. */
  function Emitted(f: Fifo, op: Op): Bytes
    requires Ok(f)
  {
    match op
    case WriteOp(_) => []
    case ReadOp(size) => f.bytes[..Min(size, |f.bytes|)]
    case SendOp(taken) => f.bytes[..Min(taken, |f.bytes|)]
  }

  function Run(f: Fifo, ops: seq<Op>): (g: Fifo)
    requires Ok(f)
    ensures Ok(g) && g.cap >= f.cap
    decreases |ops|
  {
    if ops == [] then f else
    StepOk(f, ops[0]);
    Run(Step(f, ops[0]), ops[1..])
  }

  function AllAccepted(f: Fifo, ops: seq<Op>): Bytes
    requires Ok(f)
    decreases |ops|
  {
    if ops == [] then [] else
    StepOk(f, ops[0]);
    Accepted(f, ops[0]) + AllAccepted(Step(f, ops[0]), ops[1..])
  }

  function AllEmitted(f: Fifo, ops: seq<Op>): Bytes
    requires Ok(f)
    decreases |ops|
  {
    if ops == [] then [] else
    StepOk(f, ops[0]);
    Emitted(f, ops[0]) + AllEmitted(Step(f, ops[0]), ops[1..])
  }

  lemma StepConserves(f: Fifo, op: Op)
    requires Ok(f)
    ensures f.bytes + Accepted(f, op) == Emitted(f, op) + Step(f, op).bytes
  {
    if op.WriteOp? {
      WriteExact(f, op.data);
    }
  }

  lemma Chain(before: Bytes, a: Bytes, e: Bytes, between: Bytes, aa: Bytes, ee: Bytes, after: Bytes)
    requires before + a == e + between && between + aa == ee + after
    ensures before + (a + aa) == (e + ee) + after
  {
    assert before + (a + aa) == (before + a) + aa;
    assert (e + between) + aa == e + (between + aa);
    assert e + (ee + after) == (e + ee) + after;
  }

  lemma {:induction false} RunConserves(f: Fifo, ops: seq<Op>)
    requires Ok(f)
    ensures f.bytes + AllAccepted(f, ops) == AllEmitted(f, ops) + Run(f, ops).bytes
    decreases |ops|
  {
    hide Step, Accepted, Emitted, Ok;
    if ops != [] {
      var g := Step(f, ops[0]);
      StepOk(f, ops[0]);
      StepConserves(f, ops[0]);
      RunConserves(g, ops[1..]);
      Chain(f.bytes, Accepted(f, ops[0]), Emitted(f, ops[0]), g.bytes, AllAccepted(g, ops[1..]), AllEmitted(g, ops[1..]),
            Run(g, ops[1..]).bytes);
    }
  }

  /** One more call at the end of a run. */
  lemma {:induction false} RunThen(f: Fifo, ops: seq<Op>, op: Op)
    requires Ok(f)
    ensures Run(f, ops + [op]) == Step(Run(f, ops), op)
    ensures AllAccepted(f, ops + [op]) == AllAccepted(f, ops) + Accepted(Run(f, ops), op)
    ensures AllEmitted(f, ops + [op]) == AllEmitted(f, ops) + Emitted(Run(f, ops), op)
    decreases |ops|
  {
    hide Step, Accepted, Emitted, Ok;
    if ops == [] {
      assert [] + [op] == [op] && [op][1..] == [];
      StepOk(f, op);
    } else {
      assert (ops + [op])[0] == ops[0] && (ops + [op])[1..] == ops[1..] + [op];
      StepOk(f, ops[0]);
      RunThen(Step(f, ops[0]), ops[1..], op);
    }
  }

  /** Over every run from a new fifo: what was accepted is what was handed on, followed by what is still held; every byte
      once and in order. The buffer is a multiple of 262144 bytes, at least that and at most 33554432, and never quite
      filled. */
  lemma Conservation(ops: seq<Op>)
    ensures AllAccepted(Init(), ops) == AllEmitted(Init(), ops) + Run(Init(), ops).bytes
    ensures var g := Run(Init(), ops);
            g.cap % 262144 == 0 && 262144 <= g.cap <= 33554432 && |g.bytes| < g.cap
  {
    RunConserves(Init(), ops);
    assert Init().bytes + AllAccepted(Init(), ops) == AllAccepted(Init(), ops);
  }

  /** After every run from a new fifo: one that does not refuse takes a message exactly when the total stays below 33554432
      bytes; one that refuses takes it exactly when, besides, it does not fit the present buffer. */
  lemma RunAccepts(ops: seq<Op>, data: Bytes)
    requires data != []
    ensures var g := Run(Init(), ops);
            var n := |g.bytes| + |data|;
            Write(g, data).bytes == g.bytes + data <==> n < 33554432 && (g.full ==> n >= g.cap)
  {
    var g := Run(Init(), ops);
    WriteExact(g, data);
    assert g.bytes + data != g.bytes;
  }

  // ---------------------------------------------------------------- the flag over runs

  /** What the sizes alone tell of a fifo. */
  datatype Account = Account(held: nat, cap: nat, full: bool)

  function AccountOf(f: Fifo): Account {
    Account(|f.bytes|, f.cap, f.full)
  }

  /** A write that does not fit sets the flag; one that fits clears it, and so does a read or a send of at least a byte. */
  function Book(a: Account, op: Op): Account {
    match op
    case WriteOp(data) =>
      var n := a.held + |data|;
      if !Fits(a.held, a.cap, a.full, |data|) then a.(full := true)
      else Account(n, if n < a.cap then a.cap else Aligned(n), false)
    case ReadOp(size) => Account(a.held - Min(size, a.held), a.cap, a.full && Min(size, a.held) == 0)
    case SendOp(taken) => Account(a.held - Min(taken, a.held), a.cap, a.full && Min(taken, a.held) == 0)
  }

  function BookAll(a: Account, ops: seq<Op>): Account
    decreases |ops|
  {
    if ops == [] then a else BookAll(Book(a, ops[0]), ops[1..])
  }

  lemma StepBooked(f: Fifo, op: Op)
    requires Ok(f)
    ensures AccountOf(Step(f, op)) == Book(AccountOf(f), op)
  {
    if op.WriteOp? {
      WriteExact(f, op.data);
    }
  }

  /** Over every run, whether the fifo refuses at the end, how much it holds and how big its buffer is follow from the
      sizes of the writes, reads and sends. */
  lemma {:induction false} FlagHistory(f: Fifo, ops: seq<Op>)
    requires Ok(f)
    ensures AccountOf(Run(f, ops)) == BookAll(AccountOf(f), ops)
    decreases |ops|
  {
    hide Step, Book, AccountOf;
    if ops != [] {
      StepOk(f, ops[0]);
      StepBooked(f, ops[0]);
      FlagHistory(Step(f, ops[0]), ops[1..]);
    }
  }
}
