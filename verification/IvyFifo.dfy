/** The growing ring buffer of ivyfifo.c on the heap, proved against FifoSpec. */
module IvyFifo {
  import opened Basics
  import opened FifoSpec

  /** A non-blocking socket: call number k takes up to takes(k) bytes of what it is offered, or fails if that is
      negative. */
  class Socket {
    const takes: nat -> int
    var calls: nat
    var sent: Bytes
    var offered: nat   // by the last call
    var taken: int     // of the last call; -1 if it failed

    constructor (takes: nat -> int)
      ensures this.takes == takes && calls == 0 && sent == [] && taken == 0
    {
      this.takes, calls, sent, offered, taken := takes, 0, [], 0, 0;
    }

    /** send(): the number of bytes taken, or -1. */
    method Send(data: Bytes) returns (n: int)
      modifies this
      ensures n == if takes(old(calls)) < 0 then -1 else Min(takes(old(calls)), |data|)
      ensures sent == old(sent) + if n < 0 then [] else data[..n]
      ensures calls == old(calls) + 1 && offered == |data| && taken == n
    {
      n := if takes(calls) < 0 then -1 else Min(takes(calls), |data|);
      sent, calls, offered, taken := sent + if n < 0 then [] else data[..n], calls + 1, |data|, n;
    }
  }

  function Overwrite(d: Bytes, at: nat, src: Bytes): (r: Bytes)
    requires at + |src| <= |d|
    ensures |r| == |d|
  {
    d[..at] + src + d[at + |src|..]
  }

  /** memcpy. */
  method Memcpy(dst: array<bv8>, at: nat, src: Bytes)
    requires at + |src| <= dst.Length
    modifies dst
    ensures dst[..] == Overwrite(old(dst[..]), at, src)
  {
    forall k | 0 <= k < |src| {
      dst[at + k] := src[k];
    }
  }

  /** The bytes between the pointers, around the end of the buffer. */
  function Between(b: Bytes, r: nat, w: nat): Bytes
    requires r < |b| && w < |b|
  {
    if r <= w then b[r..w] else b[r..] + b[..w]
  }

  /** The bytes up to the end of the buffer are the first ones; taking some of them moves the read pointer. */
  lemma Front(b: Bytes, r: nat, w: nat, n: nat)
    requires r < |b| && w < |b| && n <= |Between(b, r, w)| && n <= |b| - r
    ensures b[r..r + n] == Between(b, r, w)[..n]
    ensures Between(b, if r + n >= |b| then r + n - |b| else r + n, w) == Between(b, r, w)[n..]
  {
  }

  /** The read pointer one place back: the byte before the contents joins them, unless the ring was full to the last byte
      and now looks empty. Either way the contents are not what they were. */
  lemma OneBack(b: Bytes, r: nat, w: nat)
    requires 0 < r < |b| && w < |b| && |b| > 1
    ensures Between(b, r - 1, w) == if r - 1 == w then [] else [b[r - 1]] + Between(b, r, w)
    ensures Between(b, r - 1, w) != Between(b, r, w)
  {
    if r - 1 == w {
      assert |Between(b, r, w)| == |b| - 1;
    } else if r <= w {
      assert b[r - 1..w] == [b[r - 1]] + b[r..w];
    } else {
      assert b[r - 1..] == [b[r - 1]] + b[r..];
      assert [b[r - 1]] + b[r..] + b[..w] == [b[r - 1]] + (b[r..] + b[..w]);
    }
  }

  /** One round of the send loop, with `made` calls and `total` bytes behind it: it goes on after the first call only, if
      that took all of the m bytes and more are held; else the send has done what was foreseen. */
  lemma SendRound(n: nat, m: nat, first: int, second: int, made: nat, total: nat, maxLen: nat, realLen: int)
    requires m <= n
    requires if made == 0 then total == 0 && maxLen == m
             else made == 1 && total == m < n && first >= m && maxLen == n - m
    requires var t := if made == 0 then first else second; realLen == if t < 0 then -1 else Min(t, maxLen)
    ensures var all := if realLen >= 0 then total + realLen else total;
            && all <= n
            && (if realLen >= 0 && all < n && maxLen == realLen then made == 0 && all == m < n && first >= m
                else Outcome(n, m, first, second) == Sending(all, made + 1, realLen < 0))
  {
  }

  /** Bytes put behind the write pointer, without closing the ring, come last. */
  lemma Back(b: Bytes, c: Bytes, r: nat, w: nat, d: Bytes)
    requires r < |b| && w < |b| && w + |d| <= |b| && |Between(b, r, w)| + |d| < |b|
    requires c == b[..w] + d + b[w + |d|..]
    ensures |c| == |b|
    ensures Between(c, r, if w + |d| >= |b| then 0 else w + |d|) == Between(b, r, w) + d
  {
  }

  /** The destination of a read when the first `off` bytes of `all` have been copied over `rest`. */
  function Copied(all: Bytes, rest: Bytes, off: nat): (r: Bytes)
    requires off <= |all| && off <= |rest|
    ensures |r| == |rest|
  {
    all[..off] + rest[off..]
  }

  /** What is left of a sequence from `off` on. */
  function Rest(all: Bytes, off: nat): (r: Bytes)
    requires off <= |all|
    ensures |r| == |all| - off
  {
    all[off..]
  }

  lemma NextPiece(all: Bytes, rest: Bytes, off: nat, n: nat)
    requires off + n <= |all| && off + n <= |rest|
    ensures Overwrite(Copied(all, rest, off), off, Rest(all, off)[..n]) == Copied(all, rest, off + n)
    ensures Rest(all, off)[n..] == Rest(all, off + n)
  {
  }

  /** The socket's bytes after another piece. */
  lemma NextSent(was: Bytes, all: Bytes, off: nat, n: nat)
    requires off + n <= |all|
    ensures (was + all[..off]) + Rest(all, off)[..n] == was + all[..off + n]
    ensures Rest(all, off)[n..] == Rest(all, off + n)
  {
    assert all[..off] + all[off..][..n] == all[..off + n];
  }

  lemma ReadDone(all: Bytes, rest: Bytes, n: nat)
    requires n <= |all| && n <= |rest|
    ensures Rest(all, n) == all[n..] && Copied(all, rest, n) == all[..n] + rest[n..]
  {
  }

  lemma Ends(all: Bytes, rest: Bytes)
    ensures Rest(all, 0) == all && Copied(all, rest, 0) == rest
  {
  }

  // ---------------------------------------------------------------- programs of calls

  /** A use of the fifo by its application. */
  datatype Call = WriteCall(data: Bytes) | ReadCall(size: nat) | SendCall

  /** The operation on values that a call turns out to be. */
  predicate Denotes(c: Call, op: Op) {
    match c
    case WriteCall(data) => op == WriteOp(data)
    case ReadCall(size) => op == ReadOp(size)
    case SendCall => op.SendOp?
  }

  /** Dropping what was handed on: there is one way to complete it. */
  lemma Completion(out: Bytes, c: Bytes, n: nat, rest: Bytes)
    requires n <= |c| && out + c == (out + c[..n]) + rest
    ensures rest == c[n..]
  {
    assert (out + c)[|out| + n..] == c[n..];
    assert ((out + c[..n]) + rest)[|out| + n..] == rest;
  }

  // ---------------------------------------------------------------- the ring buffer

  class IvyFifoBuffer {
    var buffer: array<bv8>
    var rptr: int     // offsets into the buffer; its end is buffer.Length
    var wptr: nat
    var full: bool

    /** The read pointer may be one place before the buffer; it gets there only by a failed send. */
    ghost predicate Bounded()
      reads this
    {
      && -1 <= rptr < buffer.Length && wptr < buffer.Length
      && buffer.Length % ALLOC_SIZE == 0 && ALLOC_SIZE <= buffer.Length <= MAX_ALLOC_SIZE
    }

    ghost predicate Valid()
      reads this
    {
      Bounded() && rptr >= 0
    }

    ghost function Contents(): Bytes
      reads this, buffer
      requires Valid()
    {
      Between(buffer[..], rptr, wptr)
    }

    ghost function View(): (f: Fifo)
      reads this, buffer
      requires Valid()
      ensures Ok(f)
    {
      Fifo(Contents(), buffer.Length, full)
    }

    /** IvyFifoInit. */
    constructor ()
      ensures Valid() && fresh(buffer) && View() == Init() && rptr == 0 && buffer.Length == 262144
    {
      buffer := new bv8[ALLOC_SIZE];
      rptr, wptr, full := 0, 0, false;
    }

    /** IvyFifoLength. */
    function Length(): (n: nat)
      reads this, buffer
      requires Bounded()
      ensures Valid() ==> n == |Contents()|
    {
      if wptr - rptr < 0 then wptr - rptr + buffer.Length else wptr - rptr
    }

    /** IvyFifoAvail. */
    function Avail(): (n: nat)
      reads this, buffer
      requires Valid()
      ensures n == buffer.Length - |Contents()| > 0
    {
      buffer.Length - Length()
    }

    /** How much of `want` lies before the end of the buffer. */
    function Chunk(want: nat): (len: nat)
      reads this, buffer
      requires Valid() && want <= Length()
      ensures len <= want && len <= buffer.Length - rptr && (want > 0 ==> len > 0)
      ensures len < want ==> len == buffer.Length - rptr
      ensures len == Min(buffer.Length - rptr, want)
    {
      Min(buffer.Length - rptr, want)
    }

    /** What a failed send makes of the contents: the read pointer has left the buffer, or the byte before the contents has
        joined them, or they are gone. */
    ghost predicate Failed(was: Bytes)
      requires Bounded()
      reads this, buffer
    {
      rptr == -1 || (Contents() == (if rptr == wptr then [] else [buffer[rptr]] + was) && Contents() != was)
    }

    lemma FailedSpoils(was: Bytes)
      requires Bounded() && Failed(was)
      ensures !(Valid() && Contents() == was)
    {
    }

    /** IvyFifoDrain. The result of a failed send, -1, moves the read pointer back. */
    method Drain(size: int)
      requires Valid() && -1 <= size <= Length() && size <= buffer.Length - rptr
      modifies `rptr, `full
      ensures Bounded() && (Valid() <==> size >= 0 || old(rptr) > 0)
      ensures size >= 0 ==> View() == FifoSpec.Drain(old(View()), size)
      ensures size == old(buffer.Length - rptr) ==> rptr == 0
      ensures size == -1 ==> rptr == old(rptr) - 1 && Failed(old(Contents())) && full == old(full)
    {
      hide Between;
      ghost var b := buffer[..];
      if size >= 0 {
        Front(b, rptr, wptr, size);
      } else if rptr > 0 {
        OneBack(b, rptr, wptr);
      }
      rptr := rptr + size;
      if rptr >= buffer.Length {
        rptr := rptr - buffer.Length;
      }
      if size > 0 {
        full := false;
      }
    }

    // -------------------------------------------------------------- reading

    /** The body of the read loop: one copy and one drain. */
    method ReadPart(dest: array<bv8>, off: nat, len: nat)
      requires Valid() && dest != buffer && len <= Length() && len <= buffer.Length - rptr && off + len <= dest.Length
      modifies `rptr, `full, dest
      ensures Valid() && View() == FifoSpec.Drain(old(View()), len)
      ensures dest[..] == Overwrite(old(dest[..]), off, old(Contents())[..len])
    {
      Front(buffer[..], rptr, wptr, len);
      Memcpy(dest, off, buffer[rptr..rptr + len]);
      Drain(len);
    }

    /** IvyFifoGenericRead without a callback, as IvyFifoRead calls it. */
    method Read(dest: array<bv8>, size: nat) returns (n: nat)
      requires Valid() && dest != buffer && Min(size, Length()) <= dest.Length
      modifies `rptr, `full, dest
      ensures Valid() && n == Min(size, old(Length())) && View() == FifoSpec.Drain(old(View()), n)
      ensures dest[..] == old(Contents())[..n] + old(dest[n..])
    {
      hide Between, Overwrite, Copied, Rest;
      n := Min(size, Length());
      ghost var all, rest := Contents(), dest[..];
      Ends(all, rest);
      var toRead: nat, off: nat := n, 0;
      while true
        invariant Valid() && off + toRead == n && full == (old(full) && off == 0)
        invariant Contents() == Rest(all, off) && dest[..] == Copied(all, rest, off)
        decreases toRead
      {
        var len := Chunk(toRead);
        NextPiece(all, rest, off, len);
        ReadPart(dest, off, len);
        off := off + len;
        toRead := toRead - len;
        if toRead == 0 {
          break;
        }
      }
      ReadDone(all, rest, n);
    }

    // -------------------------------------------------------------- writing

    /** IvyFifoRealloc. */
    method Realloc(newSize: nat)
      requires Valid()
      modifies this
      ensures Valid() && View() == FifoSpec.Realloc(old(View()), newSize)
      ensures Contents() == old(Contents())
      ensures full <==> newSize >= 33554432 || (old(full) && buffer == old(buffer))
      ensures newSize < 33554432 ==>
                && newSize < buffer.Length
                && (buffer == old(buffer) || (old(buffer.Length) <= newSize && buffer.Length - 262144 <= newSize))
      ensures buffer == old(buffer) || fresh(buffer)
      ensures full ==> buffer == old(buffer) && rptr == old(rptr) && wptr == old(wptr) && buffer[..] == old(buffer[..])
    {
      var oldSize := buffer.Length;
      var alignedNewSize := (newSize / ALLOC_SIZE + 1) * ALLOC_SIZE;
      AlignedBounds(newSize);
      if alignedNewSize > MAX_ALLOC_SIZE {
        full := true;
      } else if oldSize < alignedNewSize {
        var len := Length();
        ghost var all := Contents();
        var bigger := new bv8[alignedNewSize];
        var _ := Read(bigger, len);
        assert bigger[..][..len] == all;
        buffer, rptr, wptr, full := bigger, 0, len, false;
      }
    }

    /** The body of the copy loop. */
    method AppendPart(piece: Bytes)
      requires Valid() && Length() + |piece| < buffer.Length && wptr + |piece| <= buffer.Length
      modifies `wptr, buffer
      ensures Valid() && Contents() == old(Contents()) + piece
      ensures |piece| < old(buffer.Length - wptr) || wptr == 0
    {
      ghost var b := buffer[..];
      Memcpy(buffer, wptr, piece);
      Back(b, buffer[..], rptr, wptr, piece);
      wptr := wptr + |piece|;
      if wptr >= buffer.Length {
        wptr := 0;
      }
    }

    /** The copy loop of IvyFifoWrite. */
    method Append(data: Bytes)
      requires Valid() && Length() + |data| < buffer.Length
      modifies `wptr, buffer
      ensures Valid() && Contents() == old(Contents()) + data
    {
      var size: nat, off: nat := |data|, 0;
      ghost var before := Contents();
      while true
        invariant Valid() && off + size == |data| && Contents() == before + data[..off]
        decreases size
      {
        var len := Min(buffer.Length - wptr, size);
        var piece := data[off..off + len];
        AppendPart(piece);
        assert before + data[..off] + piece == before + data[..off + len];
        off := off + len;
        size := size - len;
        if size == 0 {
          break;
        }
      }
      assert data[..off] == data;
    }

    /** IvyFifoWrite. A refused write leaves the pointers and the bytes of the buffer alone. */
    method Write(data: Bytes)
      requires Valid()
      modifies this, buffer
      ensures Valid() && View() == FifoSpec.Write(old(View()), data)
      ensures buffer == old(buffer) || fresh(buffer)
      ensures |data| < old(Avail()) ==> buffer == old(buffer) && rptr == old(rptr)
      ensures var n := old(Length()) + |data|;
              var accepted := (n < old(buffer.Length) && !old(full)) || old(buffer.Length) <= n < 33554432;
              full == !accepted && Contents() == old(Contents()) + if accepted then data else []
      ensures full ==> buffer == old(buffer) && rptr == old(rptr) && wptr == old(wptr) && buffer[..] == old(buffer[..])
    {
      hide Between;
      WriteExact(View(), data);
      if |data| >= Avail() {
        Realloc(|data| + Length());
      }
      if full {
        return;
      }
      Append(data);
    }

    // -------------------------------------------------------------- sending

    /** The body of the send loop: one send and one drain. */
    method SendPart(sock: Socket, maxLen: nat) returns (realLen: int)
      requires Valid() && maxLen == Chunk(Length())
      modifies `rptr, `full, sock
      ensures -1 <= realLen <= maxLen <= |old(Contents())| && Bounded()
      ensures sock.calls == old(sock.calls) + 1 && sock.taken == realLen && sock.offered == maxLen
      ensures realLen >= 0 ==> Valid() && View() == FifoSpec.Drain(old(View()), realLen)
      ensures realLen >= 0 ==> sock.sent == old(sock.sent) + old(Contents())[..realLen]
      ensures realLen == if sock.takes(old(sock.calls)) < 0 then -1 else Min(sock.takes(old(sock.calls)), maxLen)
      ensures realLen == old(buffer.Length - rptr) ==> rptr == 0
      ensures realLen == -1 ==> Failed(old(Contents())) && full == old(full) && sock.sent == old(sock.sent)
      ensures realLen == -1 ==> rptr == old(rptr) - 1
    {
      hide Between, Failed;
      Front(buffer[..], rptr, wptr, maxLen);
      realLen := sock.Send(buffer[rptr..rptr + maxLen]);
      Drain(realLen);
    }

    /** What a send will do, as far as the fifo and the socket determine it beforehand. */
    ghost function Ahead(sock: Socket): (s: Sending)
      requires Valid()
      reads this, buffer, sock
    {
      Outcome(Length(), Chunk(Length()), sock.takes(sock.calls), sock.takes(sock.calls + 1))
    }

    /** IvyFifoSendSocket. How many bytes the socket takes, in how many calls, and whether one fails follows from what it
        is ready to take. It gets a prefix of the contents; as long as no call fails, the rest is what remains and is
        counted. The fifo holds just the bytes not taken if and only if the socket is willing in the calls made of it. */
    method SendSocket(sock: Socket) returns (left: nat, ghost total: nat)
      requires Valid()
      modifies `rptr, `full, sock
      ensures Bounded() && left == Length() && total == old(Ahead(sock)).total <= |old(Contents())|
      ensures sock.calls == old(sock.calls) + old(Ahead(sock)).calls <= old(sock.calls) + 2
      ensures sock.sent == old(sock.sent) + old(Contents())[..total]
      ensures sock.taken < 0 <==> old(Ahead(sock)).failed
      ensures sock.taken >= 0 ==> Valid() && View() == FifoSpec.Drain(old(View()), total)
      ensures sock.taken >= 0 && left > 0 ==> sock.taken < sock.offered
      ensures Valid() && Contents() == old(Contents())[total..] <==>
              old(Willing(Length(), Chunk(Length()), sock.takes(sock.calls), sock.takes(sock.calls + 1)))
      ensures sock.taken < 0 ==> Failed(old(Contents())[total..]) && full == (old(full) && total == 0)
      ensures sock.taken < 0 ==> rptr == (if total == 0 then old(rptr) else 0) - 1
    {
      hide Between, Rest, Failed, Outcome, Willing, Min;
      ghost var all, n, m, made := Contents(), Length(), Chunk(Length()), 0;
      ghost var first, second := sock.takes(sock.calls), sock.takes(sock.calls + 1);
      OutcomeLaw(n, m, first, second);
      Ends(all, all);
      total := 0;
      while true
        invariant Valid() && total <= |all| && Contents() == Rest(all, total) && full == (old(full) && total == 0)
        invariant sock.sent == old(sock.sent) + all[..total]
        invariant made <= 1 && sock.calls == old(sock.calls) + made
        invariant if made == 0 then total == 0 && rptr == old(rptr)
                  else total == m < n && first >= m && rptr == 0
        decreases 1 - made
      {
        var maxLen := Chunk(Length());
        var realLen := SendPart(sock, maxLen);
        SendRound(n, m, first, second, made, total, maxLen, realLen);
        made := made + 1;
        if realLen >= 0 {
          NextSent(old(sock.sent), all, total, realLen);
          total := total + realLen;
        }
        if !(Length() > 0 && maxLen == realLen) {
          break;
        }
      }
      left := Length();
      ReadDone(all, all, total);
      if sock.taken < 0 {
        FailedSpoils(Rest(all, total));
      }
    }

    // -------------------------------------------------------------- programs of calls

    /** One call: the bytes taken from the writer, the bytes handed to the reader or to the socket, and whether a send
        failed. */
    method Do(c: Call, sock: Socket) returns (taken: Bytes, out: Bytes, failed: bool, ghost op: Op)
      requires Valid()
      modifies this, buffer, sock
      ensures buffer == old(buffer) || fresh(buffer)
      ensures sock.calls >= old(sock.calls)
      ensures failed <==> exists k :: old(sock.calls) <= k < sock.calls && sock.takes(k) < 0
      ensures !failed ==> Valid() && Denotes(c, op) && View() == Step(old(View()), op)
      ensures !failed ==> taken == Accepted(old(View()), op) && out == Emitted(old(View()), op)
      ensures failed ==> taken == [] && out <= old(Contents()) && !(Valid() && Contents() == old(Contents())[|out|..])
    {
      hide Between, Outcome, Willing;
      taken, out, failed := [], [], false;
      match c {
        case WriteCall(data) =>
          op := WriteOp(data);
          WriteExact(View(), data);
          Write(data);
          if !full {
            taken := data;
          }
        case ReadCall(size) =>
          op := ReadOp(size);
          var dest := new bv8[size];
          var n := Read(dest, size);
          out := dest[..n];
        case SendCall =>
          OutcomeLaw(Length(), Chunk(Length()), sock.takes(sock.calls), sock.takes(sock.calls + 1));
          var before := |sock.sent|;
          ghost var total;
          var left;
          left, total := SendSocket(sock);
          op := SendOp(total);
          out, failed := sock.sent[before..], sock.taken < 0;
      }
    }

    /** Any program of calls, up to the first send that fails: without one the fifo goes through the run of these calls on
        values. What was there and what was taken is what was handed on and what is held, each byte once and in order, if
        and only if the socket failed in no call. */
    method Play(calls: seq<Call>, sock: Socket) returns (taken: Bytes, out: Bytes, failed: bool, ghost ops: seq<Op>)
      requires Valid()
      modifies this, buffer, sock
      ensures Valid() && old(Contents()) + taken == out + Contents() <==> !failed
      ensures failed <==> exists k :: old(sock.calls) <= k < sock.calls && sock.takes(k) < 0
      ensures !failed ==> |ops| == |calls| && forall i :: 0 <= i < |calls| ==> Denotes(calls[i], ops[i])
      ensures !failed ==> Valid() && View() == Run(old(View()), ops)
      ensures !failed ==> taken == AllAccepted(old(View()), ops) && out == AllEmitted(old(View()), ops)
    {
      hide Between, Step, Accepted, Emitted;
      ghost var start := View();
      var i := 0;
      taken, out, failed, ops := [], [], false, [];
      while i < |calls| && !failed
        invariant i <= |calls| && (buffer == old(buffer) || fresh(buffer)) && sock.calls >= old(sock.calls)
        invariant failed <==> exists k :: old(sock.calls) <= k < sock.calls && sock.takes(k) < 0
        invariant !failed ==> Valid() && View() == Run(start, ops) && |ops| == i
        invariant !failed ==> forall k :: 0 <= k < i ==> Denotes(calls[k], ops[k])
        invariant !failed ==> taken == AllAccepted(start, ops) && out == AllEmitted(start, ops)
        invariant failed ==> !(Valid() && start.bytes + taken == out + Contents())
        decreases |calls| - i, !failed
      {
        ghost var held, earlier := Contents(), out;
        RunConserves(start, ops);
        var t, o, bad, op := Do(calls[i], sock);
        RunThen(start, ops, op);
        taken, out, failed := taken + t, out + o, bad;
        ops := ops + [op];
        if failed {
          if Valid() && start.bytes + taken == out + Contents() {
            assert o == held[..|o|];
            Completion(earlier, held, |o|, Contents());
          }
        }
        i := i + 1;
      }
      if !failed {
        RunConserves(start, ops);
      }
    }
  }

  // ---------------------------------------------------------------- failing sends

  /** The socket takes one of two bytes. */
  method OneOfTwo(a: bv8, b: bv8, sock: Socket) returns (fifo: IvyFifoBuffer)
    requires sock.takes(sock.calls) == 1
    modifies sock
    ensures fresh(fifo) && fresh(fifo.buffer) && fifo.Valid() && fifo.Contents() == [b] && fifo.rptr == 1
    ensures fifo.buffer[0] == a && fifo.wptr != 0
    ensures sock.sent == old(sock.sent) + [a] && sock.calls == old(sock.calls) + 1
  {
    fifo := new IvyFifoBuffer();
    fifo.Write([a, b]);
    assert fifo.Contents() == [a, b] && fifo.Length() == 2;
    assert fifo.buffer[..][0] == a;
    ghost var total;
    var left;
    left, total := fifo.SendSocket(sock);
  }

  /** Then it fails: the fifo holds both bytes, though the first is out. */
  method HeldAgain(a: bv8, b: bv8, sock: Socket) returns (fifo: IvyFifoBuffer)
    requires sock.takes(sock.calls) == 1 && sock.takes(sock.calls + 1) < 0
    modifies sock
    ensures fresh(fifo) && fresh(fifo.buffer) && fifo.Valid() && fifo.Contents() == [a, b] && fifo.rptr == 0
    ensures sock.sent == old(sock.sent) + [a] && sock.calls == old(sock.calls) + 2
  {
    hide Between;
    fifo := OneOfTwo(a, b, sock);
    ghost var total;
    var left;
    left, total := fifo.SendSocket(sock);
  }

  /** Then it takes the rest: the first byte goes out twice. */
  method SentTwice(a: bv8, b: bv8, sock: Socket) returns (fifo: IvyFifoBuffer)
    requires sock.takes(sock.calls) == 1 && sock.takes(sock.calls + 1) < 0 && sock.takes(sock.calls + 2) >= 2
    modifies sock
    ensures fresh(fifo) && fifo.Valid() && fifo.Contents() == []
    ensures sock.sent == old(sock.sent) + [a, a, b]
  {
    hide Between;
    fifo := HeldAgain(a, b, sock);
    ghost var total;
    var left;
    left, total := fifo.SendSocket(sock);
  }

  /** A send that fails at once loses everything when the ring is full to its last byte. */
  method AllLost(fifo: IvyFifoBuffer, sock: Socket) returns (left: nat)
    requires fifo.Valid() && fifo.rptr > 0 && fifo.Length() == fifo.buffer.Length - 1 && sock.takes(sock.calls) < 0
    modifies fifo`rptr, fifo`full, sock
    ensures left == 0 && fifo.Valid() && fifo.Contents() == [] && sock.sent == old(sock.sent)
  {
    ghost var total;
    left, total := fifo.SendSocket(sock);
  }
}
