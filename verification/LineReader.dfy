/** Reading one line from a client socket (server/sock_thread.c) into a buffer that doubles when it is full. */
module LineReader {
  import opened Sequences
  import opened CommandLog

  const BUFLEN: nat := 1024

  /** The largest buffer whose doubling still fits in an `int`. */
  const MAX_BUFSIZE: nat := 0x4000_0000

  /** The line a byte stream starts with: up to and including the first newline, else all of it. */
  function LineOf(stream: seq<byte>): seq<byte> {
    if stream == [] then []
    else if stream[0] == NEWLINE then [NEWLINE]
    else [stream[0]] + LineOf(stream[1..])
  }

  lemma {:induction false} LineOfIsLine(stream: seq<byte>)
    ensures LineOf(stream) <= stream
    ensures IsLine(LineOf(stream))
    ensures EndsLine(LineOf(stream)) || (LineOf(stream) == stream && NoNewlineBefore(stream, |stream|))
  {
    if stream != [] && stream[0] != NEWLINE {
      LineOfIsLine(stream[1..]);
      assert stream == [stream[0]] + stream[1..];
    }
  }

  predicate NoNewlineBefore(stream: seq<byte>, n: nat) {
    n <= |stream| && forall j :: 0 <= j < n ==> stream[j] != NEWLINE
  }

  /** A stream known to have no newline in its first `n` bytes and one right after them. */
  lemma {:induction false} LineEndsAt(stream: seq<byte>, n: nat)
    requires n < |stream| && NoNewlineBefore(stream, n) && stream[n] == NEWLINE
    ensures LineOf(stream) == stream[..n + 1]
  {
    if n > 0 {
      LineEndsAt(stream[1..], n - 1);
      assert stream[..n + 1] == [stream[0]] + stream[1..][..n];
    }
  }

  /** The connection: what the client will send until it shuts down, whether a receive has failed, and whether
      the descriptor is still open. */
  class Socket {
    var incoming: seq<byte>
    var failed: bool
    var sent: seq<byte>
    var isOpen: bool

    constructor (stream: seq<byte>)
      ensures incoming == stream && !failed && sent == [] && isOpen
    {
      incoming, failed, sent, isOpen := stream, false, [], true;
    }

    /** A receive needs room.  It delivers any nonempty part of what is left that fits, nothing once all
        has been delivered, or fails (-1). */
    method Recv(buf: array<byte>, offset: nat, room: nat) returns (n: int)
      requires isOpen && room > 0 && offset + room <= buf.Length
      modifies this`incoming, this`failed, buf
      ensures n == -1 ==> failed && incoming == old(incoming)
      ensures n != -1 ==>
        && failed == old(failed)
        && 0 <= n <= room && n <= |old(incoming)|
        && (n == 0 <==> old(incoming) == [])
        && (forall i :: 0 <= i < n ==> buf[offset + i] == old(incoming)[i])
        && incoming == old(incoming)[n..]
      ensures forall i :: 0 <= i < offset ==> buf[i] == old(buf[i])
    {
      if * {
        failed := true;
        return -1;
      }
      if incoming == [] {
        return 0;
      }
      n :| 1 <= n <= room && n <= |incoming|;
      forall i | 0 <= i < n {
        buf[offset + i] := incoming[i];
      }
      incoming := incoming[n..];
    }

    /** A send takes any nonempty part of what is offered. */
    method Send(bytes: seq<byte>) returns (n: nat)
      requires isOpen && bytes != []
      modifies this`sent
      ensures 1 <= n <= |bytes|
      ensures sent == old(sent) + bytes[..n]
    {
      n :| 1 <= n <= |bytes|;
      sent := sent + bytes[..n];
    }

    /** close, which needs an open descriptor. */
    method Close()
      requires isOpen
      modifies this`isOpen
      ensures !isOpen
    {
      isOpen := false;
    }
  }

  /** User memory: an allocation may fail. */
  class UserMemory {
    var failed: bool

    constructor ()
      ensures !failed
    {
      failed := false;
    }

    method Malloc(n: nat) returns (buf: array?<byte>)
      modifies this
      ensures buf == null ==> failed
      ensures buf != null ==> fresh(buf) && buf.Length == n && failed == old(failed)
    {
      if * {
        failed := true;
        return null;
      }
      buf := new byte[n];
    }

    method Realloc(buf: array<byte>, n: nat) returns (bigger: array?<byte>)
      requires buf.Length <= n
      modifies this
      ensures bigger == null ==> failed
      ensures bigger != null ==> fresh(bigger) && bigger.Length == n && failed == old(failed)
      ensures bigger != null ==> forall i :: 0 <= i < buf.Length ==> bigger[i] == buf[i]
    {
      if * {
        failed := true;
        return null;
      }
      bigger := new byte[n];
      forall i | 0 <= i < buf.Length {
        bigger[i] := buf[i];
      }
    }
  }

  /** `Overflowed` is where the C code doubles an `int` beyond its range, which is undefined. */
  datatype ReadResult = Line(buf: array<byte>, size: nat) | Failed | Overflowed

  function Pow2(k: nat): (n: nat)
    ensures n > 0
  {
    if k == 0 then 1 else 2 * Pow2(k - 1)
  }

  lemma {:induction false} Pow2Increases(j: nat, k: nat)
    requires j < k
    ensures 2 * Pow2(j) <= Pow2(k)
    decreases k
  {
    if j < k - 1 {
      Pow2Increases(j, k - 1);
    }
  }

  /** A buffer that was doubled `k` times without overflowing. */
  predicate DoubledBuflen(n: nat, k: nat) {
    n == BUFLEN * Pow2(k) && n <= MAX_BUFSIZE
  }

  lemma DoublingStaysInRange(n: nat, k: nat)
    requires DoubledBuflen(n, k) && n != MAX_BUFSIZE
    ensures DoubledBuflen(2 * n, k + 1)
  {
    assert Pow2(4) == 16 && Pow2(8) == 16 * Pow2(4) && Pow2(12) == 16 * Pow2(8);
    assert Pow2(16) == 16 * Pow2(12) && Pow2(20) == 16 * Pow2(16);
    if k < 20 {
      Pow2Increases(k, 20);
    } else if k > 20 {
      Pow2Increases(20, k);
    }
  }

  /** What one scanned chunk tells about the stream. */
  lemma ChunkScanned(stream: seq<byte>, offset: nat, n: nat, i: nat)
    requires offset <= i <= offset + n <= |stream|
    requires NoNewlineBefore(stream, offset)
    requires forall j :: offset <= j < i ==> stream[j] != NEWLINE
    requires i < offset + n ==> stream[i] == NEWLINE
    ensures i < offset + n ==> LineOf(stream) == stream[..i + 1]
    ensures NoNewlineBefore(stream, i)
  {
    if i < offset + n {
      LineEndsAt(stream, i);
    }
  }

  /** A receive behind the `offset` bytes already there: the buffer then holds the first `to` bytes. */
  method RecvMore(sock: Socket, buf: array<byte>, offset: nat, ghost stream: seq<byte>) returns (n: int, ghost to: nat)
    requires sock.isOpen && offset < buf.Length && offset <= |stream| && sock.incoming == stream[offset..]
    requires forall j :: 0 <= j < offset ==> buf[j] == stream[j]
    modifies sock`incoming, sock`failed, buf
    ensures n == -1 ==> sock.failed
    ensures n != -1 ==>
      && sock.failed == old(sock.failed)
      && to == offset + n && offset <= to <= buf.Length && to <= |stream|
      && (n == 0 ==> to == |stream|) && sock.incoming == stream[to..]
      && forall j :: 0 <= j < to ==> buf[j] == stream[j]
  {
    n := sock.Recv(buf, offset, buf.Length - offset);
    if n != -1 {
      to := offset + n;
      assert forall j :: offset <= j < to ==> buf[j] == buf[offset + (j - offset)] == stream[j];
    } else {
      to := offset;
    }
  }

  /** Whatever the sizes in which the stream arrives, the line read depends only on the stream: through the
      first newline, else all of it at close.  Without a failed call it is undefined exactly when the first
      2^30 bytes have arrived without a newline. */
  method ReadlineFromSocket(sock: Socket, mem: UserMemory) returns (r: ReadResult)
    requires sock.isOpen && !sock.failed && !mem.failed
    modifies sock`incoming, sock`failed, mem
    ensures r.Failed? <==> sock.failed || mem.failed
    ensures r.Line? ==>
      && fresh(r.buf) && r.size <= r.buf.Length
      && r.buf[..r.size] == LineOf(old(sock.incoming))
      && (exists k :: DoubledBuflen(r.buf.Length, k))
      && (r.buf.Length == BUFLEN || r.buf.Length <= 2 * r.size)
    ensures !r.Failed? ==>
      (r.Overflowed? <==> NoNewlineBefore(old(sock.incoming), MAX_BUFSIZE))
  {
    ghost var stream := sock.incoming;
    ghost var doublings: nat := 0;
    var bufsize := BUFLEN;
    var first := mem.Malloc(BUFLEN);
    if first == null {
      return Failed;
    }
    var buf: array<byte> := first;
    var offset := 0;
    while true
      invariant !sock.failed && !mem.failed
      invariant fresh(buf) && buf.Length == bufsize && DoubledBuflen(bufsize, doublings)
      invariant 0 <= offset < bufsize && (bufsize == BUFLEN || bufsize <= 2 * offset)
      invariant NoNewlineBefore(stream, offset) && sock.incoming == stream[offset..]
      invariant forall j :: 0 <= j < offset ==> buf[j] == stream[j]
      decreases |sock.incoming|
    {
      var n, to := RecvMore(sock, buf, offset, stream);
      if n == -1 {
        return Failed;
      }
      if n == 0 {
        NoNewlineLine(stream);
        return Line(buf, offset);
      }
      var eol := IndexOfNewline(buf, offset, n);
      ChunkScanned(stream, offset, n, eol);
      if eol < offset + n {
        return Line(buf, eol + 1);
      }
      offset := offset + n;
      if offset == bufsize {
        if bufsize == MAX_BUFSIZE {
          return Overflowed;
        }
        DoublingStaysInRange(bufsize, doublings);
        doublings := doublings + 1;
        bufsize := bufsize * 2;
        var newbuf := mem.Realloc(buf, bufsize);
        if newbuf == null {
          return Failed;
        }
        buf := newbuf;
      }
    }
  }

  lemma NoNewlineLine(stream: seq<byte>)
    requires NoNewlineBefore(stream, |stream|)
    ensures LineOf(stream) == stream
  {
    LineOfIsLine(stream);
  }

  /** memchr: the first newline among the `n` bytes at `offset`, or the end of that stretch. */
  method IndexOfNewline(buf: array<byte>, offset: nat, n: nat) returns (i: nat)
    requires offset + n <= buf.Length
    ensures offset <= i <= offset + n
    ensures forall j :: offset <= j < i ==> buf[j] != NEWLINE
    ensures i < offset + n ==> buf[i] == NEWLINE
  {
    i := offset;
    while i < offset + n && buf[i] != NEWLINE
      invariant offset <= i <= offset + n
      invariant forall j :: offset <= j < i ==> buf[j] != NEWLINE
    {
      i := i + 1;
    }
  }
}
