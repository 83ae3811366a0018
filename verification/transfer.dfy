/**
 Exact-length transfers over a stream socket (`read_bytes`, `send_bytes`).

 Each loop keeps calling the underlying primitive until the requested number
 of bytes has moved. The primitive's results are not computed here: they are
 given as a script, one entry per call, in the order the calls are made.
 A read call either delivers some bytes (`Got`, with `Got([])` being the
 0-byte read of a peer that closed) or fails with an errno; a write call
 either reports a byte count (`Put`) or fails with an errno.

 The loops answer SUCCESS, SPECIAL_ERROR (a connection-local failure: the
 server drops only this client) or FAILURE (the server exits). A fourth
 answer, `Blocked`, means the script ran out while the loop still wanted
 bytes: the process is still waiting inside the primitive.
 */
module Transfer {
  import opened Framing

  /** errno values, as on Linux. */
  type Errno = int
  const EPIPE: Errno := 32
  const ECONNRESET: Errno := 104
  const ETIMEDOUT: Errno := 110

  /** `is_it_a_tcp_error`: the errors that only concern the current connection. */
  predicate IsTcpError(errno: Errno)
    ensures IsTcpError(errno) <==> errno == 110 || errno == 104 || errno == 32
  {
    errno == ETIMEDOUT || errno == ECONNRESET || errno == EPIPE
  }

  /** One outcome of `read`: the bytes it delivered, or -1 with an errno. */
  datatype ReadCall = Got(bytes: seq<Byte>) | ReadErr(errno: Errno)

  /** One outcome of `write`: the count it reported, or -1 with an errno. */
  datatype WriteCall = Put(k: nat) | WriteErr(errno: Errno)

  datatype Status = Success | SpecialError | Failure | Blocked

  /** What a loop returns when its primitive failed with `errno`. */
  function ErrorStatus(errno: Errno): (s: Status)
    ensures s == SpecialError <==> IsTcpError(errno)
    ensures s == Failure <==> !IsTcpError(errno)
  {
    if IsTcpError(errno) then SpecialError else Failure
  }

  /** The answer of a read loop, how many calls it made and what it placed in the buffer. */
  datatype Received = Received(status: Status, used: nat, data: seq<Byte>)

  /** The answer of a write loop, how many calls it made and how many bytes they reported. */
  datatype Sent = Sent(status: Status, used: nat, count: nat)

  // ---------------------------------------------------------------- reading

  /** A read call that makes progress: it delivered at least one byte. */
  predicate Progress(c: ReadCall) {
    c.Got? && |c.bytes| > 0
  }

  /** The status a read loop returns on a call that made no progress. */
  function ReadFault(c: ReadCall): Status
    requires !Progress(c)
  {
    match c
    case Got(_) => SpecialError
    case ReadErr(e) => ErrorStatus(e)
  }

  /** The bytes a run of read calls delivered, in order (failed calls deliver none). */
  function Delivered(calls: seq<ReadCall>): seq<Byte> {
    if |calls| == 0 then []
    else (if calls[0].Got? then calls[0].bytes else []) + Delivered(calls[1..])
  }

  lemma {:induction false} DeliveredTake(calls: seq<ReadCall>, j: nat)
    requires 1 <= j <= |calls|
    ensures Delivered(calls[..j]) == (if calls[0].Got? then calls[0].bytes else []) + Delivered(calls[1..][..j - 1])
  {
    assert calls[..j][1..] == calls[1..][..j - 1];
  }

  /** The bytes of two runs of calls, one after the other. */
  lemma {:induction false} DeliveredAppend(a: seq<ReadCall>, b: seq<ReadCall>)
    ensures Delivered(a + b) == Delivered(a) + Delivered(b)
    decreases |a|
  {
    if |a| > 0 {
      assert (a + b)[1..] == a[1..] + b;
      DeliveredAppend(a[1..], b);
    } else {
      assert a + b == b;
    }
  }

  /**
   The loop of `read_bytes` after `got` bytes are already in the buffer.
   Its contract says everything the loop can do: it makes calls while the
   buffer is short, stops with SUCCESS as soon as `len` bytes are in, and
   stops with an error at the first call that delivers nothing.
   */
  function ReadLoop(len: nat, got: seq<Byte>, calls: seq<ReadCall>): (r: Received)
    ensures r.used <= |calls|
    ensures r.data == got + Delivered(calls[..r.used])
    ensures r.status == Success <==> |r.data| >= len
    ensures forall j :: 0 <= j < r.used ==> |got + Delivered(calls[..j])| < len
    ensures forall j :: 0 <= j < r.used - 1 ==> Progress(calls[j])
    ensures r.status == Success || r.status == Blocked ==> forall j :: 0 <= j < r.used ==> Progress(calls[j])
    ensures r.status == Blocked ==> r.used == |calls|
    ensures r.status == SpecialError || r.status == Failure <==> r.used > 0 && !Progress(calls[r.used - 1])
    ensures r.used > 0 && !Progress(calls[r.used - 1]) ==> r.status == ReadFault(calls[r.used - 1])
    decreases |calls|
  {
    if |got| >= len then Received(Success, 0, got)
    else if |calls| == 0 then Received(Blocked, 0, got)
    else
      match calls[0]
      case ReadErr(e) => Received(ErrorStatus(e), 1, got)
      case Got(b) =>
        if |b| == 0 then Received(SpecialError, 1, got)
        else
          var r := ReadLoop(len, got + b, calls[1..]);
          DeliveredTakeAll(calls);
          Received(r.status, r.used + 1, r.data)
  }

  lemma {:induction false} DeliveredTakeAll(calls: seq<ReadCall>)
    requires |calls| > 0 && calls[0].Got?
    ensures forall j :: 1 <= j <= |calls| ==> Delivered(calls[..j]) == calls[0].bytes + Delivered(calls[1..][..j - 1])
  {
    forall j | 1 <= j <= |calls|
      ensures Delivered(calls[..j]) == calls[0].bytes + Delivered(calls[1..][..j - 1])
    {
      DeliveredTake(calls, j);
    }
  }

  /** `read_bytes(fd, buf, len)`: read exactly `len` bytes into an empty buffer. */
  function ReadBytes(len: nat, calls: seq<ReadCall>): (r: Received)
    ensures r.used <= |calls|
    ensures len == 0 ==> r == Received(Success, 0, [])
    ensures r.status == Success ==> |r.data| >= len && forall j :: 0 <= j < r.used ==> Progress(calls[j])
    ensures r.status != Success ==> |r.data| < len
    ensures r.data == Delivered(calls[..r.used])
  {
    ReadLoop(len, [], calls)
  }

  /** The bytes of the first `u` calls are a prefix of the bytes of all of them. */
  lemma {:induction false} DeliveredPrefix(calls: seq<ReadCall>, u: nat)
    requires u <= |calls|
    ensures Delivered(calls[..u]) <= Delivered(calls)
    ensures Delivered(calls) == Delivered(calls[..u]) + Delivered(calls[u..])
  {
    assert calls == calls[..u] + calls[u..];
    DeliveredAppend(calls[..u], calls[u..]);
  }

  /** What `read_bytes` places in its buffer is the start of what its peer sent. */
  lemma {:induction false} ReadBytesPrefix(len: nat, calls: seq<ReadCall>)
    ensures ReadBytes(len, calls).data <= Delivered(calls)
  {
    var r := ReadBytes(len, calls);
    DeliveredPrefix(calls, r.used);
  }

  /**
   The kernel never hands back more than it was asked for: every call of the
   loop that starts with `got` bytes buffered delivers at most what is missing.
   */
  predicate HonestReads(len: nat, got: nat, calls: seq<ReadCall>)
    decreases |calls|
  {
    |calls| == 0 || got >= len ||
    match calls[0]
    case ReadErr(_) => true
    case Got(b) => got + |b| <= len && HonestReads(len, got + |b|, calls[1..])
  }

  /** With an honest kernel, a successful read loop has read exactly `len` bytes. */
  lemma {:induction false} ReadLoopExact(len: nat, got: seq<Byte>, calls: seq<ReadCall>)
    requires |got| <= len
    requires HonestReads(len, |got|, calls)
    ensures ReadLoop(len, got, calls).status == Success ==> |ReadLoop(len, got, calls).data| == len
    decreases |calls|
  {
    if |got| < len && |calls| > 0 && Progress(calls[0]) {
      ReadLoopExact(len, got + calls[0].bytes, calls[1..]);
    }
  }

  /** `read_bytes` answers SUCCESS only once exactly `len` bytes have been read. */
  lemma {:induction false} ReadBytesExact(len: nat, calls: seq<ReadCall>)
    requires HonestReads(len, 0, calls)
    ensures ReadBytes(len, calls).status == Success ==> |ReadBytes(len, calls).data| == len
  {
    ReadLoopExact(len, [], calls);
  }

  /**
   However the peer's bytes are cut into non-empty pieces, reading as many
   bytes as the pieces hold together returns them all, in order, using every call.
   */
  lemma {:induction false} ReadLoopReassembles(got: seq<Byte>, calls: seq<ReadCall>)
    requires forall j :: 0 <= j < |calls| ==> Progress(calls[j])
    ensures ReadLoop(|got| + |Delivered(calls)|, got, calls) == Received(Success, |calls|, got + Delivered(calls))
    decreases |calls|
  {
    var len := |got| + |Delivered(calls)|;
    if |calls| > 0 {
      var b := calls[0].bytes;
      assert Delivered(calls) == b + Delivered(calls[1..]);
      ReadLoopReassembles(got + b, calls[1..]);
      assert (got + b) + Delivered(calls[1..]) == got + Delivered(calls);
    }
  }

  lemma {:induction false} ReadBytesReassembles(data: seq<Byte>, calls: seq<ReadCall>)
    requires forall j :: 0 <= j < |calls| ==> Progress(calls[j])
    requires Delivered(calls) == data
    ensures ReadBytes(|data|, calls) == Received(Success, |calls|, data)
  {
    var none: seq<Byte> := [];
    ReadLoopReassembles(none, calls);
    assert |none| + |Delivered(calls)| == |data|;
    assert none + Delivered(calls) == data;
  }

  // ---------------------------------------------------------------- writing

  /** The byte counts a run of write calls reported (failed calls report none). */
  function Written(calls: seq<WriteCall>): nat {
    if |calls| == 0 then 0
    else (if calls[0].Put? then calls[0].k else 0) + Written(calls[1..])
  }

  lemma {:induction false} WrittenTake(calls: seq<WriteCall>, j: nat)
    requires 1 <= j <= |calls|
    ensures Written(calls[..j]) == (if calls[0].Put? then calls[0].k else 0) + Written(calls[1..][..j - 1])
  {
    assert calls[..j][1..] == calls[1..][..j - 1];
  }

  lemma {:induction false} WrittenTakeAll(calls: seq<WriteCall>)
    requires |calls| > 0 && calls[0].Put?
    ensures forall j :: 1 <= j <= |calls| ==> Written(calls[..j]) == calls[0].k + Written(calls[1..][..j - 1])
  {
    forall j | 1 <= j <= |calls|
      ensures Written(calls[..j]) == calls[0].k + Written(calls[1..][..j - 1])
    {
      WrittenTake(calls, j);
    }
  }

  /**
   The loop of `send_bytes` after `sent` bytes have gone out. Unlike the read
   loop it has no check for a 0-byte result: a write reporting 0 is simply
   followed by another write.
   */
  function SendLoop(len: nat, sent: nat, calls: seq<WriteCall>): (r: Sent)
    ensures r.used <= |calls|
    ensures r.count == sent + Written(calls[..r.used])
    ensures r.status == Success <==> r.count >= len
    ensures forall j :: 0 <= j < r.used ==> sent + Written(calls[..j]) < len
    ensures forall j :: 0 <= j < r.used - 1 ==> calls[j].Put?
    ensures r.status == Success || r.status == Blocked ==> forall j :: 0 <= j < r.used ==> calls[j].Put?
    ensures r.status == Blocked ==> r.used == |calls|
    ensures r.status == SpecialError || r.status == Failure <==> r.used > 0 && calls[r.used - 1].WriteErr?
    ensures r.used > 0 && calls[r.used - 1].WriteErr? ==> r.status == ErrorStatus(calls[r.used - 1].errno)
    decreases |calls|
  {
    if sent >= len then Sent(Success, 0, sent)
    else if |calls| == 0 then Sent(Blocked, 0, sent)
    else
      match calls[0]
      case WriteErr(e) => Sent(ErrorStatus(e), 1, sent)
      case Put(k) =>
        var r := SendLoop(len, sent + k, calls[1..]);
        WrittenTakeAll(calls);
        Sent(r.status, r.used + 1, r.count)
  }

  /** `send_bytes(fd, buf, len)`: write exactly `len` bytes. */
  function SendBytes(len: nat, calls: seq<WriteCall>): (r: Sent)
    ensures r.used <= |calls|
    ensures len == 0 ==> r == Sent(Success, 0, 0)
    ensures r.status == Success ==> r.count >= len && forall j :: 0 <= j < r.used ==> calls[j].Put?
    ensures r.status != Success ==> r.count < len
    ensures r.count == Written(calls[..r.used])
  {
    SendLoop(len, 0, calls)
  }

  /** The kernel never reports more bytes written than it was asked to write. */
  predicate HonestWrites(len: nat, sent: nat, calls: seq<WriteCall>)
    decreases |calls|
  {
    |calls| == 0 || sent >= len ||
    match calls[0]
    case WriteErr(_) => true
    case Put(k) => sent + k <= len && HonestWrites(len, sent + k, calls[1..])
  }

  lemma {:induction false} SendLoopExact(len: nat, sent: nat, calls: seq<WriteCall>)
    requires sent <= len
    requires HonestWrites(len, sent, calls)
    ensures SendLoop(len, sent, calls).status == Success ==> SendLoop(len, sent, calls).count == len
    decreases |calls|
  {
    if sent < len && |calls| > 0 && calls[0].Put? {
      SendLoopExact(len, sent + calls[0].k, calls[1..]);
    }
  }

  /** `send_bytes` answers SUCCESS only once the reported counts add up to exactly `len`. */
  lemma {:induction false} SendBytesExact(len: nat, calls: seq<WriteCall>)
    requires HonestWrites(len, 0, calls)
    ensures SendBytes(len, calls).status == Success ==> SendBytes(len, calls).count == len
  {
    SendLoopExact(len, 0, calls);
  }

  /**
   A write reporting 0 bytes does not end `send_bytes`: the loop makes
   another call and carries on from where it was.
   */
  lemma {:induction false} ZeroWriteRetries(len: nat, calls: seq<WriteCall>)
    requires len > 0
    ensures var r := SendBytes(len, calls);
            SendBytes(len, [Put(0)] + calls) == Sent(r.status, r.used + 1, r.count)
  {
    assert ([Put(0)] + calls)[1..] == calls;
  }

  /** By contrast, a read delivering 0 bytes ends `read_bytes` at once with SPECIAL_ERROR. */
  lemma {:induction false} ZeroReadCloses(len: nat, calls: seq<ReadCall>)
    requires len > 0
    ensures ReadBytes(len, [Got([])] + calls) == Received(SpecialError, 1, [])
  {
  }

  /** So a peer whose writes only ever report 0 keeps `send_bytes` waiting, however many calls it makes. */
  lemma {:induction false} ZeroWritesNeverFinish(len: nat, sent: nat, n: nat)
    requires sent < len
    ensures SendLoop(len, sent, seq(n, _ => Put(0))) == Sent(Blocked, n, sent)
    decreases n
  {
    if n > 0 {
      var calls: seq<WriteCall> := seq(n, _ => Put(0));
      assert calls[1..] == seq(n - 1, _ => Put(0));
      ZeroWritesNeverFinish(len, sent, n - 1);
    }
  }

  // ------------------------------------------------------------ round trip

  /**
   The pieces a run of writes puts on the wire when it sends `data`: the
   write that reports `k` bytes carries the next `k` bytes of `data`. A write
   reporting 0 carries nothing and produces no segment for the receiver.
   */
  function Segments(data: seq<Byte>, calls: seq<WriteCall>): (s: seq<ReadCall>)
    requires forall j :: 0 <= j < |calls| ==> calls[j].Put?
    requires Written(calls) == |data|
    ensures forall j :: 0 <= j < |s| ==> Progress(s[j])
    ensures Delivered(s) == data
    decreases |calls|
  {
    if |calls| == 0 then []
    else
      var k := calls[0].k;
      var rest := Segments(data[k..], calls[1..]);
      assert data == data[..k] + data[k..];
      if k == 0 then rest
      else
        var s := [Got(data[..k])] + rest;
        assert s[1..] == rest;
        s
  }

  /**
   Framing round trip: when `send_bytes` of `data` succeeds on an honest
   kernel, a peer whose reads return exactly the pieces the writes produced
   gets back `data`, whatever its length (0 included).
   */
  lemma {:induction false} SendThenReceive(data: seq<Byte>, calls: seq<WriteCall>)
    requires HonestWrites(|data|, 0, calls)
    requires SendBytes(|data|, calls).status == Success
    ensures var r := SendBytes(|data|, calls);
            Written(calls[..r.used]) == |data| &&
            ReadBytes(|data|, Segments(data, calls[..r.used])).data == data
  {
    var r := SendBytes(|data|, calls);
    SendBytesExact(|data|, calls);
    ReadBytesReassembles(data, Segments(data, calls[..r.used]));
  }
}
