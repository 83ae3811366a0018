/**
 Concrete exchanges between a client and the server, each checked against
 the model of the serving loop.
 */
module Scenarios {
  import opened Framing
  import opened Transfer
  import opened Counter
  import opened Server

  /** The payload "AB\x01C ". */
  const MixedPayload: seq<Byte> := [65, 66, 1, 67, 32]

  /**
   The client announces 5 bytes and sends "AB\x01C ", with both the header
   and the payload split over two reads each and the reply written in two
   pieces.
   */
  const MixedSession: Session :=
    Session([Got([0, 0]), Got([0, 5]), Got([65, 66, 1]), Got([67, 32])], true, [Put(1), Put(3)], false)

  /** The header arrives in two reads of two bytes. */
  lemma {:induction false} MixedHeader()
    ensures ReadBytes(HeaderSize, MixedSession.readCalls) == Received(Success, 2, [0, 0, 0, 5])
  {
    var calls := MixedSession.readCalls;
    var none: seq<Byte> := [];
    assert none + [0, 0] == [0, 0];
    assert ReadLoop(HeaderSize, [0, 0], calls[1..]) == Received(Success, 1, [0, 0, 0, 5]);
    assert ReadLoop(HeaderSize, none, calls) == Received(Success, 2, [0, 0, 0, 5]);
  }

  /** The payload arrives in a read of three bytes and one of two. */
  lemma {:induction false} MixedBody()
    ensures ReadBytes(5, MixedSession.readCalls[2..]) == Received(Success, 2, MixedPayload)
  {
    var calls := MixedSession.readCalls[2..];
    assert calls == [Got([65, 66, 1]), Got([67, 32])];
    var none: seq<Byte> := [];
    assert none + [65, 66, 1] == [65, 66, 1];
    assert ReadLoop(5, [65, 66, 1], calls[1..]) == Received(Success, 1, MixedPayload);
    assert ReadLoop(5, none, calls) == Received(Success, 2, MixedPayload);
  }

  /** The reply goes out in a write of one byte and one of three. */
  lemma {:induction false} MixedReply()
    ensures SendBytes(HeaderSize, MixedSession.writeCalls).status == Success
  {
  }

  /** The server answers 4: everything but \x01 is printable. */
  lemma {:induction false} MixedPayloadCountsFour()
    ensures Serve(MixedSession) == Completed(5, MixedPayload, 4, [0, 0, 0, 4])
  {
    MixedHeader();
    assert DecodeU32([0, 0, 0, 5]) == 5;
    MixedBody();
    assert MixedPayload[..5] == MixedPayload;
    MixedReply();
    ServeCompletes(MixedSession, 5, MixedPayload);
    CountMixed();
    EncodeSmall(4);
  }

  /**
   Any connection that completes with that payload, while no SIGINT is
   pending, bumps the buckets of ' ', 'A', 'B' and 'C' by one and leaves
   the others, 'D' for one, alone.
   */
  lemma {:induction false} MixedPayloadFolds(total: seq<nat>, session: Session)
    requires IsHistogram(total)
    requires Serve(session) == Completed(5, MixedPayload, 4, [0, 0, 0, 4]) && !session.interrupted
    ensures var t := ServeClient(total, false, session);
            && t.Running? && !t.pending && !t.active
            && t.total[' ' as int - MinPrintable] == total[' ' as int - MinPrintable] + 1
            && t.total['A' as int - MinPrintable] == total['A' as int - MinPrintable] + 1
            && t.total['B' as int - MinPrintable] == total['B' as int - MinPrintable] + 1
            && t.total['C' as int - MinPrintable] == total['C' as int - MinPrintable] + 1
            && t.total['D' as int - MinPrintable] == total['D' as int - MinPrintable]
  {
    MixedOccurrences();
  }

  /** How often each byte of interest occurs in "AB\x01C ". */
  lemma {:induction false} MixedOccurrences()
    ensures var m := multiset(MixedPayload);
            m[32] == 1 && m[65] == 1 && m[66] == 1 && m[67] == 1 && m[68] == 0
  {
    var m := multiset(MixedPayload);
    assert m == multiset{65} + multiset{66} + multiset{1} + multiset{67} + multiset{32};
  }

  /** A count below 256 travels as three zero bytes and itself. */
  lemma {:induction false} EncodeSmall(x: U32)
    requires x < 0x100
    ensures EncodeU32(x) == [0, 0, 0, x]
  {
    var b := EncodeU32(x);
    assert b[1] == 0 && b[2] == 0;
  }

  /** Of "AB\x01C ", everything but \x01 is printable. */
  lemma {:induction false} CountMixed()
    ensures CountPrintable(MixedPayload) == 4
  {
    var a: seq<Byte>, b: seq<Byte>, u: seq<Byte>, c: seq<Byte>, sp: seq<Byte> := [65], [66], [1], [67], [32];
    assert MixedPayload == a + b + u + c + sp;
    CountOne(65);
    CountOne(66);
    CountOne(1);
    CountOne(67);
    CountOne(32);
    CountConcat(a, b);
    CountConcat(a + b, u);
    CountConcat(a + b + u, c);
    CountConcat(a + b + u + c, sp);
  }

  /** A length of 0 is valid: nothing more is read and the reply is 0. */
  lemma {:induction false} EmptyPayloadRepliesZero()
    ensures Serve(Session([Got([0, 0, 0, 0])], true, [Put(4)], false)) == Completed(0, [], 0, [0, 0, 0, 0])
  {
    var s := Session([Got([0, 0, 0, 0])], true, [Put(4)], false);
    EmptyHeader();
    assert DecodeU32([0, 0, 0, 0]) == 0;
    assert ReadBytes(0, s.readCalls[1..]) == Received(Success, 0, []);
    ServeCompletes(s, 0, []);
    assert CountPrintable([]) == 0;
    EncodeSmall(0);
  }

  lemma {:induction false} EmptyHeader()
    ensures ReadBytes(HeaderSize, [Got([0, 0, 0, 0])]) == Received(Success, 1, [0, 0, 0, 0])
    ensures SendBytes(HeaderSize, [Put(4)]).status == Success
  {
  }

  /** A connection that completes with length 0 leaves every bucket as it was. */
  lemma {:induction false} ZeroLengthKeepsTotal(total: seq<nat>, session: Session)
    requires IsHistogram(total)
    requires Serve(session).Completed? && Serve(session).length == 0 && !session.interrupted
    ensures ServeClient(total, false, session) == Running(total, false, false)
  {
    var t := ServeClient(total, false, session);
    assert forall i :: 0 <= i < PrintableCount ==> t.total[i] == total[i];
  }

  /**
   The client announces 10 bytes, sends 3 and closes: the 0-byte read
   abandons the connection, so the total is unchanged and the server goes
   back to `accept`.
   */
  lemma {:induction false} PeerClosesMidPayload()
    ensures Serve(Session([Got([0, 0, 0, 10]), Got([72, 105, 33]), Got([])], true, [], false)) == Abandoned(PayloadStage)
  {
    var s := Session([Got([0, 0, 0, 10]), Got([72, 105, 33]), Got([])], true, [], false);
    ClosingReads();
    assert DecodeU32([0, 0, 0, 10]) == 10;
    assert s.readCalls[1..] == [Got([72, 105, 33]), Got([])];
    ServeEndsEarly(s);
  }

  lemma {:induction false} ClosingReads()
    ensures ReadBytes(HeaderSize, [Got([0, 0, 0, 10]), Got([72, 105, 33]), Got([])]) == Received(Success, 1, [0, 0, 0, 10])
    ensures ReadBytes(10, [Got([72, 105, 33]), Got([])]).status == SpecialError
  {
  }

  /**
   The peer resets the connection while the count is being sent back: the
   payload was counted, but the connection is abandoned and not folded in.
   */
  lemma {:induction false} ResetDuringReply()
    ensures Serve(Session([Got([0, 0, 0, 1]), Got([65])], true, [WriteErr(ECONNRESET)], false)) == Abandoned(ReplyStage)
  {
    var s := Session([Got([0, 0, 0, 1]), Got([65])], true, [WriteErr(ECONNRESET)], false);
    ResetTransfers();
    assert DecodeU32([0, 0, 0, 1]) == 1;
    assert s.readCalls[1..] == [Got([65])];
    ServeEndsEarly(s);
  }

  lemma {:induction false} ResetTransfers()
    ensures ReadBytes(HeaderSize, [Got([0, 0, 0, 1]), Got([65])]) == Received(Success, 1, [0, 0, 0, 1])
    ensures ReadBytes(1, [Got([65])]).status == Success
    ensures SendBytes(HeaderSize, [WriteErr(ECONNRESET)]).status == SpecialError
  {
  }

  /** A read failing with EBADF (9), which is not a TCP error, is fatal: the process exits with status 1. */
  lemma {:induction false} BadDescriptorIsFatal(total: seq<nat>)
    requires IsHistogram(total)
    ensures Serve(Session([ReadErr(9)], true, [], false)) == Fatal(LengthStage)
    ensures ServeClient(total, false, Session([ReadErr(9)], true, [], false)) == Exited(ExitFailure, [])
  {
  }

  /** A SIGINT while the server waits in `accept` reports the totals at once. */
  lemma {:induction false} InterruptWhileIdle(total: seq<nat>)
    requires IsHistogram(total)
    ensures var t := Step(Running(total, false, false), Interrupt);
            && t.Exited? && t.code == ExitSuccess
            && forall i :: 0 <= i < PrintableCount ==> t.report[i] == Line((i + MinPrintable) as char, total[i])
  {
  }
}
