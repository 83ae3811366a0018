/**
 The server's client-serving loop (`main` from the `while (TRUE)` on) and its
 SIGINT handler.

 The server handles one connection at a time: read a 4-byte length, read
 that many bytes, count the printable ones, send the count back as 4 bytes,
 and only then fold the connection's histogram into the process total.
 A connection-local error abandons the connection with the total unchanged;
 any other error ends the process with status 1.

 SIGINT is a discrete event. Arriving while the server waits in `accept`
 (no client), the handler prints the report and exits with status 0.
 Arriving while a client is being served, it only sets a flag; the loop
 looks at the flag before its next `accept`. With SA_RESTART the handler
 does not disturb the interrupted `read` or `write`, so all that matters
 about a SIGINT during a connection is that one arrived: the `interrupted`
 field of a session, which `ServeClient` passes to `SigintHandler` in the
 connected state.
 */
module Server {
  import opened Framing
  import opened Transfer
  import opened Counter

  /** Exit statuses of the process. */
  const ExitSuccess: nat := 0
  const ExitFailure: nat := 1

  /** Everything the environment decides about one accepted connection. */
  datatype Session = Session(
    readCalls: seq<ReadCall>,   // outcomes of the `read` calls on this connection, in order
    allocates: bool,        // whether `malloc(data_len)` returns a buffer
    writeCalls: seq<WriteCall>, // outcomes of the `write` calls on this connection, in order
    interrupted: bool       // whether a SIGINT arrived while the connection was open
  )

  /** The step of the exchange at which a connection ended early. */
  datatype Stage = LengthStage | PayloadStage | ReplyStage

  /** How serving one connection ends. */
  datatype Ending =
    | Completed(length: U32, payload: seq<Byte>, count: U32, reply: seq<Byte>)
    | Abandoned(stage: Stage)  // connection-local error: close and go on
    | Fatal(stage: Stage)      // exit(FAILURE)
    | Hung(stage: Stage)       // still waiting in `read` or `write`

  /** What the loop does with a transfer that did not succeed. */
  function Stopped(status: Status, stage: Stage): (e: Ending)
    requires status != Success
    ensures e.Abandoned? <==> status == SpecialError
    ensures e.Fatal? <==> status == Failure
    ensures e.Hung? <==> status == Blocked
    ensures !e.Completed? && e.stage == stage
  {
    match status
    case SpecialError => Abandoned(stage)
    case Failure => Fatal(stage)
    case Blocked => Hung(stage)
  }

  /**
   One connection, from the length read to the reply: lines 188-229 of the
   loop. The payload is what the second read loop placed in its buffer, and
   the reply is the big-endian encoding of the payload's printable count.
   */
  function Serve(s: Session): (e: Ending)
    ensures e.Completed? ==> |e.payload| == e.length
    ensures e.Completed? ==> e.count == CountPrintable(e.payload) && e.count <= e.length
    ensures e.Completed? ==> IsHeader(e.reply) && DecodeU32(e.reply) == e.count
    ensures e.Completed? ==> ReadBytes(HeaderSize, s.readCalls).status == Success
    ensures e.Completed? ==> SendBytes(HeaderSize, s.writeCalls).status == Success
    ensures e.Completed? ==> s.allocates
  {
    var head := ReadBytes(HeaderSize, s.readCalls);
    if head.status != Success then Stopped(head.status, LengthStage)
    else if !s.allocates then Fatal(PayloadStage)
    else Receive(DecodeU32(head.data[..HeaderSize]), s.readCalls[head.used..], s.writeCalls)
  }

  /** Lines 205-216: read the `n` payload bytes, then reply. */
  function Receive(n: U32, readCalls: seq<ReadCall>, writeCalls: seq<WriteCall>): (e: Ending)
    ensures e.Completed? ==> e.length == n && |e.payload| == n
    ensures e.Completed? ==> ReadBytes(n, readCalls).status == Success && e.payload == ReadBytes(n, readCalls).data[..n]
    ensures e.Completed? ==> e.count == CountPrintable(e.payload) && e.count <= n
    ensures e.Completed? ==> IsHeader(e.reply) && DecodeU32(e.reply) == e.count
    ensures e.Completed? ==> SendBytes(HeaderSize, writeCalls).status == Success
    ensures ReadBytes(n, readCalls).status != Success ==> e == Stopped(ReadBytes(n, readCalls).status, PayloadStage)
  {
    var body := ReadBytes(n, readCalls);
    if body.status != Success then Stopped(body.status, PayloadStage)
    else Reply(n, body.data[..n], writeCalls)
  }

  /**
   Lines 218-229: count the payload's printable bytes and send the count
   back as a 4-byte big-endian header.
   */
  function Reply(n: U32, payload: seq<Byte>, writeCalls: seq<WriteCall>): (e: Ending)
    requires |payload| == n
    ensures e.Completed? <==> SendBytes(HeaderSize, writeCalls).status == Success
    ensures e.Completed? ==> e.length == n && e.payload == payload
    ensures e.Completed? ==> e.count == CountPrintable(payload) && e.count <= n
    ensures e.Completed? ==> IsHeader(e.reply) && DecodeU32(e.reply) == e.count
    ensures !e.Completed? ==> e == Stopped(SendBytes(HeaderSize, writeCalls).status, ReplyStage)
  {
    var count: U32 := CountPrintable(payload);
    var reply := EncodeU32(count);
    var sent := SendBytes(HeaderSize, writeCalls);
    if sent.status != Success then Stopped(sent.status, ReplyStage)
    else
      DecodeEncode(count);
      Completed(n, payload, count, reply)
  }

  /**
   When all three transfers succeed and the buffer is allocated, the
   connection completes with the payload the second loop read and the
   encoded count of its printable bytes.
   */
  lemma {:induction false} ServeCompletes(s: Session, n: U32, payload: seq<Byte>)
    requires ReadBytes(HeaderSize, s.readCalls).status == Success
    requires n == DecodeU32(ReadBytes(HeaderSize, s.readCalls).data[..HeaderSize])
    requires s.allocates
    requires ReadBytes(n, s.readCalls[ReadBytes(HeaderSize, s.readCalls).used..]).status == Success
    requires payload == ReadBytes(n, s.readCalls[ReadBytes(HeaderSize, s.readCalls).used..]).data[..n]
    requires SendBytes(HeaderSize, s.writeCalls).status == Success
    ensures Serve(s) == Completed(n, payload, CountPrintable(payload), EncodeU32(CountPrintable(payload)))
  {
  }

  /**
   Each way a connection can end early, with the transfer that caused it:
   the first of the three transfers that does not succeed decides, and a
   failed allocation of the payload buffer is fatal.
   */
  lemma {:induction false} ServeEndsEarly(s: Session)
    ensures var head := ReadBytes(HeaderSize, s.readCalls);
      && (head.status != Success ==> Serve(s) == Stopped(head.status, LengthStage))
      && (head.status == Success && !s.allocates ==> Serve(s) == Fatal(PayloadStage))
      && (head.status == Success && s.allocates ==>
            var body := ReadBytes(DecodeU32(head.data[..HeaderSize]), s.readCalls[head.used..]);
            && (body.status != Success ==> Serve(s) == Stopped(body.status, PayloadStage))
            && (body.status == Success && SendBytes(HeaderSize, s.writeCalls).status != Success ==>
                  Serve(s) == Stopped(SendBytes(HeaderSize, s.writeCalls).status, ReplyStage)))
  {
  }

  /**
   Where the length and the payload sit in the client's byte stream: the
   length is the big-endian value of the first four bytes; and when the
   kernel never returns more than asked, the payload is the `length` bytes
   right after them.
   */
  lemma {:induction false} ServeReadsTheFrame(s: Session)
    ensures Serve(s).Completed? ==>
              && |Delivered(s.readCalls)| >= HeaderSize
              && Serve(s).length == DecodeU32(Delivered(s.readCalls)[..HeaderSize])
    ensures Serve(s).Completed? && HonestReads(HeaderSize, 0, s.readCalls) ==>
              && |Delivered(s.readCalls)| >= HeaderSize + Serve(s).length
              && Serve(s).payload == Delivered(s.readCalls)[HeaderSize..HeaderSize + Serve(s).length]
  {
    if Serve(s).Completed? {
      CompletedReads(s);
      HeaderFirst(s.readCalls);
      if HonestReads(HeaderSize, 0, s.readCalls) {
        PayloadNext(s.readCalls, Serve(s).length);
      }
    }
  }

  /** A completed connection's length is the decoded header and its payload what the second loop read. */
  lemma {:induction false} CompletedReads(s: Session)
    ensures Serve(s).Completed? ==>
            var head := ReadBytes(HeaderSize, s.readCalls);
            && head.status == Success
            && Serve(s).length == DecodeU32(head.data[..HeaderSize])
            && var body := ReadBytes(Serve(s).length, s.readCalls[head.used..]);
            && body.status == Success
            && Serve(s).payload == body.data[..Serve(s).length]
  {
    if Serve(s).Completed? {
      var head := ReadBytes(HeaderSize, s.readCalls);
      var n := DecodeU32(head.data[..HeaderSize]);
      assert Serve(s) == Receive(n, s.readCalls[head.used..], s.writeCalls);
    }
  }

  /** The header loop reads the first four bytes of the stream. */
  lemma {:induction false} HeaderFirst(calls: seq<ReadCall>)
    requires ReadBytes(HeaderSize, calls).status == Success
    ensures |Delivered(calls)| >= HeaderSize
    ensures Delivered(calls)[..HeaderSize] == ReadBytes(HeaderSize, calls).data[..HeaderSize]
  {
    var head := ReadBytes(HeaderSize, calls).data;
    ReadBytesPrefix(HeaderSize, calls);
    PrefixTake(head, Delivered(calls), HeaderSize);
  }

  /** With an honest kernel the payload loop reads the bytes right after the header. */
  lemma {:induction false} PayloadNext(calls: seq<ReadCall>, n: nat)
    requires ReadBytes(HeaderSize, calls).status == Success
    requires ReadBytes(n, calls[ReadBytes(HeaderSize, calls).used..]).status == Success
    requires HonestReads(HeaderSize, 0, calls)
    ensures |Delivered(calls)| >= HeaderSize + n
    ensures Delivered(calls)[HeaderSize..HeaderSize + n] == ReadBytes(n, calls[ReadBytes(HeaderSize, calls).used..]).data[..n]
  {
    var head := ReadBytes(HeaderSize, calls);
    var rest := calls[head.used..];
    var body := ReadBytes(n, rest);
    DeliveredPrefix(calls, head.used);
    ReadBytesPrefix(n, rest);
    ReadBytesExact(HeaderSize, calls);
    FrameSlices(Delivered(calls), head.data, Delivered(rest), body.data, n);
  }

  /**
   A stream made of a 4-byte header followed by the rest continues with the
   first `n` bytes of anything read from the rest.
   */
  lemma {:induction false} FrameSlices(stream: seq<Byte>, header: seq<Byte>, rest: seq<Byte>, body: seq<Byte>, n: nat)
    requires stream == header + rest && |header| == HeaderSize
    requires body <= rest && n <= |body|
    ensures |stream| >= HeaderSize + n && stream[HeaderSize..HeaderSize + n] == body[..n]
  {
    assert stream[HeaderSize..] == rest;
  }

  /** A prefix of a stream agrees with it on its first `n` bytes. */
  lemma {:induction false} PrefixTake(a: seq<Byte>, b: seq<Byte>, n: nat)
    requires a <= b && n <= |a|
    ensures b[..n] == a[..n]
  {
  }

  /** The state of the process between events. */
  datatype Server =
    | Running(total: seq<nat>, pending: bool, active: bool)  // pcc_total, sigint_during_communication, connection >= 0
    | Stuck(total: seq<nat>, pending: bool)                 // blocked for good inside a connection's I/O
    | Exited(code: nat, report: seq<Line>)                  // the process ended; `report` is what it printed

  /** The totals are histograms in every live state. */
  predicate Valid(s: Server) {
    match s
    case Running(total, _, _) => IsHistogram(total)
    case Stuck(total, _) => IsHistogram(total)
    case Exited(_, _) => true
  }

  /** The process after `listen`: totals zero, no flag, no client. */
  function Init(): (s: Server)
    ensures Valid(s) && s.Running? && !s.pending && !s.active
    ensures forall i :: 0 <= i < PrintableCount ==> s.total[i] == 0
  {
    Running(EmptyHistogram(), false, false)
  }

  /**
   `print_printable_char_counter` followed by `exit(SUCCESS)`: the process
   ends, having printed one line per printable character in ascending
   order, each with its total.
   */
  function Shutdown(total: seq<nat>): (s: Server)
    requires IsHistogram(total)
    ensures s.Exited? && s.code == ExitSuccess
    ensures |s.report| == PrintableCount
    ensures forall i :: 0 <= i < PrintableCount ==> s.report[i] == Line((i + MinPrintable) as char, total[i])
  {
    Exited(ExitSuccess, Report(total))
  }

  /**
   `sigint_handler`: with a client connected it only records the request;
   otherwise it prints the report and exits.
   */
  function SigintHandler(s: Server): (t: Server)
    requires Valid(s)
    ensures Valid(t)
    ensures s.Running? && s.active ==> t == Running(s.total, true, true)
    ensures s.Running? && !s.active ==> t == Shutdown(s.total)
    ensures s.Stuck? ==> t == Stuck(s.total, true)
    ensures s.Exited? ==> t == s
  {
    match s
    case Running(total, pending, active) =>
      if active then Running(total, true, active) else Shutdown(total)
    case Stuck(total, _) => Stuck(total, true)
    case Exited(_, _) => s
  }

  /**
   The top of the loop: `connection = NO_CLIENT`, then the deferred
   shutdown if a SIGINT came in while the last client was served.
   */
  function LoopTop(total: seq<nat>, pending: bool): (t: Server)
    requires IsHistogram(total)
    ensures pending ==> t == Shutdown(total)
    ensures !pending ==> t == Running(total, false, false)
  {
    if pending then Shutdown(total) else Running(total, false, false)
  }

  /**
   From `accept` returning a client to the next top of the loop. The total
   grows by the connection's histogram only if the reply went out; a
   connection-local error leaves it as it was. A SIGINT that arrives while
   the client is connected is handed to `SigintHandler` in the connected
   state, and whatever flag the handler leaves is what the top of the loop
   looks at.
   */
  function ServeClient(total: seq<nat>, pending: bool, session: Session): (t: Server)
    requires IsHistogram(total)
    ensures Valid(t)
    ensures Serve(session).Completed? && !pending && !session.interrupted ==>
              t.Running? && !t.pending && !t.active &&
              forall i :: 0 <= i < PrintableCount ==>
                t.total[i] == total[i] + multiset(Serve(session).payload)[i + MinPrintable]
    ensures Serve(session).Abandoned? && !pending && !session.interrupted ==> t == Running(total, false, false)
    ensures Serve(session).Completed? && (pending || session.interrupted) ==>
              t.Exited? && t.code == ExitSuccess && |t.report| == PrintableCount &&
              forall i :: 0 <= i < PrintableCount ==>
                t.report[i].times == total[i] + multiset(Serve(session).payload)[i + MinPrintable]
    ensures Serve(session).Abandoned? && (pending || session.interrupted) ==> t == Shutdown(total)
    ensures Serve(session).Fatal? ==> t == Exited(ExitFailure, [])
    ensures Serve(session).Hung? ==> t.Stuck? && t.total == total
  {
    var connected := Running(total, pending, true);
    var during := if session.interrupted then SigintHandler(connected) else connected;
    match Serve(session)
    case Completed(_, payload, _, _) =>
      TallyCounts(payload);
      LoopTop(UpdateTotal(during.total, Tally(payload)), during.pending)
    case Abandoned(_) => LoopTop(during.total, during.pending)
    case Fatal(_) => Exited(ExitFailure, [])
    case Hung(_) => Stuck(during.total, during.pending)
  }

  /** What can happen to the server next. */
  datatype Event =
    | Interrupt                // SIGINT is delivered
    | Connect(session: Session) // `accept` returns a client
    | AcceptFails              // `accept` returns -1

  /** The server's reaction to one event. */
  function Step(s: Server, ev: Event): (t: Server)
    requires Valid(s)
    ensures Valid(t)
    ensures s.Exited? ==> t == s
    ensures s.Running? && ev.AcceptFails? ==> t == Exited(ExitFailure, [])
    ensures s.Stuck? && !ev.Interrupt? ==> t == s
    ensures s.Stuck? ==> t.Stuck? && t.total == s.total
  {
    match s
    case Exited(_, _) => s
    case Stuck(total, pending) =>
      if ev.Interrupt? then SigintHandler(s) else s
    case Running(total, pending, _) =>
      match ev
      case Interrupt => SigintHandler(s)
      case AcceptFails => Exited(ExitFailure, [])
      case Connect(session) => ServeClient(total, pending, session)
  }

  function Run(s: Server, events: seq<Event>): (t: Server)
    requires Valid(s)
    ensures Valid(t)
    decreases |events|
  {
    if |events| == 0 then s else Run(Step(s, events[0]), events[1..])
  }

  /** Between events the server is waiting in `accept`, with no client and no pending flag. */
  lemma {:induction false} IdleBetweenEvents(s: Server, events: seq<Event>)
    requires Valid(s)
    requires s.Running? ==> !s.pending && !s.active
    ensures Run(s, events).Running? ==> !Run(s, events).pending && !Run(s, events).active
    decreases |events|
  {
    if |events| > 0 {
      IdleBetweenEvents(Step(s, events[0]), events[1..]);
    }
  }

  /** Once the process has exited nothing changes it. */
  lemma {:induction false} ExitIsFinal(s: Server, events: seq<Event>)
    requires s.Exited?
    ensures Run(s, events) == s
    decreases |events|
  {
    if |events| > 0 {
      ExitIsFinal(Step(s, events[0]), events[1..]);
    }
  }

  function Flatten(ps: seq<seq<Byte>>): seq<Byte> {
    if |ps| == 0 then [] else ps[0] + Flatten(ps[1..])
  }

  /**
   The payloads of the connections that completed before the server stopped
   taking clients, in order. It follows the loop's control only: a SIGINT
   while idle, a failed `accept`, a fatal or hung connection, or a connection
   during which a SIGINT arrived, is the last thing that happens.
   */
  function CompletedPayloads(events: seq<Event>): seq<seq<Byte>>
    decreases |events|
  {
    if |events| == 0 then []
    else
      match events[0]
      case Interrupt => []
      case AcceptFails => []
      case Connect(session) =>
        match Serve(session)
        case Completed(_, payload, _, _) =>
          if session.interrupted then [payload] else [payload] + CompletedPayloads(events[1..])
        case Abandoned(_) =>
          if session.interrupted then [] else CompletedPayloads(events[1..])
        case Fatal(_) => []
        case Hung(_) => []
  }

  /** The total a state holds, if it holds one; the report an exited process printed. */
  predicate ShowsTotal(s: Server, total: seq<nat>)
    requires IsHistogram(total)
  {
    match s
    case Running(t, _, _) => t == total
    case Stuck(t, _) => t == total
    case Exited(code, report) => code == ExitSuccess ==> report == Report(total)
  }

  lemma {:induction false} RunFrom(seen: seq<Byte>, events: seq<Event>)
    ensures ShowsTotal(Run(Running(Tally(seen), false, false), events), Tally(seen + Flatten(CompletedPayloads(events))))
    decreases |events|
  {
    var s := Running(Tally(seen), false, false);
    if |events| == 0 {
      assert seen + [] == seen;
    } else {
      var ev, rest := events[0], events[1..];
      assert Run(s, events) == Run(Step(s, ev), rest);
      if ev.Connect? && Serve(ev.session).Completed? && !ev.session.interrupted {
        var payload := Serve(ev.session).payload;
        var later := CompletedPayloads(rest);
        ConnectCompletes(seen, ev.session);
        RunFrom(seen + payload, rest);
        assert CompletedPayloads(events) == [payload] + later;
        FlattenCons(seen, payload, later);
      } else if ev.Connect? && Serve(ev.session).Abandoned? && !ev.session.interrupted {
        ConnectAbandons(seen, ev.session);
        RunFrom(seen, rest);
      } else {
        LastEvent(seen, ev, rest);
        assert CompletedPayloads(events) == LastPayloads(ev);
      }
    }
  }

  lemma {:induction false} FlattenCons(seen: seq<Byte>, payload: seq<Byte>, later: seq<seq<Byte>>)
    ensures seen + Flatten([payload] + later) == (seen + payload) + Flatten(later)
  {
    assert ([payload] + later)[1..] == later;
  }

  /** A connection that completes with no SIGINT pending folds its payload in and waits for the next client. */
  lemma {:induction false} ConnectCompletes(seen: seq<Byte>, session: Session)
    ensures Serve(session).Completed? && !session.interrupted ==>
              Step(Running(Tally(seen), false, false), Connect(session)) ==
              Running(Tally(seen + Serve(session).payload), false, false)
  {
    if Serve(session).Completed? {
      TallyConcat(seen, Serve(session).payload);
    }
  }

  /** A connection abandoned with no SIGINT pending leaves everything as it was. */
  lemma {:induction false} ConnectAbandons(seen: seq<Byte>, session: Session)
    requires Serve(session).Abandoned? && !session.interrupted
    ensures Step(Running(Tally(seen), false, false), Connect(session)) == Running(Tally(seen), false, false)
  {
  }

  /**
   A SIGINT during a connection does not cut it short: the handler only
   defers it, so a connection that completes is still counted and the
   report printed right after it includes its payload, while an abandoned
   one is left out of the report.
   */
  lemma {:induction false} InterruptedConnection(seen: seq<Byte>, session: Session)
    ensures Serve(session).Completed? && session.interrupted ==>
              Step(Running(Tally(seen), false, false), Connect(session)) ==
              Shutdown(Tally(seen + Serve(session).payload))
    ensures Serve(session).Abandoned? && session.interrupted ==>
              Step(Running(Tally(seen), false, false), Connect(session)) == Shutdown(Tally(seen))
  {
    if Serve(session).Completed? {
      TallyConcat(seen, Serve(session).payload);
    }
  }

  /** The completed payloads contributed by an event after which the loop accepts nobody else. */
  function LastPayloads(ev: Event): seq<seq<Byte>> {
    if ev.Connect? && Serve(ev.session).Completed? && ev.session.interrupted then [Serve(ev.session).payload]
    else []
  }

  /** Every other event ends the loop: the state it leaves behind shows the final total for good. */
  lemma {:induction false} LastEvent(seen: seq<Byte>, ev: Event, rest: seq<Event>)
    requires !(ev.Connect? && (Serve(ev.session).Completed? || Serve(ev.session).Abandoned?) && !ev.session.interrupted)
    ensures ShowsTotal(Run(Step(Running(Tally(seen), false, false), ev), rest), Tally(seen + Flatten(LastPayloads(ev))))
  {
    var t := Step(Running(Tally(seen), false, false), ev);
    if ev.Connect? && Serve(ev.session).Completed? {
      TallyConcat(seen, Serve(ev.session).payload);
      assert Flatten(LastPayloads(ev)) == Serve(ev.session).payload;
    } else {
      assert seen + Flatten(LastPayloads(ev)) == seen;
    }
    if t.Stuck? {
      StuckStays(t, rest);
    } else {
      ExitIsFinal(t, rest);
    }
  }

  /** A server blocked inside a connection keeps its total whatever happens. */
  lemma {:induction false} StuckStays(s: Server, events: seq<Event>)
    requires s.Stuck? && IsHistogram(s.total)
    ensures Run(s, events).Stuck? && Run(s, events).total == s.total
    decreases |events|
  {
    if |events| > 0 {
      StuckStays(Step(s, events[0]), events[1..]);
    }
  }

  /**
   The totals the server holds, and the report it prints on a SIGINT, are
   always the histogram of the payloads of completed connections only:
   abandoned connections contribute nothing.
   */
  lemma {:induction false} TotalsCountCompletedConnections(events: seq<Event>)
    ensures ShowsTotal(Run(Init(), events), Tally(Flatten(CompletedPayloads(events))))
  {
    var none: seq<Byte> := [];
    var all := Flatten(CompletedPayloads(events));
    assert Init() == Running(Tally(none), false, false);
    RunFrom(none, events);
    assert none + all == all;
  }
}
