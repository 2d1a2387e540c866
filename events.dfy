/**
 * The event loop of usbf_handle_events: while the control file polls
 * readable, read one 12-byte FunctionFS event record and dispatch it. A
 * SETUP record goes to the setup handler, or, when there is none, is
 * stalled with a zero-length call; any other record goes to the event
 * handler. The loop returns the first non-zero result.
 *
 * poll, read and write are not performed: each pass of the loop is a
 * Round that says what they return, and the loop's calls are recorded as
 * Steps. A finite queue of rounds stands for the environment; when it is
 * exhausted, poll is taken to report nothing pending.
 */
module Events {
  import opened Wrappers
  import opened Bytes
  import opened Consts
  import opened Dispatch

  /** A FunctionFS event record: the SETUP packet, the type byte, three pad bytes. */
  type EventRecord = s: seq<byte> | |s| == EVENT_SIZE witness [0, 0, 0, 0, 0, 0, 0, 0, 0, 0, 0, 0]

  /** The SETUP packet as it travels on the wire: two bytes, then three little-endian words. */
  function EncodeSetup(req: SetupRequest): (r: seq<byte>)
    ensures |r| == 8
  {
    [req.bRequestType, req.bRequest] + Le16(req.wValue) + Le16(req.wIndex) + Le16(req.wLength)
  }

  /** The decoding of usbf_handle_events: the two bytes copied, the three words converted from little-endian. */
  function DecodeSetup(packet: seq<byte>, ep0File: int): (req: SetupRequest)
    requires |packet| >= 8
    ensures req.bRequestType == packet[0] && req.bRequest == packet[1] && req.ep0File == ep0File
    ensures req.wValue == packet[2] as int + 0x100 * packet[3] as int
    ensures req.wIndex == packet[4] as int + 0x100 * packet[5] as int
    ensures req.wLength == packet[6] as int + 0x100 * packet[7] as int
  {
    SetupRequest(packet[0], packet[1], DecodeLe16(packet[2..4]), DecodeLe16(packet[4..6]),
                 DecodeLe16(packet[6..8]), ep0File)
  }

  /** Decoding a packet that was encoded from a request gives the request back, whatever follows it. */
  lemma SetupRoundTrip(req: SetupRequest, rest: seq<byte>)
    ensures DecodeSetup(EncodeSetup(req) + rest, req.ep0File) == req
  {
    var p := EncodeSetup(req) + rest;
    assert p[2..4] == Le16(req.wValue) && p[4..6] == Le16(req.wIndex) && p[6..8] == Le16(req.wLength);
    Le16RoundTrip(req.wValue);
    Le16RoundTrip(req.wIndex);
    Le16RoundTrip(req.wLength);
  }

  /** Every 8-byte packet is the encoding of what it decodes to. */
  lemma SetupCanonical(packet: seq<byte>, ep0File: int)
    requires |packet| >= 8
    ensures EncodeSetup(DecodeSetup(packet, ep0File)) == packet[..8]
  {
    Le16Canonical(packet[2..4]);
    Le16Canonical(packet[4..6]);
    Le16Canonical(packet[6..8]);
    assert packet[..8] == packet[..2] + packet[2..4] + packet[4..6] + packet[6..8];
  }

  /** The event type byte of a record. */
  function EventType(record: EventRecord): (t: int)
    ensures 0 <= t < 0x100 && t == record[EVENT_TYPE_OFFSET]
  {
    record[EVENT_TYPE_OFFSET]
  }

  /**
   * What the environment answers during one pass of the loop: poll's
   * result and whether it reported POLLIN, the event read's result and the
   * record it left in the buffer, and the result of the zero-length call
   * made when a SETUP record finds no handler.
   */
  datatype Round = Round(poll: int, pollIn: bool, readRet: int, record: EventRecord, ioRet: int)

  /** One call the loop makes, with its result. */
  datatype Step =
    | Poll(fd: int, ret: int, pollIn: bool)
    | ReadEvent(fd: int, len: nat, ret: int)
    | StatusIo(req: SetupRequest, op: IoOp, ret: int)
    | SetupCall(req: SetupRequest, ret: int)
    | EventCall(eventType: int, ret: int)

  /** The loop's result and its calls. */
  datatype Drained = Drained(ret: int, steps: seq<Step>)

  /** One pass of the loop: its calls, whether the loop returns, and what it returns then. */
  datatype Pass = Pass(steps: seq<Step>, stop: bool, ret: int)

  /**
   * The zero-length call made for a SETUP record without a handler:
   * a read when bRequestType has USB_DIR_IN, a write otherwise.
   */
  function NoHandlerCall(req: SetupRequest): IoOp
  {
    if (req.bRequestType as bv8) & USB_DIR_IN != 0 then ReadOp(req.ep0File, 0) else WriteOp(req.ep0File, 0)
  }

  /**
   * One pass: poll; stop with 0 unless it reported POLLIN; read a record,
   * stopping with a negative read result; then dispatch on the type. A
   * non-SETUP record with no event handler leaves the read count as the
   * result, which stops the loop unless it is 0.
   */
  function HandleRound(r: Round, ep0: int, eventHandler: Option<int -> int>,
                       setupHandler: Option<SetupRequest -> int>): Pass
  {
    var polled := [Poll(ep0, r.poll, r.pollIn)];
    if r.poll == 0 || !r.pollIn then Pass(polled, true, 0)
    else
      var read := polled + [ReadEvent(ep0, EVENT_SIZE, r.readRet)];
      if r.readRet < 0 then Pass(read, true, r.readRet)
      else if EventType(r.record) == FUNCTIONFS_SETUP then
        var req := DecodeSetup(r.record, ep0);
        if setupHandler.None? then
          Pass(read + [StatusIo(req, NoHandlerCall(req), r.ioRet)], r.ioRet != 0, r.ioRet)
        else
          var h := setupHandler.value(req);
          Pass(read + [SetupCall(req, h)], h != 0, h)
      else if eventHandler.Some? then
        var h := eventHandler.value(EventType(r.record));
        Pass(read + [EventCall(EventType(r.record), h)], h != 0, h)
      else Pass(read, r.readRet != 0, r.readRet)
  }

  /** usbf_handle_events over a queue of rounds, on control file `ep0`. */
  function Drain(rounds: seq<Round>, ep0: int, eventHandler: Option<int -> int>,
                 setupHandler: Option<SetupRequest -> int>): Drained
    decreases |rounds|
  {
    if rounds == [] then Drained(0, [])
    else
      var p := HandleRound(rounds[0], ep0, eventHandler, setupHandler);
      if p.stop then Drained(p.ret, p.steps)
      else
        var rest := Drain(rounds[1..], ep0, eventHandler, setupHandler);
        Drained(rest.ret, p.steps + rest.steps)
  }

  /** The zero-length call for a handler-less SETUP is a stall, never an acknowledgement. */
  lemma NoHandlerCallStalls(req: SetupRequest)
    ensures NoHandlerCall(req) == Stall(req) && NoHandlerCall(req) != Ack(req)
  {
  }

  /**
   * What each step says about where it went: polls and reads on the
   * control file, reads of one whole record, handler-less SETUPs stalled,
   * requests carrying the control file, and no SETUP type handed to the
   * event handler.
   */
  predicate OnControlFile(s: Step, ep0: int)
  {
    match s
    case Poll(fd, _, _) => fd == ep0
    case ReadEvent(fd, len, _) => fd == ep0 && len == EVENT_SIZE
    case StatusIo(req, op, _) => req.ep0File == ep0 && op == Stall(req)
    case SetupCall(req, _) => req.ep0File == ep0
    case EventCall(t, _) => t != FUNCTIONFS_SETUP
  }

  /** A step whose result the loop checks against zero. */
  predicate Checked(s: Step)
  {
    s.StatusIo? || s.SetupCall? || s.EventCall?
  }

  /** Only the handlers that are present are called, and stalls happen only without a setup handler. */
  predicate Permitted(s: Step, eventHandler: Option<int -> int>, setupHandler: Option<SetupRequest -> int>)
  {
    && (s.SetupCall? ==> setupHandler.Some?)
    && (s.StatusIo? ==> setupHandler.None?)
    && (s.EventCall? ==> eventHandler.Some?)
  }

  /** One pass keeps to the control file, calls only present handlers, and stops on a failure. */
  lemma RoundFacts(r: Round, ep0: int, eventHandler: Option<int -> int>, setupHandler: Option<SetupRequest -> int>)
    ensures var p := HandleRound(r, ep0, eventHandler, setupHandler);
            && 1 <= |p.steps| <= 3
            && (forall i | 0 <= i < |p.steps| :: OnControlFile(p.steps[i], ep0))
            && (forall i | 0 <= i < |p.steps| :: Permitted(p.steps[i], eventHandler, setupHandler))
            && (forall i | 0 <= i < |p.steps| - 1 :: !Checked(p.steps[i]))
            && (forall i | 0 <= i < |p.steps| :: p.steps[i].ReadEvent? ==> p.steps[i].ret >= 0 || p.stop)
            && (p.stop && p.ret != 0 ==> p.ret == p.steps[|p.steps| - 1].ret)
            && (!p.stop ==> p.ret == 0 && (Checked(p.steps[|p.steps| - 1]) ==> p.steps[|p.steps| - 1].ret == 0))
    ensures var p := HandleRound(r, ep0, eventHandler, setupHandler);
            && ((r.poll == 0 || !r.pollIn) ==> p == Pass([Poll(ep0, r.poll, r.pollIn)], true, 0))
            && (p.stop <==> r.poll == 0 || !r.pollIn || p.ret != 0)
  {
    NoHandlerCallStalls(DecodeSetup(r.record, ep0));
  }

  /**
   * What a pass that poll reported input for does with the record: a
   * failed read is returned; a SETUP record is stalled without a setup
   * handler, its result returned, or handed to the setup handler; any other
   * record goes to the event handler, and without one the read's byte count
   * is the result. Together with RoundFacts, the loop goes on exactly when
   * that result is 0.
   */
  lemma RoundOutcome(r: Round, ep0: int, eventHandler: Option<int -> int>, setupHandler: Option<SetupRequest -> int>)
    ensures var p := HandleRound(r, ep0, eventHandler, setupHandler);
            var read := [Poll(ep0, r.poll, r.pollIn), ReadEvent(ep0, EVENT_SIZE, r.readRet)];
            var got := r.poll != 0 && r.pollIn;
            var req := DecodeSetup(r.record, ep0);
            var t := EventType(r.record);
            && (got && r.readRet < 0 ==> p == Pass(read, true, r.readRet))
            && (got && r.readRet >= 0 && t == FUNCTIONFS_SETUP && setupHandler.None? ==>
                  p == Pass(read + [StatusIo(req, Stall(req), r.ioRet)], r.ioRet != 0, r.ioRet))
            && (got && r.readRet >= 0 && t == FUNCTIONFS_SETUP && setupHandler.Some? ==>
                  p.steps == read + [SetupCall(req, setupHandler.value(req))] && p.ret == setupHandler.value(req))
            && (got && r.readRet >= 0 && t != FUNCTIONFS_SETUP && eventHandler.Some? ==>
                  p.steps == read + [EventCall(t, eventHandler.value(t))] && p.ret == eventHandler.value(t))
            && (got && r.readRet >= 0 && t != FUNCTIONFS_SETUP && eventHandler.None? ==>
                  p == Pass(read, r.readRet != 0, r.readRet))
  {
    NoHandlerCallStalls(DecodeSetup(r.record, ep0));
  }

  /** The calls of a run of passes, one after the other. */
  function Passes(rounds: seq<Round>, ep0: int, eventHandler: Option<int -> int>,
                  setupHandler: Option<SetupRequest -> int>): seq<Step>
    decreases |rounds|
  {
    if rounds == [] then []
    else HandleRound(rounds[0], ep0, eventHandler, setupHandler).steps + Passes(rounds[1..], ep0, eventHandler, setupHandler)
  }

  /**
   * The loop goes on past every pass that does not stop it: after k such
   * passes it has made their calls, and what follows is the drain of the
   * remaining rounds.
   */
  lemma {:induction false} DrainPrefix(rounds: seq<Round>, k: nat, ep0: int, eventHandler: Option<int -> int>,
                                       setupHandler: Option<SetupRequest -> int>)
    requires k <= |rounds|
    requires forall j | 0 <= j < k :: !HandleRound(rounds[j], ep0, eventHandler, setupHandler).stop
    ensures var rest := Drain(rounds[k..], ep0, eventHandler, setupHandler);
            Drain(rounds, ep0, eventHandler, setupHandler) ==
            Drained(rest.ret, Passes(rounds[..k], ep0, eventHandler, setupHandler) + rest.steps)
    decreases k
  {
    if k == 0 {
      assert rounds[..0] == [] && rounds[0..] == rounds;
    } else {
      var tail := rounds[1..];
      NoStopShift(rounds, k, ep0, eventHandler, setupHandler);
      DrainPrefix(tail, k - 1, ep0, eventHandler, setupHandler);
      assert tail[k - 1..] == rounds[k..];
      DrainUnfold(rounds, ep0, eventHandler, setupHandler);
      PassesCons(rounds, k, ep0, eventHandler, setupHandler);
      Glue(Drain(rounds, ep0, eventHandler, setupHandler), Drain(tail, ep0, eventHandler, setupHandler),
           Drain(rounds[k..], ep0, eventHandler, setupHandler),
           HandleRound(rounds[0], ep0, eventHandler, setupHandler).steps,
           Passes(tail[..k - 1], ep0, eventHandler, setupHandler));
    }
  }

  lemma Glue(whole: Drained, after: Drained, rest: Drained, first: seq<Step>, later: seq<Step>)
    requires whole == Drained(after.ret, first + after.steps)
    requires after == Drained(rest.ret, later + rest.steps)
    ensures whole == Drained(rest.ret, (first + later) + rest.steps)
  {
    assert first + (later + rest.steps) == (first + later) + rest.steps;
  }

  lemma NoStopShift(rounds: seq<Round>, k: nat, ep0: int, eventHandler: Option<int -> int>,
                    setupHandler: Option<SetupRequest -> int>)
    requires 0 < k <= |rounds|
    requires forall j | 0 <= j < k :: !HandleRound(rounds[j], ep0, eventHandler, setupHandler).stop
    ensures !HandleRound(rounds[0], ep0, eventHandler, setupHandler).stop
    ensures forall j | 0 <= j < k - 1 :: !HandleRound(rounds[1..][j], ep0, eventHandler, setupHandler).stop
  {
    forall j | 0 <= j < k - 1
      ensures !HandleRound(rounds[1..][j], ep0, eventHandler, setupHandler).stop
    {
      assert rounds[1..][j] == rounds[j + 1];
    }
  }

  lemma PassesCons(rounds: seq<Round>, k: nat, ep0: int, eventHandler: Option<int -> int>,
                   setupHandler: Option<SetupRequest -> int>)
    requires 0 < k <= |rounds|
    ensures Passes(rounds[..k], ep0, eventHandler, setupHandler) ==
            HandleRound(rounds[0], ep0, eventHandler, setupHandler).steps + Passes(rounds[1..][..k - 1], ep0, eventHandler, setupHandler)
  {
    assert rounds[..k][0] == rounds[0] && rounds[..k][1..] == rounds[1..][..k - 1];
    PassesUnfold(rounds[..k], ep0, eventHandler, setupHandler);
  }

  /** A pass that does not stop is followed by the drain of the remaining rounds. */
  lemma DrainUnfold(rounds: seq<Round>, ep0: int, eventHandler: Option<int -> int>,
                    setupHandler: Option<SetupRequest -> int>)
    requires rounds != [] && !HandleRound(rounds[0], ep0, eventHandler, setupHandler).stop
    ensures var rest := Drain(rounds[1..], ep0, eventHandler, setupHandler);
            Drain(rounds, ep0, eventHandler, setupHandler) ==
            Drained(rest.ret, HandleRound(rounds[0], ep0, eventHandler, setupHandler).steps + rest.steps)
  {
  }

  lemma PassesUnfold(rounds: seq<Round>, ep0: int, eventHandler: Option<int -> int>,
                     setupHandler: Option<SetupRequest -> int>)
    requires rounds != []
    ensures Passes(rounds, ep0, eventHandler, setupHandler) ==
            HandleRound(rounds[0], ep0, eventHandler, setupHandler).steps + Passes(rounds[1..], ep0, eventHandler, setupHandler)
  {
  }

  /** When no pass stops the loop, it makes every pass's calls and returns 0. */
  lemma DrainContinues(rounds: seq<Round>, ep0: int, eventHandler: Option<int -> int>,
                       setupHandler: Option<SetupRequest -> int>)
    requires forall j | 0 <= j < |rounds| :: !HandleRound(rounds[j], ep0, eventHandler, setupHandler).stop
    ensures Drain(rounds, ep0, eventHandler, setupHandler) == Drained(0, Passes(rounds, ep0, eventHandler, setupHandler))
  {
    DrainPrefix(rounds, |rounds|, ep0, eventHandler, setupHandler);
    assert rounds[..|rounds|] == rounds && rounds[|rounds|..] == [];
  }

  /**
   * Every call of the loop is made on the control file: the event reads
   * ask for one record, a handler-less SETUP is stalled with a
   * zero-length call in the data direction, and only non-SETUP types
   * reach the event handler. Only handlers that are present are called.
   */
  lemma {:induction false} DrainUsesControlFile(rounds: seq<Round>, ep0: int, eventHandler: Option<int -> int>,
                                                setupHandler: Option<SetupRequest -> int>)
    ensures var d := Drain(rounds, ep0, eventHandler, setupHandler);
            && (forall i | 0 <= i < |d.steps| :: OnControlFile(d.steps[i], ep0))
            && (forall i | 0 <= i < |d.steps| :: Permitted(d.steps[i], eventHandler, setupHandler))
    decreases |rounds|
  {
    if rounds != [] {
      var p := HandleRound(rounds[0], ep0, eventHandler, setupHandler);
      RoundFacts(rounds[0], ep0, eventHandler, setupHandler);
      if !p.stop {
        DrainUsesControlFile(rounds[1..], ep0, eventHandler, setupHandler);
        var rest := Drain(rounds[1..], ep0, eventHandler, setupHandler);
        assert forall k | 0 <= k < |Drain(rounds[1..], ep0, eventHandler, setupHandler).steps| ::
          OnControlFile(Drain(rounds[1..], ep0, eventHandler, setupHandler).steps[k], ep0);
        assert rest == Drain(rounds[1..], ep0, eventHandler, setupHandler);
        forall i | |p.steps| <= i < |p.steps| + |rest.steps|
          ensures OnControlFile((p.steps + rest.steps)[i], ep0)
          ensures Permitted((p.steps + rest.steps)[i], eventHandler, setupHandler)
        {
          assert (p.steps + rest.steps)[i] == rest.steps[i - |p.steps|];
        }
      }
    }
  }

  /**
   * The loop stops at the first failure: every checked call before the
   * last step returned 0, and a non-zero result is the result of the last
   * step, which is a failed read, stall or handler call, or an event read
   * with no handler to consume it.
   */
  lemma {:induction false} DrainStopsAtFirstError(rounds: seq<Round>, ep0: int, eventHandler: Option<int -> int>,
                                                  setupHandler: Option<SetupRequest -> int>)
    ensures var d := Drain(rounds, ep0, eventHandler, setupHandler);
            forall i | 0 <= i < |d.steps| - 1 :: Checked(d.steps[i]) ==> d.steps[i].ret == 0
    ensures var d := Drain(rounds, ep0, eventHandler, setupHandler);
            d.ret != 0 ==> |d.steps| > 0 && d.ret == d.steps[|d.steps| - 1].ret
    decreases |rounds|
  {
    if rounds != [] {
      RoundFacts(rounds[0], ep0, eventHandler, setupHandler);
      DrainStopsAtFirstError(rounds[1..], ep0, eventHandler, setupHandler);
    }
  }

  /**
   * A zero result means nothing failed: every event read succeeded and
   * every handler and stall returned 0.
   */
  lemma {:induction false} DrainZeroMeansNoFailure(rounds: seq<Round>, ep0: int, eventHandler: Option<int -> int>,
                                                   setupHandler: Option<SetupRequest -> int>)
    ensures var d := Drain(rounds, ep0, eventHandler, setupHandler);
            d.ret == 0 ==> forall i | 0 <= i < |d.steps| ::
              && (Checked(d.steps[i]) ==> d.steps[i].ret == 0)
              && (d.steps[i].ReadEvent? ==> d.steps[i].ret >= 0)
    decreases |rounds|
  {
    if rounds != [] {
      RoundFacts(rounds[0], ep0, eventHandler, setupHandler);
      DrainZeroMeansNoFailure(rounds[1..], ep0, eventHandler, setupHandler);
    }
  }

  /** A first round in which poll reports nothing ends the loop with 0 after the one poll. */
  lemma DrainIdle(rounds: seq<Round>, ep0: int, eventHandler: Option<int -> int>,
                  setupHandler: Option<SetupRequest -> int>)
    requires rounds != [] && (rounds[0].poll == 0 || !rounds[0].pollIn)
    ensures Drain(rounds, ep0, eventHandler, setupHandler) == Drained(0, [Poll(ep0, rounds[0].poll, rounds[0].pollIn)])
  {
  }
}
