/** What a call on a session may end with: the events, close codes and frames each ending leaves. */
module WsOutcome {
  import opened Bytes
  import opened WsFrames
  import opened WsRoundTrip
  import opened WsSocket
  import opened WsParserState

  /** What a receive call returns; Pending means that recv has not returned yet. */
  datatype RecvResult = Ok | Closed | Failure | Pending

  datatype Awaited = Going | Returns(result: RecvResult)

  // ---- events ----

  /** The result of parsing, and the events it added to the history. */
  ghost predicate Outcome(r: ParseResult, text: bool, data: seq<byte>, before: seq<Event>, now: seq<Event>) {
    && before <= now
    && match r
       case Continue => forall i :: |before| <= i < |now| ==> now[i].Pong?
       case IoError => forall i :: |before| <= i < |now| ==> now[i].Pong?
       case GotMessage => EndsWith(before, now) && now[|now| - 1] == Message(text, data)
       case SessionClosed => EndsWith(before, now) && now[|now| - 1].CloseReply?
       case ProtocolError => EndsWith(before, now) && now[|now| - 1].Violation?
  }

  /** Only pongs precede the last new event. */
  ghost predicate EndsWith(before: seq<Event>, now: seq<Event>) {
    |before| < |now| && forall i :: |before| <= i < |now| - 1 ==> now[i].Pong?
  }

  lemma NothingNew(h: seq<Event>)
    ensures Outcome(Continue, false, [], h, h)
  {
  }

  lemma ViolationNew(before: seq<Event>, code: nat)
    ensures Outcome(ProtocolError, false, [], before, before + [Violation(code)])
  {
  }

  lemma MessageNew(before: seq<Event>, text: bool, data: seq<byte>)
    ensures Outcome(GotMessage, text, data, before, before + [Message(text, data)])
  {
  }

  /** What a control frame may add to the history. */
  ghost predicate ControlAdds(r: ParseResult, before: seq<Event>, now: seq<Event>) {
    match r
    case Continue => now == before || exists p :: now == before + [Pong(p)]
    case SessionClosed => exists c :: now == before + [CloseReply(c)]
    case ProtocolError => now == before + [Violation(1002)]
    case IoError => now == before
    case GotMessage => false
  }

  lemma ControlOutcome(r: ParseResult, before: seq<Event>, now: seq<Event>)
    requires ControlAdds(r, before, now)
    ensures Outcome(r, false, [], before, now)
  {
  }

  lemma OutcomeThen(r: ParseResult, text: bool, data: seq<byte>, a: seq<Event>, b: seq<Event>, c: seq<Event>)
    requires Outcome(Continue, false, [], a, b) && Outcome(r, text, data, b, c)
    ensures Outcome(r, text, data, a, c)
  {
    forall i | |a| <= i < |b|
      ensures c[i].Pong?
    {
      assert c[i] == b[i];
    }
  }

  // ---- codes, flags and frames ----

  /** The close code, whether a close was sent, the two final flags, the failed send calls, and the frames sent. */
  datatype Marks = Marks(code: nat, closing: bool, dead: bool, failed: bool, failures: nat, sent: seq<ServerFrame>)

  /** Frames are only added, and none to a dead session; an i/o error stays. */
  ghost predicate Grows(m: Marks, n: Marks) {
    m.sent <= n.sent && (m.dead ==> n.sent == m.sent) && (m.failed ==> n.failed) && m.failures <= n.failures
  }

  ghost predicate SameFlags(m: Marks, n: Marks) {
    n.code == m.code && n.closing == m.closing && n.dead == m.dead && n.failures == m.failures
  }

  /** The code a session ends with on a peer's close. */
  function Reported(code: nat): nat {
    if code != 0 then code else 1005
  }

  /** A close frame with the code went out, unless one was sent before or a send call failed. */
  ghost predicate Announced(m: Marks, n: Marks, code: nat) {
    !m.closing && !m.dead && n.failures == m.failures && code < 0x1_0000 ==>
      n.sent != [] && n.sent[|n.sent| - 1] == ServerFrame(OP_CLOSE, ClosePayload(code, []))
  }

  /** What a parse result leaves: the close code is that of the last event. */
  ghost predicate Left(r: ParseResult, m: Marks, n: Marks, history: seq<Event>) {
    && Grows(m, n)
    && match r
       case Continue => SameFlags(m, n)
       case GotMessage => SameFlags(m, n)
       case SessionClosed =>
         n.dead && n.closing && history != [] &&
         var e := history[|history| - 1];
         e.CloseReply? && n.code == (if e.code != 0 then e.code else 1005) && Announced(m, n, e.code)
       case ProtocolError =>
         n.dead && n.closing && history != [] &&
         var e := history[|history| - 1];
         e.Violation? && n.code == (if m.closing || m.dead then m.code else e.code) && Announced(m, n, e.code)
       case IoError =>
         n.dead && n.failed && (m.dead || n.failures > m.failures) && n.code == m.code && n.closing == m.closing
  }

  lemma NothingLeft(m: Marks, history: seq<Event>)
    ensures Left(Continue, m, m, history) && Left(GotMessage, m, m, history)
  {
  }

  /** A pong went out, or failed. */
  lemma PongLeft(m: Marks, n: Marks, pong: ServerFrame, history: seq<Event>)
    requires n.code == m.code && n.closing == m.closing && (m.failed ==> n.failed)
    ensures n.sent == m.sent + [pong] && !m.dead && !n.dead && n.failures == m.failures ==>
              Left(Continue, m, n, history)
    ensures n.sent == m.sent && n.dead && n.failed && n.failures == m.failures + (if m.dead then 0 else 1) ==>
              Left(IoError, m, n, history)
  {
  }

  /** A close frame went out or not; then the session is marked dead with the peer's code. */
  lemma CloseLeft(m: Marks, n: Marks, code: nat, history: seq<Event>)
    requires Grows(m, n) && Announced(m, n, code) && n.closing
    requires history != [] && history[|history| - 1] == CloseReply(code)
    ensures Left(SessionClosed, m, n.(code := Reported(code), dead := true), history)
  {
    hide ClosePayload;
  }

  lemma LeftThen(r: ParseResult, a: Marks, b: Marks, c: Marks, history: seq<Event>, before: seq<Event>)
    requires Left(Continue, a, b, before) && Left(r, b, c, history)
    ensures Left(r, a, c, history)
  {
  }

  // ---- whole calls ----

  /** The session as a caller and the peer see it, with the signals its socket has not given yet. */
  datatype View = View(history: seq<Event>, received: seq<byte>, phase: Phase, replied: bool, marks: Marks,
                       signals: seq<Arrival>)

  /** The bytes of "server shutting down". */
  const SHUTTING_DOWN: seq<byte> :=
    [115, 101, 114, 118, 101, 114, 32, 115, 104, 117, 116, 116, 105, 110, 103, 32, 100, 111, 119, 110]

  /** The session has parsed up to the result p, and what that leaves. */
  ghost predicate Reaches(p: ParseResult, text: bool, data: seq<byte>, a: View, b: View) {
    && Outcome(p, text, data, a.history, b.history) && Left(p, a.marks, b.marks, b.history)
    && Suffix(b.signals, a.signals)
  }

  /** Still waiting: only pongs have been caused. */
  ghost predicate Waits(a: View, b: View) {
    b.phase.Reading? && Reaches(Continue, false, [], a, b)
  }

  /** All events of the bytes received have been caused. */
  ghost predicate UpToDate(max: nat, b: View) {
    b.history == Decode(max, Idle, b.received)
  }

  /** The last event ended the session: a close, which is echoed, or a violation. */
  ghost predicate EndedByPeer(a: View, b: View) {
    b.phase.Finished? && ((b.replied && Reaches(SessionClosed, false, [], a, b)) ||
      Reaches(ProtocolError, false, [], a, b))
  }

  /** The close frame of a shutdown went out, unless the session was dead or a send call failed. */
  ghost predicate ToldShutdown(m: Marks, n: Marks) {
    !m.dead && n.failures == m.failures ==>
      n.sent != [] && n.sent[|n.sent| - 1] == ServerFrame(OP_CLOSE, ClosePayload(1001, SHUTTING_DOWN))
  }

  /** The socket ended it with the signal s, after pongs alone. */
  ghost predicate EndedBySignal(s: Arrival, code: nat, a: View, b: View) {
    && b.phase.Reading? && Outcome(Continue, false, [], a.history, b.history) && Grows(a.marks, b.marks)
    && LastSignal(a.signals, b.signals, s) && b.marks.dead && b.marks.code == code
    && b.marks.closing == (a.marks.closing || s.TimedOut?)
    && (s.TimedOut? ==> ToldShutdown(a.marks, b.marks))
  }

  /**
   * What a receive call that returns r has done to the session. A call ends for no other reason
   * than these: a message, the peer's close, a violation, the end of the stream, a shutdown, a
   * pong that could not be sent, a recv that failed.
   */
  ghost predicate Answers(max: nat, r: RecvResult, text: bool, data: seq<byte>, a: View, b: View) {
    match r
    case Ok => b.phase.Reading? && Reaches(GotMessage, text, data, a, b)
    case Closed =>
      UpToDate(max, b) &&
      (EndedByPeer(a, b) || EndedBySignal(PeerClosed, 1006, a, b) || EndedBySignal(TimedOut(false), 1001, a, b))
    case Failure =>
      b.marks.failed &&
      ((b.phase.Broken? && Reaches(IoError, false, [], a, b)) ||
        (UpToDate(max, b) && EndedBySignal(Failed, 1006, a, b)))
    case Pending => UpToDate(max, b) && Waits(a, b)
  }

  lemma ReachesThen(p: ParseResult, text: bool, data: seq<byte>, a: View, b: View, c: View)
    requires Waits(a, b) && Reaches(p, text, data, b, c)
    ensures Reaches(p, text, data, a, c)
  {
    hide Outcome, Suffix, Left;
    OutcomeThen(p, text, data, a.history, b.history, c.history);
    LeftThen(p, a.marks, b.marks, c.marks, c.history, b.history);
    SuffixThen(c.signals, b.signals, a.signals);
  }

  lemma SignalThen(s: Arrival, code: nat, a: View, b: View, c: View)
    requires Waits(a, b) && EndedBySignal(s, code, b, c)
    ensures EndedBySignal(s, code, a, c)
  {
    hide Outcome, Suffix, LastSignal;
    OutcomeThen(Continue, false, [], a.history, b.history, c.history);
    LastThen(c.signals, b.signals, a.signals, s);
  }

  /** Parsing ends the call unless more input is needed. */
  lemma ParseAnswers(max: nat, p: ParseResult, text: bool, data: seq<byte>, a: View, b: View)
    requires Reaches(p, text, data, a, b)
    ensures p.Continue? && b.phase.Reading? ==> Waits(a, b)
    ensures p.GotMessage? && b.phase.Reading? ==> Answers(max, Ok, text, data, a, b)
    ensures ((p.SessionClosed? && b.replied) || p.ProtocolError?) && b.phase.Finished? && UpToDate(max, b) ==>
              Answers(max, Closed, text, data, a, b)
    ensures p.IoError? && b.phase.Broken? ==> Answers(max, Failure, text, data, a, b)
  {
    hide EndsWith, Announced, Suffix, Grows;
  }

  /** A signal of the socket ends the call. */
  lemma SignalAnswers(max: nat, s: Arrival, a: View, b: View)
    requires s == PeerClosed || s == TimedOut(false) || s == Failed
    requires a.phase.Reading? && UpToDate(max, a) && b.history == a.history && b.received == a.received &&
             b.phase == a.phase
    requires Grows(a.marks, b.marks) && b.marks.dead && b.marks.closing == (a.marks.closing || s.TimedOut?)
    requires b.marks.code == (if s.TimedOut? then 1001 else 1006) && (s.Failed? ==> b.marks.failed)
    requires s.TimedOut? ==> ToldShutdown(a.marks, b.marks)
    requires LastSignal(a.signals, b.signals, s)
    ensures Answers(max, if s.Failed? then Failure else Closed, false, [], a, b)
  {
    hide Grows;
    NothingNew(a.history);
    hide Outcome;
  }

  lemma BlockedWaits(max: nat, a: View, b: View)
    requires a.phase.Reading? && UpToDate(max, a) && b == a.(signals := b.signals) && Suffix(b.signals, a.signals)
    ensures Answers(max, Pending, false, [], a, b)
  {
    StillWaits(a, b);
  }

  /** Nothing but bytes or interruptions: the call goes on waiting. */
  lemma StillWaits(a: View, b: View)
    requires a.phase.Reading? && b.phase.Reading? && b.history == a.history && b.marks == a.marks &&
             Suffix(b.signals, a.signals)
    ensures Waits(a, b)
  {
  }

  /** Waiting first and answering then is answering. */
  lemma AnswersThen(max: nat, r: RecvResult, text: bool, data: seq<byte>, a: View, b: View, c: View)
    requires Waits(a, b) && Answers(max, r, text, data, b, c)
    ensures Answers(max, r, text, data, a, c)
  {
    hide Waits, Reaches, EndedBySignal, UpToDate;
    match r
    case Ok => ReachesThen(GotMessage, text, data, a, b, c);
    case Closed =>
      if Reaches(SessionClosed, false, [], b, c) {
        ReachesThen(SessionClosed, false, [], a, b, c);
      }
      if Reaches(ProtocolError, false, [], b, c) {
        ReachesThen(ProtocolError, false, [], a, b, c);
      }
      if EndedBySignal(PeerClosed, 1006, b, c) {
        SignalThen(PeerClosed, 1006, a, b, c);
      }
      if EndedBySignal(TimedOut(false), 1001, b, c) {
        SignalThen(TimedOut(false), 1001, a, b, c);
      }
    case Failure =>
      if Reaches(IoError, false, [], b, c) {
        ReachesThen(IoError, false, [], a, b, c);
      }
      if EndedBySignal(Failed, 1006, b, c) {
        SignalThen(Failed, 1006, a, b, c);
      }
    case Pending => WaitsThen(a, b, c);
  }

  lemma WaitsAtFirst(a: View)
    requires a.phase.Reading?
    ensures Waits(a, a)
  {
  }

  lemma AnswersGrow(max: nat, r: RecvResult, text: bool, data: seq<byte>, a: View, b: View)
    requires Answers(max, r, text, data, a, b)
    ensures a.history <= b.history
  {
  }

  lemma WaitsThen(a: View, b: View, c: View)
    requires Waits(a, b) && Waits(b, c)
    ensures Waits(a, c)
  {
    hide Reaches;
    ReachesThen(Continue, false, [], a, b, c);
  }

  // ---- draining after a close ----

  /** The drain goes on: whatever came was thrown away. */
  ghost predicate Discards(a: View, b: View) {
    && b.phase.Reading? && a.history <= b.history && SameFlags(a.marks, b.marks) && Grows(a.marks, b.marks)
    && Suffix(b.signals, a.signals)
  }

  /**
   * The drain is over, and the close code is the one the session had, or the code of the peer's
   * close, or that of a violation when no close had been sent, or 1006 when the stream ended or a
   * pong could not be sent.
   */
  ghost predicate Drained(a: View, b: View) {
    && b.marks.dead && a.history <= b.history && Grows(a.marks, b.marks)
    && (b.phase.Finished? ==> b.history != [])
    && ((b.marks.code == a.marks.code) ||
        (b.phase.Finished? && b.replied && EndsWithCode(b.history, b.marks.code)) ||
        (b.phase.Finished? && !a.marks.closing && !a.marks.dead &&
          b.history[|b.history| - 1] == Violation(b.marks.code)) ||
        (b.marks.code == 1006 && (b.phase.Broken? || LastSignal(a.signals, b.signals, PeerClosed))))
  }

  ghost predicate EndsWithCode(history: seq<Event>, code: nat) {
    history != [] &&
    var e := history[|history| - 1];
    e.CloseReply? && code == if e.code != 0 then e.code else 1005
  }

  lemma DrainedThen(a: View, b: View, c: View)
    requires Discards(a, b)
    ensures Discards(b, c) ==> Discards(a, c)
    ensures Drained(b, c) ==> Drained(a, c)
  {
    hide Suffix, LastSignal;
    if Discards(b, c) {
      SuffixThen(c.signals, b.signals, a.signals);
    }
    if LastSignal(b.signals, c.signals, PeerClosed) {
      LastThen(c.signals, b.signals, a.signals, PeerClosed);
    }
  }

  /** A parse result during the drain; a failed pong is marked 1006. */
  lemma ParseDrained(p: ParseResult, a: View, b: View)
    requires Left(p, a.marks, b.marks, b.history) && a.history <= b.history && Suffix(b.signals, a.signals)
    ensures (p.Continue? || p.GotMessage?) && b.phase.Reading? ==> Discards(a, b)
    ensures (p.SessionClosed? && b.phase.Finished? && b.replied) || (p.ProtocolError? && b.phase.Finished?) ==>
            Drained(a, b)
    ensures p.IoError? && b.phase.Broken? ==>
              Drained(a, b.(marks := b.marks.(code := 1006, dead := true, failed := true)))
  {
    hide Announced;
  }

  /** The drain gives up waiting. */
  lemma GivenUp(a: View, b: View)
    requires Discards(a, b)
    ensures Drained(a, b.(marks := b.marks.(dead := true)))
  {
  }

  /** The socket gives no bytes: the drain ends, or an interruption lets it go on. */
  lemma SignalDrained(a: View, b: View)
    requires a.phase.Reading? && b.phase == a.phase && b.history == a.history && b.marks.sent == a.marks.sent
    requires Suffix(b.signals, a.signals) && (a.marks.failed ==> b.marks.failed)
    requires a.marks.failures <= b.marks.failures
    ensures b.marks == a.marks ==> Discards(a, b)
    ensures b.marks.dead && b.marks.code == a.marks.code ==> Drained(a, b)
    ensures b.marks.dead && b.marks.code == 1006 && LastSignal(a.signals, b.signals, PeerClosed) ==> Drained(a, b)
  {
  }

  lemma DiscardsNothing(a: View)
    requires a.phase.Reading?
    ensures Discards(a, a)
  {
  }
}
