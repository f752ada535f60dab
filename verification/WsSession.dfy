/**
 * One WebSocket session (server side): the resumable frame parser over the receive buffer,
 * the frame writer, and the receive, close and drain loops around them. Ghost fields record
 * the bytes received and the events caused; the invariant ties them to the one-shot decoder.
 */
module WsSession {
  import opened Bytes
  import opened WsFrames
  import opened WsRoundTrip
  import opened WsMessageBuffer
  import opened WsSocket
  import opened WsParserState
  import opened WsOutcome

  const RECV_BUFFER := 4096
  const RECV_BUFFER_MAX := 64 * 1024
  const POLL_MS := 250
  const CLOSE_WAIT_MS := 1000

  /** Copies n bytes between two different buffers. */
  method CopyBytes(src: array<byte>, from: nat, dst: array<byte>, at: nat, n: nat)
    requires src != dst && from + n <= src.Length && at + n <= dst.Length
    modifies dst
    ensures dst[..at] == old(dst[..at])
    ensures dst[at..at + n] == src[from..from + n]
    ensures dst[at + n..] == old(dst[at + n..])
  {
    for i := 0 to n
      invariant dst[..at] == old(dst[..at])
      invariant dst[at..at + i] == src[from..from + i]
      invariant dst[at + i..] == old(dst[at + i..])
    {
      dst[at + i] := src[from + i];
    }
  }

  /** Writes data at a place of a buffer. */
  method PutBytes(a: array<byte>, at: nat, data: seq<byte>)
    requires at + |data| <= a.Length
    modifies a
    ensures a[..at] == old(a[..at]) && a[at..at + |data|] == data
  {
    for i := 0 to |data|
      invariant a[..at] == old(a[..at]) && a[at..at + i] == data[..i]
    {
      a[at + i] := data[i];
    }
  }

  /** Unmasks n bytes in place; `done` bytes of the payload come before them. */
  method UnmaskBytes(a: array<byte>, from: nat, n: nat, mask: Key, done: nat)
    requires from + n <= a.Length
    modifies a
    ensures a[from..from + n] == UnmaskFrom(mask, done, old(a[from..from + n]))
    ensures a[..from] == old(a[..from]) && a[from + n..] == old(a[from + n..])
  {
    hide Xor, UnmaskFrom;
    ghost var was := a[..];
    for i := 0 to n
      invariant a[..from] == was[..from] && a[from + i..] == was[from + i..]
      invariant a[from..from + i] == UnmaskFrom(mask, done, was[from..from + i])
    {
      assert a[from + i] == a[from + i..][0] == was[from + i];
      assert was[from..from + i + 1] == was[from..from + i] + [was[from + i]];
      UnmaskFromSplit(mask, done, was[from..from + i], was[from + i]);
      label before:
      a[from + i] := Xor(a[from + i], mask[(done + i) % 4]);
      assert a[from..from + i] == old@before(a[from..from + i]);
      assert a[from..from + i + 1] == a[from..from + i] + [a[from + i]];
      assert a[from + i + 1..] == old@before(a[from + i..])[1..];
    }
    assert was[from..from + n] == old(a[from..from + n]);
  }

  lemma PrefixGrows(a: array<byte>, i: nat, j: nat)
    requires i <= j <= a.Length
    ensures a[..j] == a[..i] + a[i..j]
  {
  }

  class HttpWs {
    const socket: Socket
    const maxMessage: nat

    var closeSent: bool
    var closeReceived: bool
    var dead: bool
    var ioError: bool
    var closeCode: nat

    var inb: array<byte>
    var inLen: nat
    var pos: nat

    var stage: Stage
    var fin: bool
    var opcode: nat
    var mask: Key
    var payloadLen: nat
    var payloadDone: nat

    const ctrl: array<byte>
    var ctrlLen: nat

    var msgActive: bool
    var msgOpcode: nat
    var msg: array<byte>
    var msgLen: nat
    var overrun: bool          // a terminator was written outside msg

    ghost var asm: Assembly          // the message so far, at the last frame boundary
    ghost var eaten: seq<byte>       // bytes of the current frame already consumed
    ghost var received: seq<byte>    // all bytes received
    ghost var history: seq<Event>    // all events caused
    ghost var phase: Phase
    ghost var sent: seq<ServerFrame> // frames written completely
    ghost var torn: seq<byte>        // the part of a failed frame that was written
    ghost var chunks: Chunks         // the sizes in which the current message arrived

    ghost function Repr(): set<object>
      reads this
    {
      {this, socket, inb, ctrl, msg}
    }

    /** Close code, flags and frames sent. */
    ghost function Now(): Marks
      reads this`closeCode, this`closeSent, this`dead, this`ioError, this`sent, socket`failures
    {
      Marks(closeCode, closeSent, dead, ioError, socket.failures, sent)
    }

    ghost function See(): View
      reads this, socket
    {
      View(history, received, phase, closeReceived, Now(), Signals(socket.script))
    }

    /** The bytes from the last frame boundary on, as they arrived. */
    ghost function Input(): seq<byte>
      requires pos <= inLen <= inb.Length
      reads this`eaten, this`inb, this`pos, this`inLen, inb
    {
      eaten + inb[pos..inLen]
    }

    ghost predicate Shape()
      reads this`inb, this`inLen, this`pos, this`ctrlLen, this`msg, this`msgLen, this`chunks
    {
      && inb != ctrl && inb != msg && ctrl != msg
      && pos <= inLen <= inb.Length && 8 <= inb.Length
      && ctrl.Length == CTRL_MAX && ctrlLen <= CTRL_MAX
      && msgLen == Total(chunks) && msg.Length == CapAfter(chunks)
    }

    ghost predicate Parser()
      requires Shape()
      reads this`inb, this`inLen, this`pos, this`ctrlLen, this`msg, this`msgLen, this`chunks
      reads this`asm, this`eaten, this`stage, this`fin, this`opcode, this`mask, this`payloadLen, this`payloadDone
      reads this`msgActive, this`msgOpcode, ctrl, msg
    {
      && StageMeans(maxMessage, asm, eaten, stage, fin, opcode, mask, payloadLen, payloadDone,
                    ctrl[..ctrlLen], msg[..msgLen])
      && |Held(asm)| <= maxMessage
      && msgActive == asm.Partial?
      && (asm.Partial? ==> asm.text == (msgOpcode == OP_TEXT))
      && (asm.Idle? && !stage.NeedHeader? && !IsControl(opcode) ==> msgOpcode == opcode)
    }

    /** The events so far against the one-shot decoder on all bytes received. */
    ghost predicate Log()
      requires Shape()
      reads this`inb, this`inLen, this`pos, this`ctrlLen, this`msg, this`msgLen, this`chunks
      reads this`eaten, this`asm, this`received, this`history, this`phase, this`dead, inb
    {
      var all := Decode(maxMessage, Idle, received);
      match phase
      case Reading =>
        && history + Decode(maxMessage, asm, Input()) == all
        && ResidueOf(maxMessage, asm, Input()) == ResidueOf(maxMessage, Idle, received)
      case Finished => dead && history == all
      case Broken => dead && history <= all
    }

    /** The bytes written: whole frames, and a torn one only after a socket error. */
    ghost predicate Wire()
      reads this`sent, this`torn, this`dead, this`ioError, socket`wire
    {
      && socket.wire == EncodeAll(sent) + torn
      && (torn != [] ==> dead && ioError && Truncated(torn))
    }

    /** One pong sent per ping, with the same payload and in the same order. */
    ghost predicate Answered()
      reads this`sent, this`history
    {
      PongsSent(sent) == PongsIn(history)
    }

    ghost predicate Valid()
      reads this, Repr()
    {
      && Shape()
      && Wire()
      && Answered()
      && Log()
      && (phase.Reading? ==> Parser())
    }

    // ---- session start ----

    constructor (s: Socket, max: nat, leftover: seq<byte>)
      requires s.wire == []
      ensures Valid() && fresh(Repr() - {s})
      ensures socket == s && maxMessage == max && received == leftover && history == [] && sent == []
      ensures phase.Reading? && !dead && !overrun
    {
      socket := s;
      maxMessage := max;
      closeSent, closeReceived, dead, ioError, closeCode := false, false, false, false, 0;
      var cap := if RECV_BUFFER < |leftover| then |leftover| + RECV_BUFFER else RECV_BUFFER;
      inb := new byte[cap](i => if 0 <= i < |leftover| then leftover[i] else 0);
      inLen, pos := |leftover|, 0;
      stage, fin, opcode, mask, payloadLen, payloadDone := NeedHeader, false, 0, [0, 0, 0, 0], 0, 0;
      ctrl := new byte[CTRL_MAX](_ => 0);
      ctrlLen := 0;
      msgActive, msgOpcode, msgLen, overrun := false, 0, 0, false;
      msg := new byte[0];
      asm, eaten, received, history, phase, sent, torn, chunks := Idle, [], leftover, [], Reading, [], [], [];
      new;
      assert inb[pos..inLen] == leftover;
      assert Input() == leftover;
    }

    // ---- flags and frame writer ----

    method MarkDead(code: nat, io: bool)
      requires Wire()
      modifies this`closeCode, this`ioError, this`dead
      ensures Wire() && dead && ioError == (old(ioError) || io)
      ensures closeCode == if code != 0 then code else old(closeCode)
    {
      if code != 0 {
        closeCode := code;
      }
      if io {
        ioError := true;
      }
      dead := true;
    }

    /** Sends a part of the frame f, whose first `at` bytes are out; a failure tears the frame. */
    method SendPart(part: seq<byte>, ghost f: ServerFrame, ghost at: nat) returns (ok: bool)
      requires at + |part| <= |EncodeServer(f)| && EncodeServer(f)[at..at + |part|] == part
      requires socket.wire == EncodeAll(sent) + EncodeServer(f)[..at]
      modifies this`dead, this`ioError, this`torn, socket`wire, socket`failures
      ensures ok ==> socket.wire == EncodeAll(sent) + EncodeServer(f)[..at + |part|]
      ensures ok ==> dead == old(dead) && ioError == old(ioError) && torn == old(torn)
      ensures !ok ==> Wire() && dead && ioError
      ensures socket.failures == old(socket.failures) + if ok then 0 else 1
    {
      hide EncodeServer, EncodeAll, Truncated;
      ghost var whole, before := EncodeServer(f), EncodeAll(sent);
      ok := socket.SendRaw(part);
      if ok {
        assert whole[..at] + part == whole[..at + |part|];
        assert (before + whole[..at]) + part == before + (whole[..at] + part);
      } else {
        ghost var k: nat :| k < |part| && socket.wire == old(socket.wire) + part[..k];
        assert whole[..at] + part[..k] == whole[..at + k];
        assert (before + whole[..at]) + part[..k] == before + (whole[..at] + part[..k]);
        TruncatedAt(f, at + k, whole[..at + k]);
        torn := whole[..at + k];
        dead, ioError := true, true;
      }
    }

    method SendFrameLocked(op: Opcode, payload: SizedPayload) returns (ok: bool)
      requires Wire() && !dead
      modifies this`dead, this`ioError, this`sent, this`torn, socket`wire, socket`failures
      ensures Wire()
      ensures ok ==> sent == old(sent) + [ServerFrame(op, payload)] && !dead && ioError == old(ioError)
      ensures !ok ==> sent == old(sent) && dead && ioError
      ensures socket.failures == old(socket.failures) + if ok then 0 else 1
    {
      hide ServerHeader, Truncated, EncodeAll;
      ghost var f := ServerFrame(op, payload);
      var header := ServerHeader(op, |payload|);
      ghost var whole := EncodeServer(f);
      assert whole == header + payload;
      hide EncodeServer;
      assert whole[0..|header|] == header && whole[|header|..|whole|] == payload && whole[..|whole|] == whole;
      ok := SendPart(header, f, 0);
      if !ok {
        return;
      }
      if |payload| > 0 {
        ok := SendPart(payload, f, |header|);
        if !ok {
          return;
        }
      }
      EncodeAllAppend(sent, f);
      sent := sent + [f];
      assert EncodeAll(sent) + [] == EncodeAll(sent);
    }

    /** Sends any frame, unless the session is dead. */
    method SendFrame(op: Opcode, payload: SizedPayload) returns (ok: bool)
      requires Wire()
      modifies this`dead, this`ioError, this`sent, this`torn, socket`wire, socket`failures
      ensures Wire()
      ensures ok ==> !old(dead) && sent == old(sent) + [ServerFrame(op, payload)] && !dead && ioError == old(ioError)
      ensures !ok ==> sent == old(sent) && dead
      ensures !ok && !old(dead) ==> ioError
      ensures old(dead) ==> !ok && socket.wire == old(socket.wire) && ioError == old(ioError)
      ensures socket.failures == old(socket.failures) + if ok || old(dead) then 0 else 1
    {
      if dead {
        ok := false;
      } else {
        ok := SendFrameLocked(op, payload);
      }
    }

    /** Sends the close frame; its code becomes the session's unless a close was sent before. */
    method SendClose(code: nat, reason: seq<byte>) returns (ok: bool)
      requires Wire() && code < 0x1_0000
      modifies this`dead, this`ioError, this`sent, this`torn, this`closeCode, this`closeSent
      modifies socket`wire, socket`failures
      ensures Wire() && closeSent
      ensures ok ==> sent == old(sent) + [ServerFrame(OP_CLOSE, ClosePayload(code, reason))] && dead == old(dead)
      ensures !ok ==> sent == old(sent) && dead
      ensures if ok || old(dead) then ioError == old(ioError) else ioError
      ensures PongsSent(sent) == PongsSent(old(sent))
      ensures old(dead) ==> !ok && dead && socket.wire == old(socket.wire)
      ensures closeCode == if !old(dead) && !old(closeSent) && code != 0 then code else old(closeCode)
      ensures socket.failures == old(socket.failures) + if ok || old(dead) then 0 else 1
    {
      hide EncodeServer, EncodeAll, PongsSent, Truncated;
      var payload := ClosePayload(code, reason);
      hide ClosePayload;
      PongsSentAppend(sent, ServerFrame(OP_CLOSE, payload));
      if dead {
        ok := false;
      } else {
        ok := SendFrameLocked(OP_CLOSE, payload);
        if !closeSent && code != 0 {
          closeCode := code;
        }
      }
      closeSent := true;
    }

    // ---- the parse state machine ----

    /** Moves the unparsed bytes to the front of the receive buffer. */
    method Compact()
      requires Shape()
      modifies this`inLen, this`pos, inb
      ensures Shape() && pos == 0 && inLen == old(inLen - pos)
      ensures inb[..inLen] == old(inb[pos..inLen])
    {
      if pos == 0 {
        return;
      }
      ghost var was := inb[..];
      var rem := inLen - pos;
      for i := 0 to rem
        invariant inb == old(inb) && pos == old(pos) && inLen == old(inLen)
        invariant inb[..i] == was[pos..pos + i]
        invariant inb[pos + i..] == was[pos + i..]
      {
        assert inb[pos + i] == inb[pos + i..][0];
        inb[i] := inb[pos + i];
      }
      inLen := rem;
      pos := 0;
    }

    /** The stream ends with the event e. */
    ghost method Finish(e: Event)
      requires Shape() && Wire() && Answered() && Log() && phase.Reading? && dead
      requires Decode(maxMessage, asm, Input()) == [e] && !e.Pong?
      modifies this`phase, this`history
      ensures Valid() && phase.Finished? && history == old(history) + [e]
    {
      hide Decode, ResidueOf, StageMeans, EncodeServer, EncodeAll, Unmask, PongsIn, PongsSent, CapAfter, Total;
      PongsInAppend(history, e);
      assert history + [e] == Decode(maxMessage, Idle, received);
      history := history + [e];
      phase := Finished;
    }

    /** A violation: close with the code and end the session. */
    method Violate(code: nat) returns (r: ParseResult)
      requires Shape() && Wire() && Answered() && Log() && phase.Reading?
      requires Decode(maxMessage, asm, Input()) == [Violation(code)] && 0 < code < 0x1_0000
      modifies this`dead, this`ioError, this`sent, this`torn, this`closeCode, this`closeSent
      modifies socket`wire, socket`failures
      modifies this`phase, this`history
      ensures r.ProtocolError? && Valid() && phase.Finished?
      ensures history == old(history) + [Violation(code)] && Left(r, old(Now()), Now(), history)
    {
      hide Decode, ResidueOf, StageMeans, EncodeServer, EncodeAll, Unmask, PongsIn, PongsSent, CapAfter, Total;
      var _ := SendClose(code, []);
      MarkDead(0, false);
      Finish(Violation(code));
      r := ProtocolError;
    }

    /** The size limit, checked once the payload length is known. */
    method FrameLengthKnown() returns (r: ParseResult)
      requires Shape() && Wire() && Answered() && Log() && phase.Reading?
      requires msgLen == |Held(asm)| && msg[..msgLen] == Held(asm) && msgLen <= maxMessage
      requires |eaten| >= 2 && |eaten| == HeaderSize(eaten)
      requires var h := HeaderOf(eaten[0], eaten[1]);
               h.fin == fin && h.opcode == opcode && HeaderOk(h, asm.Partial?) &&
               payloadLen == PayloadLen(h.len7, eaten[2..]) && MinimalLength(h.len7, payloadLen)
      requires msgActive == asm.Partial? && (asm.Partial? ==> asm.text == (msgOpcode == OP_TEXT))
      requires asm.Idle? && !IsControl(opcode) ==> msgOpcode == opcode
      modifies this`dead, this`ioError, this`sent, this`torn, this`closeCode, this`closeSent
      modifies socket`wire, socket`failures
      modifies this`phase, this`history, this`stage
      ensures Valid()
      ensures r.Continue? ==> phase.Reading? && stage.NeedMask? && history == old(history)
      ensures !r.Continue? ==> r.ProtocolError? && phase.Finished? && history == old(history) + [Violation(1009)]
      ensures Left(r, old(Now()), Now(), history)
    {
      hide EncodeServer, EncodeAll, Unmask, PongsIn, PongsSent, CapAfter, Total;
      ghost var s := Input();
      ghost var h := HeaderOf(eaten[0], eaten[1]);
      assert s[2..2 + ExtLen(h.len7)] == eaten[2..];
      assert eaten[2..2 + ExtLen(h.len7)] == eaten[2..];
      if opcode < OP_CLOSE && payloadLen > maxMessage - msgLen {
        LengthDecides(maxMessage, asm, s, h, payloadLen);
        r := Violate(1009);
      } else {
        stage := NeedMask;
        r := Continue;
      }
    }

    /** Takes the two header bytes from the buffer. */
    method TakeHeader() returns (h: Header)
      requires Shape() && eaten == [] && inLen - pos >= 2
      modifies this`pos, this`eaten, this`fin, this`opcode
      ensures Shape() && Input() == old(Input()) && pos == old(pos) + 2
      ensures |eaten| == 2 && h == HeaderOf(eaten[0], eaten[1]) && fin == h.fin && opcode == h.opcode && h.len7 < 128
    {
      var b0, b1 := inb[pos], inb[pos + 1];
      assert Input() == [b0, b1] + inb[pos + 2..inLen];
      eaten := [b0, b1];
      pos := pos + 2;
      h := HeaderOf(b0, b1);
      fin, opcode := h.fin, h.opcode;
    }

    /** Goes on with an accepted header: to the payload length, or to its extended form. */
    method AcceptHeader(h: Header) returns (r: ParseResult)
      requires Shape() && Wire() && Answered() && Log() && phase.Reading?
      requires msg[..msgLen] == Held(asm) && |Held(asm)| <= maxMessage
      requires msgActive == asm.Partial? && (asm.Partial? ==> asm.text == (msgOpcode == OP_TEXT))
      requires |eaten| == 2 && h == HeaderOf(eaten[0], eaten[1]) && HeaderOk(h, msgActive) && h.len7 < 128
      requires h.fin == fin && h.opcode == opcode
      modifies this`dead, this`ioError, this`sent, this`torn, this`closeCode, this`closeSent
      modifies socket`wire, socket`failures
      modifies this`phase, this`history, this`stage, this`payloadLen, this`msgOpcode
      ensures Valid()
      ensures r.Continue? ==> phase.Reading? && history == old(history)
      ensures r.Continue? ==> stage.NeedLen16? || stage.NeedLen64? || stage.NeedMask?
      ensures !r.Continue? ==> r.ProtocolError? && phase.Finished? && history == old(history) + [Violation(1009)]
      ensures Left(r, old(Now()), Now(), history)
    {
      hide NextFrame, Decode, ResidueOf, EncodeServer, EncodeAll, Unmask, PongsIn, PongsSent, CapAfter, Total,
           InPayload, HeaderOf;
      if !IsControl(opcode) && opcode != OP_CONT {
        msgOpcode := opcode;
      }
      if h.len7 < 126 {
        payloadLen := h.len7;
        r := FrameLengthKnown();
      } else {
        stage := if h.len7 == 126 then NeedLen16 else NeedLen64;
        assert Parser();
        r := Continue;
      }
    }

    /** Reads and checks the two header bytes. */
    method StepHeader() returns (r: ParseResult)
      requires Valid() && phase.Reading? && stage.NeedHeader? && inLen - pos >= 2
      modifies this`dead, this`ioError, this`sent, this`torn, this`closeCode, this`closeSent
      modifies socket`wire, socket`failures
      modifies this`phase, this`history, this`stage, this`fin, this`opcode, this`payloadLen, this`msgOpcode
      modifies this`pos, this`eaten
      ensures Valid()
      ensures r.Continue? ==> phase.Reading? && history == old(history) && pos == old(pos) + 2
      ensures r.Continue? ==> stage.NeedLen16? || stage.NeedLen64? || stage.NeedMask?
      ensures !r.Continue? ==> r.ProtocolError? && phase.Finished? && Outcome(r, false, [], old(history), history)
      ensures Left(r, old(Now()), Now(), history)
    {
      hide NextFrame, Decode, ResidueOf, EncodeServer, EncodeAll, Unmask, PongsIn, PongsSent, CapAfter, Total,
           InPayload;
      var h := TakeHeader();
      hide HeaderOf, Left, Outcome;
      if HeaderOk(h, msgActive) {
        r := AcceptHeader(h);
        ViolationNew(old(history), 1009);
      } else {
        HeaderDecides(maxMessage, asm, Input());
        BadDecodes(maxMessage, asm, Input(), 1002);
        r := Violate(1002);
        ViolationNew(old(history), 1002);
      }
    }

    /** Takes the extended length bytes from the buffer. */
    method TakeLength() returns (ghost h: Header)
      requires Shape() && Parser() && (stage.NeedLen16? || stage.NeedLen64?)
      requires inLen - pos >= if stage.NeedLen16? then 2 else 8
      modifies this`pos, this`eaten, this`payloadLen
      ensures Shape() && Input() == old(Input()) && pos > old(pos)
      ensures |eaten| >= 2 && |eaten| == HeaderSize(eaten) && h == HeaderOf(eaten[0], eaten[1])
      ensures HeaderOk(h, asm.Partial?) && h.fin == fin && h.opcode == opcode
      ensures h.len7 == if stage.NeedLen16? then 126 else 127
      ensures payloadLen == PayloadLen(h.len7, eaten[2..])
    {
      hide CapAfter, Total, Unmask;
      var n := if stage.NeedLen16? then 2 else 8;
      var ext := inb[pos..pos + n];
      assert inb[pos..inLen] == ext + inb[pos + n..inLen];
      h := HeaderOf(eaten[0], eaten[1]);
      assert (eaten + ext)[2..] == ext;
      eaten := eaten + ext;
      pos := pos + n;
      payloadLen := BigEndian(ext);
    }

    /** Reads and checks the extended length. */
    method StepLength() returns (r: ParseResult)
      requires Valid() && phase.Reading? && (stage.NeedLen16? || stage.NeedLen64?)
      requires inLen - pos >= if stage.NeedLen16? then 2 else 8
      modifies this`dead, this`ioError, this`sent, this`torn, this`closeCode, this`closeSent
      modifies socket`wire, socket`failures
      modifies this`phase, this`history, this`stage, this`payloadLen, this`pos, this`eaten
      ensures Valid()
      ensures r.Continue? ==> phase.Reading? && history == old(history) && pos > old(pos) && stage.NeedMask?
      ensures !r.Continue? ==> r.ProtocolError? && phase.Finished? && Outcome(r, false, [], old(history), history)
      ensures Left(r, old(Now()), Now(), history)
    {
      hide NextFrame, Decode, ResidueOf, EncodeServer, EncodeAll, Unmask, PongsIn, PongsSent, CapAfter, Total,
           InPayload;
      ghost var h := TakeLength();
      assert msgActive == asm.Partial? && (asm.Partial? ==> asm.text == (msgOpcode == OP_TEXT));
      hide HeaderOf, BigEndian, Left, Outcome;
      if MinimalLength(if stage.NeedLen16? then 126 else 127, payloadLen) {
        r := FrameLengthKnown();
        ViolationNew(old(history), 1009);
      } else {
        NotMinimalDecodes(maxMessage, asm, eaten, inb[pos..inLen], h, payloadLen);
        r := Violate(1002);
        ViolationNew(old(history), 1002);
      }
    }

    /** Takes the masking key from the buffer. */
    method TakeKey()
      requires Shape() && inLen - pos >= 4
      modifies this`pos, this`eaten, this`mask
      ensures Shape() && Input() == old(Input()) && pos == old(pos) + 4 && eaten == old(eaten) + mask
    {
      var key := inb[pos..pos + 4];
      assert inb[pos..inLen] == key + inb[pos + 4..inLen];
      mask := key;
      eaten := eaten + key;
      pos := pos + 4;
    }

    /** After the masking key the payload comes. */
    method StepMask()
      requires Valid() && phase.Reading? && stage.NeedMask? && inLen - pos >= 4
      modifies this`pos, this`eaten, this`mask, this`payloadDone, this`ctrlLen, this`stage
      ensures Valid() && pos == old(pos) + 4 && stage.NeedPayload?
    {
      hide NextFrame, Decode, ResidueOf, EncodeServer, EncodeAll, PongsIn, PongsSent, CapAfter, Total, InPayload,
           LengthKnown;
      TakeKey();
      KeyTaken(maxMessage, asm, old(eaten), fin, opcode, mask, payloadLen, msg[..msgLen]);
      payloadDone, ctrlLen, stage := 0, 0, NeedPayload;
      assert ctrl[..ctrlLen] == [];
      assert Parser();
    }

    /** Unmasks the next payload bytes in place and advances the cursors. */
    method UnmaskChunk() returns (chunk: nat)
      requires Shape() && payloadDone <= payloadLen
      modifies inb, this`payloadDone, this`pos
      ensures Shape()
      ensures chunk == if payloadLen - old(payloadDone) <= inLen - old(pos) then payloadLen - old(payloadDone)
                       else inLen - old(pos)
      ensures payloadDone == old(payloadDone) + chunk && pos == old(pos) + chunk
      ensures inb[pos..] == old(inb[..])[pos..]
      ensures inb[old(pos)..pos] == UnmaskFrom(mask, old(payloadDone), old(inb[..])[old(pos)..pos])
      ensures Masks(mask, old(payloadDone), old(inb[..])[old(pos)..pos], inb[old(pos)..pos])
    {
      hide CapAfter, Total, Xor, UnmaskFrom, Masks;
      var avail := inLen - pos;
      chunk := payloadLen - payloadDone;
      if chunk > avail {
        chunk := avail;
      }
      ghost var was := inb[..];
      UnmaskBytes(inb, pos, chunk, mask, payloadDone);
      assert inb[pos + chunk..] == was[pos + chunk..] && was[pos..pos + chunk] == old(inb[pos..pos + chunk]);
      UnmaskFromMasks(mask, payloadDone, was[pos..pos + chunk]);
      payloadDone := payloadDone + chunk;
      pos := pos + chunk;
    }

    /** Makes room for `need` message bytes. */
    method MsgReserve(need: nat)
      requires Shape() && need > 0
      modifies this`msg
      ensures msg == old(msg) || fresh(msg)
      ensures msg.Length == Reserved(old(msg).Length, need)
      ensures msg[..msgLen] == old(msg[..msgLen])
    {
      hide Total, Xor;
      if need <= msg.Length {
        return;
      }
      var newCap := if msg.Length == 0 then INITIAL else msg.Length;
      ghost var goal := Doubled(newCap, need);
      while newCap < need + 1
        invariant newCap > 0 && Doubled(newCap, need) == goal
        decreases need + 1 - newCap
      {
        newCap := newCap * 2;
      }
      var tmp := new byte[newCap](_ => 0);
      CopyBytes(msg, 0, tmp, 0, msgLen);
      msg := tmp;
    }

    /** Appends n received bytes to the message. */
    method AppendMessage(from: nat, n: nat)
      requires Shape() && from + n <= inb.Length && n > 0
      modifies this`msg, this`msgLen, this`chunks, msg
      ensures Shape() && (msg == old(msg) || fresh(msg))
      ensures msg[..msgLen] == old(msg[..msgLen]) + inb[from..from + n]
    {
      hide CapAfter, Total, Reserved;
      AppendChunk(chunks, n);
      MsgReserve(msgLen + n);
      CopyBytes(inb, from, msg, msgLen, n);
      PrefixGrows(msg, msgLen, msgLen + n);
      msgLen := msgLen + n;
      chunks := chunks + [n];
    }

    /** Appends n received bytes to the control payload. */
    method AppendControl(from: nat, n: nat)
      requires Shape() && from + n <= inb.Length && ctrlLen + n <= CTRL_MAX
      modifies this`ctrlLen, ctrl
      ensures Shape() && ctrl[..ctrlLen] == old(ctrl[..ctrlLen]) + inb[from..from + n]
    {
      hide CapAfter, Total;
      CopyBytes(inb, from, ctrl, ctrlLen, n);
      assert ctrl[..ctrlLen + n] == ctrl[..ctrlLen] + ctrl[ctrlLen..ctrlLen + n];
      ctrlLen := ctrlLen + n;
    }

    /** Consumes and unmasks the payload bytes at hand, and records them as eaten. */
    method TakeChunk() returns (chunk: nat, ghost more: seq<byte>)
      requires Shape() && payloadDone < payloadLen && pos < inLen
      modifies inb, this`payloadDone, this`pos, this`eaten
      ensures Shape() && Input() == old(Input())
      ensures 0 < chunk == |more| && pos == old(pos) + chunk && payloadDone == old(payloadDone) + chunk <= payloadLen
      ensures eaten == old(eaten) + more
      ensures inb[pos - chunk..pos] == UnmaskFrom(mask, old(payloadDone), more)
    {
      hide CapAfter, Total, UnmaskFrom;
      ghost var was, start := inb[..], pos;
      chunk := UnmaskChunk();
      more := was[start..pos];
      eaten := eaten + more;
      assert inb[pos..inLen] == inb[pos..][..inLen - pos] == was[pos..inLen];
      assert was[start..inLen] == more + was[pos..inLen];
    }

    /** Stores the chunk just unmasked in the control payload or the message. */
    method StoreChunk(chunk: nat)
      requires Shape() && stage.NeedPayload? && 0 < chunk <= pos && (IsControl(opcode) ==> ctrlLen + chunk <= CTRL_MAX)
      requires |Held(asm)| <= maxMessage && msgActive == asm.Partial?
      requires asm.Partial? ==> asm.text == (msgOpcode == OP_TEXT)
      requires asm.Idle? && !IsControl(opcode) ==> msgOpcode == opcode
      requires var plain := inb[pos - chunk..pos];
               InPayload(maxMessage, asm, eaten, fin, opcode, mask, payloadLen, payloadDone,
                         if IsControl(opcode) then ctrl[..ctrlLen] + plain else ctrl[..ctrlLen],
                         if IsControl(opcode) then msg[..msgLen] else msg[..msgLen] + plain)
      modifies ctrl, msg, this`ctrlLen, this`msg, this`msgLen, this`chunks
      ensures Shape() && Parser() && (msg == old(msg) || fresh(msg))
    {
      hide CapAfter, Total, InPayload;
      if IsControl(opcode) {
        AppendControl(pos - chunk, chunk);
      } else {
        AppendMessage(pos - chunk, chunk);
      }
    }

    /** Moves payload bytes into the control payload or the message. */
    method StepChunk()
      requires Valid() && phase.Reading? && stage.NeedPayload? && payloadDone < payloadLen && pos < inLen
      modifies inb, ctrl, msg, this`payloadDone, this`pos, this`eaten, this`ctrlLen, this`msg, this`msgLen, this`chunks
      ensures Valid() && pos > old(pos) && (msg == old(msg) || fresh(msg))
    {
      hide NextFrame, Decode, ResidueOf, EncodeServer, EncodeAll, PongsIn, PongsSent, CapAfter, Total, UnmaskFrom,
           InPayload;
      ControlFits(maxMessage, asm, eaten, fin, opcode, mask, payloadLen, payloadDone, ctrl[..ctrlLen], msg[..msgLen]);
      ghost var more;
      var chunk;
      chunk, more := TakeChunk();
      PayloadTaken(maxMessage, asm, old(eaten), fin, opcode, mask, payloadLen, old(payloadDone),
                   old(ctrl[..ctrlLen]), old(msg[..msgLen]), more);
      StoreChunk(chunk);
    }

    /** The complete frame f has been read, and what is held of the message precedes it. */
    ghost predicate FrameRead(f: Frame)
      requires Shape()
      reads this`inb, this`inLen, this`pos, this`ctrlLen, this`msg, this`msgLen, this`chunks
      reads this`eaten, this`asm, this`stage, this`fin, this`opcode, this`msgActive, this`msgOpcode, inb, ctrl, msg
    {
      && stage.NeedHeader?
      && NextFrame(maxMessage, asm, Input()) == Got(f, inb[pos..inLen])
      && f.fin == fin && f.opcode == opcode && KnownOpcode(opcode)
      && (if IsControl(opcode) then ctrl[..ctrlLen] == f.payload && msg[..msgLen] == Held(asm)
          else msg[..msgLen] == Held(asm) + f.payload && |Held(asm) + f.payload| <= maxMessage)
      && |Held(asm)| <= maxMessage
      && msgActive == asm.Partial?
      && (asm.Partial? ==> asm.text == (msgOpcode == OP_TEXT))
      && (asm.Idle? && !IsControl(opcode) ==> msgOpcode == opcode)
    }

    /** The frame has been dealt with: the next one starts here. */
    ghost method NextBoundary(f: Frame)
      requires Shape() && Wire() && FrameRead(f) && IsControl(f.opcode) && phase.Reading?
      requires Log()
      requires !Dispatch(asm, f).over && Dispatch(asm, f).asm == asm
      requires PongsSent(sent) == PongsIn(history + Dispatch(asm, f).events)
      modifies this`eaten, this`history
      ensures Valid() && history == old(history) + Dispatch(asm, f).events
    {
      hide NextFrame, EncodeServer, EncodeAll, PongsIn, PongsSent, CapAfter, Total, InPayload;
      var events := Dispatch(asm, f).events;
      GotDecodes(maxMessage, asm, Input(), f, inb[pos..inLen]);
      hide Decode, Dispatch;
      var tail := Decode(maxMessage, asm, inb[pos..inLen]);
      Regroup(history, [], events, tail);
      eaten := [];
      history := history + events;
      assert Input() == inb[pos..inLen];
      assert Log();
    }

    /** Handles a complete control frame. */
    method HandleControl(ghost f: Frame) returns (r: ParseResult)
      requires Shape() && Wire() && Answered() && Log() && phase.Reading? && FrameRead(f) && IsControl(f.opcode)
      modifies this`dead, this`ioError, this`sent, this`torn, this`closeCode, this`closeSent, this`closeReceived
      modifies this`phase, this`history, this`eaten, socket`wire, socket`failures
      ensures Valid()
      ensures Ends(r) && ControlAdds(r, old(history), history)
      ensures Left(r, old(Now()), Now(), history)
    {
      hide NextFrame, EncodeServer, EncodeAll, PongsIn, PongsSent, CapAfter, Total, InPayload, Decode, ResidueOf;
      if opcode == OP_PING {
        r := AnswerPing(f);
      } else if opcode == OP_PONG {
        assert history + [] == history;
        NextBoundary(f);
        r := Continue;
      } else {
        r := HandleClose(f);
      }
    }

    /** A ping is answered with the same payload. */
    method AnswerPing(ghost f: Frame) returns (r: ParseResult)
      requires Shape() && Wire() && Answered() && Log() && phase.Reading? && FrameRead(f) && f.opcode == OP_PING
      modifies this`dead, this`ioError, this`sent, this`torn, this`closeCode, this`phase, this`history, this`eaten,
               socket`wire, socket`failures
      ensures Valid()
      ensures r.Continue? || r.IoError?
      ensures r.Continue? ==> phase.Reading? && history == old(history) + [Pong(f.payload)]
      ensures r.IoError? ==> phase.Broken? && ioError && history == old(history)
      ensures Left(r, old(Now()), Now(), history)
    {
      hide NextFrame, EncodeServer, EncodeAll, PongsIn, PongsSent, CapAfter, Total, InPayload, Decode, ResidueOf;
      hide Left;
      ghost var before, pong := Now(), ServerFrame(OP_PONG, f.payload);
      PongsInAppend(history, Pong(f.payload));
      var ok := SendPong(ctrl[..ctrlLen]);
      if ok {
        NextBoundary(f);
        r := Continue;
      } else {
        BreakOff();
        r := IoError;
      }
      PongLeft(before, Now(), pong, history);
    }

    /** Sends a pong, which is entered among the pongs sent. */
    method SendPong(payload: SizedPayload) returns (ok: bool)
      requires Wire()
      modifies this`dead, this`ioError, this`sent, this`torn, socket`wire, socket`failures
      ensures Wire()
      ensures PongsSent(sent) == PongsSent(old(sent)) + (if ok then [payload] else [])
      ensures ok ==> !old(dead) && !dead && ioError == old(ioError)
      ensures ok ==> sent == old(sent) + [ServerFrame(OP_PONG, payload)]
      ensures !ok ==> sent == old(sent) && dead && (old(ioError) ==> ioError)
      ensures socket.failures == old(socket.failures) + if ok || old(dead) then 0 else 1
    {
      hide EncodeServer, EncodeAll, PongsSent, Truncated;
      PongsSentAppend(sent, ServerFrame(OP_PONG, payload));
      ok := SendFrame(OP_PONG, payload);
    }

    /** A failed send ends the session. */
    method BreakOff()
      requires Shape() && Wire() && Answered() && Log() && phase.Reading? && dead
      modifies this`dead, this`ioError, this`closeCode, this`phase
      ensures Valid() && phase.Broken? && ioError && closeCode == old(closeCode)
    {
      hide NextFrame, EncodeServer, EncodeAll, PongsIn, PongsSent, CapAfter, Total, InPayload, Decode, ResidueOf;
      MarkDead(0, true);
      phase := Broken;
    }

    /** Sends a close frame unless one was sent before. */
    method CloseOnce(code: nat)
      requires Wire() && code < 0x1_0000
      modifies this`dead, this`ioError, this`sent, this`torn, this`closeCode, this`closeSent
      modifies socket`wire, socket`failures
      ensures Wire() && closeSent && PongsSent(sent) == PongsSent(old(sent))
      ensures old(closeSent) ==> sent == old(sent)
      ensures Grows(old(Now()), Now()) && Announced(old(Now()), Now(), code)
    {
      if !closeSent {
        var _ := SendClose(code, []);
      }
    }

    /** Ends the session on the peer's close: echoes it unless a close was sent before. */
    method EchoClose(code: nat) returns (r: ParseResult)
      requires Shape() && Wire() && Answered() && Log() && phase.Reading?
      requires Decode(maxMessage, asm, Input()) == [CloseReply(code)] && code < 0x1_0000
      modifies this`dead, this`ioError, this`sent, this`torn, this`closeCode, this`closeSent, this`closeReceived
      modifies this`phase, this`history, socket`wire, socket`failures
      ensures r.SessionClosed? && Valid() && phase.Finished? && closeReceived
      ensures history == old(history) + [CloseReply(code)] && Left(r, old(Now()), Now(), history)
    {
      hide Decode, ResidueOf, StageMeans, EncodeServer, EncodeAll, Unmask, PongsIn, PongsSent, CapAfter, Total;
      hide Left, Grows, Announced;
      CloseOnce(code);
      ghost var m := Now();
      MarkDead(Reported(code), false);
      closeReceived := true;
      Finish(CloseReply(code));
      assert Now() == m.(code := Reported(code), dead := true);
      CloseLeft(old(Now()), m, code, history);
      r := SessionClosed;
    }

    /** A close frame: one status byte alone is a violation, anything else is echoed. */
    method HandleClose(ghost f: Frame) returns (r: ParseResult)
      requires Shape() && Wire() && Answered() && Log() && phase.Reading? && FrameRead(f) && f.opcode == OP_CLOSE
      modifies this`dead, this`ioError, this`sent, this`torn, this`closeCode, this`closeSent, this`closeReceived
      modifies this`phase, this`history, socket`wire, socket`failures
      ensures Valid() && phase.Finished?
      ensures r.SessionClosed? || r.ProtocolError?
      ensures r.SessionClosed? ==> closeReceived && history == old(history) + [CloseReply(CloseCode(f.payload))]
      ensures r.ProtocolError? ==> history == old(history) + [Violation(1002)]
      ensures Left(r, old(Now()), Now(), history)
    {
      hide NextFrame, EncodeServer, EncodeAll, PongsIn, PongsSent, CapAfter, Total, InPayload;
      GotDecodes(maxMessage, asm, Input(), f, inb[pos..inLen]);
      hide Decode, ResidueOf;
      if ctrlLen == 1 {
        r := Violate(1002);
      } else {
        r := EchoClose(CloseCode(ctrl[..ctrlLen]));
      }
    }

    /** A non-final data frame: the message stays open. */
    method KeepFragment(ghost f: Frame)
      requires Shape() && Wire() && Answered() && Log() && phase.Reading? && FrameRead(f) && !IsControl(f.opcode) &&
               !f.fin
      modifies this`msgActive, this`asm, this`eaten
      ensures Valid()
    {
      hide NextFrame, EncodeServer, EncodeAll, PongsIn, PongsSent, CapAfter, Total, InPayload;
      GotDecodes(maxMessage, asm, Input(), f, inb[pos..inLen]);
      hide Decode, ResidueOf;
      assert [] + Decode(maxMessage, Dispatch(asm, f).asm, inb[pos..inLen]) ==
             Decode(maxMessage, Dispatch(asm, f).asm, inb[pos..inLen]);
      msgActive := true;
      asm, eaten := Dispatch(asm, f).asm, [];
      assert Input() == inb[pos..inLen];
    }

    /** Terminates the assembled message and hands it over, leaving an empty buffer. */
    method DetachMessage() returns (data: seq<byte>)
      requires Shape()
      modifies this`msg, this`msgLen, this`chunks, this`overrun, msg
      ensures Shape() && fresh(msg) && msgLen == 0
      ensures data == old(msg[..msgLen])
      ensures overrun == (old(overrun) || FillsExactly(old(chunks)))
    {
      hide FillsExactly;
      OverrunsExactly(chunks);
      data := msg[..msgLen];
      if msg.Length == 0 {
        msg := new byte[1](_ => 0);
      }
      if msgLen < msg.Length {
        msg[msgLen] := 0;
      } else {
        overrun := true;
      }
      msg := new byte[0];
      msgLen, chunks := 0, [];
    }

    /** The message e of the final frame f is out: the next frame starts here. */
    ghost method MessageBoundary(f: Frame, e: Event)
      requires Shape() && Wire() && Answered() && Log() && phase.Reading?
      requires NextFrame(maxMessage, asm, Input()) == Got(f, inb[pos..inLen])
      requires Dispatch(asm, f) == Effect([e], Idle, false) && e.Message?
      requires stage.NeedHeader? && msgLen == 0 && !msgActive
      modifies this`asm, this`eaten, this`history
      ensures Valid() && asm.Idle? && history == old(history) + [e]
    {
      hide NextFrame, EncodeServer, EncodeAll, PongsIn, PongsSent, CapAfter, Total, InPayload, Dispatch;
      GotDecodes(maxMessage, asm, Input(), f, inb[pos..inLen]);
      var tail := Decode(maxMessage, Idle, inb[pos..inLen]);
      hide Decode, ResidueOf;
      PongsInAppend(history, e);
      Regroup(history, [], [e], tail);
      asm, eaten := Idle, [];
      history := history + [e];
      assert Input() == inb[pos..inLen];
    }

    /** A final data frame: the whole message is delivered. */
    method Deliver(ghost f: Frame) returns (text: bool, data: seq<byte>)
      requires Shape() && Wire() && Answered() && Log() && phase.Reading? && FrameRead(f) && !IsControl(f.opcode) &&
               f.fin
      modifies this`msg, this`msgLen, this`chunks, this`overrun, msg
      modifies this`msgActive, this`asm, this`eaten, this`history
      ensures Valid() && fresh(msg) && asm.Idle?
      ensures history == old(history) + [Message(text, data)]
      ensures overrun == (old(overrun) || FillsExactly(old(chunks)))
    {
      hide NextFrame, EncodeServer, EncodeAll, PongsIn, PongsSent, CapAfter, Total, Decode, ResidueOf, FillsExactly;
      text := msgOpcode == OP_TEXT;
      ghost var e := Message(text, Held(asm) + f.payload);
      assert Dispatch(asm, f) == Effect([e], Idle, false);
      hide Dispatch;
      data := DetachMessage();
      msgActive := false;
      MessageBoundary(f, e);
    }

    /** Dispatches a complete data frame. */
    method DispatchData(ghost f: Frame) returns (r: ParseResult, text: bool, data: seq<byte>)
      requires Shape() && Wire() && Answered() && Log() && phase.Reading? && FrameRead(f) && !IsControl(f.opcode)
      modifies this`msg, this`msgLen, this`chunks, this`overrun, msg
      modifies this`msgActive, this`asm, this`eaten, this`history
      ensures Valid() && (msg == old(msg) || fresh(msg)) && phase.Reading?
      ensures r == if fin then GotMessage else Continue
      ensures Outcome(r, text, data, old(history), history)
    {
      hide NextFrame, EncodeServer, EncodeAll, PongsIn, PongsSent, CapAfter, Total, Decode, ResidueOf, InPayload,
           FillsExactly, Dispatch;
      hide Outcome;
      text, data := false, [];
      if !fin {
        KeepFragment(f);
        NothingNew(history);
        r := Continue;
      } else {
        text, data := Deliver(f);
        MessageNew(old(history), text, data);
        r := GotMessage;
      }
    }

    /** Dispatches the complete frame f. */
    method DispatchFrame(ghost f: Frame) returns (r: ParseResult, text: bool, data: seq<byte>)
      requires Shape() && Wire() && Answered() && Log() && phase.Reading? && FrameRead(f)
      modifies this, socket`wire, socket`failures, msg
      ensures Valid() && (msg == old(msg) || fresh(msg))
      ensures Outcome(r, text, data, old(history), history) && Ends(r) && Left(r, old(Now()), Now(), history)
      ensures r.Continue? ==> stage.NeedHeader?
      ensures inb == old(inb) && pos == old(pos) && inLen == old(inLen) && received == old(received)
      ensures socket.script == old(socket.script)
    {
      hide NextFrame, EncodeServer, EncodeAll, PongsIn, PongsSent, CapAfter, Total, Decode, ResidueOf, InPayload,
           FillsExactly, Dispatch;
      assert opcode == f.opcode && stage.NeedHeader?;
      hide Left, Outcome, ControlAdds, Shape, Wire, Answered, Log, FrameRead, Valid;
      text, data := false, [];
      if opcode >= OP_CLOSE {
        r := HandleControl(f);
        ControlOutcome(r, old(history), history);
      } else {
        r, text, data := DispatchData(f);
        NothingLeft(Now(), history);
      }
    }

    /** The phase a parse result leaves behind. */
    ghost predicate Ends(r: ParseResult)
      reads this`phase, this`closeReceived, this`ioError
    {
      match r
      case Continue => phase.Reading?
      case GotMessage => phase.Reading?
      case SessionClosed => phase.Finished? && closeReceived
      case ProtocolError => phase.Finished?
      case IoError => phase.Broken? && ioError
    }

    /** A complete frame is dispatched. */
    method StepDone() returns (r: ParseResult, text: bool, data: seq<byte>)
      requires Valid() && phase.Reading? && stage.NeedPayload? && payloadDone == payloadLen
      modifies this, socket`wire, socket`failures, msg
      ensures Valid() && (msg == old(msg) || fresh(msg))
      ensures Outcome(r, text, data, old(history), history) && Ends(r) && Left(r, old(Now()), Now(), history)
      ensures r.Continue? ==> stage.NeedHeader?
      ensures inb == old(inb) && pos == old(pos) && inLen == old(inLen) && received == old(received)
      ensures socket.script == old(socket.script)
    {
      hide NextFrame, EncodeServer, EncodeAll, PongsIn, PongsSent, CapAfter, Total, Decode, ResidueOf, Dispatch,
           FillsExactly;
      ghost var f := Frame(fin, opcode, Unmask(mask, eaten[HeaderSize(eaten) + 4..]));
      PayloadDecides(maxMessage, asm, eaten, fin, opcode, mask, payloadLen, ctrl[..ctrlLen], msg[..msgLen],
        inb[pos..inLen]);
      hide Unmask;
      stage := NeedHeader;
      payloadDone := 0;
      assert FrameRead(f);
      hide InPayload;
      r, text, data := DispatchFrame(f);
    }

    /** The bytes at hand let the current stage go on. */
    predicate CanStep()
      requires Shape()
      reads this`inb, this`inLen, this`pos, this`ctrlLen, this`msg, this`msgLen, this`chunks
      reads this`stage, this`payloadDone, this`payloadLen
    {
      inLen - pos >= Wanted(stage) || (stage.NeedPayload? && payloadDone == payloadLen)
    }

    /** A step that reads payload. */
    method StepPayload() returns (r: ParseResult, text: bool, data: seq<byte>)
      requires Valid() && phase.Reading? && CanStep() && stage.NeedPayload?
      modifies this, socket`wire, socket`failures, inb, ctrl, msg
      ensures Valid() && (msg == old(msg) || fresh(msg))
      ensures inb == old(inb) && inLen == old(inLen) && received == old(received) && socket.script == old(socket.script)
      ensures Outcome(r, text, data, old(history), history) && Ends(r) && Left(r, old(Now()), Now(), history)
      ensures r.Continue? ==> Measure() < old(Measure())
    {
      hide NextFrame, EncodeServer, EncodeAll, PongsIn, PongsSent, CapAfter, Total, Decode, ResidueOf, Dispatch,
           InPayload;
      r, text, data := Continue, false, [];
      PayloadBound();
      if payloadDone == payloadLen {
        r, text, data := StepDone();
      } else {
        StepChunk();
      }
    }

    /** A step that reads part of a frame header. */
    method StepFrameHeader() returns (r: ParseResult)
      requires Valid() && phase.Reading? && CanStep() && !stage.NeedPayload?
      modifies this, socket`wire, socket`failures
      ensures Valid() && msg == old(msg) && inb == old(inb) && inLen == old(inLen) && received == old(received)
      ensures Outcome(r, false, [], old(history), history) && Ends(r) && !r.GotMessage?
      ensures Left(r, old(Now()), Now(), history)
      ensures r.Continue? ==> Measure() < old(Measure())
    {
      hide NextFrame, EncodeServer, EncodeAll, PongsIn, PongsSent, CapAfter, Total, Decode, ResidueOf, Dispatch,
           StageMeans;
      hide Left, Outcome, Wire, Answered, Log, Parser;
      NothingLeft(Now(), history);
      NothingNew(history);
      r := Continue;
      if stage.NeedHeader? {
        r := StepHeader();
      } else if stage.NeedMask? {
        StepMask();
      } else {
        r := StepLength();
      }
    }

    /** One parser step. */
    method Step() returns (r: ParseResult, text: bool, data: seq<byte>)
      requires Valid() && phase.Reading? && CanStep()
      modifies this, socket`wire, socket`failures, inb, ctrl, msg
      ensures Valid() && (msg == old(msg) || fresh(msg))
      ensures inb == old(inb) && inLen == old(inLen) && received == old(received) && socket.script == old(socket.script)
      ensures Outcome(r, text, data, old(history), history) && Ends(r) && Left(r, old(Now()), Now(), history)
      ensures r.Continue? ==> Measure() < old(Measure())
    {
      hide NextFrame, EncodeServer, EncodeAll, PongsIn, PongsSent, CapAfter, Total, Decode, ResidueOf, Dispatch,
           StageMeans;
      text, data := false, [];
      if stage.NeedPayload? {
        r, text, data := StepPayload();
      } else {
        r := StepFrameHeader();
      }
    }

    /** When no step is possible, the reference decoder has nothing more to say either. */
    lemma Stuck()
      requires Valid() && phase.Reading? && !CanStep()
      ensures Decode(maxMessage, asm, Input()) == [] && inLen - pos <= 7
    {
      hide CapAfter, Total, InPayload;
      PayloadBound();
      MissingBytes(maxMessage, asm, eaten, stage, fin, opcode, mask, payloadLen, payloadDone,
                   ctrl[..ctrlLen], msg[..msgLen], inb[pos..inLen]);
    }

    ghost function Measure(): nat
      requires Shape()
      reads this`inb, this`inLen, this`pos, this`ctrlLen, this`msg, this`msgLen, this`chunks, this`stage
    {
      2 * (inLen - pos) + (if stage.NeedPayload? then 1 else 0)
    }

    /** While a payload is read: what is held and what is to come stay within the limits. */
    lemma PayloadBound()
      requires Valid() && phase.Reading?
      ensures stage.NeedPayload? ==> payloadDone <= payloadLen
      ensures stage.NeedPayload? && IsControl(opcode) ==> ctrlLen == payloadDone && payloadLen <= CTRL_MAX
      ensures stage.NeedPayload? && !IsControl(opcode) ==> msgLen + (payloadLen - payloadDone) <= maxMessage
      ensures stage.NeedHeader? ==> msgLen <= maxMessage && (!msgActive ==> msgLen == 0)
    {
      hide CapAfter, Total;
      if stage.NeedPayload? {
        ControlFits(maxMessage, asm, eaten, fin, opcode, mask, payloadLen, payloadDone, ctrl[..ctrlLen], msg[..msgLen]);
        hide InPayload;
        assert |msg[..msgLen]| == msgLen && |ctrl[..ctrlLen]| == ctrlLen;
      }
    }

    /**
     * Consumes the buffered bytes as far as they allow. When more input is needed, the events so
     * far are ALL the events of the bytes received, and at most seven bytes stay in the buffer.
     */
    method Parse() returns (r: ParseResult, text: bool, data: seq<byte>)
      requires Valid() && phase.Reading?
      modifies this, socket`wire, socket`failures, inb, ctrl, msg
      ensures Valid() && (msg == old(msg) || fresh(msg))
      ensures inb == old(inb) && received == old(received) && socket.script == old(socket.script)
      ensures Outcome(r, text, data, old(history), history) && Ends(r) && Left(r, old(Now()), Now(), history)
      ensures r.Continue? ==> pos == 0 && inLen <= 7 && history == Decode(maxMessage, Idle, received)
    {
      hide NextFrame, EncodeServer, EncodeAll, PongsIn, PongsSent, CapAfter, Total, Decode, ResidueOf, Dispatch,
           StageMeans;
      while CanStep()
        invariant Valid() && phase.Reading? && (msg == old(msg) || fresh(msg))
        invariant inb == old(inb) && inLen == old(inLen) && received == old(received)
        invariant socket.script == old(socket.script)
        invariant Outcome(Continue, false, [], old(history), history) && Left(Continue, old(Now()), Now(), history)
        decreases Measure()
      {
        label before:
        r, text, data := Step();
        OutcomeThen(r, text, data, old(history), old@before(history), history);
        LeftThen(r, old(Now()), old@before(Now()), Now(), history, old@before(history));
        if !r.Continue? {
          return;
        }
      }
      Stuck();
      assert history + [] == history;
      r, text, data := Continue, false, [];
      ghost var rest := inb[pos..inLen];
      Compact();
      assert inb[pos..inLen] == rest;
      assert Parser();
    }

    // ---- receiving ----

    /** Appends bytes that have arrived to the receive buffer. */
    method Fill(data: seq<byte>)
      requires Valid() && phase.Reading? && inLen + |data| <= inb.Length
      modifies this`inLen, this`received, inb
      ensures Valid() && phase.Reading? && received == old(received) + data
    {
      hide Decode, ResidueOf, EncodeServer, EncodeAll, PongsIn, PongsSent, CapAfter, Total, StageMeans;
      SamePlace(maxMessage, history, asm, Input(), Idle, received, data);
      DecodePrefix(maxMessage, Idle, received, data);
      ghost var was, before := inb[pos..inLen], Input();
      PutBytes(inb, inLen, data);
      assert inb[pos..inLen] == inb[..inLen][pos..] == was;
      inLen := inLen + |data|;
      received := received + data;
      assert inb[pos..inLen] == was + data;
      assert Input() == before + data;
      assert Parser();
      assert Log();
    }

    /** Marks a session dead without touching the parser. */
    method Die(code: nat, io: bool)
      requires Valid()
      modifies this`closeCode, this`ioError, this`dead
      ensures Valid() && dead && ioError == (old(ioError) || io)
      ensures closeCode == if code != 0 then code else old(closeCode)
    {
      hide Decode, ResidueOf, EncodeServer, EncodeAll, PongsIn, PongsSent, CapAfter, Total, StageMeans;
      MarkDead(code, io);
    }

    /** Sends a close frame without touching the parser. */
    method StartClose(code: nat, reason: seq<byte>) returns (ok: bool)
      requires Valid() && code < 0x1_0000
      modifies this`dead, this`ioError, this`closeCode, this`closeSent, this`sent, this`torn
      modifies socket`wire, socket`failures
      ensures Valid() && closeSent
      ensures ok ==> sent == old(sent) + [ServerFrame(OP_CLOSE, ClosePayload(code, reason))] && dead == old(dead)
      ensures !ok ==> sent == old(sent) && dead && (!old(dead) ==> ioError)
      ensures closeCode == if !old(dead) && !old(closeSent) && code != 0 then code else old(closeCode)
      ensures old(dead) ==> !ok
      ensures old(ioError) ==> ioError
      ensures socket.failures == old(socket.failures) + if ok || old(dead) then 0 else 1
    {
      hide Decode, ResidueOf, EncodeServer, EncodeAll, PongsIn, PongsSent, CapAfter, Total, StageMeans;
      ok := SendClose(code, reason);
    }

    /** The close of a session whose server is shutting down. */
    method ShutDown()
      requires Valid()
      modifies this`dead, this`ioError, this`closeCode, this`closeSent, this`sent, this`torn
      modifies socket`wire, socket`failures
      ensures Valid() && dead && closeCode == 1001 && closeSent
      ensures Grows(old(Now()), Now()) && ToldShutdown(old(Now()), Now())
    {
      var _ := StartClose(1001, SHUTTING_DOWN);
      Die(1001, false);
    }

    /** One recv call into the free part of the receive buffer, not counted as received yet. */
    method Poll() returns (got: Received)
      requires Valid() && phase.Reading? && inLen < inb.Length
      modifies socket`script, socket`calls
      ensures Valid() && socket.calls == old(socket.calls) + 1
      ensures got.Data? ==> 0 < |got.data| <= inb.Length - inLen
      ensures (if got.Data? then got.data else []) + Stream(socket.script) == old(Stream(socket.script))
      ensures !got.Blocked? ==> Work(socket.script) < old(Work(socket.script))
      ensures Suffix(Signals(socket.script), old(Signals(socket.script)))
      ensures got.Eof? ==> LastSignal(old(Signals(socket.script)), Signals(socket.script), PeerClosed)
      ensures got.Timeout? ==> LastSignal(old(Signals(socket.script)), Signals(socket.script), TimedOut(got.listening))
      ensures got.Error? ==> LastSignal(old(Signals(socket.script)), Signals(socket.script), Failed)
    {
      hide Decode, ResidueOf, EncodeServer, EncodeAll, PongsIn, PongsSent, CapAfter, Total, StageMeans, Stream,
           Work, Signals;
      hide Suffix, LastSignal;
      got := socket.Receive(inb.Length - inLen);
    }

    /** One recv call of the receive loop, and what its result means for the session. */
    method Await() returns (a: Awaited)
      requires Valid() && phase.Reading? && inLen < inb.Length && UpToDate(maxMessage, See())
      modifies this`inLen, this`received, this`dead, this`ioError, this`closeCode, this`closeSent, this`sent, this`torn
      modifies inb, socket
      ensures Valid() && old(received) <= received
      ensures received + Stream(socket.script) == old(received + Stream(socket.script))
      ensures a.Going? ==> Work(socket.script) < old(Work(socket.script)) && Waits(old(See()), See())
      ensures a.Returns? ==> Answers(maxMessage, a.result, false, [], old(See()), See())
    {
      hide Decode, ResidueOf, EncodeServer, EncodeAll, PongsIn, PongsSent, CapAfter, Total, StageMeans, Stream,
           Work, Signals;
      ghost var start := See();
      hide Valid, Shape, Wire, Answered, Log, Parser;
      var got := Poll();
      hide Answers, Waits, UpToDate, Grows, ToldShutdown, Suffix, LastSignal;
      a := Going;
      match got
      case Data(bytes) =>
        ghost var rest := Stream(socket.script);
        assert (received + bytes) + rest == received + (bytes + rest);
        Fill(bytes);
        StillWaits(start, See());
      case Eof =>
        Die(1006, false);
        SignalAnswers(maxMessage, PeerClosed, start, See());
        a := Returns(Closed);
      case Again =>
        StillWaits(start, See());
      case Timeout(listening) =>
        if listening {
          StillWaits(start, See());
        } else {
          ShutDown();
          SignalAnswers(maxMessage, TimedOut(false), start, See());
          a := Returns(Closed);
        }
      case Error =>
        Die(1006, true);
        SignalAnswers(maxMessage, Failed, start, See());
        a := Returns(Failure);
      case Blocked =>
        BlockedWaits(maxMessage, start, See());
        a := Returns(Pending);
    }

    /** Parses what is buffered and, when that is not enough, waits for more; the buffer never has to grow. */
    method Attempt() returns (a: Awaited, text: bool, data: seq<byte>)
      requires Valid() && phase.Reading?
      modifies this, socket, inb, ctrl, msg
      ensures Valid() && (msg == old(msg) || fresh(msg)) && inb == old(inb)
      ensures received + Stream(socket.script) == old(received + Stream(socket.script))
      ensures a.Going? ==> Work(socket.script) < old(Work(socket.script)) && Waits(old(See()), See())
      ensures a.Returns? ==> Answers(maxMessage, a.result, text, data, old(See()), See())
    {
      hide Decode, ResidueOf, EncodeServer, EncodeAll, PongsIn, PongsSent, CapAfter, Total, StageMeans, Stream,
           Work, Signals;
      hide Wire, Answered, Parser, Outcome, Left, Answers, Waits;
      var p;
      p, text, data := Parse();
      assert Suffix(Signals(socket.script), Signals(socket.script));
      ParseAnswers(maxMessage, p, text, data, old(See()), See());
      match p
      case GotMessage => a := Returns(Ok);
      case SessionClosed => a := Returns(Closed);
      case ProtocolError => a := Returns(Closed);
      case IoError => a := Returns(Failure);
      case Continue =>
        assert inLen < inb.Length; // so the receive buffer never has to grow here
        ghost var mid := See();
        text, data := false, [];
        a := Await();
        if a.Returns? {
          AnswersThen(maxMessage, a.result, false, [], old(See()), mid, See());
        } else {
          WaitsThen(old(See()), mid, See());
        }
    }

    /**
     * Receives the next message. However the stream is cut into recv results, the events so far
     * are those the one-shot decoder finds in the bytes received, in the same order. A call that
     * returns without a message has caused all of them, and leaves the code of what ended it.
     */
    method Recv() returns (r: RecvResult, text: bool, data: seq<byte>)
      requires Valid()
      modifies this, socket, inb, ctrl, msg
      ensures Valid() && (msg == old(msg) || fresh(msg)) && inb == old(inb)
      ensures received + Stream(socket.script) == old(received + Stream(socket.script))
      ensures old(history) <= history <= Decode(maxMessage, Idle, received)
      ensures !old(dead) ==> Answers(maxMessage, r, text, data, old(See()), See())
      ensures old(dead) ==> See() == old(See())
      ensures old(dead) ==> r == if old(ioError) then Failure else Closed
    {
      hide Decode, ResidueOf, EncodeServer, EncodeAll, PongsIn, PongsSent, CapAfter, Total, StageMeans, Stream,
           Work, Signals;
      hide Wire, Answered, Parser, Outcome, Left, Answers, EndedBySignal;
      text, data := false, [];
      if dead {
        r := if ioError then Failure else Closed;
        return;
      }
      WaitsAtFirst(See());
      while true
        invariant Valid() && phase.Reading? && (msg == old(msg) || fresh(msg)) && inb == old(inb)
        invariant received + Stream(socket.script) == old(received + Stream(socket.script))
        invariant Waits(old(See()), See())
        decreases Work(socket.script)
      {
        ghost var mid := See();
        var a;
        a, text, data := Attempt();
        if a.Returns? {
          r := a.result;
          AnswersThen(maxMessage, r, text, data, old(See()), mid, See());
          AnswersGrow(maxMessage, r, text, data, old(See()), See());
          return;
        }
        WaitsThen(old(See()), mid, See());
      }
    }

    // ---- closing ----

    /** Doubles a full receive buffer; false when it may not grow any more. */
    method GrowInput() returns (ok: bool)
      requires Valid() && phase.Reading?
      modifies this`inb
      ensures Valid() && phase.Reading? && (inb == old(inb) || fresh(inb))
      ensures ok ==> inLen < inb.Length
      ensures !ok ==> inb == old(inb) && inb.Length >= RECV_BUFFER_MAX
    {
      hide Decode, ResidueOf, EncodeServer, EncodeAll, PongsIn, PongsSent, CapAfter, Total, StageMeans;
      ok := true;
      if inLen == inb.Length {
        if inb.Length >= RECV_BUFFER_MAX {
          ok := false;
          return;
        }
        ghost var s := Input();
        var tmp := new byte[inb.Length * 2](_ => 0);
        CopyBytes(inb, 0, tmp, 0, inLen);
        assert tmp[pos..inLen] == inb[..inLen][pos..inLen] == inb[pos..inLen];
        inb := tmp;
        assert Input() == s;
      }
    }

    /** Parses what has arrived while draining: messages are thrown away. */
    method DrainParse() returns (more: bool)
      requires Valid() && phase.Reading?
      modifies this, socket`wire, socket`failures, inb, ctrl, msg
      ensures Valid() && (msg == old(msg) || fresh(msg)) && inb == old(inb) && received == old(received)
      ensures if more then phase.Reading? && Discards(old(See()), See()) else Drained(old(See()), See())
    {
      hide Decode, ResidueOf, EncodeServer, EncodeAll, PongsIn, PongsSent, CapAfter, Total, StageMeans, Signals;
      hide Wire, Log, Answered, Parser, Left, Discards, Drained, Grows;
      var p, _, _ := Parse();
      assert Suffix(Signals(socket.script), Signals(socket.script));
      ParseDrained(p, old(See()), See());
      more := !(p.SessionClosed? || p.ProtocolError? || p.IoError?);
      if p.IoError? {
        ghost var b := See();
        Die(1006, true);
        assert See() == b.(marks := b.marks.(code := 1006, dead := true, failed := true));
      }
    }

    /** One recv call of the drain loop; true when waiting for the echo goes on. */
    method DrainOnce() returns (more: bool)
      requires Valid() && phase.Reading? && inLen < inb.Length
      modifies this, socket, inb, ctrl, msg
      ensures Valid() && (msg == old(msg) || fresh(msg)) && inb == old(inb)
      ensures received + Stream(socket.script) == old(received + Stream(socket.script))
      ensures socket.calls == old(socket.calls) + 1
      ensures if more then phase.Reading? && Discards(old(See()), See()) else Drained(old(See()), See())
    {
      hide Decode, ResidueOf, EncodeServer, EncodeAll, PongsIn, PongsSent, CapAfter, Total, StageMeans, Stream,
           Work, Signals;
      hide Discards, Drained, Suffix, Grows, LastSignal;
      ghost var start := See();
      hide Valid, Shape, Wire, Answered, Log, Parser;
      var got := Poll();
      more := true;
      match got
      case Data(bytes) =>
        ghost var rest := Stream(socket.script);
        assert (received + bytes) + rest == received + (bytes + rest);
        Fill(bytes);
        ghost var mid := See();
        SignalDrained(start, mid);
        more := DrainParse();
        DrainedThen(start, mid, See());
      case Again =>
        SignalDrained(start, See());
      case Eof =>
        Die(1006, false);
        SignalDrained(start, See());
        more := false;
      case Timeout(_) =>
        Die(0, false);
        SignalDrained(start, See());
        more := false;
      case Error =>
        Die(0, false);
        SignalDrained(start, See());
        more := false;
      case Blocked =>
        Die(0, false);
        SignalDrained(start, See());
        more := false;
    }

    /** Waits for the peer's close echo, for a bounded number of recv calls. */
    method DrainCloseEcho()
      requires Valid() && phase.Reading?
      modifies this, socket, inb, ctrl, msg
      ensures Valid() && fresh(Repr() - old(Repr()))
      ensures received + Stream(socket.script) == old(received + Stream(socket.script))
      ensures socket.calls <= old(socket.calls) + 5
      ensures Drained(old(See()), See())
    {
      hide Decode, ResidueOf, EncodeServer, EncodeAll, PongsIn, PongsSent, CapAfter, Total, StageMeans, Stream,
           Work, Signals;
      hide Wire, Answered, Parser, Discards, Drained;
      DiscardsNothing(See());
      var slices := CLOSE_WAIT_MS / POLL_MS + 1;
      for i := 0 to slices
        invariant Valid() && phase.Reading? && fresh(Repr() - old(Repr()))
        invariant received + Stream(socket.script) == old(received + Stream(socket.script))
        invariant socket.calls <= old(socket.calls) + i
        invariant Discards(old(See()), See())
      {
        if closeReceived {
          break;
        }
        var room := GrowInput();
        if !room {
          break;
        }
        ghost var mid := See();
        var more := DrainOnce();
        DrainedThen(old(See()), mid, See());
        if !more {
          return;
        }
      }
      ghost var b := See();
      Die(0, false);
      assert See() == b.(marks := b.marks.(dead := true));
      GivenUp(old(See()), b);
    }

    /** Starts the close handshake and waits for the echo; a dead session is left alone. */
    method Close(code: nat, reason: seq<byte>) returns (ok: bool)
      requires Valid() && code < 0x1_0000
      modifies this, socket, inb, ctrl, msg
      ensures Valid() && dead && fresh(Repr() - old(Repr()))
      ensures old(dead) ==> ok && See() == old(See())
      ensures old(history) <= history <= Decode(maxMessage, Idle, received)
      ensures received + Stream(socket.script) == old(received + Stream(socket.script))
      ensures socket.calls <= old(socket.calls) + 5
      ensures !old(dead) && ok ==> old(sent) + [ServerFrame(OP_CLOSE, ClosePayload(code, reason))] <= sent
      ensures !ok ==> sent == old(sent) && ioError && socket.failures > old(socket.failures)
      ensures !old(dead) ==>
                exists m: Marks ::
                  m.closing && m.code == (if !old(closeSent) && code != 0 then code else old(closeCode)) &&
                  Drained(old(See()).(marks := m), See())
    {
      hide Decode, ResidueOf, EncodeServer, EncodeAll, PongsIn, PongsSent, CapAfter, Total, StageMeans, Stream, Work;
      hide Wire, Answered, Parser;
      if dead {
        ok := true;
        return;
      }
      ok := StartClose(code, reason);
      DrainCloseEcho();
    }

    // ---- sending ----

    /** Sends one data or ping frame of the application. */
    method SendPayload(op: Opcode, payload: SizedPayload) returns (ok: bool)
      requires Valid() && op != OP_PONG
      modifies this`dead, this`ioError, this`sent, this`torn, socket`wire, socket`failures
      ensures Valid()
      ensures ok ==> sent == old(sent) + [ServerFrame(op, payload)] && !dead
      ensures !ok ==> sent == old(sent) && dead
      ensures old(dead) ==> !ok && socket.wire == old(socket.wire)
      ensures socket.failures == old(socket.failures) + if ok || old(dead) then 0 else 1
    {
      hide Decode, ResidueOf, EncodeServer, EncodeAll, PongsIn, PongsSent, CapAfter, Total, StageMeans;
      PongsSentAppend(sent, ServerFrame(op, payload));
      ok := SendFrame(op, payload);
    }

    method SendText(payload: SizedPayload) returns (ok: bool)
      requires Valid()
      modifies this`dead, this`ioError, this`sent, this`torn, socket`wire, socket`failures
      ensures Valid()
      ensures ok ==> sent == old(sent) + [ServerFrame(OP_TEXT, payload)] && !dead
      ensures !ok ==> sent == old(sent) && dead
      ensures socket.failures == old(socket.failures) + if ok || old(dead) then 0 else 1
    {
      ok := SendPayload(OP_TEXT, payload);
    }

    method SendBinary(payload: SizedPayload) returns (ok: bool)
      requires Valid()
      modifies this`dead, this`ioError, this`sent, this`torn, socket`wire, socket`failures
      ensures Valid()
      ensures ok ==> sent == old(sent) + [ServerFrame(OP_BINARY, payload)] && !dead
      ensures !ok ==> sent == old(sent) && dead
      ensures socket.failures == old(socket.failures) + if ok || old(dead) then 0 else 1
    {
      ok := SendPayload(OP_BINARY, payload);
    }

    /** A ping longer than a control frame may be is refused without touching the session. */
    method SendPing(payload: SizedPayload) returns (ok: bool)
      requires Valid()
      modifies this`dead, this`ioError, this`sent, this`torn, socket`wire, socket`failures
      ensures Valid()
      ensures ok ==> |payload| <= 125 && sent == old(sent) + [ServerFrame(OP_PING, payload)] && !dead
      ensures !ok ==> sent == old(sent) && (|payload| <= 125 ==> dead)
      ensures |payload| > 125 ==> !ok && dead == old(dead) && socket.wire == old(socket.wire)
      ensures socket.failures == old(socket.failures) + if ok || old(dead) || |payload| > 125 then 0 else 1
    {
      if |payload| > CTRL_MAX {
        ok := false;
      } else {
        ok := SendPayload(OP_PING, payload);
      }
    }

    /** A client reads exactly the frames that were sent, whatever a socket error cut off. */
    lemma PeerReadsWholeFrames()
      requires Valid()
      ensures ReadServer(socket.wire) == Pairs(sent)
    {
      if torn == [] {
        assert EncodeAll(sent) + torn == EncodeAll(sent) + [];
      } else {
        var f: ServerFrame :| |torn| < |EncodeServer(f)| && torn == EncodeServer(f)[..|torn|];
        ReadTruncated(f, |torn|);
      }
      ReadUndoesWrite(sent, torn);
      assert ReadServer(torn) == [];
    }
  }
}
