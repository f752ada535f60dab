/**
 * What the fields of the resumable frame parser mean, stage by stage, in terms of the bytes of
 * the current frame that have been consumed, and how each stage relates to the one-shot decoder.
 */
module WsParserState {
  import opened Bytes
  import opened WsFrames
  import opened WsRoundTrip

  datatype Stage = NeedHeader | NeedLen16 | NeedLen64 | NeedMask | NeedPayload

  datatype ParseResult = Continue | GotMessage | SessionClosed | ProtocolError | IoError

  /** Ghost record of how the parser ended. */
  datatype Phase = Reading | Finished | Broken

  // ---- what the parser fields mean ----

  /** The frame header in `eaten` announces this frame, and all its checks have passed. */
  ghost predicate LengthKnown(max: nat, asm: Assembly, eaten: seq<byte>, fin: bool, opcode: nat, n: nat) {
    && |eaten| >= 2
    && var h := HeaderOf(eaten[0], eaten[1]);
    && HeaderOk(h, asm.Partial?)
    && h.fin == fin && h.opcode == opcode
    && |eaten| >= 2 + ExtLen(h.len7)
    && n == PayloadLen(h.len7, eaten[2..2 + ExtLen(h.len7)])
    && MinimalLength(h.len7, n)
    && (!IsControl(opcode) ==> |Held(asm)| + n <= max)
  }

  ghost function HeaderSize(eaten: seq<byte>): nat
    requires |eaten| >= 2
  {
    2 + ExtLen(HeaderOf(eaten[0], eaten[1]).len7)
  }

  /** The two header bytes have been read and announce an extended length. */
  ghost predicate AwaitsLength(asm: Assembly, eaten: seq<byte>, fin: bool, opcode: nat, len7: nat) {
    && |eaten| == 2
    && HeaderOf(eaten[0], eaten[1]) == Header(fin, 0, opcode, true, len7)
    && HeaderOk(Header(fin, 0, opcode, true, len7), asm.Partial?)
  }

  /** Everything about a frame whose payload is being read. */
  ghost predicate InPayload(max: nat, asm: Assembly, eaten: seq<byte>, fin: bool, opcode: nat, mask: Key,
                            n: nat, done: nat, ctrl: seq<byte>, msg: seq<byte>)
  {
    && LengthKnown(max, asm, eaten, fin, opcode, n)
    && done <= n
    && |eaten| == HeaderSize(eaten) + 4 + done
    && mask == eaten[HeaderSize(eaten)..HeaderSize(eaten) + 4]
    && var data := Unmask(mask, eaten[HeaderSize(eaten) + 4..]);
    && (if IsControl(opcode) then n <= CTRL_MAX && ctrl == data && msg == Held(asm) else msg == Held(asm) + data)
  }

  ghost predicate StageMeans(max: nat, asm: Assembly, eaten: seq<byte>, stage: Stage, fin: bool, opcode: nat,
                             mask: Key, n: nat, done: nat, ctrl: seq<byte>, msg: seq<byte>)
  {
    match stage
    case NeedHeader => eaten == [] && msg == Held(asm)
    case NeedLen16 => AwaitsLength(asm, eaten, fin, opcode, 126) && msg == Held(asm)
    case NeedLen64 => AwaitsLength(asm, eaten, fin, opcode, 127) && msg == Held(asm)
    case NeedMask =>
      LengthKnown(max, asm, eaten, fin, opcode, n) && |eaten| == HeaderSize(eaten) && msg == Held(asm)
    case NeedPayload => InPayload(max, asm, eaten, fin, opcode, mask, n, done, ctrl, msg)
  }

  // ---- reference decoder facts, one per stage ----

  lemma HeaderDecides(max: nat, asm: Assembly, s: seq<byte>)
    requires |s| >= 2 && !HeaderOk(HeaderOf(s[0], s[1]), asm.Partial?)
    ensures NextFrame(max, asm, s) == Bad(1002)
  {
  }

  lemma BadDecodes(max: nat, asm: Assembly, s: seq<byte>, code: nat)
    requires NextFrame(max, asm, s) == Bad(code)
    ensures Decode(max, asm, s) == [Violation(code)]
  {
  }

  lemma GotDecodes(max: nat, asm: Assembly, s: seq<byte>, f: Frame, rest: seq<byte>)
    requires NextFrame(max, asm, s) == Got(f, rest)
    ensures var e := Dispatch(asm, f);
            && Decode(max, asm, s) == (if e.over then e.events else e.events + Decode(max, e.asm, rest))
            && ResidueOf(max, asm, s) == if e.over then Over else ResidueOf(max, e.asm, rest)
  {
  }

  lemma LengthDecides(max: nat, asm: Assembly, s: seq<byte>, h: Header, n: nat)
    requires |s| >= 2 && h == HeaderOf(s[0], s[1]) && HeaderOk(h, asm.Partial?)
    requires |s| >= 2 + ExtLen(h.len7) && n == PayloadLen(h.len7, s[2..2 + ExtLen(h.len7)])
    ensures !MinimalLength(h.len7, n) ==> NextFrame(max, asm, s) == Bad(1002)
    ensures MinimalLength(h.len7, n) && !IsControl(h.opcode) && |Held(asm)| + n > max ==>
              NextFrame(max, asm, s) == Bad(1009)
  {
  }

  /** A length that is not in its shortest form ends the stream. */
  lemma NotMinimalDecodes(max: nat, asm: Assembly, eaten: seq<byte>, rest: seq<byte>, h: Header, n: nat)
    requires |eaten| >= 2 && |eaten| == HeaderSize(eaten) && h == HeaderOf(eaten[0], eaten[1]) &&
             HeaderOk(h, asm.Partial?)
    requires n == PayloadLen(h.len7, eaten[2..]) && !MinimalLength(h.len7, n)
    ensures Decode(max, asm, eaten + rest) == [Violation(1002)]
  {
    hide NextFrame, PayloadLen, Decode, HeaderOf;
    var s := eaten + rest;
    assert s[2..2 + ExtLen(h.len7)] == eaten[2..];
    LengthDecides(max, asm, s, h, n);
    BadDecodes(max, asm, s, 1002);
  }

  /** A frame whose payload is complete is the next frame of the stream. */
  lemma PayloadDecides(max: nat, asm: Assembly, eaten: seq<byte>, fin: bool, opcode: nat, mask: Key, n: nat,
                       ctrl: seq<byte>, msg: seq<byte>, rest: seq<byte>)
    requires InPayload(max, asm, eaten, fin, opcode, mask, n, n, ctrl, msg)
    ensures NextFrame(max, asm, eaten + rest) ==
            Got(Frame(fin, opcode, Unmask(mask, eaten[HeaderSize(eaten) + 4..])), rest)
  {
    var s := eaten + rest;
    var e := HeaderSize(eaten) - 2;
    assert s[2..2 + e] == eaten[2..2 + e];
    assert s[2 + e..6 + e] == mask;
    assert s[6 + e..6 + e + n] == eaten[6 + e..];
    assert s[6 + e + n..] == rest;
  }

  /** The bytes a stage has to have at hand before it can go on. */
  function Wanted(stage: Stage): nat {
    match stage
    case NeedHeader => 2
    case NeedLen16 => 2
    case NeedLen64 => 8
    case NeedMask => 4
    case NeedPayload => 1
  }

  /** While bytes of the frame are missing, the reference decoder sees no event either. */
  lemma MissingBytes(max: nat, asm: Assembly, eaten: seq<byte>, stage: Stage, fin: bool, opcode: nat,
                     mask: Key, n: nat, done: nat, ctrl: seq<byte>, msg: seq<byte>, rest: seq<byte>)
    requires StageMeans(max, asm, eaten, stage, fin, opcode, mask, n, done, ctrl, msg)
    requires |rest| < Wanted(stage) && (stage.NeedPayload? ==> done < n)
    ensures Decode(max, asm, eaten + rest) == []
  {
    var s := eaten + rest;
    if stage.NeedMask? || stage.NeedPayload? {
      var e := HeaderSize(eaten) - 2;
      assert s[2..2 + e] == eaten[2..2 + e];
    }
    assert NextFrame(max, asm, s) == NeedMore;
  }

  /** Unmasking resumed in the middle of a payload, `done` bytes in. */
  function UnmaskFrom(mask: Key, done: nat, data: seq<byte>): (r: seq<byte>)
    ensures |r| == |data|
  {
    seq(|data|, i requires 0 <= i < |data| => Xor(data[i], mask[(done + i) % 4]))
  }

  /** Unmasking is bitwise exclusive or with the key, over and over. */
  lemma UnmaskFromMasks(mask: Key, done: nat, data: seq<byte>)
    ensures Masks(mask, done, data, UnmaskFrom(mask, done, data))
    ensures UnmaskFrom(mask, 0, data) == Unmask(mask, data)
  {
    hide Bit;
    forall i, k | 0 <= i < |data| && 0 <= k < 8
      ensures Bit(UnmaskFrom(mask, done, data)[i], k) == (Bit(data[i], k) + Bit(mask[(done + i) % 4], k)) % 2
    {
      XorBit(data[i], mask[(done + i) % 4], k);
    }
  }

  /** Unmasking in pieces is unmasking the whole. */
  lemma UnmaskInPieces(mask: Key, a: seq<byte>, b: seq<byte>)
    ensures Unmask(mask, a + b) == Unmask(mask, a) + UnmaskFrom(mask, |a|, b)
  {
  }

  lemma UnmaskFromSplit(mask: Key, done: nat, a: seq<byte>, x: byte)
    ensures UnmaskFrom(mask, done, a + [x]) == UnmaskFrom(mask, done, a) + [Xor(x, mask[(done + |a|) % 4])]
  {
  }

  /** After the masking key the payload starts empty. */
  lemma KeyTaken(max: nat, asm: Assembly, eaten: seq<byte>, fin: bool, opcode: nat, key: Key, n: nat, msg: seq<byte>)
    requires LengthKnown(max, asm, eaten, fin, opcode, n) && |eaten| == HeaderSize(eaten) && msg == Held(asm)
    ensures InPayload(max, asm, eaten + key, fin, opcode, key, n, 0, [], msg)
  {
    var e := HeaderSize(eaten);
    var now := eaten + key;
    assert now[2..e] == eaten[2..e];
    assert now[e..e + 4] == key;
    assert now[e + 4..] == [];
  }

  /** A control payload fits its buffer. */
  lemma ControlFits(max: nat, asm: Assembly, eaten: seq<byte>, fin: bool, opcode: nat, mask: Key, n: nat, done: nat,
                    ctrl: seq<byte>, msg: seq<byte>)
    requires InPayload(max, asm, eaten, fin, opcode, mask, n, done, ctrl, msg)
    ensures done <= n && (IsControl(opcode) ==> n <= CTRL_MAX && |ctrl| == done)
    ensures !IsControl(opcode) ==> |msg| + (n - done) <= max
  {
    assert |eaten[HeaderSize(eaten) + 4..]| == done;
  }

  /** Further payload bytes keep the meaning of the fields. */
  lemma PayloadTaken(max: nat, asm: Assembly, eaten: seq<byte>, fin: bool, opcode: nat, mask: Key, n: nat, done: nat,
                     ctrl: seq<byte>, msg: seq<byte>, more: seq<byte>)
    requires InPayload(max, asm, eaten, fin, opcode, mask, n, done, ctrl, msg)
    requires done + |more| <= n
    ensures var plain := UnmaskFrom(mask, done, more);
            InPayload(max, asm, eaten + more, fin, opcode, mask, n, done + |more|,
                      if IsControl(opcode) then ctrl + plain else ctrl,
                      if IsControl(opcode) then msg else msg + plain)
  {
    hide Unmask, UnmaskFrom, HeaderOf, BigEndian, HeaderOk;
    var e := HeaderSize(eaten);
    var now := eaten + more;
    assert now[2..e] == eaten[2..e];
    assert now[e..e + 4] == eaten[e..e + 4];
    assert now[e + 4..] == eaten[e + 4..] + more;
    UnmaskInPieces(mask, eaten[e + 4..], more);
  }

  // ---- the events and the frames sent ----

  function PongsIn(history: seq<Event>): seq<seq<byte>> {
    if history == [] then [] else
    PongsIn(history[..|history| - 1]) +
    (if history[|history| - 1].Pong? then [history[|history| - 1].payload] else [])
  }

  function PongsSent(sent: seq<ServerFrame>): seq<seq<byte>> {
    if sent == [] then [] else
    PongsSent(sent[..|sent| - 1]) +
    (if sent[|sent| - 1].opcode == OP_PONG then [sent[|sent| - 1].payload] else [])
  }

  lemma PongsInAppend(history: seq<Event>, e: Event)
    ensures PongsIn(history + [e]) == PongsIn(history) + (if e.Pong? then [e.payload] else [])
  {
    assert (history + [e])[..|history|] == history;
  }

  lemma PongsSentAppend(sent: seq<ServerFrame>, f: ServerFrame)
    ensures PongsSent(sent + [f]) == PongsSent(sent) + (if f.opcode == OP_PONG then [f.payload] else [])
  {
    assert (sent + [f])[..|sent|] == sent;
  }

  lemma EncodeAllAppend(sent: seq<ServerFrame>, f: ServerFrame)
    ensures EncodeAll(sent + [f]) == EncodeAll(sent) + EncodeServer(f)
  {
    assert (sent + [f])[..|sent|] == sent;
  }

  /** The payload of a close frame: code and reason, the reason cut to fit. */
  function ClosePayload(code: nat, reason: seq<byte>): (p: SizedPayload)
    requires code < 0x1_0000
    ensures |p| <= CTRL_MAX
  {
    if code == 0 then []
    else [code / 256, code % 256] + (if |reason| > CTRL_MAX - 2 then reason[..CTRL_MAX - 2] else reason)
  }
}
