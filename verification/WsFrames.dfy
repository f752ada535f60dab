/**
 * The wire format of the WebSocket session (RFC 6455, sections 5.2 to 5.5) and a
 * one-shot reference decoder: given ALL the bytes of a client stream, the events a
 * server must produce. The session class is proved against this decoder.
 */
module WsFrames {
  import opened Bytes

  const OP_CONT := 0
  const OP_TEXT := 1
  const OP_BINARY := 2
  const OP_CLOSE := 8
  const OP_PING := 9
  const OP_PONG := 10

  const CTRL_MAX := 125
  const TWO_TO_63 := 0x8000_0000_0000_0000

  datatype Frame = Frame(fin: bool, opcode: nat, payload: seq<byte>)

  /** The two fixed header bytes, taken apart. */
  datatype Header = Header(fin: bool, rsv: nat, opcode: nat, masked: bool, len7: nat)

  function HeaderOf(b0: byte, b1: byte): Header {
    Header(b0 >= 0x80, (b0 / 0x10) % 8, b0 % 0x10, b1 >= 0x80, b1 % 0x80)
  }

  predicate IsControl(opcode: nat) {
    opcode >= OP_CLOSE
  }

  predicate KnownOpcode(opcode: nat) {
    opcode == OP_CONT || opcode == OP_TEXT || opcode == OP_BINARY ||
    opcode == OP_CLOSE || opcode == OP_PING || opcode == OP_PONG
  }

  /** The checks made on the two header bytes; `active` says a fragmented message is open. */
  predicate HeaderOk(h: Header, active: bool) {
    && h.rsv == 0
    && h.masked
    && KnownOpcode(h.opcode)
    && if IsControl(h.opcode) then h.len7 <= CTRL_MAX && h.fin else (h.opcode == OP_CONT) == active
  }

  /** Number of extended length bytes announced by the 7-bit length. */
  function ExtLen(len7: nat): nat {
    if len7 < 126 then 0 else if len7 == 126 then 2 else 8
  }

  function PayloadLen(len7: nat, ext: seq<byte>): nat {
    if len7 < 126 then len7 else BigEndian(ext)
  }

  /** The shortest-form rule, and the clear top bit of the 64-bit form. */
  predicate MinimalLength(len7: nat, n: nat) {
    && (len7 == 126 ==> 126 <= n)
    && (len7 >= 127 ==> 65536 <= n < TWO_TO_63)
  }

  /** What is known of the current message at a frame boundary. */
  datatype Assembly = Idle | Partial(text: bool, data: seq<byte>)

  function Held(asm: Assembly): seq<byte> {
    if asm.Partial? then asm.data else []
  }

  /** A four-byte masking key. */
  type Key = k: seq<byte> | |k| == 4 witness [0, 0, 0, 0]

  function Unmask(key: Key, data: seq<byte>): (r: seq<byte>)
    ensures |r| == |data|
  {
    seq(|data|, i requires 0 <= i < |data| => Xor(data[i], key[i % 4]))
  }

  /** Every bit of r is that of data, turned round where the bit of its key byte is set; `done` bytes come before. */
  ghost predicate Masks(key: Key, done: nat, data: seq<byte>, r: seq<byte>) {
    |r| == |data| &&
    forall i, k :: 0 <= i < |data| && 0 <= k < 8 ==>
      Bit(r[i], k) == (Bit(data[i], k) + Bit(key[(done + i) % 4], k)) % 2
  }

  // ---- one frame ----

  datatype Next = NeedMore | Bad(code: nat) | Got(frame: Frame, rest: seq<byte>)

  /** The first frame of s, or why there is none. */
  function NextFrame(max: nat, asm: Assembly, s: seq<byte>): (r: Next)
    ensures r.Got? ==> |r.rest| < |s|
  {
    if |s| < 2 then NeedMore else
    var h := HeaderOf(s[0], s[1]);
    if !HeaderOk(h, asm.Partial?) then Bad(1002) else
    var e := ExtLen(h.len7);
    if |s| < 2 + e then NeedMore else
    var n := PayloadLen(h.len7, s[2..2 + e]);
    if !MinimalLength(h.len7, n) then Bad(1002) else
    if !IsControl(h.opcode) && |Held(asm)| + n > max then Bad(1009) else
    if |s| < 6 + e + n then NeedMore else
    Got(Frame(h.fin, h.opcode, Unmask(s[2 + e..6 + e], s[6 + e..6 + e + n])), s[6 + e + n..])
  }

  // ---- what a frame causes ----

  datatype Event =
    | Message(text: bool, data: seq<byte>)
    | Pong(payload: seq<byte>)
    | CloseReply(code: nat)
    | Violation(code: nat)

  /** Events, the assembly afterwards, and whether the session is over. */
  datatype Effect = Effect(events: seq<Event>, asm: Assembly, over: bool)

  /** The status code of a close payload; 0 when there is none. */
  function CloseCode(payload: seq<byte>): nat {
    if |payload| < 2 then 0 else 256 * (payload[0] as int) + payload[1]
  }

  function Dispatch(asm: Assembly, f: Frame): Effect {
    if f.opcode == OP_PING then Effect([Pong(f.payload)], asm, false)
    else if f.opcode == OP_PONG then Effect([], asm, false)
    else if IsControl(f.opcode) then
      if |f.payload| == 1 then Effect([Violation(1002)], asm, true)
      else Effect([CloseReply(CloseCode(f.payload))], asm, true)
    else
      var text := if asm.Partial? then asm.text else f.opcode == OP_TEXT;
      var data := Held(asm) + f.payload;
      if f.fin then Effect([Message(text, data)], Idle, false)
      else Effect([], Partial(text, data), false)
  }

  // ---- the whole stream ----

  /** All events of the stream s, read with a message limit of max. */
  function Decode(max: nat, asm: Assembly, s: seq<byte>): seq<Event>
    decreases |s|
  {
    match NextFrame(max, asm, s)
    case NeedMore => []
    case Bad(code) => [Violation(code)]
    case Got(f, rest) =>
      var e := Dispatch(asm, f);
      if e.over then e.events else e.events + Decode(max, e.asm, rest)
  }

  /** Where the decoder stands after s. */
  datatype Residue = Over | Waiting(asm: Assembly, rest: seq<byte>)

  function ResidueOf(max: nat, asm: Assembly, s: seq<byte>): Residue
    decreases |s|
  {
    match NextFrame(max, asm, s)
    case NeedMore => Waiting(asm, s)
    case Bad(code) => Over
    case Got(f, rest) =>
      var e := Dispatch(asm, f);
      if e.over then Over else ResidueOf(max, e.asm, rest)
  }

  /** More bytes never change the verdict on a frame that is already decided. */
  lemma NextFrameMonotone(max: nat, asm: Assembly, s: seq<byte>, t: seq<byte>)
    ensures NextFrame(max, asm, s).Bad? ==> NextFrame(max, asm, s + t) == NextFrame(max, asm, s)
    ensures NextFrame(max, asm, s).Got? ==>
              NextFrame(max, asm, s + t) ==
              Got(NextFrame(max, asm, s).frame, NextFrame(max, asm, s).rest + t)
  {
    if |s| >= 2 {
      var h := HeaderOf(s[0], s[1]);
      var e := ExtLen(h.len7);
      if |s| >= 2 + e {
        assert (s + t)[2..2 + e] == s[2..2 + e];
        var n := PayloadLen(h.len7, s[2..2 + e]);
        if |s| >= 6 + e + n {
          assert (s + t)[2 + e..6 + e] == s[2 + e..6 + e];
          assert (s + t)[6 + e..6 + e + n] == s[6 + e..6 + e + n];
          assert (s + t)[6 + e + n..] == s[6 + e + n..] + t;
        }
      }
    }
  }

  /** Decoding taken up again when t arrives. */
  function Resume(max: nat, r: Residue, t: seq<byte>): seq<Event> {
    match r
    case Over => []
    case Waiting(asm, rest) => Decode(max, asm, rest + t)
  }

  /**
   * Decoding may stop anywhere and resume: the events of s + t are those of s followed by
   * those of the unread rest of s with t. Hence where a stream is cut cannot matter.
   */
  lemma {:induction false} DecodeAppend(max: nat, asm: Assembly, s: seq<byte>, t: seq<byte>)
    ensures Decode(max, asm, s + t) == Decode(max, asm, s) + Resume(max, ResidueOf(max, asm, s), t)
    decreases |s|
  {
    NextFrameMonotone(max, asm, s, t);
    hide NextFrame, Dispatch;
    match NextFrame(max, asm, s)
    case NeedMore =>
    case Bad(_) =>
    case Got(f, rest) =>
      var e := Dispatch(asm, f);
      if !e.over {
        DecodeAppend(max, e.asm, rest, t);
        assert Decode(max, asm, s + t) == e.events + Decode(max, e.asm, rest + t);
      }
  }

  lemma {:induction false} ResidueAppend(max: nat, asm: Assembly, s: seq<byte>, t: seq<byte>)
    ensures ResidueOf(max, asm, s + t) ==
            match ResidueOf(max, asm, s)
            case Over => Over
            case Waiting(asm', rest) => ResidueOf(max, asm', rest + t)
    decreases |s|
  {
    NextFrameMonotone(max, asm, s, t);
    hide NextFrame, Dispatch;
    match NextFrame(max, asm, s)
    case NeedMore =>
    case Bad(_) =>
    case Got(f, rest) =>
      var e := Dispatch(asm, f);
      if !e.over {
        ResidueAppend(max, e.asm, rest, t);
      }
  }

  /** Two readers that stand at the same place stay together whatever arrives. */
  lemma SamePlace(max: nat, h: seq<Event>, asm: Assembly, s: seq<byte>, asm': Assembly, s': seq<byte>, t: seq<byte>)
    requires h + Decode(max, asm, s) == Decode(max, asm', s') && ResidueOf(max, asm, s) == ResidueOf(max, asm', s')
    ensures h + Decode(max, asm, s + t) == Decode(max, asm', s' + t)
    ensures ResidueOf(max, asm, s + t) == ResidueOf(max, asm', s' + t)
  {
    DecodeAppend(max, asm, s, t);
    DecodeAppend(max, asm', s', t);
    ResidueAppend(max, asm, s, t);
    ResidueAppend(max, asm', s', t);
    hide Decode, ResidueOf;
  }

  /** The events seen so far are always a prefix of the events of the longer stream. */
  lemma DecodePrefix(max: nat, asm: Assembly, s: seq<byte>, t: seq<byte>)
    ensures Decode(max, asm, s) <= Decode(max, asm, s + t)
  {
    DecodeAppend(max, asm, s, t);
  }

  function Flatten(cs: seq<seq<byte>>): seq<byte> {
    if cs == [] then [] else cs[0] + Flatten(cs[1..])
  }

  /** The decoder driven chunk by chunk, keeping only the unread rest in between. */
  function DecodeChunks(max: nat, asm: Assembly, held: seq<byte>, cs: seq<seq<byte>>): seq<Event>
    decreases |cs|
  {
    if cs == [] then [] else
    var s := held + cs[0];
    Decode(max, asm, s) + match ResidueOf(max, asm, s)
                          case Over => []
                          case Waiting(asm', rest) => DecodeChunks(max, asm', rest, cs[1..])
  }

  lemma {:induction false} ResidueIsSilent(max: nat, asm: Assembly, s: seq<byte>)
    ensures ResidueOf(max, asm, s).Waiting? ==>
              Decode(max, ResidueOf(max, asm, s).asm, ResidueOf(max, asm, s).rest) == []
    decreases |s|
  {
    hide Dispatch;
    match NextFrame(max, asm, s)
    case NeedMore =>
    case Bad(_) =>
    case Got(f, rest) =>
      var e := Dispatch(asm, f);
      if !e.over {
        ResidueIsSilent(max, e.asm, rest);
      }
  }

  /** Chunking does not matter: every split of a stream gives the events of the stream read at once. */
  lemma {:induction false} ChunkingDoesNotMatter(max: nat, asm: Assembly, held: seq<byte>, cs: seq<seq<byte>>)
    requires Decode(max, asm, held) == []
    ensures DecodeChunks(max, asm, held, cs) == Decode(max, asm, held + Flatten(cs))
    decreases |cs|
  {
    if cs == [] {
      assert held + Flatten(cs) == held;
    } else {
      var s, t := held + cs[0], Flatten(cs[1..]);
      assert held + Flatten(cs) == s + t;
      DecodeAppend(max, asm, s, t);
      ResidueIsSilent(max, asm, s);
      hide Decode, ResidueOf;
      match ResidueOf(max, asm, s)
      case Over =>
      case Waiting(asm', rest) => ChunkingDoesNotMatter(max, asm', rest, cs[1..]);
    }
  }
}
