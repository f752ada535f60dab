/**
 * The rules of RFC 6455 in terms of the bytes on the wire: what the decoder accepts and refuses, what
 * it makes of a frame, and what the two sides write.
 */
module WsRules {
  import opened Bytes
  import opened WsFrames
  import opened WsRoundTrip
  import opened WsParserState

  // ---- what is read ----

  /** Sections 5.2 and 5.5: why the first two bytes of a frame end the session. */
  predicate Refused(b0: byte, b1: byte, active: bool) {
    || b0 / 16 % 8 != 0                                        // a reserved bit
    || b1 < 128                                                // not masked
    || b0 % 16 !in {0, 1, 2, 8, 9, 10}                         // a reserved opcode
    || (b0 % 16 >= 8 && (b0 < 128 || b1 % 128 > 125))          // a control frame in fragments, or too long
    || (b0 % 16 == 0 && !active)                               // nothing to continue
    || (b0 % 16 in {1, 2} && active)                           // a new message inside another
  }

  lemma HeaderExactly(b0: byte, b1: byte, active: bool)
    ensures HeaderOk(HeaderOf(b0, b1), active) <==> !Refused(b0, b1, active)
  {
  }

  /** The extended length has eight bytes behind 127, two behind 126, and the length is in its shortest form. */
  lemma LengthExactly(len7: nat, ext: seq<byte>)
    requires len7 < 128
    ensures ExtLen(len7) == if len7 == 127 then 8 else if len7 == 126 then 2 else 0
    ensures PayloadLen(len7, ext) == if len7 < 126 then len7 else BigEndian(ext)
    ensures MinimalLength(len7, PayloadLen(len7, ext)) <==>
            && (len7 == 126 ==> BigEndian(ext) >= 126)
            && (len7 == 127 ==> 0x1_0000 <= BigEndian(ext) < 0x8000_0000_0000_0000)
  {
  }

  /**
   * The next frame of every stream, byte for byte: refused for its first two bytes, for a length that
   * is not in its shortest form, or for a message that grows too long; or incomplete; or read, with
   * every bit of its payload turned round where the key says so.
   */
  lemma NextFrameExactly(max: nat, asm: Assembly, s: seq<byte>)
    requires |s| >= 2
    ensures Refused(s[0], s[1], asm.Partial?) ==> NextFrame(max, asm, s) == Bad(1002)
    ensures !Refused(s[0], s[1], asm.Partial?) ==>
              var len7, r := s[1] % 128, NextFrame(max, asm, s);
              var e := if len7 == 127 then 8 else if len7 == 126 then 2 else 0;
              if |s| < 2 + e then r == NeedMore else
              var n := if e == 0 then len7 else BigEndian(s[2..2 + e]);
              if (e == 2 && n < 126) || (e == 8 && (n < 0x1_0000 || n >= 0x8000_0000_0000_0000)) then r == Bad(1002)
              else if s[0] % 16 < 8 && |Held(asm)| + n > max then r == Bad(1009)
              else if |s| < 6 + e + n then r == NeedMore
              else r.Got? && r.rest == s[6 + e + n..] && r.frame.fin == (s[0] >= 128) && r.frame.opcode == s[0] % 16 &&
                   Masks(s[2 + e..6 + e], 0, s[6 + e..6 + e + n], r.frame.payload)
  {
    HeaderExactly(s[0], s[1], asm.Partial?);
    FieldsOf(s[0], s[1]);
    if !Refused(s[0], s[1], asm.Partial?) {
      hide Refused, HeaderOf, HeaderOk, NextFrame, Masks, BigEndian;
      AcceptedFrame(max, asm, s, HeaderOf(s[0], s[1]));
    }
  }

  lemma FieldsOf(b0: byte, b1: byte)
    ensures var h := HeaderOf(b0, b1); h.fin == (b0 >= 128) && h.opcode == b0 % 16 && h.len7 == b1 % 128
  {
  }

  /** The stages behind a header that is accepted. */
  lemma AcceptedFrame(max: nat, asm: Assembly, s: seq<byte>, h: Header)
    requires |s| >= 2 && h == HeaderOf(s[0], s[1]) && HeaderOk(h, asm.Partial?) && h.len7 < 128
    ensures var r := NextFrame(max, asm, s);
            var e := if h.len7 == 127 then 8 else if h.len7 == 126 then 2 else 0;
            if |s| < 2 + e then r == NeedMore else
            var n := if e == 0 then h.len7 else BigEndian(s[2..2 + e]);
            if (e == 2 && n < 126) || (e == 8 && (n < 0x1_0000 || n >= 0x8000_0000_0000_0000)) then r == Bad(1002)
            else if h.opcode < 8 && |Held(asm)| + n > max then r == Bad(1009)
            else if |s| < 6 + e + n then r == NeedMore
            else r.Got? && r.rest == s[6 + e + n..] && r.frame.fin == h.fin && r.frame.opcode == h.opcode &&
                 Masks(s[2 + e..6 + e], 0, s[6 + e..6 + e + n], r.frame.payload)
  {
    hide HeaderOf, HeaderOk, Masks, Unmask, BigEndian;
    var e := ExtLen(h.len7);
    if |s| >= 2 + e {
      LengthExactly(h.len7, s[2..2 + e]);
      var n := PayloadLen(h.len7, s[2..2 + e]);
      if |s| >= 6 + e + n {
        UnmaskFromMasks(s[2 + e..6 + e], 0, s[6 + e..6 + e + n]);
      }
    }
  }

  /** What a control frame causes, by its opcode (sections 5.5.1 to 5.5.3). */
  lemma ControlExactly(asm: Assembly, fin: bool, opcode: nat, p: seq<byte>)
    requires opcode in {8, 9, 10}
    ensures Dispatch(asm, Frame(fin, opcode, p)) ==
            if opcode == 9 then Effect([Pong(p)], asm, false)
            else if opcode == 10 then Effect([], asm, false)
            else if |p| == 1 then Effect([Violation(1002)], asm, true)
            else Effect([CloseReply(if |p| == 0 then 0 else 256 * (p[0] as int) + p[1])], asm, true)
  {
  }

  /** A data frame: opcode 1 begins a text, opcode 2 a binary message, opcode 0 goes on with either. */
  lemma DataExactly(asm: Assembly, fin: bool, opcode: nat, p: seq<byte>)
    requires opcode in {0, 1, 2} && (opcode == 0 <==> asm.Partial?)
    ensures var text, data := if asm.Partial? then asm.text else opcode == 1, Held(asm) + p;
            Dispatch(asm, Frame(fin, opcode, p)) ==
            if fin then Effect([Message(text, data)], Idle, false) else Effect([], Partial(text, data), false)
  {
  }

  /** The masked text frame of section 5.7 of RFC 6455 is the message "Hello". */
  lemma HelloExample(max: nat)
    requires max >= 5
    ensures Decode(max, Idle, [0x81, 0x85, 0x37, 0xfa, 0x21, 0x3d, 0x7f, 0x9f, 0x4d, 0x51, 0x58]) ==
            [Message(true, [0x48, 0x65, 0x6c, 0x6c, 0x6f])]
  {
    var s: seq<byte> := [0x81, 0x85, 0x37, 0xfa, 0x21, 0x3d, 0x7f, 0x9f, 0x4d, 0x51, 0x58];
    var key: Key := [0x37, 0xfa, 0x21, 0x3d];
    var hello: seq<byte> := [0x48, 0x65, 0x6c, 0x6c, 0x6f];
    HelloUnmasks();
    HelloSlices(s);
    assert NextFrame(max, Idle, s) == Got(Frame(true, 1, hello), []) by { hide Unmask; }
    hide NextFrame;
    NothingLeft(max);
    assert Held(Idle) + hello == hello;
  }

  lemma NothingLeft(max: nat)
    ensures Decode(max, Idle, []) == []
  {
  }

  lemma HelloSlices(s: seq<byte>)
    requires s == [0x81, 0x85, 0x37, 0xfa, 0x21, 0x3d, 0x7f, 0x9f, 0x4d, 0x51, 0x58]
    ensures s[2..6] == [0x37, 0xfa, 0x21, 0x3d] && s[6..11] == [0x7f, 0x9f, 0x4d, 0x51, 0x58] && s[11..] == []
  {
  }

  lemma HelloUnmasks()
    ensures Unmask([0x37, 0xfa, 0x21, 0x3d], [0x7f, 0x9f, 0x4d, 0x51, 0x58]) == [0x48, 0x65, 0x6c, 0x6c, 0x6f]
  {
    HelloBytes();
    hide Xor;
    var key: Key := [0x37, 0xfa, 0x21, 0x3d];
    assert key[4 % 4] == 0x37;
  }

  lemma HelloBytes()
    ensures Xor(0x7f, 0x37) == 0x48 && Xor(0x9f, 0xfa) == 0x65 && Xor(0x4d, 0x21) == 0x6c && Xor(0x51, 0x3d) == 0x6c &&
            Xor(0x58, 0x37) == 0x6f
  {
    FirstBytes();
    LastBytes();
    hide Xor;
  }

  lemma FirstBytes()
    ensures Xor(0x7f, 0x37) == 0x48 && Xor(0x9f, 0xfa) == 0x65
  {
    assert XorBits(7, 3, 4) == 4 && XorBits(9, 15, 4) == 6;
  }

  lemma LastBytes()
    ensures Xor(0x4d, 0x21) == 0x6c && Xor(0x51, 0x3d) == 0x6c && Xor(0x58, 0x37) == 0x6f
  {
    assert XorBits(4, 2, 4) == 6 && XorBits(5, 3, 4) == 6;
  }

  // ---- what is written ----

  /** Bytes 1 to 9 at most: the length of a payload of n bytes, in a frame that begins with w. */
  predicate LengthWritten(w: seq<byte>, n: nat, mask: nat) {
    if n < 126 then |w| >= 2 && w[1] == mask + n
    else if n < 0x1_0000 then |w| >= 4 && w[1] == mask + 126 && BigEndian(w[2..4]) == n
    else |w| >= 10 && w[1] == mask + 127 && BigEndian(w[2..10]) == n
  }

  function LengthBytes(n: nat): nat {
    if n < 126 then 0 else if n < 0x1_0000 then 2 else 8
  }

  lemma LengthForms(n: nat)
    requires n < 0x8000_0000_0000_0000
    ensures Len7Of(n) == (if n < 126 then n else if n < 0x1_0000 then 126 else 127)
    ensures |ExtOf(n)| == LengthBytes(n)
    ensures n >= 126 ==> BigEndian(ExtOf(n)) == n
  {
    Pow256Values();
    if n >= 126 {
      BytesOfValue(n, ExtLen(Len7Of(n)));
    }
  }

  /**
   * A client's frame: its first byte has the final bit and the opcode, the second the mask bit and the
   * length, then the key and the payload masked with it; a key of zeros leaves the payload as it is.
   */
  lemma ClientOnWire(c: ClientFrame)
    requires |c.payload| < 0x8000_0000_0000_0000
    ensures var w, n := EncodeClient(c), |c.payload|;
            var e := LengthBytes(n);
            |w| == 6 + e + n && w[0] == (if c.fin then 128 else 0) + c.opcode && LengthWritten(w, n, 128) &&
            w[2 + e..6 + e] == c.key && Masks(c.key, 0, c.payload, w[6 + e..]) &&
            (c.key == [0, 0, 0, 0] ==> w[6 + e..] == c.payload)
  {
    var w, n := EncodeClient(c), |c.payload|;
    var e := LengthBytes(n);
    LengthForms(n);
    UnmaskFromMasks(c.key, 0, c.payload);
    ZeroKey(c.payload);
    hide Unmask, Masks, Len7Of, ExtOf, BigEndian;
    assert w[2..2 + e] == ExtOf(n) && w[2 + e..6 + e] == c.key && w[6 + e..] == Unmask(c.key, c.payload);
  }

  lemma ZeroKey(data: seq<byte>)
    ensures Unmask([0, 0, 0, 0], data) == data
  {
    var key: Key := [0, 0, 0, 0];
    forall i | 0 <= i < |data|
      ensures Unmask(key, data)[i] == data[i]
    {
      assert key[i % 4] == 0;
      XorZero(data[i]);
    }
  }

  /** The frames of messages and control frames carry the opcodes 0, 1, 2, 9 and 10. */
  lemma ClientOpcodes(text: bool, f: Fragment, first: bool, last: bool, c: Control)
    ensures FragmentFrame(text, f, first, last) ==
            ClientFrame(last, if !first then 0 else if text then 1 else 2, f.data, f.key)
    ensures ControlFrame(c) == ClientFrame(true, if c.Ping? then 9 else 10, c.payload, c.key)
  {
  }

  /** A server's frame is final and not masked. */
  lemma ServerOnWire(f: ServerFrame)
    ensures var w, n := EncodeServer(f), |f.payload|;
            var e := LengthBytes(n);
            |w| == 2 + e + n && w[0] == 128 + f.opcode && LengthWritten(w, n, 0) && w[2 + e..] == f.payload
  {
    var w, n := EncodeServer(f), |f.payload|;
    var e := LengthBytes(n);
    LengthForms(n);
    hide Len7Of, ExtOf, BigEndian;
    assert w[2..2 + e] == ExtOf(n) && w[2 + e..] == f.payload;
  }

  /** A close frame carries the code, most significant byte first, and at most 123 bytes of the reason. */
  lemma CloseOnWire(code: nat, reason: seq<byte>)
    requires code < 0x1_0000
    ensures var p := ClosePayload(code, reason);
            if code == 0 then p == []
            else 2 <= |p| <= 125 && 256 * (p[0] as int) + p[1] == code && p[2..] <= reason &&
                 |p| - 2 == (if |reason| > 123 then 123 else |reason|)
  {
  }

  /** The session writes opcodes 1 and 2 for messages, 8 for a close, 9 for a ping and 10 for a pong. */
  lemma ServerOpcodes()
    ensures OP_TEXT == 1 && OP_BINARY == 2 && OP_CLOSE == 8 && OP_PING == 9 && OP_PONG == 10
  {
  }
}
