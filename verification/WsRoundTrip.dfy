/**
 * Decoding undoes encoding: what a conforming client writes is what the session reads,
 * and what the session writes is what a conforming client reads.
 */
module WsRoundTrip {
  import opened Bytes
  import opened WsFrames

  // ---- length forms ----

  /** The length form the frame writer chooses. */
  function Len7Of(n: nat): (r: nat)
    ensures r < 128
  {
    if n <= 125 then n else if n <= 0xFFFF then 126 else 127
  }

  function ExtOf(n: nat): (s: seq<byte>)
    ensures |s| == ExtLen(Len7Of(n))
  {
    BytesOf(n, ExtLen(Len7Of(n)))
  }

  lemma Pow256Values()
    ensures Pow256(2) == 0x1_0000 && Pow256(8) == 0x1_0000_0000_0000_0000
  {
    assert Pow256(4) == 0x1_0000_0000;
    assert Pow256(6) == 0x1_0000_0000_0000;
  }

  /** The writer's length form is accepted and is the only form accepted for its length. */
  lemma LengthFormUnique(len7: nat, ext: seq<byte>, n: nat)
    requires len7 < 128 && |ext| == ExtLen(len7)
    requires n < TWO_TO_63
    ensures MinimalLength(len7, PayloadLen(len7, ext)) && PayloadLen(len7, ext) == n
            <==> len7 == Len7Of(n) && ext == ExtOf(n)
  {
    Pow256Values();
    BigEndianBytes(ext);
    if n > 125 {
      BytesOfValue(n, ExtLen(Len7Of(n)));
    }
  }

  // ---- client frames ----

  type Opcode = n: nat | n < 16

  /** A frame as a client sends it: payload masked with a four-byte key. */
  datatype ClientFrame = ClientFrame(fin: bool, opcode: Opcode, payload: seq<byte>, key: Key)

  function Plain(c: ClientFrame): Frame {
    Frame(c.fin, c.opcode, c.payload)
  }

  function EncodeClient(c: ClientFrame): seq<byte> {
    var n := |c.payload|;
    [(if c.fin then 0x80 else 0) + c.opcode, 0x80 + Len7Of(n)] + ExtOf(n) + c.key + Unmask(c.key, c.payload)
  }

  lemma UnmaskTwice(key: Key, data: seq<byte>)
    ensures Unmask(key, Unmask(key, data)) == data
  {
    var once := Unmask(key, data);
    forall i | 0 <= i < |data|
      ensures Unmask(key, once)[i] == data[i]
    {
      XorTwice(data[i], key[i % 4]);
    }
  }

  lemma HeaderFields(fin: bool, opcode: Opcode, len7: nat)
    requires len7 < 128
    ensures HeaderOf((if fin then 0x80 else 0) + opcode, 0x80 + len7) == Header(fin, 0, opcode, true, len7)
  {
  }

  /** One frame, read back from the front of a longer stream. */
  lemma NextOfEncoded(max: nat, asm: Assembly, c: ClientFrame, t: seq<byte>)
    requires KnownOpcode(c.opcode) && |c.payload| < TWO_TO_63
    requires if IsControl(c.opcode) then c.fin && |c.payload| <= CTRL_MAX
             else (c.opcode == OP_CONT) == asm.Partial? && |Held(asm)| + |c.payload| <= max
    ensures NextFrame(max, asm, EncodeClient(c) + t) == Got(Plain(c), t)
  {
    var s := EncodeClient(c) + t;
    var n := |c.payload|;
    HeaderFields(c.fin, c.opcode, Len7Of(n));
    LengthFormUnique(Len7Of(n), ExtOf(n), n);
    EncodedParts(c, t);
    UnmaskTwice(c.key, c.payload);
    hide EncodeClient, Len7Of, ExtOf, Unmask, MinimalLength, PayloadLen, ExtLen, HeaderOf, Held, IsControl;
  }

  lemma EncodedParts(c: ClientFrame, t: seq<byte>)
    ensures var s, n := EncodeClient(c) + t, |c.payload|;
            var e := ExtLen(Len7Of(n));
            |s| == 6 + e + n + |t| && s[0] == (if c.fin then 0x80 else 0) + c.opcode && s[1] == 0x80 + Len7Of(n) &&
            s[2..2 + e] == ExtOf(n) && s[2 + e..6 + e] == c.key && s[6 + e..6 + e + n] == Unmask(c.key, c.payload) &&
            s[6 + e + n..] == t
  {
    hide Len7Of, ExtOf, Unmask, ExtLen;
    var s, n := EncodeClient(c) + t, |c.payload|;
    var e := ExtLen(Len7Of(n));
    assert s[2..2 + e] == ExtOf(n);
    assert s[2 + e..6 + e] == c.key;
    assert s[6 + e..6 + e + n] == Unmask(c.key, c.payload);
    assert s[6 + e + n..] == t;
  }

  // ---- client messages: fragments with control frames in between ----

  type ControlPayload = p: seq<byte> | |p| <= CTRL_MAX

  datatype Control = Ping(payload: ControlPayload, key: Key) | UnsolicitedPong(payload: ControlPayload, key: Key)

  /** One data frame of a message, and the control frames sent before it. */
  datatype Fragment = Fragment(before: seq<Control>, data: seq<byte>, key: Key)

  /** A message cut into one or more fragments. */
  datatype ClientMessage = ClientMessage(text: bool, fragments: seq<Fragment>)

  function Joined(fs: seq<Fragment>): seq<byte> {
    if fs == [] then [] else fs[0].data + Joined(fs[1..])
  }

  predicate MessageOk(max: nat, m: ClientMessage) {
    m.fragments != [] && |Joined(m.fragments)| <= max && |Joined(m.fragments)| < TWO_TO_63
  }

  function ControlFrame(c: Control): ClientFrame {
    ClientFrame(true, if c.Ping? then OP_PING else OP_PONG, c.payload, c.key)
  }

  function EncodeControls(cs: seq<Control>): seq<byte> {
    if cs == [] then [] else EncodeClient(ControlFrame(cs[0])) + EncodeControls(cs[1..])
  }

  /** Exactly one pong per ping, with the ping's payload. */
  function PongsFor(cs: seq<Control>): seq<Event> {
    if cs == [] then []
    else (if cs[0].Ping? then [Pong(cs[0].payload)] else []) + PongsFor(cs[1..])
  }

  function FragmentFrame(text: bool, f: Fragment, first: bool, last: bool): ClientFrame {
    ClientFrame(last, if !first then OP_CONT else if text then OP_TEXT else OP_BINARY, f.data, f.key)
  }

  /** The frames of a message; `first` says no fragment has been written yet. */
  function EncodeFragments(text: bool, fs: seq<Fragment>, first: bool): seq<byte> {
    if fs == [] then [] else
    EncodeControls(fs[0].before)
    + EncodeClient(FragmentFrame(text, fs[0], first, |fs| == 1))
    + EncodeFragments(text, fs[1..], false)
  }

  function PongsOfFragments(fs: seq<Fragment>): seq<Event> {
    if fs == [] then [] else PongsFor(fs[0].before) + PongsOfFragments(fs[1..])
  }

  function EncodeMessages(ms: seq<ClientMessage>): seq<byte> {
    if ms == [] then [] else EncodeFragments(ms[0].text, ms[0].fragments, true) + EncodeMessages(ms[1..])
  }

  /** What the server must deliver: the pongs in place, then the joined message. */
  function Delivered(ms: seq<ClientMessage>): seq<Event> {
    if ms == [] then []
    else PongsOfFragments(ms[0].fragments) + [Message(ms[0].text, Joined(ms[0].fragments))] + Delivered(ms[1..])
  }

  /** Decoding one encoded frame in front of a stream. */
  lemma DecodeOne(max: nat, asm: Assembly, c: ClientFrame, t: seq<byte>)
    requires KnownOpcode(c.opcode) && c.opcode != OP_CLOSE && |c.payload| < TWO_TO_63
    requires if IsControl(c.opcode) then c.fin && |c.payload| <= CTRL_MAX
             else (c.opcode == OP_CONT) == asm.Partial? && |Held(asm)| + |c.payload| <= max
    ensures Decode(max, asm, EncodeClient(c) + t) ==
            Dispatch(asm, Plain(c)).events + Decode(max, Dispatch(asm, Plain(c)).asm, t)
  {
    NextOfEncoded(max, asm, c, t);
    hide NextFrame, EncodeClient;
  }

  lemma {:induction false} ControlsDecode(max: nat, asm: Assembly, cs: seq<Control>, t: seq<byte>)
    ensures Decode(max, asm, EncodeControls(cs) + t) == PongsFor(cs) + Decode(max, asm, t)
  {
    hide Decode, EncodeClient;
    if cs == [] {
      assert EncodeControls(cs) + t == t;
    } else {
      var rest := EncodeControls(cs[1..]) + t;
      var c := ControlFrame(cs[0]);
      var pongs := if cs[0].Ping? then [Pong(cs[0].payload)] else [];
      assert Dispatch(asm, Plain(c)) == Effect(pongs, asm, false);
      assert EncodeControls(cs) + t == EncodeClient(c) + rest;
      DecodeOne(max, asm, c, rest);
      ControlsDecode(max, asm, cs[1..], t);
      hide *;
      assert pongs + (PongsFor(cs[1..]) + Decode(max, asm, t)) == (pongs + PongsFor(cs[1..])) + Decode(max, asm, t);
    }
  }

  lemma FragmentsSplit(text: bool, fs: seq<Fragment>, first: bool, t: seq<byte>)
    requires fs != []
    ensures EncodeFragments(text, fs, first) + t ==
            EncodeControls(fs[0].before) +
            (EncodeClient(FragmentFrame(text, fs[0], first, |fs| == 1)) + (EncodeFragments(text, fs[1..], false) + t))
  {
    hide EncodeClient, EncodeControls;
  }

  /** One fragment in front of a stream: its pongs, then what its frame causes. */
  lemma FragmentDecodes(max: nat, text: bool, asm: Assembly, f: Fragment, last: bool, t: seq<byte>)
    requires asm.Partial? ==> asm.text == text
    requires |Held(asm)| + |f.data| <= max && |f.data| < TWO_TO_63
    ensures Decode(max, asm, EncodeControls(f.before) + (EncodeClient(FragmentFrame(text, f, asm.Idle?, last)) + t)) ==
            PongsFor(f.before) +
            (if last then [Message(text, Held(asm) + f.data)] + Decode(max, Idle, t)
             else Decode(max, Partial(text, Held(asm) + f.data), t))
  {
    hide Decode, EncodeClient, EncodeControls, PongsFor;
    var c := FragmentFrame(text, f, asm.Idle?, last);
    ControlsDecode(max, asm, f.before, EncodeClient(c) + t);
    DecodeOne(max, asm, c, t);
    var tail := Decode(max, Partial(text, Held(asm) + f.data), t);
    assert [] + tail == tail;
  }

  lemma Regroup<T>(a: seq<T>, b: seq<T>, c: seq<T>, d: seq<T>)
    ensures a + (b + c + d) == (a + b) + c + d
    ensures a + (c + d) == a + c + d
    ensures a + (b + c) == a + b + c
  {
  }

  lemma {:induction false} FragmentsDecode(max: nat, text: bool, asm: Assembly, fs: seq<Fragment>, t: seq<byte>)
    requires fs != []
    requires asm.Partial? ==> asm.text == text
    requires |Held(asm)| + |Joined(fs)| <= max && |Joined(fs)| < TWO_TO_63
    ensures Decode(max, asm, EncodeFragments(text, fs, asm.Idle?) + t) ==
            PongsOfFragments(fs) + [Message(text, Held(asm) + Joined(fs))] + Decode(max, Idle, t)
    decreases |fs|
  {
    var f, last, rest := fs[0], |fs| == 1, EncodeFragments(text, fs[1..], false) + t;
    FragmentsSplit(text, fs, asm.Idle?, t);
    FragmentDecodes(max, text, asm, f, last, rest);
    hide Decode, EncodeClient, EncodeControls, PongsFor;
    if last {
      assert fs[1..] == [];
      assert rest == t;
      assert Joined(fs) == f.data;
      assert PongsOfFragments(fs) == PongsFor(f.before);
      hide *;
      Regroup(PongsFor(f.before), [], [Message(text, Held(asm) + f.data)], Decode(max, Idle, t));
    } else {
      var asm' := Partial(text, Held(asm) + f.data);
      Regroup(Held(asm), f.data, Joined(fs[1..]), []);
      FragmentsDecode(max, text, asm', fs[1..], t);
      hide *;
      Regroup(PongsFor(f.before), PongsOfFragments(fs[1..]), [Message(text, Held(asm) + Joined(fs))],
        Decode(max, Idle, t));
    }
  }

  /**
   * Any message sequence, cut into any fragments, masked with any keys, with pings and pongs
   * between the fragments, is recovered exactly and in order, with one identical pong per ping.
   */
  lemma {:induction false} DecodeUndoesEncode(max: nat, ms: seq<ClientMessage>)
    requires forall i :: 0 <= i < |ms| ==> MessageOk(max, ms[i])
    ensures Decode(max, Idle, EncodeMessages(ms)) == Delivered(ms)
  {
    if ms != [] {
      var m := ms[0];
      assert MessageOk(max, m);
      FragmentsDecode(max, m.text, Idle, m.fragments, EncodeMessages(ms[1..]));
      hide Decode, EncodeFragments, Joined, PongsOfFragments;
      DecodeUndoesEncode(max, ms[1..]);
      assert Held(Idle) + Joined(m.fragments) == Joined(m.fragments);
    } else {
      assert EncodeMessages(ms) == [];
    }
  }

  // ---- server frames ----

  /** A frame as the session writes it: final, never masked. */
  datatype ServerFrame = ServerFrame(opcode: Opcode, payload: SizedPayload)

  /** A payload whose length fits the 64-bit length form. */
  type SizedPayload = p: seq<byte> | |p| < TWO_TO_63

  function ServerHeader(opcode: Opcode, n: nat): seq<byte> {
    [0x80 + opcode, Len7Of(n)] + ExtOf(n)
  }

  function EncodeServer(f: ServerFrame): seq<byte> {
    ServerHeader(f.opcode, |f.payload|) + f.payload
  }

  function EncodeAll(fs: seq<ServerFrame>): seq<byte> {
    if fs == [] then [] else EncodeAll(fs[..|fs| - 1]) + EncodeServer(fs[|fs| - 1])
  }

  /** A proper prefix of some frame. */
  ghost predicate Truncated(p: seq<byte>) {
    exists f: ServerFrame :: |p| < |EncodeServer(f)| && p == EncodeServer(f)[..|p|]
  }

  lemma TruncatedAt(f: ServerFrame, k: nat, p: seq<byte>)
    requires k < |EncodeServer(f)| && p == EncodeServer(f)[..k]
    ensures Truncated(p)
  {
    hide EncodeServer;
  }

  /** A client's reading of one frame: the frame and the bytes after it. */
  datatype ServerNext = Short | Whole(opcode: nat, payload: seq<byte>, rest: seq<byte>)

  function NextServer(s: seq<byte>): (r: ServerNext)
    ensures r.Whole? ==> |r.rest| < |s|
  {
    if |s| < 2 then Short else
    var len7 := s[1] % 0x80;
    var e := ExtLen(len7);
    if |s| < 2 + e then Short else
    var n := PayloadLen(len7, s[2..2 + e]);
    if |s| < 2 + e + n then Short else
    Whole(s[0] % 0x10, s[2 + e..2 + e + n], s[2 + e + n..])
  }

  /** A client's reading of the session's output: the whole frames at the front of s. */
  function ReadServer(s: seq<byte>): seq<(nat, seq<byte>)>
    decreases |s|
  {
    match NextServer(s)
    case Short => []
    case Whole(op, payload, rest) => [(op, payload)] + ReadServer(rest)
  }

  function Pairs(fs: seq<ServerFrame>): seq<(nat, seq<byte>)> {
    seq(|fs|, i requires 0 <= i < |fs| => (fs[i].opcode, fs[i].payload))
  }

  lemma ReadOne(f: ServerFrame, t: seq<byte>)
    ensures NextServer(EncodeServer(f) + t) == Whole(f.opcode, f.payload, t)
  {
    var s := EncodeServer(f) + t;
    var n := |f.payload|;
    var e := ExtLen(Len7Of(n));
    assert s[0] == 0x80 + f.opcode && s[1] == Len7Of(n);
    assert s[1] % 0x80 == Len7Of(n) && s[0] % 0x10 == f.opcode;
    assert s[2..2 + e] == ExtOf(n);
    LengthFormUnique(Len7Of(n), ExtOf(n), n);
    hide Len7Of, ExtOf, PayloadLen, MinimalLength, EncodeServer, ServerHeader;
    assert s[2 + e..2 + e + n] == f.payload;
    assert s[2 + e + n..] == t;
  }

  /** A truncated frame is never misread as a whole one. */
  lemma ReadTruncated(f: ServerFrame, k: nat)
    requires k < |EncodeServer(f)|
    ensures NextServer(EncodeServer(f)[..k]) == Short
  {
    var s := EncodeServer(f);
    var p := s[..k];
    var n := |f.payload|;
    var e := ExtLen(Len7Of(n));
    assert |s| == 2 + e + n;
    if 2 + e <= k {
      assert p[2..2 + e] == ExtOf(n);
      LengthFormUnique(Len7Of(n), ExtOf(n), n);
    }
  }

  /** A client reads exactly the frames written, and nothing from a truncated last one. */
  lemma {:induction false} ReadUndoesWrite(fs: seq<ServerFrame>, t: seq<byte>)
    ensures ReadServer(EncodeAll(fs) + t) == Pairs(fs) + ReadServer(t)
    decreases |fs|
  {
    hide NextServer, EncodeServer;
    if fs == [] {
      assert EncodeAll(fs) + t == t;
    } else {
      var init, last := fs[..|fs| - 1], fs[|fs| - 1];
      assert EncodeAll(fs) + t == EncodeAll(init) + (EncodeServer(last) + t);
      ReadUndoesWrite(init, EncodeServer(last) + t);
      ReadOne(last, t);
      assert ReadServer(EncodeServer(last) + t) == [(last.opcode as nat, last.payload)] + ReadServer(t);
      assert Pairs(fs) == Pairs(init) + [(last.opcode as nat, last.payload)];
    }
  }
}
