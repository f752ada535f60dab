/** Base64 with padding (section 4 of RFC 4648): encoding and decoding into caller's buffers. */
module Base64 {
  import opened Sequences
  import opened Wrappers
  import opened Bytes

  type sextet = x: int | 0 <= x < 64

  function CharOf(v: sextet): char {
    if v < 26 then 'A' + v as char
    else if v < 52 then 'a' + (v - 26) as char
    else if v < 62 then '0' + (v - 52) as char
    else if v == 62 then '+' else '/'
  }

  function ValueOf(c: char): (v: int)
    ensures -1 <= v < 64
  {
    if 'A' <= c <= 'Z' then c as int - 'A' as int
    else if 'a' <= c <= 'z' then c as int - 'a' as int + 26
    else if '0' <= c <= '9' then c as int - '0' as int + 52
    else if c == '+' then 62
    else if c == '/' then 63
    else -1
  }

  /** No other character has a value. */
  lemma OnlyAlphabet(c: char)
    ensures ValueOf(c) >= 0 <==>
            65 <= c as int <= 90 || 97 <= c as int <= 122 || 48 <= c as int <= 57 || c in {'+', '/'}
    ensures ValueOf(c) >= 0 ==> CharOf(ValueOf(c)) == c
  {
  }

  lemma ValueOfChar(v: sextet)
    ensures ValueOf(CharOf(v)) == v && CharOf(v) != '='
  {
  }

  /** The alphabet of RFC 4648, in order of value. */
  lemma Alphabet(v: sextet)
    ensures v < 26 ==> CharOf(v) == "ABCDEFGHIJKLMNOPQRSTUVWXYZ"[v]
    ensures 26 <= v < 52 ==> CharOf(v) == "abcdefghijklmnopqrstuvwxyz"[v - 26]
    ensures 52 <= v < 62 ==> CharOf(v) == "0123456789"[v - 52]
    ensures v >= 62 ==> CharOf(v) == "+/"[v - 62]
  {
    Runs();
  }

  lemma Runs()
    ensures var s := "ABCDEFGHIJKLMNOPQRSTUVWXYZ"; forall i :: 0 <= i < 26 ==> s[i] as int == 'A' as int + i
    ensures var s := "abcdefghijklmnopqrstuvwxyz"; forall i :: 0 <= i < 26 ==> s[i] as int == 'a' as int + i
    ensures var s := "0123456789"; forall i :: 0 <= i < 10 ==> s[i] as int == '0' as int + i
  {
  }

  // ---- groups ----

  /** The i-th character of a 24-bit value. */
  function Digit(v: nat, i: nat): sextet
    requires i < 4
  {
    (if i == 0 then v / 0x4_0000 else if i == 1 then v / 0x1000 else if i == 2 then v / 64 else v) % 64
  }

  function Value24(g: seq<byte>): nat
    requires 1 <= |g| <= 3
  {
    g[0] as int * 0x1_0000 + (if |g| > 1 then g[1] as int * 0x100 else 0) + (if |g| > 2 then g[2] else 0)
  }

  /** One to three bytes as four characters. */
  function EncodeGroup(g: seq<byte>): (r: string)
    requires 1 <= |g| <= 3
    ensures |r| == 4
  {
    var v := Value24(g);
    [CharOf(Digit(v, 0)), CharOf(Digit(v, 1)), if |g| > 1 then CharOf(Digit(v, 2)) else '=',
     if |g| > 2 then CharOf(Digit(v, 3)) else '=']
  }

  /** The padding characters of a group; None when it is malformed. Padding is allowed in the last group only. */
  function PadOf(q: string, last: bool): (r: Option<nat>)
    requires |q| == 4
    ensures r.Some? ==> r.value <= 2 && (r.value > 0 ==> last)
  {
    if ValueOf(q[0]) < 0 || ValueOf(q[1]) < 0 then None
    else if q[2] == '=' then (if last && q[3] == '=' then Some(2) else None)
    else if ValueOf(q[2]) < 0 then None
    else if q[3] == '=' then (if last then Some(1) else None)
    else if ValueOf(q[3]) < 0 then None
    else Some(0)
  }

  /** The value of a character; padding counts as zero. */
  function ValueOrPad(c: char): (v: nat)
    ensures v < 64
  {
    if ValueOf(c) < 0 then 0 else ValueOf(c)
  }

  function Acc(q: string): (v: nat)
    requires |q| == 4
    ensures v < 0x100_0000
  {
    ValueOrPad(q[0]) * 0x4_0000 + ValueOrPad(q[1]) * 0x1000 + ValueOrPad(q[2]) * 64 + ValueOrPad(q[3])
  }

  function Bytes24(v: nat, n: nat): (r: seq<byte>)
    requires 1 <= n <= 3
    ensures |r| == n
  {
    [v / 0x1_0000 % 256] + (if n > 1 then [v / 0x100 % 256] else []) + (if n > 2 then [v % 256] else [])
  }

  // ---- whole texts ----

  function Encoded(b: seq<byte>): (r: string)
    ensures |r| == (|b| + 2) / 3 * 4
  {
    if b == [] then ""
    else if |b| <= 3 then EncodeGroup(b)
    else EncodeGroup(b[..3]) + Encoded(b[3..])
  }

  /** The bytes of s, whose length is a multiple of four. */
  function DecodeGroups(s: string): Option<seq<byte>>
    requires |s| % 4 == 0
  {
    if s == "" then Some([]) else
    match PadOf(s[..4], |s| == 4)
    case None => None
    case Some(pad) =>
      match DecodeGroups(s[4..])
      case None => None
      case Some(rest) => Some(Bytes24(Acc(s[..4]), 3 - pad) + rest)
  }

  function Decoded(s: string): Option<seq<byte>> {
    if |s| == 0 || |s| % 4 != 0 then None else DecodeGroups(s)
  }

  // ---- decoding undoes encoding ----

  lemma Digits(v: nat)
    requires v < 0x100_0000
    ensures v == Digit(v, 0) * 0x4_0000 + Digit(v, 1) * 0x1000 + Digit(v, 2) * 64 + Digit(v, 3)
  {
    var a, b, c := v / 64, v / 0x1000, v / 0x4_0000;
    assert v == a * 64 + v % 64 && a == b * 64 + a % 64 && b == c * 64 + b % 64;
  }

  lemma LowDigits(g: seq<byte>)
    requires 1 <= |g| <= 3
    ensures Value24(g) < 0x100_0000
    ensures |g| < 3 ==> Digit(Value24(g), 3) == 0
    ensures |g| < 2 ==> Digit(Value24(g), 2) == 0
    ensures Bytes24(Value24(g), |g|) == g
  {
    var x, y := if |g| > 1 then g[1] else 0, if |g| > 2 then g[2] else 0;
    ThreeBytes(g[0], x, y);
    if |g| == 1 {
      OneByte(g[0]);
    } else if |g| == 2 {
      TwoBytes(g[0], g[1]);
    }
  }

  lemma ThreeBytes(a: byte, b: byte, c: byte)
    ensures var v := a as int * 0x1_0000 + b as int * 0x100 + c;
            0 <= v < 0x100_0000 && v / 0x1_0000 % 256 == a && v / 0x100 % 256 == b && v % 256 == c
  {
    var v := a as int * 0x1_0000 + b as int * 0x100 + c;
    assert v / 0x100 == a as int * 256 + b;
    assert v / 0x1_0000 == a;
  }

  lemma OneByte(a: byte)
    ensures Digit(a as int * 0x1_0000, 2) == 0 && Digit(a as int * 0x1_0000, 3) == 0
  {
    assert a as int * 0x1_0000 / 64 == 64 * (a as int * 16);
    assert a as int * 0x1_0000 == 64 * (a as int * 1024);
  }

  lemma TwoBytes(a: byte, b: byte)
    ensures Digit(a as int * 0x1_0000 + b as int * 0x100, 3) == 0
  {
    assert a as int * 0x1_0000 + b as int * 0x100 == 64 * (a as int * 1024 + b as int * 4);
  }

  lemma GroupReadsBack(g: seq<byte>, last: bool)
    requires 1 <= |g| <= 3 && (|g| < 3 ==> last)
    ensures PadOf(EncodeGroup(g), last) == Some(3 - |g|) && Bytes24(Acc(EncodeGroup(g)), |g|) == g
  {
    hide CharOf, ValueOf, Value24, Digit, Bytes24;
    var v := Value24(g);
    ValueOfChar(Digit(v, 0));
    ValueOfChar(Digit(v, 1));
    ValueOfChar(Digit(v, 2));
    ValueOfChar(Digit(v, 3));
    LowDigits(g);
    Digits(v);
    NotADigit();
    assert Acc(EncodeGroup(g)) == v;
  }

  lemma NotADigit()
    ensures ValueOf('=') == -1
  {
  }

  /** The text is made of groups of four. */
  lemma WholeGroups(b: seq<byte>)
    ensures |Encoded(b)| % 4 == 0
  {
    hide Encoded;
    var q := (|b| + 2) / 3;
    assert |Encoded(b)| == 4 * q;
  }

  lemma {:induction false} GroupsReadBack(b: seq<byte>)
    ensures |Encoded(b)| % 4 == 0 && DecodeGroups(Encoded(b)) == Some(b)
    decreases |b|
  {
    WholeGroups(b);
    hide EncodeGroup, PadOf, Acc, Bytes24, DecodeGroups, Encoded;
    if b == [] {
      EmptyReadsBack();
    } else {
      var n := if |b| <= 3 then |b| else 3;
      SplitGroup(b);
      GroupReadsBack(b[..n], b[n..] == []);
      GroupsReadBack(b[n..]);
      DecodeStep(EncodeGroup(b[..n]), Encoded(b[n..]));
      assert b == b[..n] + b[n..];
    }
  }

  lemma EmptyReadsBack()
    ensures |Encoded([])| % 4 == 0 && DecodeGroups(Encoded([])) == Some([])
  {
  }

  lemma SplitGroup(b: seq<byte>)
    requires b != []
    ensures var n := if |b| <= 3 then |b| else 3;
            Encoded(b) == EncodeGroup(b[..n]) + Encoded(b[n..]) && (Encoded(b[n..]) == "" <==> b[n..] == [])
  {
    hide EncodeGroup;
    if |b| <= 3 {
      assert b[|b|..] == [] && b[..|b|] == b && EncodeGroup(b) + "" == EncodeGroup(b);
    }
  }

  lemma ModFour(n: nat)
    ensures (4 + n) % 4 == n % 4
  {
  }

  lemma DecodeStep(e: string, t: string)
    requires |e| == 4 && |t| % 4 == 0
    ensures DecodeGroups(e + t) ==
            (match PadOf(e, t == "")
             case None => None
             case Some(pad) => Behind(Bytes24(Acc(e), 3 - pad), DecodeGroups(t)))
  {
    hide PadOf, Acc, Bytes24, DecodeGroups;
    var s := e + t;
    ModFour(|t|);
    assert s[..4] == e && s[4..] == t;
    DecodeFront(s);
  }

  lemma DecodeFront(s: string)
    requires s != "" && |s| % 4 == 0
    ensures |s| >= 4 && DecodeGroups(s) ==
            (match PadOf(s[..4], |s| == 4)
             case None => None
             case Some(pad) => Behind(Bytes24(Acc(s[..4]), 3 - pad), DecodeGroups(s[4..])))
  {
    hide PadOf, Acc, Bytes24;
  }

  /** Decoding undoes encoding, for every input that is not empty. */
  lemma DecodeUndoesEncode(b: seq<byte>)
    requires b != []
    ensures Decoded(Encoded(b)) == Some(b) && |Encoded(b)| == 4 * ((|b| + 2) / 3)
  {
    hide Encoded, DecodeGroups;
    GroupsReadBack(b);
  }

  // ---- lengths ----

  /** Padding characters at the end of s. */
  function Pads(s: string): nat {
    if |s| >= 2 && s[|s| - 1] == '=' && s[|s| - 2] == '=' then 2
    else if |s| >= 1 && s[|s| - 1] == '=' then 1
    else 0
  }

  lemma {:induction false} DecodedLength(s: string)
    requires |s| % 4 == 0 && DecodeGroups(s).Some?
    ensures |DecodeGroups(s).value| + Pads(s) == |s| / 4 * 3
    decreases |s|
  {
    hide Acc, Bytes24;
    if s != "" {
      var t := s[4..];
      DecodedLength(t);
      if t == "" {
        assert s[..4] == s;
      } else {
        assert t[|t| - 1] == s[|s| - 1] && t[|t| - 2] == s[|s| - 2];
      }
    }
  }

  /** A key of 24 characters decodes to 16 bytes exactly when it is valid and ends in two pad characters. */
  lemma KeyLength(s: string)
    requires |s| == 24
    ensures Decoded(s).Some? && |Decoded(s).value| == 16 <==> Decoded(s).Some? && s[22] == '=' && s[23] == '='
  {
    hide DecodeGroups;
    if Decoded(s).Some? {
      DecodedLength(s);
    }
  }

  // ---- the loops ----

  /** Writes the text and a NUL; 0 when the buffer is too small. */
  method Encode(b: seq<byte>, out: array<char>) returns (n: nat)
    modifies out
    ensures out.Length < |Encoded(b)| + 1 ==> n == 0 && out[..] == old(out[..])
    ensures out.Length >= |Encoded(b)| + 1 ==> n == |Encoded(b)| && out[..n] == Encoded(b) && out[n] == '\0'
  {
    hide EncodeGroup, Encoded;
    var need := (|b| + 2) / 3 * 4;
    if out.Length < need + 1 {
      return 0;
    }
    var o: nat, i: nat := 0, 0;
    assert b[0..] == b && out[..0] == "";
    assert "" + Encoded(b) == Encoded(b);
    while i + 3 <= |b|
      invariant i <= |b| && o + |Encoded(b[i..])| == need && out[..o] + Encoded(b[i..]) == Encoded(b)
    {
      FrontGroup(b[i..]);
      assert b[i..][..3] == b[i..i + 3] && b[i..][3..] == b[i + 3..];
      ghost var was := out[..o];
      PutGroup(b[i..i + 3], out, o);
      Regroup(was, EncodeGroup(b[i..i + 3]), Encoded(b[i + 3..]));
      o := o + 4;
      i := i + 3;
    }
    LastGroup(b[i..]);
    if i < |b| {
      PutGroup(b[i..], out, o);
      o := o + 4;
    } else {
      assert out[..o] + "" == out[..o];
    }
    out[o] := '\0';
    n := o;
  }

  lemma FrontGroup(b: seq<byte>)
    requires |b| >= 3
    ensures Encoded(b) == EncodeGroup(b[..3]) + Encoded(b[3..])
  {
    if |b| == 3 {
      assert b[..3] == b && b[3..] == [];
      assert EncodeGroup(b) + "" == EncodeGroup(b);
    }
  }

  lemma LastGroup(b: seq<byte>)
    requires |b| < 3
    ensures Encoded(b) == if b == [] then "" else EncodeGroup(b)
  {
  }

  method PutGroup(g: seq<byte>, out: array<char>, o: nat)
    requires 1 <= |g| <= 3 && o + 4 <= out.Length
    modifies out
    ensures out[..o + 4] == old(out[..o]) + EncodeGroup(g)
  {
    hide CharOf, Digit;
    var v: int := g[0] as int * 0x1_0000;
    if |g| > 1 {
      v := v + g[1] as int * 0x100;
    }
    if |g| > 2 {
      v := v + g[2];
    }
    out[o] := CharOf(Digit(v, 0));
    out[o + 1] := CharOf(Digit(v, 1));
    out[o + 2] := if |g| > 1 then CharOf(Digit(v, 2)) else '=';
    out[o + 3] := if |g| > 2 then CharOf(Digit(v, 3)) else '=';
    assert out[..o + 4] == out[..o] + [out[o], out[o + 1], out[o + 2], out[o + 3]];
  }

  /** Decodes into out; fails on malformed text, and when the bytes do not fit. */
  method Decode(s: string, out: array<byte>) returns (ok: bool, n: nat)
    modifies out
    ensures ok <==> Decoded(s).Some? && |Decoded(s).value| <= out.Length
    ensures ok ==> n == |Decoded(s).value| && out[..n] == Decoded(s).value
  {
    hide PadOf, Acc, Bytes24, DecodeGroups;
    ok, n := false, 0;
    if |s| == 0 || |s| % 4 != 0 {
      return;
    }
    var i: nat := 0;
    assert s[0..] == s;
    DoneNothing(s);
    while i < |s|
      invariant i <= |s| && i % 4 == 0 && n <= out.Length && DecodeGroups(s) == Behind(out[..n], DecodeGroups(s[i..]))
      invariant !ok
      decreases |s| - i
    {
      GroupStep(s, i, out[..n]);
      var pad := ReadGroup(s[i..i + 4], i + 4 == |s|);
      if pad.None? {
        return;
      }
      var produced := 3 - pad.value;
      if n + produced > out.Length {
        return;
      }
      PutBytes(Acc(s[i..i + 4]), produced, out, n);
      n := n + produced;
      i := i + 4;
    }
    DoneAll(s, out[..n]);
    ok := true;
  }

  /** Bytes already written, in front of what is still to come. */
  function Behind(front: seq<byte>, rest: Option<seq<byte>>): Option<seq<byte>> {
    match rest case None => None case Some(r) => Some(front + r)
  }

  lemma DoneNothing(s: string)
    requires |s| % 4 == 0
    ensures DecodeGroups(s) == Behind([], DecodeGroups(s))
  {
    hide DecodeGroups;
    if DecodeGroups(s).Some? {
      assert [] + DecodeGroups(s).value == DecodeGroups(s).value;
    }
  }

  lemma DoneAll(s: string, front: seq<byte>)
    ensures Behind(front, DecodeGroups(s[|s|..])) == Some(front)
  {
    assert front + [] == front;
  }

  lemma GroupStep(s: string, i: nat, front: seq<byte>)
    requires i + 4 <= |s| && |s[i..]| % 4 == 0 && |s[i + 4..]| % 4 == 0
    ensures Behind(front, DecodeGroups(s[i..])) ==
            (match PadOf(s[i..i + 4], i + 4 == |s|)
             case None => None
             case Some(pad) => Behind(front + Bytes24(Acc(s[i..i + 4]), 3 - pad), DecodeGroups(s[i + 4..])))
  {
    hide PadOf, Acc, Bytes24, DecodeGroups;
    assert s[i..][..4] == s[i..i + 4] && s[i..][4..] == s[i + 4..];
    DecodeFront(s[i..]);
    var pad, rest := PadOf(s[i..i + 4], i + 4 == |s|), DecodeGroups(s[i + 4..]);
    if pad.Some? && rest.Some? {
      var g := Bytes24(Acc(s[i..i + 4]), 3 - pad.value);
      assert front + (g + rest.value) == front + g + rest.value;
    }
  }

  /** The characters of a group one by one. */
  method ReadGroup(q: string, last: bool) returns (r: Option<nat>)
    requires |q| == 4
    ensures r == PadOf(q, last)
  {
    NotADigit();
    hide ValueOf;
    var pad := 0;
    var j := 0;
    while j < 4
      invariant 0 <= j <= 4 && pad <= 2 && (j <= 2 ==> pad == 0)
      invariant pad == (if j > 2 && q[2] == '=' then 1 else 0) + (if j > 3 && q[3] == '=' then 1 else 0)
      invariant pad > 0 ==> last
      invariant forall k :: 0 <= k < j && q[k] != '=' ==> ValueOf(q[k]) >= 0
      invariant forall k :: 0 <= k < j && k < 2 ==> q[k] != '='
      invariant j == 4 && q[2] == '=' ==> q[3] == '='
    {
      if q[j] == '=' {
        if !last || j < 2 {
          return None;
        }
        pad := pad + 1;
      } else if pad > 0 || ValueOf(q[j]) < 0 {
        return None;
      }
      j := j + 1;
    }
    r := Some(pad);
  }

  method PutBytes(v: nat, count: nat, out: array<byte>, o: nat)
    requires 1 <= count <= 3 && o + count <= out.Length
    modifies out
    ensures out[..o + count] == old(out[..o]) + Bytes24(v, count)
  {
    out[o] := v / 0x1_0000 % 256;
    if count > 1 {
      out[o + 1] := v / 0x100 % 256;
    }
    if count > 2 {
      out[o + 2] := v % 256;
    }
    assert out[..o + count] == out[..o] + out[o..o + count];
  }
}
