/** C string literals: what the generator writes between the quotes, and how a C compiler reads it. */
module CtmplLiteral {
  import opened Sequences
  import opened Wrappers

  function Digit(d: int): char
    requires 0 <= d < 8
  {
    '0' + d as char
  }

  /** The content characters emitted for one source character. */
  function EmitChar(c: char): string {
    if c == '"' then ['\\', '"']
    else if c == '\\' then ['\\', '\\']
    else if c == '\n' then ['\\', 'n']
    else if c == '\t' then ['\\', 't']
    else if c == '\r' then ['\\', 'r']
    else if c < ' ' || c as int == 0x7f then
      ['\\', Digit(c as int / 64), Digit(c as int / 8 % 8), Digit(c as int % 8)]
    else [c]
  }

  /**
   * Quotes, backslashes and three control characters have an escape of their own, other control
   * codes have three octal digits.
   */
  lemma EmitCharExactly(c: char)
    ensures var n, r := c as int, EmitChar(c);
            if n == 34 then r == "\\\""
            else if n == 92 then r == "\\\\"
            else if n == 10 then r == "\\n"
            else if n == 9 then r == "\\t"
            else if n == 13 then r == "\\r"
            else if n < 32 || n == 127 then
              |r| == 4 && r[0] == '\\' && (forall i :: 1 <= i < 4 ==> 48 <= r[i] as int <= 55) &&
              n == 64 * (r[1] as int - 48) + 8 * (r[2] as int - 48) + (r[3] as int - 48)
            else r == [c]
  {
  }

  function EmitText(t: string): string {
    if t == [] then [] else EmitText(t[..|t| - 1]) + EmitChar(t[|t| - 1])
  }

  predicate IsOctal(c: char) {
    '0' <= c <= '7'
  }

  /** Length of the octal escape after the backslash: one to three digits. */
  function OctalRun(s: string): (n: nat)
    ensures n <= 3 && n <= |s|
  {
    if |s| == 0 || !IsOctal(s[0]) then 0
    else if |s| == 1 || !IsOctal(s[1]) then 1
    else if |s| == 2 || !IsOctal(s[2]) then 2
    else 3
  }

  function OctalValue(s: string): int {
    if s == [] then 0 else 8 * OctalValue(s[..|s| - 1]) + (s[|s| - 1] as int - '0' as int)
  }

  /** One element of the literal at the front of s: its character and its length; None ends or breaks the literal. */
  function ReadOne(s: string): Option<(char, nat)>
    requires s != []
  {
    if s[0] == '"' || s[0] == '\n' then None
    else if s[0] != '\\' then Some((s[0], 1))
    else if |s| == 1 then None
    else match s[1]
      case '"' => Some(('"', 2))
      case '\\' => Some(('\\', 2))
      case 'n' => Some(('\n', 2))
      case 't' => Some(('\t', 2))
      case 'r' => Some(('\r', 2))
      case _ =>
        var n := OctalRun(s[1..]);
        if n == 0 then None else
        var v := OctalValue(s[1..][..n]);
        if 0 <= v < 256 then Some((v as char, 1 + n)) else None
  }

  /** The value of the literal whose content is s, if s is the content of one literal. */
  function ReadLiteral(s: string): Option<string>
    decreases |s|
  {
    if s == [] then Some([]) else
    match ReadOne(s)
    case None => None
    case Some((c, n)) =>
      if n > |s| || n == 0 then None else
      match ReadLiteral(s[n..])
      case None => None
      case Some(t) => Some([c] + t)
  }

  lemma OctalReadsBack(a: char, b: char, c: char, t: string)
    requires IsOctal(a) && IsOctal(b) && IsOctal(c)
    ensures var s := [a, b, c] + t;
            OctalRun(s) == 3 && s[..3] == [a, b, c] &&
            OctalValue([a, b, c]) == 64 * (a as int - '0' as int) + 8 * (b as int - '0' as int) +
              (c as int - '0' as int)
  {
    var s := [a, b, c] + t;
    assert s[..3] == [a, b, c];
    assert [a, b, c][..2] == [a, b] && [a, b][..1] == [a] && [a][..0] == [];
    assert OctalValue([a, b]) == 8 * OctalValue([a]) + (b as int - '0' as int);
  }

  lemma CharReadsBack(c: char, t: string)
    requires c as int < 256
    ensures ReadOne(EmitChar(c) + t) == Some((c, |EmitChar(c)|))
  {
    var e := EmitChar(c);
    var s := e + t;
    if e != [c] && |e| == 4 {
      var n := c as int;
      assert s[1..] == e[1..] + t && e[1..] == [e[1], e[2], e[3]];
      OctalReadsBack(e[1], e[2], e[3], t);
      assert n == 64 * (n / 64) + 8 * (n / 8 % 8) + n % 8;
    }
  }

  lemma {:induction false} EmitAppend(a: string, b: string)
    ensures EmitText(a + b) == EmitText(a) + EmitText(b)
    decreases |b|
  {
    hide EmitChar;
    if b == [] {
      assert a + b == a;
    } else {
      var init, last := b[..|b| - 1], b[|b| - 1];
      EmitAppend(a, init);
      assert (a + b)[..|a + b| - 1] == a + init;
      assert EmitText(b) == EmitText(init) + EmitChar(last);
      assert EmitText(a + b) == EmitText(a + init) + EmitChar(last);
      hide *;
      Regroup(EmitText(a), EmitText(init), EmitChar(last));
    }
  }

  /** Every source text is read back exactly: the literal neither ends early nor changes a byte. */
  lemma {:induction false} LiteralReadsBack(t: string)
    requires forall i :: 0 <= i < |t| ==> t[i] as int < 256
    ensures ReadLiteral(EmitText(t)) == Some(t)
    decreases |t|
  {
    if t != [] {
      var rest := t[1..];
      LiteralReadsBack(rest);
      assert t == [t[0]] + rest;
      EmitAppend([t[0]], rest);
      assert EmitText([t[0]]) == EmitText([]) + EmitChar(t[0]) == EmitChar(t[0]);
      var e, s := EmitChar(t[0]), EmitChar(t[0]) + EmitText(rest);
      CharReadsBack(t[0], EmitText(rest));
      hide EmitChar, ReadOne, EmitText;
      assert s[|e|..] == EmitText(rest);
    }
  }
}
