/** HTML escaping of interpolated values, and its inverse. */
module TplEscape {
  import opened Sequences
  predicate Special(c: char) {
    c == '&' || c == '<' || c == '>' || c == '"' || c == '\''
  }

  function Entity(c: char): string
    requires Special(c)
  {
    match c
    case '&' => "&amp;"
    case '<' => "&lt;"
    case '>' => "&gt;"
    case '"' => "&#34;"
    case _ => "&#39;"
  }

  /** What one character contributes. */
  function EscapeChar(c: char): string {
    if Special(c) then Entity(c) else [c]
  }

  function Escape(s: string): string {
    if s == [] then [] else EscapeChar(s[0]) + Escape(s[1..])
  }

  lemma {:induction false} EscapeAppend(a: string, b: string)
    ensures Escape(a + b) == Escape(a) + Escape(b)
  {
    hide EscapeChar;
    if a == [] {
      assert a + b == b;
    } else {
      EscapeAppend(a[1..], b);
      assert (a + b)[1..] == a[1..] + b;
      EscapeFirst(a);
      EscapeFirst(a + b);
      hide *;
      Regroup(EscapeChar(a[0]), Escape(a[1..]), Escape(b));
    }
  }

  lemma EscapeFirst(s: string)
    requires s != []
    ensures Escape(s) == EscapeChar(s[0]) + Escape(s[1..])
  {
    hide EscapeChar;
  }

  /** A run without special characters is its own escape. */
  lemma {:induction false} EscapePlain(s: string)
    requires forall c :: c in s ==> !Special(c)
    ensures Escape(s) == s
  {
    if s != [] {
      EscapePlain(s[1..]);
      assert s == [s[0]] + s[1..];
    }
  }

  // ---- decoding ----

  /** The entity at the front of s: the character it stands for, and its length; 0 when there is none. */
  function EntityAt(s: string): (char, nat) {
    if |s| >= 5 && s[..5] == "&amp;" then ('&', 5)
    else if |s| >= 4 && s[..4] == "&lt;" then ('<', 4)
    else if |s| >= 4 && s[..4] == "&gt;" then ('>', 4)
    else if |s| >= 5 && s[..5] == "&#34;" then ('"', 5)
    else if |s| >= 5 && s[..5] == "&#39;" then ('\'', 5)
    else (' ', 0)
  }

  /** Decodes the five entities; everything else stands for itself. */
  function Decode(s: string): string {
    if s == [] then [] else
    var (c, n) := EntityAt(s);
    if 0 < n <= |s| then [c] + Decode(s[n..]) else [s[0]] + Decode(s[1..])
  }

  lemma EntityReadsBack(c: char, t: string)
    requires Special(c)
    ensures EntityAt(Entity(c) + t) == (c, |Entity(c)|)
  {
    var e := Entity(c);
    var s := e + t;
    assert s[..|e|] == e;
    assert e[0] == '&' && s[0] == '&' && s[1] == e[1] && s[2] == e[2];
    if |e| == 5 {
      assert s[..4][1] == e[1] && s[..4][2] == e[2] && s[..4][3] == e[3];
      assert s[3] == e[3];
    } else {
      assert s[1] != 'a';
      assert s[..4] == e;
      if |s| >= 5 {
        assert s[..5][1] == s[1];
      }
    }
  }

  /** Escaping is undone by entity decoding, for every string. */
  lemma {:induction false} DecodeUndoesEscape(s: string)
    ensures Decode(Escape(s)) == s
  {
    hide Escape, EntityAt, Decode, EscapeChar;
    if s == [] {
      NothingEscaped();
    } else {
      DecodeUndoesEscape(s[1..]);
      EscapeFirst(s);
      DecodeFirst(s[0], Escape(s[1..]));
      assert [s[0]] + s[1..] == s;
    }
  }

  lemma NothingEscaped()
    ensures Decode(Escape([])) == []
  {
  }

  lemma DecodeFirst(c: char, t: string)
    ensures Decode(EscapeChar(c) + t) == [c] + Decode(t)
  {
    if Special(c) {
      EntityReadsBack(c, t);
      var e := Entity(c);
      assert (e + t)[|e|..] == t;
      hide Entity, EntityAt;
    } else {
      assert ([c] + t)[0] != '&' && ([c] + t)[1..] == t;
      NoEntity([c] + t);
      hide EntityAt;
    }
  }

  lemma NoEntity(s: string)
    requires s != [] && s[0] != '&'
    ensures EntityAt(s).1 == 0
  {
  }

  /** No raw markup, and every ampersand begins one of the five entities. */
  ghost predicate Safe(s: string) {
    forall i :: 0 <= i < |s| ==>
      s[i] != '<' && s[i] != '>' && s[i] != '"' && s[i] != '\'' && (s[i] == '&' ==> EntityAt(s[i..]).1 > 0)
  }

  lemma SafeCons(head: string, c: char, t: string)
    requires Safe(t) && head == EscapeChar(c)
    ensures Safe(head + t)
  {
    var s := head + t;
    if Special(c) {
      EntityReadsBack(c, t);
    }
    forall i | 0 <= i < |s|
      ensures s[i] != '<' && s[i] != '>' && s[i] != '"' && s[i] != '\'' && (s[i] == '&' ==> EntityAt(s[i..]).1 > 0)
    {
      if i >= |head| {
        assert s[i] == t[i - |head|] && s[i..] == t[i - |head|..];
      } else {
        assert s[i] == head[i] && s[0..] == s;
      }
    }
  }

  /** What is written has no raw angle bracket or quote, and no stray ampersand. */
  lemma {:induction false} EscapeIsSafe(s: string)
    ensures Safe(Escape(s))
  {
    if s != [] {
      EscapeIsSafe(s[1..]);
      SafeCons(EscapeChar(s[0]), s[0], Escape(s[1..]));
    }
  }
}
