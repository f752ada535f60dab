/** The parser's cursor: position, line and start of line, moved forward, saved and rewound. */
module CtmplCursor {
  import opened Wrappers
  import opened Chars
  import opened CtmplAst
  import opened CtmplScan

  /** The 1-based line of position p. */
  function LineAt(s: string, p: nat): nat
    requires p <= |s|
  {
    if p == 0 then 1 else LineAt(s, p - 1) + (if s[p - 1] == '\n' then 1 else 0)
  }

  /** The position after the last newline before p. */
  function LineStartAt(s: string, p: nat): (r: nat)
    requires p <= |s|
    ensures r <= p
  {
    if p == 0 then 0 else if s[p - 1] == '\n' then p else LineStartAt(s, p - 1)
  }

  /** A reported source location, 1-based. */
  datatype Fault = Fault(line: nat, col: nat)

  function FaultAt(s: string, p: nat): Fault
    requires p <= |s|
  {
    Fault(LineAt(s, p), p - LineStartAt(s, p) + 1)
  }

  class Cursor {
    const src: string
    var pos: nat
    var line: nat
    var lineStart: nat
    var err: Option<Fault>

    /** Line and line start belong to the position. */
    ghost predicate Located()
      reads this`pos, this`line, this`lineStart
    {
      pos <= |src| && line == LineAt(src, pos) && lineStart == LineStartAt(src, pos)
    }

    constructor (text: string)
      ensures src == text && pos == 0 && Located() && err.None?
    {
      src := text;
      pos, line, lineStart, err := 0, 1, 0, None;
    }

    function Peek(): char
      requires pos <= |src|
      reads this`pos
    {
      CharAt(src, pos)
    }

    function PeekAt(off: nat): char
      requires pos <= |src|
      reads this`pos
    {
      CharAt(src, pos + off)
    }

    method Advance()
      requires Located()
      modifies this`pos, this`line, this`lineStart
      ensures Located() && pos == Clip(src, old(pos) + 1)
    {
      if pos >= |src| {
        return;
      }
      if src[pos] == '\n' {
        line := line + 1;
        lineStart := pos + 1;
      }
      pos := pos + 1;
    }

    method AdvanceN(n: nat)
      requires Located()
      modifies this`pos, this`line, this`lineStart
      ensures Located() && pos == Clip(src, old(pos) + n)
    {
      for i := 0 to n
        invariant Located() && pos == Clip(src, old(pos) + i)
      {
        Advance();
      }
    }

    /** Goes back to a saved position with its line. */
    method Rewind(p: nat, l: nat, ls: nat)
      requires p <= |src| && l == LineAt(src, p) && ls == LineStartAt(src, p)
      modifies this`pos, this`line, this`lineStart
      ensures Located() && pos == p
    {
      pos, line, lineStart := p, l, ls;
    }

    /** Reports an error at the cursor. */
    method Report()
      requires Located()
      modifies this`err
      ensures err == Some(FaultAt(src, pos))
    {
      err := Some(Fault(line, pos - lineStart + 1));
    }

    /** Reports an error at another position of the source, counting the lines before it. */
    method ReportAt(p: nat)
      requires p < |src|
      modifies this`err
      ensures err == Some(FaultAt(src, p))
    {
      var l, ls, i := 1, 0, 0;
      while i < p && i < |src|
        invariant 0 <= i <= |src| && i <= p
        invariant l == LineAt(src, i) && ls == LineStartAt(src, i)
      {
        if src[i] == '\n' {
          l := l + 1;
          ls := i + 1;
        }
        i := i + 1;
      }
      err := Some(Fault(l, if p < |src| then p - ls + 1 else 1));
    }

    method SkipWs()
      requires Located()
      modifies this`pos, this`line, this`lineStart
      ensures Located() && pos == WsEnd(src, old(pos))
    {
      while pos < |src| && IsSpace(src[pos])
        invariant Located() && WsEnd(src, pos) == WsEnd(src, old(pos))
        decreases |src| - pos
      {
        Advance();
      }
    }

    /** Reads an identifier; reports an error when there is none. */
    method ReadIdent() returns (ok: bool, name: string)
      requires Located()
      modifies this`pos, this`line, this`lineStart, this`err
      ensures Located() && old(pos) <= pos
      ensures ok <==> old(pos < |src| && IsIdentStart(src[pos]))
      ensures ok ==> old(pos) < pos && name == src[old(pos)..pos]
      ensures ok ==> forall i :: old(pos) <= i < pos ==> IsIdentChar(src[i])
      ensures ok ==> pos == |src| || !IsIdentChar(src[pos])
      ensures !ok ==> pos == old(pos) && err == Some(FaultAt(src, pos))
    {
      if !IsIdentStart(Peek()) {
        Report();
        return false, "";
      }
      var start := pos;
      while pos < |src| && IsIdentChar(src[pos])
        invariant Located() && start <= pos
        invariant forall i :: start <= i < pos ==> IsIdentChar(src[i])
        decreases |src| - pos
      {
        Advance();
      }
      ok, name := true, src[start..pos];
    }

    method EatKeyword(kw: string) returns (ok: bool)
      requires Located()
      modifies this`pos, this`line, this`lineStart
      ensures Located() && ok == KeywordAt(src, old(pos), kw)
      ensures pos == if ok then old(pos) + |kw| else old(pos)
    {
      ok := KeywordAt(src, pos, kw);
      if ok {
        AdvanceN(|kw|);
      }
    }

    // ---- scanning embedded C code ----

    method ToLineEnd()
      requires Located()
      modifies this`pos, this`line, this`lineStart
      ensures Located() && pos == LineEnd(src, old(pos))
    {
      while pos < |src| && src[pos] != '\n'
        invariant Located() && LineEnd(src, pos) == LineEnd(src, old(pos))
        decreases |src| - pos
      {
        Advance();
      }
    }

    method ToCommentEnd()
      requires Located()
      modifies this`pos, this`line, this`lineStart
      ensures Located() && pos == CommentEnd(src, old(pos))
    {
      while pos < |src| && !(src[pos] == '*' && PeekAt(1) == '/')
        invariant Located() && CommentEnd(src, pos) == CommentEnd(src, old(pos))
        decreases |src| - pos
      {
        Advance();
      }
    }

    method ToQuoteEnd(quote: char)
      requires Located()
      modifies this`pos, this`line, this`lineStart
      ensures Located() && pos == QuoteEnd(src, old(pos), quote)
    {
      while pos < |src| && src[pos] != quote
        invariant Located() && QuoteEnd(src, pos, quote) == QuoteEnd(src, old(pos), quote)
        decreases |src| - pos
      {
        if src[pos] == '\\' {
          Advance();
        }
        Advance();
      }
    }

    /** Skips a comment or literal at the cursor; reports one that never ends. */
    method SkipLiteral() returns (skip: Skip)
      requires Located() && pos < |src|
      modifies this`pos, this`line, this`lineStart, this`err
      ensures Located() && skip == SkipAt(src, old(pos))
      ensures match skip
              case IsCode => pos == old(pos) && err == old(err)
              case SkipTo(next) => pos == next && err == old(err)
              case NeverEnds => pos == |src| && err == Some(FaultAt(src, pos))
    {
      hide LineAt, LineStartAt;
      var c := src[pos];
      skip := IsCode;
      if c == '/' && PeekAt(1) == '/' {
        ToLineEnd();
        skip := SkipTo(pos);
      } else if c == '/' && PeekAt(1) == '*' {
        AdvanceN(2);
        ToCommentEnd();
        if pos >= |src| {
          Report();
          skip := NeverEnds;
        } else {
          AdvanceN(2);
          skip := SkipTo(pos);
        }
      } else if c == '"' || c == '\'' {
        Advance();
        ToQuoteEnd(c);
        if pos >= |src| {
          Report();
          skip := NeverEnds;
        } else {
          Advance();
          skip := SkipTo(pos);
        }
      }
    }

    /** Scans C code from the cursor; afterwards the cursor is at the brace, or behind the closer. */
    method ScanC(mode: Mode) returns (ok: bool, start: nat, end: nat)
      requires Located()
      modifies this`pos, this`line, this`lineStart, this`err
      ensures Located() && start == old(pos)
      ensures var r := Scan(src, old(pos), if mode == ToBrace then 0 else 1, mode);
              if ok then r == Found(end) && pos == (if mode == ToBrace then end else end + 1)
              else r == Fails(pos) && err == Some(FaultAt(src, pos))
      ensures ok ==> old(pos) <= end < |src| && src[end] == (if mode == ToBrace then '{' else Closer(mode))
    {
      hide LineAt, LineStartAt, SkipAt;
      var depth := if mode == ToBrace then 0 else 1;
      ghost var goal := Scan(src, pos, depth, mode);
      start, end, ok := pos, pos, false;
      while true
        invariant Located() && Scan(src, pos, depth, mode) == goal
        decreases |src| - pos
      {
        if pos >= |src| {
          Report();
          return;
        }
        var skip := SkipLiteral();
        if skip.NeverEnds? {
          return;
        }
        if skip.SkipTo? {
          continue;
        }
        var c := src[pos];
        if c == '{' || c == '(' {
          if mode == ToBrace && c == '{' && depth == 0 {
            end, ok := pos, true;
            return;
          }
          depth := depth + 1;
        } else if c == '}' || c == ')' {
          depth := depth - 1;
          if depth == 0 && mode != ToBrace {
            if c != Closer(mode) {
              Report();
              return;
            }
            end, ok := pos, true;
            Advance();
            return;
          }
          if depth < 0 {
            Report();
            return;
          }
        }
        Advance();
      }
    }
  }

  /** The cursor's line data are the newline count and the last newline of the consumed prefix. */
  lemma {:induction false} LineIsNewlineCount(s: string, p: nat)
    requires p <= |s|
    ensures LineAt(s, p) == 1 + multiset(s[..p])['\n']
    ensures LineStartAt(s, p) == 0 || s[LineStartAt(s, p) - 1] == '\n'
    ensures forall i :: LineStartAt(s, p) <= i < p ==> s[i] != '\n'
  {
    if p > 0 {
      LineIsNewlineCount(s, p - 1);
      assert s[..p] == s[..p - 1] + [s[p - 1]];
    }
  }
}
