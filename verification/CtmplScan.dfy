/** Where C code embedded in a template ends: brackets are counted, strings and comments skipped. */
module CtmplScan {
  import opened Chars
  import opened CtmplAst

  datatype Mode = ToBrace | MatchBrace | MatchParen

  /** The end of the code, or where scanning gives up. */
  datatype Scanned = Found(end: nat) | Fails(at: nat)

  function CharAt(s: string, p: nat): char {
    if p < |s| then s[p] else '\0'
  }

  /** The first position from p that is not white space. */
  function WsEnd(s: string, p: nat): (r: nat)
    requires p <= |s|
    ensures p <= r <= |s| && AllSpace(s[p..r])
    ensures forall i :: p <= i < r ==> IsSpace(s[i])
    ensures r < |s| ==> !IsSpace(s[r])
    decreases |s| - p
  {
    if p < |s| && IsSpace(s[p]) then WsEnd(s, p + 1) else p
  }

  lemma {:induction false} WsEndLocal(s: string, a: nat, p: nat, e: nat)
    requires a <= p <= e < |s| && !IsSpace(s[e])
    ensures WsEnd(s, p) <= e && WsEnd(s[a..e], p - a) == WsEnd(s, p) - a
    decreases e - p
  {
    if p < e && IsSpace(s[p]) {
      WsEndLocal(s, a, p + 1, e);
    }
  }

  lemma {:induction false} WsEndIs(s: string, p: nat, e: nat)
    requires p <= e <= |s| && (forall i :: p <= i < e ==> IsSpace(s[i])) && (e < |s| ==> !IsSpace(s[e]))
    ensures WsEnd(s, p) == e
    decreases e - p
  {
    if p < e {
      WsEndIs(s, p + 1, e);
    }
  }

  predicate KeywordAt(s: string, p: nat, kw: string) {
    p + |kw| <= |s| && s[p..p + |kw|] == kw && !IsIdentChar(CharAt(s, p + |kw|))
  }

  function LineEnd(s: string, p: nat): (r: nat)
    requires p <= |s|
    ensures p <= r <= |s|
    ensures p < |s| && s[p] != '\n' ==> p < r
    decreases |s| - p
  {
    if p == |s| || s[p] == '\n' then p else LineEnd(s, p + 1)
  }

  function CommentEnd(s: string, p: nat): (r: nat)
    requires p <= |s|
    ensures p <= r <= |s|
    decreases |s| - p
  {
    if p == |s| || (s[p] == '*' && CharAt(s, p + 1) == '/') then p else CommentEnd(s, p + 1)
  }

  /** The closing quote of a string or character literal; an escaped character is skipped. */
  function QuoteEnd(s: string, p: nat, quote: char): (r: nat)
    requires p <= |s|
    ensures p <= r <= |s|
    decreases |s| - p
  {
    if p == |s| || s[p] == quote then p
    else if s[p] == '\\' then (if p + 2 <= |s| then QuoteEnd(s, p + 2, quote) else |s|)
    else QuoteEnd(s, p + 1, quote)
  }

  function Clip(s: string, p: nat): nat {
    if p <= |s| then p else |s|
  }

  function Closer(mode: Mode): char {
    if mode == MatchParen then ')' else '}'
  }

  /** What stands at p: code, or a comment or literal that ends at `next`, or one that never ends. */
  datatype Skip = IsCode | SkipTo(next: nat) | NeverEnds

  function SkipAt(s: string, p: nat): (r: Skip)
    requires p < |s|
    ensures r.SkipTo? ==> p < r.next <= |s|
  {
    if s[p] == '/' && CharAt(s, p + 1) == '/' then SkipTo(LineEnd(s, p))
    else if s[p] == '/' && CharAt(s, p + 1) == '*' then
      var q := CommentEnd(s, Clip(s, p + 2));
      if q == |s| then NeverEnds else SkipTo(Clip(s, q + 2))
    else if s[p] == '"' || s[p] == '\'' then
      var q := QuoteEnd(s, p + 1, s[p]);
      if q == |s| then NeverEnds else SkipTo(q + 1)
    else IsCode
  }

  /** Scanning from p with `depth` open brackets. */
  function Scan(s: string, p: nat, depth: int, mode: Mode): (r: Scanned)
    requires p <= |s|
    ensures r.Found? ==> p <= r.end < |s| && s[r.end] == (if mode == ToBrace then '{' else Closer(mode))
    ensures r.Fails? ==> p <= r.at <= |s|
    decreases |s| - p
  {
    if p == |s| then Fails(p) else
    match SkipAt(s, p)
    case NeverEnds => Fails(|s|)
    case SkipTo(next) => Scan(s, next, depth, mode)
    case IsCode =>
      if s[p] == '{' || s[p] == '(' then
        if mode == ToBrace && s[p] == '{' && depth == 0 then Found(p) else Scan(s, p + 1, depth + 1, mode)
      else if s[p] == '}' || s[p] == ')' then
        if depth == 1 && mode != ToBrace then (if s[p] == Closer(mode) then Found(p) else Fails(p))
        else if depth <= 0 then Fails(p)
        else Scan(s, p + 1, depth - 1, mode)
      else Scan(s, p + 1, depth, mode)
  }

  // ---- scanning does not look past its end ----

  /** Code that ends where its terminator stands, read from the code and the terminator alone. */
  predicate Delimited(inner: string, mode: Mode) {
    var c := if mode == ToBrace then '{' else Closer(mode);
    Scan(inner + [c], 0, if mode == ToBrace then 0 else 1, mode) == Found(|inner|)
  }

  lemma {:induction false} LineEndLocal(s: string, a: nat, p: nat, e: nat)
    requires a <= p <= e < |s| && LineEnd(s, p) <= e
    ensures LineEnd(s[a..e + 1], p - a) == LineEnd(s, p) - a
    decreases e - p
  {
    if s[p] != '\n' {
      LineEndLocal(s, a, p + 1, e);
    }
  }

  lemma {:induction false} CommentEndLocal(s: string, a: nat, p: nat, e: nat)
    requires a <= p <= |s| && a <= e < |s| && CommentEnd(s, p) + 2 <= e
    ensures CommentEnd(s[a..e + 1], p - a) == CommentEnd(s, p) - a
    decreases |s| - p
  {
    if s[p] != '*' || CharAt(s, p + 1) != '/' {
      CommentEndLocal(s, a, p + 1, e);
    }
  }

  lemma {:induction false} QuoteEndLocal(s: string, a: nat, p: nat, quote: char, e: nat)
    requires a <= p <= |s| && a <= e < |s| && QuoteEnd(s, p, quote) + 1 <= e
    ensures QuoteEnd(s[a..e + 1], p - a, quote) == QuoteEnd(s, p, quote) - a
    decreases |s| - p
  {
    if s[p] == quote {
    } else if s[p] == '\\' {
      QuoteEndLocal(s, a, p + 2, quote, e);
    } else {
      QuoteEndLocal(s, a, p + 1, quote, e);
    }
  }

  lemma SkipLocal(s: string, a: nat, p: nat, e: nat)
    requires a <= p < e < |s| && SkipAt(s, p).SkipTo? && SkipAt(s, p).next <= e
    ensures SkipAt(s[a..e + 1], p - a) == SkipTo(SkipAt(s, p).next - a)
  {
    if s[p] == '/' && CharAt(s, p + 1) == '/' {
      LineEndLocal(s, a, p, e);
    } else if s[p] == '/' && CharAt(s, p + 1) == '*' {
      CommentEndLocal(s, a, p + 2, e);
    } else {
      QuoteEndLocal(s, a, p + 1, s[p], e);
    }
  }

  function DepthAfter(c: char, depth: int): int {
    if c == '{' || c == '(' then depth + 1 else if c == '}' || c == ')' then depth - 1 else depth
  }

  /** The terminator stands at p. */
  predicate Ends(c: char, depth: int, mode: Mode) {
    if mode == ToBrace then c == '{' && depth == 0 else c == Closer(mode) && depth == 1
  }

  lemma ScanStep(s: string, p: nat, depth: int, mode: Mode)
    requires p < |s| && SkipAt(s, p).IsCode? && Scan(s, p, depth, mode).Found?
    ensures Ends(s[p], depth, mode) ==> Scan(s, p, depth, mode) == Found(p)
    ensures !Ends(s[p], depth, mode) ==>
              Scan(s, p, depth, mode) == Scan(s, p + 1, DepthAfter(s[p], depth), mode) &&
              (s[p] == '}' || s[p] == ')' ==> depth > 0 && (depth == 1 ==> mode == ToBrace))
  {
    hide SkipAt;
  }

  lemma ScanUnstep(s: string, p: nat, depth: int, mode: Mode)
    requires p < |s| && SkipAt(s, p).IsCode?
    requires s[p] == '}' || s[p] == ')' ==> depth > 0 && (depth == 1 && mode != ToBrace ==> s[p] == Closer(mode))
    ensures Ends(s[p], depth, mode) ==> Scan(s, p, depth, mode) == Found(p)
    ensures !Ends(s[p], depth, mode) ==> Scan(s, p, depth, mode) == Scan(s, p + 1, DepthAfter(s[p], depth), mode)
  {
    hide SkipAt;
  }

  lemma {:induction false} ScanLocal(s: string, a: nat, p: nat, e: nat, depth: int, mode: Mode)
    requires a <= p <= |s| && Scan(s, p, depth, mode) == Found(e)
    ensures p <= e < |s| && Scan(s[a..e + 1], p - a, depth, mode) == Found(e - a)
    decreases |s| - p
  {
    hide LineEnd, CommentEnd, QuoteEnd;
    match SkipAt(s, p) {
      case NeverEnds =>
      case SkipTo(next) =>
        ScanLocal(s, a, next, e, depth, mode);
        SkipLocal(s, a, p, e);
      case IsCode => CodeLocal(s, a, p, e, depth, mode);
    }
  }

  lemma {:induction false} CodeLocal(s: string, a: nat, p: nat, e: nat, depth: int, mode: Mode)
    requires a <= p < |s| && Scan(s, p, depth, mode) == Found(e) && SkipAt(s, p).IsCode?
    ensures p <= e < |s| && Scan(s[a..e + 1], p - a, depth, mode) == Found(e - a)
    decreases |s| - p, 0
  {
    IsCodeLocal(s, a, p, e);
    hide SkipAt, Scan;
    var t := s[a..e + 1];
    ScanStep(s, p, depth, mode);
    if !Ends(s[p], depth, mode) {
      ScanLocal(s, a, p + 1, e, DepthAfter(s[p], depth), mode);
    }
    assert t[p - a] == s[p];
    ScanUnstep(t, p - a, depth, mode);
  }

  lemma IsCodeLocal(s: string, a: nat, p: nat, e: nat)
    requires a <= p <= e < |s| && SkipAt(s, p).IsCode?
    ensures SkipAt(s[a..e + 1], p - a).IsCode?
  {
  }

  /** What a scan finds is delimited in itself. */
  lemma FoundIsDelimited(s: string, p: nat, e: nat, mode: Mode)
    requires p <= |s| && Scan(s, p, if mode == ToBrace then 0 else 1, mode) == Found(e)
    ensures p <= e < |s| && Delimited(s[p..e], mode)
  {
    ScanLocal(s, p, p, e, if mode == ToBrace then 0 else 1, mode);
    assert s[p..e + 1] == s[p..e] + [s[e]];
  }

  // ---- what is delimited in itself is found in every source ----

  lemma {:induction false} LineEndGlobal(s: string, a: nat, p: nat, e: nat)
    requires a <= p <= e < |s| && LineEnd(s[a..e + 1], p - a) < e + 1 - a
    ensures LineEnd(s, p) == LineEnd(s[a..e + 1], p - a) + a
    decreases e - p
  {
    if s[p] != '\n' && p < e {
      LineEndGlobal(s, a, p + 1, e);
    }
  }

  lemma {:induction false} CommentEndGlobal(s: string, a: nat, p: nat, e: nat)
    requires a <= p <= e + 1 <= |s| && CommentEnd(s[a..e + 1], p - a) < e + 1 - a
    ensures CommentEnd(s, p) == CommentEnd(s[a..e + 1], p - a) + a
    ensures CharAt(s[a..e + 1], CommentEnd(s[a..e + 1], p - a) + 1) == '/'
    decreases e + 1 - p
  {
    var t := s[a..e + 1];
    if t[p - a] != '*' || CharAt(t, p - a + 1) != '/' {
      CommentEndGlobal(s, a, p + 1, e);
      CommentNotHere(s, a, p, e);
    }
  }

  lemma CommentNotHere(s: string, a: nat, p: nat, e: nat)
    requires a <= p && p + 1 <= e < |s| && !(s[a..e + 1][p - a] == '*' && CharAt(s[a..e + 1], p - a + 1) == '/')
    ensures CommentEnd(s, p) == CommentEnd(s, p + 1)
  {
    assert CharAt(s[a..e + 1], p - a + 1) == s[p + 1];
  }

  lemma {:induction false} QuoteEndGlobal(s: string, a: nat, p: nat, quote: char, e: nat)
    requires a <= p <= e + 1 <= |s| && QuoteEnd(s[a..e + 1], p - a, quote) < e + 1 - a
    ensures QuoteEnd(s, p, quote) == QuoteEnd(s[a..e + 1], p - a, quote) + a
    decreases e + 1 - p
  {
    var t := s[a..e + 1];
    if t[p - a] == quote {
    } else if t[p - a] == '\\' {
      QuoteEndGlobal(s, a, p + 2, quote, e);
    } else {
      QuoteEndGlobal(s, a, p + 1, quote, e);
    }
  }

  lemma SkipGlobal(s: string, a: nat, p: nat, e: nat)
    requires a <= p <= e < |s| && s[e] != '/'
    requires SkipAt(s[a..e + 1], p - a).SkipTo? && SkipAt(s[a..e + 1], p - a).next < e + 1 - a
    ensures SkipAt(s, p) == SkipTo(SkipAt(s[a..e + 1], p - a).next + a)
  {
    var t := s[a..e + 1];
    assert p < e ==> CharAt(t, p - a + 1) == s[p + 1];
    if s[p] == '/' && CharAt(t, p - a + 1) == '/' {
      LineEndGlobal(s, a, p, e);
    } else if s[p] == '/' && CharAt(t, p - a + 1) == '*' {
      CommentEndGlobal(s, a, p + 2, e);
    } else {
      QuoteEndGlobal(s, a, p + 1, s[p], e);
    }
  }

  lemma CodeGlobal(s: string, a: nat, p: nat, e: nat)
    requires a <= p <= e < |s| && s[e] != '/' && SkipAt(s[a..e + 1], p - a).IsCode?
    ensures SkipAt(s, p).IsCode?
  {
    assert p < e ==> CharAt(s[a..e + 1], p - a + 1) == s[p + 1];
  }

  lemma {:induction false} ScanGlobal(s: string, a: nat, p: nat, e: nat, depth: int, mode: Mode)
    requires a <= p <= e < |s| && Scan(s[a..e + 1], p - a, depth, mode) == Found(e - a)
    ensures Scan(s, p, depth, mode) == Found(e)
    decreases e - p
  {
    hide LineEnd, CommentEnd, QuoteEnd;
    var t := s[a..e + 1];
    assert t[e - a] == s[e];
    match SkipAt(t, p - a) {
      case NeverEnds =>
      case SkipTo(next) =>
        ScanGlobal(s, a, next + a, e, depth, mode);
        SkipGlobal(s, a, p, e);
      case IsCode =>
        CodeGlobal(s, a, p, e);
        hide SkipAt;
        CodeStepGlobal(s, a, p, e, depth, mode);
    }
  }

  lemma {:induction false} CodeStepGlobal(s: string, a: nat, p: nat, e: nat, depth: int, mode: Mode)
    requires a <= p <= e < |s| && Scan(s[a..e + 1], p - a, depth, mode) == Found(e - a)
    requires SkipAt(s[a..e + 1], p - a).IsCode? && SkipAt(s, p).IsCode?
    ensures Scan(s, p, depth, mode) == Found(e)
    decreases e - p, 0
  {
    hide SkipAt;
    var t := s[a..e + 1];
    assert t[p - a] == s[p];
    ScanStep(t, p - a, depth, mode);
    ScanUnstep(s, p, depth, mode);
    hide Scan;
    if !Ends(s[p], depth, mode) {
      ScanGlobal(s, a, p + 1, e, DepthAfter(s[p], depth), mode);
    }
  }

  /** Delimited code with its terminator is found wherever it stands. */
  lemma DelimitedIsFound(s: string, p: nat, inner: string, mode: Mode)
    requires Delimited(inner, mode) && StartsAt(s, p, inner + [if mode == ToBrace then '{' else Closer(mode)])
    ensures Scan(s, p, if mode == ToBrace then 0 else 1, mode) == Found(p + |inner|)
  {
    hide Scan;
    ScanGlobal(s, p, p, p + |inner|, if mode == ToBrace then 0 else 1, mode);
  }
}
