/**
 * Sanitising style declarations: the text is split at semicolons outside parentheses, every unsafe
 * declaration is replaced by a placeholder, and the result is written into a buffer sized in advance.
 */
module TplCss {
  import opened Chars

  const PLACEHOLDER := "zctmplUnsafeCSS"

  // ---- splitting ----

  function Delta(c: char): int {
    if c == '(' then 1 else if c == ')' then -1 else 0
  }

  /** The length of the declaration at the front of s; `paren` parentheses are open. */
  function Span(s: string, paren: int): (n: nat)
    ensures n <= |s|
  {
    if s == [] || (paren <= 0 && s[0] == ';') then 0 else 1 + Span(s[1..], paren + Delta(s[0]))
  }

  function Depth(s: string, paren: int): int {
    if s == [] then paren else Depth(s[1..], paren + Delta(s[0]))
  }

  function NonEmpty(d: string): seq<string> {
    if d == "" then [] else [d]
  }

  /** The declarations of s without surrounding white space; empty ones are dropped. */
  function Split(s: string): seq<string>
    decreases |s|
  {
    if s == [] then [] else
    var e := Span(s, 0);
    NonEmpty(Trim(s[..e])) + (if e < |s| then Split(s[e + 1..]) else [])
  }

  // ---- checking a declaration ----

  predicate PropValid(p: string) {
    p != "" && (IsAlpha(p[0]) || p[0] == '-') &&
    forall i :: 1 <= i < |p| ==> IsAlpha(p[i]) || IsDigit(p[i]) || p[i] == '-'
  }

  predicate ContainsNoCase(s: string, needle: string) {
    exists p :: 0 <= p <= |s| && StartsNoCase(s, p, needle)
  }

  /** The next "url(" from p, or |s|. */
  function NextUrl(s: string, p: nat): (r: nat)
    requires p <= |s|
    ensures p <= r <= |s|
    ensures r < |s| ==> StartsNoCase(s, r, "url(")
    ensures forall k :: p <= k < r ==> !StartsNoCase(s, k, "url(")
    decreases |s| - p
  {
    if p == |s| || StartsNoCase(s, p, "url(") then p else NextUrl(s, p + 1)
  }

  function NextClose(s: string, p: nat): (r: nat)
    requires p <= |s|
    ensures p <= r <= |s|
    ensures r < |s| ==> s[r] == ')'
    decreases |s| - p
  {
    if p == |s| || s[p] == ')' then p else NextClose(s, p + 1)
  }

  predicate UrlAllowed(inner: string) {
    ':' !in inner || StartsNoCase(inner, 0, "http://") || StartsNoCase(inner, 0, "https://") ||
    StartsNoCase(inner, 0, "data:image")
  }

  /** Some url(..) from p on is not closed or has a forbidden scheme. */
  predicate UrlUnsafe(s: string, p: nat)
    requires p <= |s|
    decreases |s| - p
  {
    var u := NextUrl(s, p);
    u < |s| && (var e := NextClose(s, u + 4);
                e == |s| || !UrlAllowed(s[u + 4..e]) || UrlUnsafe(s, e + 1))
  }

  const SCRIPTS := ["javascript:", "vbscript:", "expression(", "behavior:", "@import"]

  predicate ControlChar(c: char) {
    c < ' ' || c as int == 0x7f || c == '<' || c == '>'
  }

  predicate ValueUnsafe(v: string) {
    (exists i :: 0 <= i < |v| && ControlChar(v[i])) ||
    (exists k :: 0 <= k < |SCRIPTS| && ContainsNoCase(v, SCRIPTS[k])) ||
    UrlUnsafe(v, 0)
  }

  function Colon(d: string): (n: nat)
    ensures n <= |d|
    ensures n < |d| ==> d[n] == ':'
    ensures ':' !in d[..n]
  {
    if d == [] || d[0] == ':' then 0 else
    var n := Colon(d[1..]);
    assert d[..n + 1] == [d[0]] + d[1..][..n];
    1 + n
  }

  /** A safe declaration stays, one with an unsafe value keeps its property, anything else is replaced. */
  function Fix(d: string): string {
    var c := Colon(d);
    if c == |d| || !PropValid(d[..c]) then PLACEHOLDER
    else if ValueUnsafe(d[c + 1..]) then d[..c] + ":" + PLACEHOLDER
    else d
  }

  function FixAll(ds: seq<string>): (r: seq<string>)
    ensures |r| == |ds| && forall i :: 0 <= i < |ds| ==> r[i] == Fix(ds[i])
  {
    if ds == [] then [] else FixAll(ds[..|ds| - 1]) + [Fix(ds[|ds| - 1])]
  }

  function Join(ds: seq<string>): string {
    if ds == [] then ""
    else if |ds| == 1 then ds[0]
    else Join(ds[..|ds| - 1]) + "; " + ds[|ds| - 1]
  }

  function Rebuilt(s: string): string {
    Join(FixAll(Split(s)))
  }

  // ---- the rebuilding loop ----

  function Semis(s: string): nat {
    if s == [] then 0 else Semis(s[..|s| - 1]) + (if s[|s| - 1] == ';' then 1 else 0)
  }

  function Capacity(s: string): nat {
    |s| + (Semis(s) + 1) * 32 + 1
  }

  lemma {:induction false} SemisUpTo(s: string, i: nat, j: nat)
    requires i <= j <= |s|
    ensures Semis(s[..i]) <= Semis(s[..j])
    ensures i < j && s[j - 1] == ';' ==> Semis(s[..i]) + 1 <= Semis(s[..j])
  {
    if i < j {
      SemisUpTo(s, i, j - 1);
      assert s[..j][..j - 1] == s[..j - 1];
    }
  }

  lemma FixLength(d: string)
    requires d != ""
    ensures |Fix(d)| <= |d| + 15
  {
  }

  /** Counts the separators and adds room for the placeholder of every declaration. */
  method ComputeCapacity(s: string) returns (cap: nat)
    ensures cap == Capacity(s)
  {
    var seps := 1;
    for i := 0 to |s|
      invariant seps == 1 + Semis(s[..i])
    {
      assert s[..i + 1][..i] == s[..i];
      if s[i] == ';' {
        seps := seps + 1;
      }
    }
    assert s[..|s|] == s;
    cap := |s| + seps * 32 + 1;
  }

  /** Writes t and a NUL at `at`; the room for both is the caller's obligation. */
  method Put(buf: array<char>, at: nat, t: string)
    requires at + |t| < buf.Length
    modifies buf
    ensures buf[..at] == old(buf[..at]) && buf[at..at + |t|] == t && buf[at + |t|] == '\0'
  {
    for i := 0 to |t|
      invariant buf[..at] == old(buf[..at]) && buf[at..at + i] == t[..i]
    {
      buf[at + i] := t[i];
      assert buf[at..at + i + 1] == buf[at..at + i] + [t[i]];
    }
    buf[at + |t|] := '\0';
    assert buf[at..at + |t|] == t;
  }

  /** The end of the declaration that starts at i. */
  method FindEnd(s: string, i: nat) returns (e: nat)
    requires i <= |s|
    ensures e == i + Span(s[i..], 0)
  {
    var paren := 0;
    e := i;
    while e < |s| && (paren > 0 || s[e] != ';')
      invariant i <= e <= |s| && e + Span(s[e..], paren) == i + Span(s[i..], 0)
      decreases |s| - e
    {
      assert s[e..][1..] == s[e + 1..];
      if s[e] == '(' {
        paren := paren + 1;
      } else if s[e] == ')' {
        paren := paren - 1;
      }
      e := e + 1;
    }
  }

  /** Narrows s[a..b] to its trimmed part. */
  method TrimBounds(s: string, a: nat, b: nat) returns (l: nat, r: nat)
    requires a <= b <= |s|
    ensures a <= l <= r <= b && s[l..r] == Trim(s[a..b])
  {
    l, r := a, b;
    while l < r && IsSpace(s[l])
      invariant a <= l <= r == b && TrimLeft(s[l..r]) == TrimLeft(s[a..b])
    {
      assert s[l..r][1..] == s[l + 1..r];
      l := l + 1;
    }
    while l < r && IsSpace(s[r - 1])
      invariant a <= l <= r <= b && TrimRight(s[l..r]) == Trim(s[a..b])
    {
      assert s[l..r][..r - 1 - l] == s[l..r - 1];
      r := r - 1;
    }
  }

  lemma SplitUnfolds(s: string)
    requires s != ""
    ensures var e := Span(s, 0);
            Split(s) == NonEmpty(Trim(s[..e])) + (if e < |s| then Split(s[e + 1..]) else [])
  {
    hide Span, Trim, NonEmpty;
  }

  lemma SplitStep(s: string, i: nat)
    requires i < |s|
    ensures var e := i + Span(s[i..], 0);
            Split(s[i..]) == NonEmpty(Trim(s[i..e])) + (if e < |s| then Split(s[e + 1..]) else [])
  {
    hide Split, Span, Trim, NonEmpty;
    SplitUnfolds(s[i..]);
    var e := Span(s[i..], 0);
    assert s[i..][..e] == s[i..i + e];
    assert e < |s| - i ==> s[i..][e + 1..] == s[i + e + 1..];
  }

  lemma {:induction false} SpanSemi(s: string, paren: int)
    requires Span(s, paren) < |s|
    ensures s[Span(s, paren)] == ';' && Depth(s[..Span(s, paren)], paren) <= 0
  {
    if paren > 0 || s[0] != ';' {
      SpanSemi(s[1..], paren + Delta(s[0]));
      assert s[..Span(s, paren)][1..] == s[1..][..Span(s, paren) - 1];
    }
  }

  lemma FixAppend(ds: seq<string>, d: string)
    ensures FixAll(ds + [d]) == FixAll(ds) + [Fix(d)]
    ensures Join(FixAll(ds + [d])) == if ds == [] then Fix(d) else Join(FixAll(ds)) + "; " + Fix(d)
  {
    hide Fix;
    assert (ds + [d])[..|ds|] == ds;
    var r := FixAll(ds) + [Fix(d)];
    assert r[..|r| - 1] == FixAll(ds);
  }

  /**
   * Writes one declaration. The early break and the clamp in the loop of css_rebuild are the two
   * assertions: with room for the text, two bytes and the placeholder they are never taken.
   */
  method WriteOne(buf: array<char>, used: nat, first: bool, d: string) returns (end: nat)
    requires d != "" && used + 2 + |d| + 15 < buf.Length
    modifies buf
    ensures end == used + (if first then 0 else 2) + |Fix(d)| && end <= used + |d| + 17
    ensures buf[..end] == old(buf[..used]) + (if first then "" else "; ") + Fix(d)
  {
    hide Fix;
    end := used;
    ghost var was := buf[..used];
    if !first {
      assert used + 2 < buf.Length;
      Put(buf, used, "; ");
      end := used + 2;
      assert buf[..end] == buf[..used] + buf[used..end];
    } else {
      assert was + "" == was;
    }
    FixLength(d);
    var text := Fixed(d);
    var at := end;
    Put(buf, at, text);
    end := end + |text|;
    assert buf[..end] == buf[..at] + buf[at..end];
    assert end < buf.Length;
  }

  /**
   * Rebuilds the declarations into buf, whose size was computed from the number of separators. It is
   * never filled, and no write is cut short.
   */
  method Rebuild(s: string, buf: array<char>)
    requires buf.Length == Capacity(s)
    modifies buf
    ensures |Rebuilt(s)| < buf.Length && buf[..|Rebuilt(s)|] == Rebuilt(s) && buf[|Rebuilt(s)|] == '\0'
  {
    hide Fix, Trim, Span, Split, FixAll, Join, IsDone, NonEmpty;
    var used: nat, i: nat, first := 0, 0, true;
    ghost var done: seq<string> := [];
    NothingDone(s);
    assert buf[..0] == "";
    while i < |s|
      invariant i <= |s| && IsDone(s, i, done) && |done| <= 1 + Semis(s)
      invariant used <= i + 17 * |done| && first == (done == [])
      invariant used < buf.Length && buf[..used] == Join(FixAll(done))
      decreases |s| - i
    {
      ghost var i0 := i;
      var e := FindEnd(s, i);
      DoneStep(s, i, done);
      var l, r := TrimBounds(s, i, e);
      i := if e < |s| then e + 1 else e;
      var d := s[l..r];
      NonEmptyIs(done, d);
      if d == "" {
        continue;
      }
      used := WriteOne(buf, used, first, d);
      FixAppend(done, d);
      first := false;
      done := done + [d];
    }
    AllDone(s, i, done);
    buf[used] := '\0';
    assert buf[..used] == Rebuilt(s);
  }

  /** The declarations before i are done; each has used up a separator, except one at the end. */
  predicate IsDone(s: string, i: nat, done: seq<string>) {
    i <= |s| && Split(s) == done + Split(s[i..]) && |done| <= Semis(s[..i]) + (if i == |s| then 1 else 0)
  }

  lemma NothingDone(s: string)
    ensures IsDone(s, 0, []) && FixAll([]) == [] && Join([]) == ""
  {
    assert s[0..] == s;
  }

  lemma AllDone(s: string, i: nat, done: seq<string>)
    requires IsDone(s, i, done) && i == |s|
    ensures Split(s) == done
  {
    assert s[i..] == "" && Split("") == [];
  }

  lemma NonEmptyIs(done: seq<string>, d: string)
    ensures done + NonEmpty(d) == if d == "" then done else done + [d]
  {
  }

  lemma DoneStep(s: string, i: nat, done: seq<string>)
    requires IsDone(s, i, done) && i < |s|
    ensures var e := i + Span(s[i..], 0);
            i <= e <= |s| && |done| <= Semis(s) &&
            IsDone(s, if e < |s| then e + 1 else e, done + NonEmpty(Trim(s[i..e]))) &&
            |done + NonEmpty(Trim(s[i..e]))| <= 1 + Semis(s)
  {
    hide Trim, Split, Semis, Span;
    var e := i + Span(s[i..], 0);
    var d := NonEmpty(Trim(s[i..e]));
    SplitStep(s, i);
    NextStart(s, i);
    SemisUpTo(s, i, |s|);
    SemisUpTo(s, i, e);
    assert s[..|s|] == s;
    if e == |s| {
      assert s[e..] == "" && Split("") == [] by { NothingSplit(); }
      assert done + d + [] == done + d;
    } else {
      assert done + (d + Split(s[e + 1..])) == done + d + Split(s[e + 1..]);
    }
  }

  lemma NothingSplit()
    ensures Split("") == []
  {
  }

  /** Behind the declaration at i a separator is consumed, or the text ends. */
  lemma NextStart(s: string, i: nat)
    requires i < |s|
    ensures var e := i + Span(s[i..], 0);
            e <= |s| && (e < |s| ==> Semis(s[..i]) + 1 <= Semis(s[..e + 1])) && Semis(s[..i]) <= Semis(s[..e])
  {
    var e := i + Span(s[i..], 0);
    SemisUpTo(s, i, e);
    if e < |s| {
      SpanSemi(s[i..], 0);
      SemisUpTo(s, i, e + 1);
    }
  }

  method Fixed(d: string) returns (r: string)
    ensures r == Fix(d)
  {
    hide ValueUnsafe, PropValid;
    var c := 0;
    while c < |d| && d[c] != ':'
      invariant 0 <= c <= |d| && Colon(d) == c + Colon(d[c..])
    {
      assert d[c..][1..] == d[c + 1..];
      c := c + 1;
    }
    if c == |d| || !PropValid(d[..c]) {
      return PLACEHOLDER;
    }
    var unsafe := CheckValue(d[c + 1..]);
    if unsafe {
      return d[..c] + ":" + PLACEHOLDER;
    }
    return d;
  }

  method FindNoCase(s: string, needle: string) returns (found: bool)
    ensures found == ContainsNoCase(s, needle)
  {
    var i := 0;
    while i + |needle| <= |s|
      invariant 0 <= i <= |s| + 1
      invariant forall k :: 0 <= k < i ==> !StartsNoCase(s, k, needle)
    {
      if StartsNoCase(s, i, needle) {
        return true;
      }
      i := i + 1;
    }
    return false;
  }

  method CheckValue(v: string) returns (unsafe: bool)
    ensures unsafe == ValueUnsafe(v)
  {
    hide ContainsNoCase, UrlUnsafe;
    for i := 0 to |v|
      invariant forall k :: 0 <= k < i ==> !ControlChar(v[k])
    {
      if ControlChar(v[i]) {
        return true;
      }
    }
    for k := 0 to |SCRIPTS|
      invariant forall j :: 0 <= j < k ==> !ContainsNoCase(v, SCRIPTS[j])
    {
      var found := FindNoCase(v, SCRIPTS[k]);
      if found {
        return true;
      }
    }
    unsafe := CheckUrls(v);
  }

  lemma UrlStep(v: string, p: nat)
    requires p <= |v|
    ensures var u := NextUrl(v, p);
            u + 4 <= |v| || u == |v|
    ensures var u := NextUrl(v, p);
            UrlUnsafe(v, p) == (u < |v| && (var e := NextClose(v, u + 4);
                                            e == |v| || !UrlAllowed(v[u + 4..e]) || UrlUnsafe(v, e + 1)))
  {
  }

  method CheckUrls(v: string) returns (unsafe: bool)
    ensures unsafe == UrlUnsafe(v, 0)
  {
    hide StartsNoCase, UrlAllowed, UrlUnsafe;
    var i := 0;
    while true
      invariant 0 <= i <= |v| && UrlUnsafe(v, i) == UrlUnsafe(v, 0)
      decreases |v| - i
    {
      UrlStep(v, i);
      var u := i;
      while u < |v| && !StartsNoCase(v, u, "url(")
        invariant i <= u <= |v| && NextUrl(v, u) == NextUrl(v, i)
      {
        u := u + 1;
      }
      if u == |v| {
        return false;
      }
      var e := u + 4;
      while e < |v| && v[e] != ')'
        invariant u + 4 <= e <= |v| && NextClose(v, e) == NextClose(v, u + 4)
      {
        e := e + 1;
      }
      if e >= |v| || !UrlAllowed(v[u + 4..e]) {
        return true;
      }
      i := e + 1;
    }
  }

  // ---- splitting the result again ----

  /** What splitting yields: trimmed, not empty, no separator outside parentheses. */
  predicate IsPiece(d: string) {
    d != "" && !IsSpace(d[0]) && !IsSpace(d[|d| - 1]) && Span(d, 0) == |d|
  }

  /** Only the last piece can leave a parenthesis open. */
  predicate ArePieces(ds: seq<string>) {
    forall i :: 0 <= i < |ds| ==> IsPiece(ds[i]) && (i + 1 < |ds| ==> Depth(ds[i], 0) <= 0)
  }

  lemma {:induction false} DepthAppend(a: string, b: string, paren: int)
    ensures Depth(a + b, paren) == Depth(b, Depth(a, paren))
  {
    if a == [] {
      assert a + b == b;
    } else {
      DepthAppend(a[1..], b, paren + Delta(a[0]));
      assert (a + b)[1..] == a[1..] + b;
    }
  }

  /** The prefix of a span is a span, and a span ends where a separator follows at depth 0. */
  lemma {:induction false} SpanPrefix(a: string, b: string, paren: int)
    requires Span(a + b, paren) >= |a|
    ensures Span(a, paren) == |a|
  {
    if a != [] {
      assert (a + b)[1..] == a[1..] + b;
      SpanPrefix(a[1..], b, paren + Delta(a[0]));
    }
  }

  lemma {:induction false} SpanStops(a: string, b: string, paren: int)
    requires Span(a, paren) == |a| && Depth(a, paren) <= 0
    ensures Span(a + ";" + b, paren) == |a|
  {
    var t := a + ";" + b;
    if a == [] {
      assert t == ";" + b;
    } else {
      SpanStops(a[1..], b, paren + Delta(a[0]));
      assert t[1..] == a[1..] + ";" + b;
    }
  }

  lemma {:induction false} TrimLeftPiece(s: string, paren: int)
    requires Span(s, paren) == |s|
    ensures Span(TrimLeft(s), paren) == |TrimLeft(s)| && Depth(TrimLeft(s), paren) == Depth(s, paren)
    ensures TrimLeft(s) != "" ==> !IsSpace(TrimLeft(s)[0])
  {
    if s != [] && IsSpace(s[0]) {
      TrimLeftPiece(s[1..], paren);
    }
  }

  lemma {:induction false} TrimRightPiece(s: string, paren: int)
    requires Span(s, paren) == |s|
    ensures Span(TrimRight(s), paren) == |TrimRight(s)| && Depth(TrimRight(s), paren) == Depth(s, paren)
    ensures TrimRight(s) != "" ==> !IsSpace(TrimRight(s)[|TrimRight(s)| - 1]) && TrimRight(s)[0] == s[0]
    decreases |s|
  {
    if s != [] && IsSpace(s[|s| - 1]) {
      var init := s[..|s| - 1];
      assert s == init + [s[|s| - 1]];
      SpanPrefix(init, [s[|s| - 1]], paren);
      DepthAppend(init, [s[|s| - 1]], paren);
      assert Depth([s[|s| - 1]], Depth(init, paren)) == Depth([], Depth(init, paren));
      TrimRightPiece(init, paren);
    }
  }

  lemma TrimmedPiece(s: string)
    requires Span(s, 0) == |s|
    ensures Depth(Trim(s), 0) == Depth(s, 0) && (Trim(s) != "" ==> IsPiece(Trim(s)))
  {
    TrimLeftPiece(s, 0);
    TrimRightPiece(TrimLeft(s), 0);
  }

  lemma {:induction false} SplitIntoPieces(s: string)
    ensures ArePieces(Split(s))
    decreases |s|
  {
    hide Span, Depth, Trim;
    if s != [] {
      var e := Span(s, 0);
      assert s[..e] + s[e..] == s;
      SpanPrefix(s[..e], s[e..], 0);
      TrimmedPiece(s[..e]);
      if e < |s| {
        SpanSemi(s, 0);
        SplitIntoPieces(s[e + 1..]);
      }
    }
  }

  lemma Shift(a: string, j: string, l: string)
    ensures (a + ";" + (" " + j)) + "; " + l == a + ";" + (" " + (j + "; " + l))
  {
  }

  lemma ShiftOne(a: string, l: string)
    ensures a + "; " + l == a + ";" + (" " + l)
  {
  }

  lemma Middle(ds: seq<string>)
    requires |ds| > 2
    ensures var init := ds[..|ds| - 1];
            ds[1..][|ds| - 2] == ds[|ds| - 1] && ds[1..][..|ds| - 2] == init[1..] && init[0] == ds[0]
  {
  }

  lemma JoinFront(ds: seq<string>)
    requires |ds| >= 2
    ensures Join(ds) == ds[0] + ";" + (" " + Join(ds[1..]))
  {
    var init, last := ds[..|ds| - 1], ds[|ds| - 1];
    JoinLast(ds);
    if |ds| == 2 {
      assert init == [ds[0]] && ds[1..] == [last];
      JoinOne(ds[0]);
      JoinOne(last);
      ShiftOne(ds[0], last);
    } else {
      hide Join;
      JoinFront(init);
      JoinLast(ds[1..]);
      Middle(ds);
      Shift(ds[0], Join(init[1..]), last);
    }
  }

  lemma JoinOne(d: string)
    ensures Join([d]) == d
  {
  }

  lemma JoinLast(ds: seq<string>)
    requires |ds| >= 2
    ensures Join(ds) == Join(ds[..|ds| - 1]) + "; " + ds[|ds| - 1]
  {
  }

  lemma SplitLeadingSpace(s: string)
    ensures Split(" " + s) == Split(s)
  {
    hide Trim;
    var t := " " + s;
    assert t[1..] == s;
    var e := Span(s, 0);
    assert Span(t, 0) == e + 1;
    assert t[..e + 1][1..] == s[..e] && IsSpace(t[..e + 1][0]);
    assert Trim(t[..e + 1]) == Trim(s[..e]) by { TrimSkips(t[..e + 1]); }
    if s == [] {
      assert t[..1] == " " && s[..0] == "";
      TrimNothing();
    } else if e < |s| {
      assert t[e + 2..] == s[e + 1..];
    }
  }

  lemma TrimSkips(s: string)
    requires s != "" && IsSpace(s[0])
    ensures Trim(s) == Trim(s[1..])
  {
  }

  lemma TrimNothing()
    ensures Trim("") == ""
  {
  }

  lemma TrimKeeps(d: string)
    requires d != "" && !IsSpace(d[0]) && !IsSpace(d[|d| - 1])
    ensures Trim(d) == d
  {
  }

  /** Joining pieces and splitting again gives the same pieces. */
  lemma {:induction false} SplitUndoesJoin(ds: seq<string>)
    requires ArePieces(ds)
    ensures Split(Join(ds)) == ds
    decreases |ds|
  {
    hide Trim, Span, Depth, Split, Join;
    if |ds| == 0 {
      NothingJoined();
    } else if |ds| == 1 {
      assert ds == [ds[0]];
      JoinOne(ds[0]);
      SplitPiece(ds[0]);
    } else {
      var d, rest := ds[0], ds[1..];
      JoinFront(ds);
      SplitUndoesJoin(rest);
      SplitFront(d, Join(rest));
      assert ds == [d] + rest;
    }
  }

  lemma NothingJoined()
    ensures Split(Join([])) == []
  {
  }

  lemma SplitPiece(d: string)
    requires IsPiece(d)
    ensures Split(d) == [d]
  {
    hide Trim, Span, Split;
    SplitUnfolds(d);
    TrimKeeps(d);
    assert d[..|d|] == d;
  }

  /** A piece, a separator and more text. */
  lemma SplitFront(d: string, more: string)
    requires IsPiece(d) && Depth(d, 0) <= 0
    ensures Split(d + ";" + (" " + more)) == [d] + Split(more)
  {
    hide Trim, Span, Depth, Split;
    var t := d + ";" + (" " + more);
    SplitUnfolds(t);
    SpanStops(d, " " + more, 0);
    TrimKeeps(d);
    assert t[..|d|] == d && t[|d| + 1..] == " " + more;
    SplitLeadingSpace(more);
  }

  // ---- the result is safe and stable ----

  predicate IsSafe(d: string) {
    d == PLACEHOLDER || (Colon(d) < |d| && PropValid(d[..Colon(d)]) && !ValueUnsafe(d[Colon(d) + 1..]))
  }

  lemma {:induction false} NoMatchWithout(v: string, p: nat, prefix: string, k: nat)
    requires k < |prefix| && !('a' <= prefix[k] <= 'z') && prefix[k] !in v
    ensures !StartsNoCase(v, p, prefix)
  {
    assert p + |prefix| <= |v| ==> Lower(v[p..p + |prefix|])[k] == LowerChar(v[p + k]) && v[p + k] in v;
  }

  lemma {:induction false} NoUrl(v: string, p: nat)
    requires '(' !in v && p <= |v|
    ensures !UrlUnsafe(v, p)
  {
    if NextUrl(v, p) < |v| {
      NoMatchWithout(v, NextUrl(v, p), "url(", 3);
    }
  }

  predicate Letters(v: string) {
    forall i :: 0 <= i < |v| ==> IsAlpha(v[i])
  }

  lemma PlaceholderIsLetters()
    ensures PLACEHOLDER != "" && Letters(PLACEHOLDER) && ':' !in PLACEHOLDER
  {
  }

  lemma LettersAreSafe(v: string)
    requires Letters(v)
    ensures !ValueUnsafe(v)
  {
    hide StartsNoCase;
    assert ':' !in v && '(' !in v && '@' !in v;
    forall k, p | 0 <= k < |SCRIPTS| && 0 <= p <= |v| ensures !StartsNoCase(v, p, SCRIPTS[k]) {
      var at := if k == 0 then 10 else if k == 1 then 8 else if k == 2 then 10 else if k == 3 then 8 else 0;
      assert SCRIPTS[k][at] == ':' || SCRIPTS[k][at] == '(' || SCRIPTS[k][at] == '@';
      NoMatchWithout(v, p, SCRIPTS[k], at);
    }
    NoUrl(v, 0);
  }

  lemma {:induction false} ColonSplits(p: string, v: string)
    requires ':' !in p
    ensures Colon(p + ":" + v) == |p|
  {
    var t := p + ":" + v;
    if p != [] {
      assert p == [p[0]] + p[1..];
      ColonSplits(p[1..], v);
      assert t[1..] == p[1..] + ":" + v;
    }
  }

  /** Replacing is final: a fixed declaration is safe, and fixing it again changes nothing. */
  lemma FixIsFinal(d: string)
    ensures IsSafe(Fix(d)) && Fix(Fix(d)) == Fix(d)
  {
    hide ValueUnsafe, PropValid, IsSafe, Colon;
    PlaceholderIsFixed();
    var c, p := Colon(d), PLACEHOLDER;
    if c == |d| || !PropValid(d[..c]) {
      assert Fix(d) == p;
    } else if ValueUnsafe(d[c + 1..]) {
      ColonSplits(d[..c], p);
      ReplacedIsFinal(d[..c], p);
    } else {
      FixedAsIs(d);
    }
  }

  lemma FixedAsIs(d: string)
    requires Colon(d) < |d| && PropValid(d[..Colon(d)]) && !ValueUnsafe(d[Colon(d) + 1..])
    ensures IsSafe(d)
  {
  }

  lemma PlaceholderIsFixed()
    ensures Fix(PLACEHOLDER) == PLACEHOLDER && IsSafe(PLACEHOLDER) && !ValueUnsafe(PLACEHOLDER)
  {
    hide ValueUnsafe, PropValid, Letters, Colon;
    PlaceholderIsLetters();
    LettersAreSafe(PLACEHOLDER);
    NoColon(PLACEHOLDER);
  }

  lemma ReplacedIsFinal(prop: string, v: string)
    requires PropValid(prop) && !ValueUnsafe(v) && Colon(prop + ":" + v) == |prop|
    ensures IsSafe(prop + ":" + v) && Fix(prop + ":" + v) == prop + ":" + v
  {
    hide ValueUnsafe, PropValid, Colon;
    var f := prop + ":" + v;
    assert f[..|prop|] == prop && f[|prop| + 1..] == v;
  }

  lemma {:induction false} NoColon(d: string)
    requires ':' !in d
    ensures Colon(d) == |d|
  {
    if d != [] {
      NoColon(d[1..]);
    }
  }

  lemma {:induction false} SpanOfPlain(d: string, paren: int)
    requires forall i :: 0 <= i < |d| ==> d[i] != ';' && d[i] != '(' && d[i] != ')'
    ensures Span(d, paren) == |d| && Depth(d, paren) == paren
  {
    if d != [] {
      SpanOfPlain(d[1..], paren);
    }
  }

  lemma FixKeepsPiece(d: string)
    requires IsPiece(d)
    ensures IsPiece(Fix(d)) && (Depth(d, 0) <= 0 ==> Depth(Fix(d), 0) <= 0)
  {
    hide ValueUnsafe, Span, Depth;
    PlaceholderIsLetters();
    var p := PLACEHOLDER;
    var c := Colon(d);
    if c == |d| || !PropValid(d[..c]) {
      SpanOfPlain(p, 0);
    } else if ValueUnsafe(d[c + 1..]) {
      var f := d[..c] + ":" + p;
      forall i | 0 <= i < |f| ensures f[i] != ';' && f[i] != '(' && f[i] != ')' {
        assert f[i] == (if i < c then d[..c][i] else if i == c then ':' else p[i - c - 1]);
      }
      SpanOfPlain(f, 0);
    }
  }

  /** Every declaration of the result is safe, and splitting the result gives the fixed declarations. */
  lemma RebuiltIsSafe(s: string)
    ensures Split(Rebuilt(s)) == FixAll(Split(s))
    ensures forall i :: 0 <= i < |Split(Rebuilt(s))| ==> IsSafe(Split(Rebuilt(s))[i])
  {
    hide Fix, IsPiece, IsSafe, Split, Join;
    var ds := Split(s);
    SplitIntoPieces(s);
    forall i | 0 <= i < |ds| ensures IsPiece(Fix(ds[i])) && (Depth(ds[i], 0) <= 0 ==> Depth(Fix(ds[i]), 0) <= 0) &&
                                     IsSafe(Fix(ds[i])) {
      FixKeepsPiece(ds[i]);
      FixIsFinal(ds[i]);
    }
    SplitUndoesJoin(FixAll(ds));
  }

  /** Rebuilding is idempotent. */
  lemma RebuildTwice(s: string)
    ensures Rebuilt(Rebuilt(s)) == Rebuilt(s)
  {
    hide Fix, Split, Join;
    RebuiltIsSafe(s);
    var ds := FixAll(Split(s));
    forall i | 0 <= i < |ds| ensures Fix(ds[i]) == ds[i] {
      FixIsFinal(Split(s)[i]);
    }
    assert FixAll(ds) == ds;
  }
}
