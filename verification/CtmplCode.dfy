/**
 * C texts as a template embeds them: brackets, literals and comments nest, and the end of such a text
 * is found whatever its literals and comments hold.
 */
module CtmplCode {
  import opened Sequences
  import opened Chars
  import opened CtmplScan

  datatype QuotedChar = AsIs(c: char) | Escaped(c: char)

  datatype CText =
    | Nothing
    | Char(c: char, rest: CText)
    | Group(open: char, inner: CText, rest: CText)
    | Quoted(quote: char, body: seq<QuotedChar>, rest: CText)
    | LineComment(text: string, rest: CText)
    | BlockComment(text: string, rest: CText)

  function Closing(open: char): char {
    if open == '(' then ')' else if open == '[' then ']' else '}'
  }

  function PrintBody(qs: seq<QuotedChar>): string {
    if qs == [] then "" else (if qs[0].AsIs? then [qs[0].c] else ['\\', qs[0].c]) + PrintBody(qs[1..])
  }

  function Print(t: CText): string {
    match t
    case Nothing => ""
    case Char(c, rest) => [c] + Print(rest)
    case Group(open, inner, rest) => [open] + (Print(inner) + ([Closing(open)] + Print(rest)))
    case Quoted(quote, body, rest) => [quote] + (PrintBody(body) + ([quote] + Print(rest)))
    case LineComment(text, rest) => "//" + (text + ("\n" + Print(rest)))
    case BlockComment(text, rest) => "/*" + (text + ("*/" + Print(rest)))
  }

  /** Brackets and quotes stand in pairs, comments end, and a slash that begins no comment is told apart. */
  predicate Proper(t: CText) {
    match t
    case Nothing => true
    case Char(c, rest) =>
      c !in {'(', ')', '[', ']', '{', '}', '"', '\''} && (c == '/' ==> !BeginsComment(Print(rest))) && Proper(rest)
    case Group(open, inner, rest) => open in {'(', '[', '{'} && Proper(inner) && Proper(rest)
    case Quoted(quote, body, rest) => quote in {'"', '\''} && ProperBody(quote, body) && Proper(rest)
    case LineComment(text, rest) => '\n' !in text && Proper(rest)
    case BlockComment(text, rest) =>
      (forall i :: 0 <= i < |text| ==> !(text[i] == '*' && CharAt(text + "*/", i + 1) == '/')) && Proper(rest)
  }

  /** Behind a slash: another slash or a star. */
  predicate BeginsComment(s: string) {
    s != "" && (s[0] == '/' || s[0] == '*')
  }

  predicate ProperBody(quote: char, qs: seq<QuotedChar>) {
    forall i :: 0 <= i < |qs| && qs[i].AsIs? ==> qs[i].c != quote && qs[i].c != '\\'
  }

  /** No comma stands outside brackets and literals. */
  predicate Flat(t: CText) {
    match t
    case Nothing => true
    case Char(c, rest) => c != ',' && Flat(rest)
    case _ => Flat(t.rest)
  }

  predicate NoComments(t: CText) {
    match t
    case Nothing => true
    case Char(_, rest) => NoComments(rest)
    case Group(_, inner, rest) => NoComments(inner) && NoComments(rest)
    case Quoted(_, _, rest) => NoComments(rest)
    case _ => false
  }

  /** No curly bracket outside round ones. */
  predicate NoCurly(t: CText) {
    match t
    case Nothing => true
    case Group(open, inner, rest) => open != '{' && (open == '[' ==> NoCurly(inner)) && NoCurly(rest)
    case _ => NoCurly(t.rest)
  }

  // ---- skipping literals and comments ----

  lemma {:induction false} BodyEnd(s: string, p: nat, quote: char, qs: seq<QuotedChar>)
    requires quote in {'"', '\''} && ProperBody(quote, qs) && StartsAt(s, p, PrintBody(qs) + [quote])
    ensures QuoteEnd(s, p, quote) == p + |PrintBody(qs)|
    decreases |qs|
  {
    if qs == [] {
      CharHere(s, p, quote);
    } else {
      var one := if qs[0].AsIs? then [qs[0].c] else ['\\', qs[0].c];
      assert PrintBody(qs) + [quote] == one + (PrintBody(qs[1..]) + [quote]);
      StartsBoth(s, p, one, PrintBody(qs[1..]) + [quote]);
      assert s[p] == s[p..p + |one|][0];
      assert ProperBody(quote, qs[1..]);
      BodyEnd(s, p + |one|, quote, qs[1..]);
    }
  }

  lemma {:induction false} LineCommentEnd(s: string, p: nat, n: nat)
    requires p + n < |s| && s[p + n] == '\n' && forall i :: p <= i < p + n ==> s[i] != '\n'
    ensures LineEnd(s, p) == p + n
    decreases n
  {
    if n > 0 {
      LineCommentEnd(s, p + 1, n - 1);
    }
  }

  lemma {:induction false} BlockCommentEnd(s: string, p: nat, n: nat)
    requires p + n + 1 < |s| && s[p + n] == '*' && s[p + n + 1] == '/'
    requires forall i :: p <= i < p + n ==> !(s[i] == '*' && s[i + 1] == '/')
    ensures CommentEnd(s, p) == p + n
    decreases n
  {
    if n > 0 {
      BlockCommentEnd(s, p + 1, n - 1);
    }
  }

  lemma QuotedSkips(s: string, p: nat, quote: char, qs: seq<QuotedChar>)
    requires quote in {'"', '\''} && ProperBody(quote, qs) && StartsAt(s, p, [quote] + (PrintBody(qs) + [quote]))
    ensures p < |s| && SkipAt(s, p) == SkipTo(p + |PrintBody(qs)| + 2)
  {
    StartsBoth(s, p, [quote], PrintBody(qs) + [quote]);
    CharHere(s, p, quote);
    BodyEnd(s, p + 1, quote, qs);
  }

  lemma LineSkips(s: string, p: nat, text: string)
    requires '\n' !in text && StartsAt(s, p, "//" + (text + "\n"))
    ensures p < |s| && SkipAt(s, p) == SkipTo(p + 2 + |text|) && s[p + 2 + |text|] == '\n'
  {
    var t := "//" + (text + "\n");
    forall i | 0 <= i < |t| ensures s[p + i] == t[i] {
      assert s[p + i] == s[p..p + |t|][i];
    }
    LineCommentEnd(s, p, 2 + |text|);
  }

  lemma BlockSkips(s: string, p: nat, text: string)
    requires StartsAt(s, p, "/*" + (text + "*/"))
    requires forall i :: 0 <= i < |text| ==> !(text[i] == '*' && CharAt(text + "*/", i + 1) == '/')
    ensures p < |s| && SkipAt(s, p) == SkipTo(p + |text| + 4)
  {
    var t := "/*" + (text + "*/");
    forall i | 0 <= i < |t| ensures s[p + i] == t[i] {
      assert s[p + i] == s[p..p + |t|][i];
    }
    forall i | p + 2 <= i < p + 2 + |text|
      ensures !(s[i] == '*' && s[i + 1] == '/')
    {
      assert t[i + 1 - p] == (text + "*/")[i + 1 - p - 2];
    }
    BlockCommentEnd(s, p + 2, |text|);
  }

  // ---- scanning over a text ----

  /** The depth at which a text is scanned: in "to the brace" mode curly brackets must stand inside round ones. */
  predicate Fits(t: CText, depth: nat, mode: Mode) {
    if mode == ToBrace then depth == 0 ==> NoCurly(t) else depth >= 1
  }

  lemma OneChar(s: string, p: nat, depth: nat, mode: Mode)
    requires p < |s| && (mode != ToBrace ==> depth >= 1)
    requires s[p] !in {'(', ')', '{', '}', '"', '\''} && (s[p] == '/' ==> CharAt(s, p + 1) !in {'/', '*'})
    ensures Scan(s, p, depth, mode) == Scan(s, p + 1, depth, mode)
  {
  }

  lemma Opens(s: string, p: nat, depth: nat, mode: Mode)
    requires p < |s| && s[p] in {'(', '{'} && (mode == ToBrace && depth == 0 ==> s[p] == '(')
    ensures Scan(s, p, depth, mode) == Scan(s, p + 1, depth + 1, mode)
  {
  }

  lemma Closes(s: string, p: nat, depth: nat, mode: Mode)
    requires p < |s| && s[p] in {')', '}'} && depth >= (if mode == ToBrace then 1 else 2)
    ensures Scan(s, p, depth, mode) == Scan(s, p + 1, depth - 1, mode)
  {
  }

  lemma Skips(s: string, p: nat, next: nat, depth: nat, mode: Mode)
    requires p < |s| && SkipAt(s, p) == SkipTo(next)
    ensures next <= |s| && Scan(s, p, depth, mode) == Scan(s, next, depth, mode)
  {
  }

  /** The first character, group, literal or comment. */
  function Head(t: CText): string
    requires !t.Nothing?
  {
    match t
    case Char(c, _) => [c]
    case Group(open, inner, _) => [open] + (Print(inner) + [Closing(open)])
    case Quoted(quote, body, _) => [quote] + (PrintBody(body) + [quote])
    case LineComment(text, _) => "//" + (text + "\n")
    case BlockComment(text, _) => "/*" + (text + "*/")
  }

  lemma HeadFirst(t: CText)
    requires !t.Nothing?
    ensures Print(t) == Head(t) + Print(t.rest)
  {
    match t
    case Char(_, _) =>
    case Group(open, inner, rest) => Regroup([open] + Print(inner), [Closing(open)], Print(rest));
    case Quoted(quote, body, rest) => Regroup([quote] + PrintBody(body), [quote], Print(rest));
    case LineComment(text, rest) => Regroup("//" + text, "\n", Print(rest));
    case BlockComment(text, rest) => Regroup("/*" + text, "*/", Print(rest));
  }

  /** The scan passes over a text and comes out at the same depth. */
  lemma {:induction false} ScanPasses(t: CText, s: string, p: nat, depth: nat, mode: Mode)
    requires Proper(t) && Fits(t, depth, mode) && StartsAt(s, p, Print(t))
    requires CharAt(s, p + |Print(t)|) !in {'/', '*'}
    ensures p + |Print(t)| <= |s| && Scan(s, p, depth, mode) == Scan(s, p + |Print(t)|, depth, mode)
    decreases t, 1
  {
    hide *;
    if t.Nothing? {
      NothingPasses(t, s, p);
    } else {
      HeadFirst(t);
      FitsRest(t, depth, mode);
      StartsBoth(s, p, Head(t), Print(t.rest));
      SlashApart(t, s, p);
      HeadPasses(t, s, p, depth, mode);
      ScanPasses(t.rest, s, p + |Head(t)|, depth, mode);
    }
  }

  lemma NothingPasses(t: CText, s: string, p: nat)
    requires t.Nothing? && StartsAt(s, p, Print(t))
    ensures p <= |s| && |Print(t)| == 0
  {
  }

  lemma FitsRest(t: CText, depth: nat, mode: Mode)
    requires !t.Nothing? && Fits(t, depth, mode) && Proper(t)
    ensures Fits(t.rest, depth, mode) && Proper(t.rest)
  {
  }

  /** The character at the front of a text, or behind it. */
  lemma NextChar(s: string, p: nat, t: string)
    requires StartsAt(s, p, t)
    ensures CharAt(s, p) == if t == "" then CharAt(s, p + |t|) else t[0]
  {
    if t != "" {
      assert s[p] == s[p..p + |t|][0];
    }
  }

  lemma SlashApart(t: CText, s: string, p: nat)
    requires !t.Nothing? && Proper(t) && StartsAt(s, p + |Head(t)|, Print(t.rest))
    requires CharAt(s, p + |Head(t)| + |Print(t.rest)|) !in {'/', '*'}
    ensures t.Char? && t.c == '/' ==> CharAt(s, p + 1) !in {'/', '*'}
  {
    hide Print, StartsAt;
    if t.Char? {
      NextChar(s, p + 1, Print(t.rest));
    }
  }

  lemma {:induction false} HeadPasses(t: CText, s: string, p: nat, depth: nat, mode: Mode)
    requires !t.Nothing? && Proper(t) && Fits(t, depth, mode) && StartsAt(s, p, Head(t))
    requires t.Char? && t.c == '/' ==> CharAt(s, p + 1) !in {'/', '*'}
    ensures p + |Head(t)| <= |s| && Scan(s, p, depth, mode) == Scan(s, p + |Head(t)|, depth, mode)
    decreases t, 0
  {
    hide Scan, SkipAt;
    match t
    case Char(c, _) =>
      CharHere(s, p, c);
      OneChar(s, p, depth, mode);
    case Group(_, _, _) => GroupPasses(t, s, p, depth, mode);
    case Quoted(quote, body, _) =>
      QuotedSkips(s, p, quote, body);
      Skips(s, p, p + |Head(t)|, depth, mode);
    case LineComment(text, _) =>
      LineSkips(s, p, text);
      Skips(s, p, p + |Head(t)| - 1, depth, mode);
      OneChar(s, p + |Head(t)| - 1, depth, mode);
    case BlockComment(text, _) =>
      BlockSkips(s, p, text);
      Skips(s, p, p + |Head(t)|, depth, mode);
  }

  lemma {:induction false} GroupPasses(t: CText, s: string, p: nat, depth: nat, mode: Mode)
    requires t.Group? && Proper(t) && Fits(t, depth, mode) && StartsAt(s, p, Head(t))
    ensures p + |Head(t)| <= |s| && Scan(s, p, depth, mode) == Scan(s, p + |Head(t)|, depth, mode)
    decreases t.inner, 2
  {
    hide Scan, SkipAt, StartsAt, Print;
    var open, close := t.open, Closing(t.open);
    var q := p + 1 + |Print(t.inner)|;
    StartsBoth(s, p, [open], Print(t.inner) + [close]);
    CharHere(s, p, open);
    StartsBoth(s, p + 1, Print(t.inner), [close]);
    CharHere(s, q, close);
    if open == '[' {
      OneChar(s, p, depth, mode);
      ScanPasses(t.inner, s, p + 1, depth, mode);
      OneChar(s, q, depth, mode);
    } else {
      Opens(s, p, depth, mode);
      ScanPasses(t.inner, s, p + 1, depth + 1, mode);
      Closes(s, q, depth + 1, mode);
    }
  }

  /** For every such text: its end is found in front of the brace or parenthesis that closes or follows it. */
  lemma ScanFinds(t: CText, s: string, p: nat, mode: Mode)
    requires Proper(t) && (mode == ToBrace ==> NoCurly(t))
    requires StartsAt(s, p, Print(t) + [if mode == ToBrace then '{' else if mode == MatchParen then ')' else '}'])
    ensures p <= |s| && Scan(s, p, if mode == ToBrace then 0 else 1, mode) == Found(p + |Print(t)|)
  {
    var c := if mode == ToBrace then '{' else if mode == MatchParen then ')' else '}';
    StartsBoth(s, p, Print(t), [c]);
    CharHere(s, p + |Print(t)|, c);
    ScanPasses(t, s, p, if mode == ToBrace then 0 else 1, mode);
    hide Print, Proper;
  }
}
