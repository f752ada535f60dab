/**
 * What the parser makes of a source, as functions: each takes a position and the open tags and
 * gives the syntax that stands there, where it ends and the tags open behind it, or None where the
 * parser reports an error. They branch as the parser does and look as far ahead as it does.
 */
module CtmplGrammar {
  import opened Wrappers
  import opened Chars
  import opened CtmplAst
  import opened CtmplScan
  import opened CtmplTag
  import opened CtmplReading
  import opened CtmplSyntax

  // ---- searching ----

  /** The first place from p on where `pat` stands, or the end. */
  function FindAt(s: string, p: nat, pat: string): (r: nat)
    requires p <= |s|
    ensures p <= r <= |s|
    ensures r < |s| ==> StartsAt(s, r, pat)
    ensures forall i :: p <= i < r ==> !StartsAt(s, i, pat)
    decreases |s| - p
  {
    if p == |s| || StartsAt(s, p, pat) then p else FindAt(s, p + 1, pat)
  }

  /** The first special character from p on, or the end. */
  function TextEnd(s: string, p: nat): (r: nat)
    requires p <= |s|
    ensures p <= r <= |s|
    ensures r < |s| ==> Special(s[r])
    ensures forall i :: p <= i < r ==> !Special(s[i])
    decreases |s| - p
  {
    if p == |s| || Special(s[p]) then p else TextEnd(s, p + 1)
  }

  function IdentEnd(s: string, p: nat): (r: nat)
    requires p <= |s|
    ensures p <= r <= |s|
    ensures r < |s| ==> !IsIdentChar(s[r])
    ensures forall i :: p <= i < r ==> IsIdentChar(s[i])
    decreases |s| - p
  {
    if p < |s| && IsIdentChar(s[p]) then IdentEnd(s, p + 1) else p
  }

  /** The first closing tag of the name from p on, or the end. */
  function RawEnd(s: string, p: nat, name: string): (r: nat)
    requires p <= |s|
    ensures p <= r <= |s|
    ensures r < |s| ==> CloserAt(s, r, name)
    ensures forall i :: p <= i < r ==> !CloserAt(s, i, name)
    decreases |s| - p
  {
    if p == |s| || CloserAt(s, p, name) then p else RawEnd(s, p + 1, name)
  }

  // ---- expressions ----

  /** Behind the braces of the expression at p; "children..." stands in bodies only. */
  function InterpAt(s: string, p: nat, inBody: bool): (r: Option<nat>)
    requires p < |s|
    ensures r.Some? ==> p + 2 <= r.value <= |s| && s[r.value - 1] == '}'
  {
    match Scan(s, p + 1, 1, MatchBrace)
    case Fails(_) => None
    case Found(e) =>
      var t := Trim(s[p + 1..e]);
      if t == "" || (t == "children..." && !inBody) then None else Some(e + 1)
  }

  /** The context of the attribute whose name is s[from..to]; a length below zero counts as huge. */
  function ClassifyAt(s: string, from: nat, to: nat): Option<Context>
    requires from <= |s| && to <= |s|
  {
    if from <= to then AttrContext(s[from..to])
    else if StartsNoCase(s, from, "on") || StartsNoCase(s, from, "hx-on:") then None
    else Some(InAttr)
  }

  lemma ClassifySeen(s: string, from: nat, to: nat, ctx: Context)
    requires from <= |s| && to <= |s| && ClassifyAt(s, from, to) == Some(ctx)
    ensures if from <= to then AttrContext(s[from..to]) == Some(ctx) else ctx == InAttr
  {
    hide AttrContext;
  }

  /** Behind the "?=" at p: the braces of a condition that is not empty. */
  function FlagAt(s: string, p: nat): (r: Option<nat>)
    ensures r.Some? ==> p + 4 <= r.value <= |s| && s[p + 2] == '{' && s[r.value - 1] == '}'
  {
    if CharAt(s, p + 2) != '{' || p + 3 > |s| then None else
    match Scan(s, p + 3, 1, MatchBrace)
    case Fails(_) => None
    case Found(e) => if Trim(s[p + 3..e]) == "" then None else Some(e + 1)
  }

  // ---- open tags ----

  datatype Attrs = Attrs(parts: seq<Part>, rest: string, end: nat)

  /** The attribute loop: s[flush..pos] is pending, `parts` are done. */
  function AttrsAt(s: string, tag: nat, parts: seq<Part>, flush: nat, pos: nat, quote: char, from: nat, to: nat)
    : (r: Option<Attrs>)
    requires tag <= flush <= pos <= |s| && from <= |s| && to <= |s|
    ensures r.Some? ==> pos < r.value.end <= |s|
    decreases |s| - pos
  {
    if pos >= |s| then None
    else if s[pos] == '{' then
      if quote == '\0' && !(pos > tag && s[pos - 1] == '=' && from < pos - 1) then None else
      match ClassifyAt(s, from, to)
      case None => None
      case Some(ctx) =>
        match InterpAt(s, pos, false)
        case None => None
        case Some(e) =>
          var p := if quote != '\0' then Value(s[pos + 1..e - 1], ctx) else Unquoted(s[pos + 1..e - 1], ctx);
          AttrsAt(s, tag, parts + [Plain(s[flush..pos]), p], e, e, quote, from, to)
    else if quote == '\0' && s[pos] == '?' && CharAt(s, pos + 1) == '=' then
      if from >= pos || from < flush then None else
      match FlagAt(s, pos)
      case None => None
      case Some(e) =>
        AttrsAt(s, tag, parts + [Plain(s[flush..from]), Flag(s[from..pos], s[pos + 3..e - 1])], e, e, '\0', e, to)
    else if quote == '\0' && s[pos] == '>' then Some(Attrs(parts, s[flush..pos], pos + 1))
    else
      AttrsAt(s, tag, parts, flush, pos + 1, NextQuote(quote, s[pos]), NextFrom(s, pos, quote, from),
              NextTo(pos, quote, s[pos], to))
  }

  /** Where the attribute loop ends. */
  lemma AttrsStop(s: string, tag: nat, parts: seq<Part>, flush: nat, pos: nat, quote: char, from: nat, to: nat)
    requires tag <= flush <= pos <= |s| && from <= |s| && to <= |s|
    ensures pos == |s| ==> AttrsAt(s, tag, parts, flush, pos, quote, from, to) == None
    ensures pos < |s| && s[pos] == '{' && quote == '\0' && !(pos > tag && s[pos - 1] == '=' && from < pos - 1) ==>
              AttrsAt(s, tag, parts, flush, pos, quote, from, to) == None
    ensures pos < |s| && s[pos] == '>' && quote == '\0' ==>
              AttrsAt(s, tag, parts, flush, pos, quote, from, to) == Some(Attrs(parts, s[flush..pos], pos + 1))
  {
    hide ClassifyAt, InterpAt, FlagAt, NextFrom;
  }

  /** One character of plain tag text. */
  lemma AttrsChar(s: string, tag: nat, parts: seq<Part>, flush: nat, pos: nat, quote: char, from: nat, to: nat)
    requires tag <= flush <= pos < |s| && from <= |s| && to <= |s| && s[pos] != '{'
    requires quote == '\0' ==> s[pos] != '>' && !(s[pos] == '?' && CharAt(s, pos + 1) == '=')
    ensures AttrsAt(s, tag, parts, flush, pos, quote, from, to) ==
            AttrsAt(s, tag, parts, flush, pos + 1, NextQuote(quote, s[pos]), NextFrom(s, pos, quote, from),
                    NextTo(pos, quote, s[pos], to))
  {
    hide ClassifyAt, InterpAt, FlagAt, WsEnd;
  }

  /** A boolean attribute whose name begins before the pending text is refused. */
  lemma AttrsFlagRefused(s: string, tag: nat, parts: seq<Part>, flush: nat, pos: nat, from: nat, to: nat)
    requires tag <= flush <= pos < |s| && from < flush && to <= |s| && s[pos] == '?' && CharAt(s, pos + 1) == '='
    ensures AttrsAt(s, tag, parts, flush, pos, '\0', from, to) == None
  {
    hide ClassifyAt, InterpAt, FlagAt, WsEnd;
  }

  /** An expression in a quoted value. */
  lemma AttrsValue(s: string, tag: nat, parts: seq<Part>, flush: nat, pos: nat, quote: char, from: nat, to: nat, e: nat,
                   ctx: Context)
    requires tag <= flush <= pos < |s| && from <= |s| && to <= |s| && s[pos] == '{' && quote != '\0'
    requires ClassifyAt(s, from, to) == Some(ctx) && InterpAt(s, pos, false) == Some(e)
    ensures AttrsAt(s, tag, parts, flush, pos, quote, from, to) ==
            AttrsAt(s, tag, parts + [Plain(s[flush..pos]), Value(s[pos + 1..e - 1], ctx)], e, e, quote, from, to)
  {
    hide ClassifyAt, InterpAt, FlagAt, WsEnd;
  }

  /** An expression right after '='. */
  lemma AttrsUnquoted(s: string, tag: nat, parts: seq<Part>, flush: nat, pos: nat, from: nat, to: nat, e: nat,
                      ctx: Context)
    requires tag <= flush <= pos < |s| && from <= |s| && to <= |s| && s[pos] == '{'
    requires pos > tag && s[pos - 1] == '=' && from < pos - 1
    requires ClassifyAt(s, from, to) == Some(ctx) && InterpAt(s, pos, false) == Some(e)
    ensures AttrsAt(s, tag, parts, flush, pos, '\0', from, to) ==
            AttrsAt(s, tag, parts + [Plain(s[flush..pos]), Unquoted(s[pos + 1..e - 1], ctx)], e, e, '\0', from, to)
  {
    hide ClassifyAt, InterpAt, FlagAt, WsEnd;
  }

  /** A boolean attribute. */
  lemma AttrsFlag(s: string, tag: nat, parts: seq<Part>, flush: nat, pos: nat, from: nat, to: nat, e: nat)
    requires tag <= flush <= from < pos < |s| && to <= |s| && s[pos] == '?' && CharAt(s, pos + 1) == '='
    requires FlagAt(s, pos) == Some(e)
    ensures AttrsAt(s, tag, parts, flush, pos, '\0', from, to) ==
            AttrsAt(s, tag, parts + [Plain(s[flush..from]), Flag(s[from..pos], s[pos + 3..e - 1])], e, e, '\0', e, to)
  {
    hide ClassifyAt, InterpAt, FlagAt, WsEnd;
  }

  /** A syntax element, where it ends, and the tags open behind it. */
  datatype At<T> = At(value: T, end: nat, open: seq<string>)

  /** Behind the '>' of an open tag: the structure checks and the content of a script or style. */
  function FinishAt(s: string, name: string, a: Attrs, open: seq<string>): (r: Option<At<Item>>)
    requires 2 <= a.end <= |s|
    ensures r.Some? ==> a.end <= r.value.end <= |s|
  {
    if !IsVoid(name) && s[a.end - 2] == '/' && s[a.end - 1] == '>' then None
    else if !IsVoid(name) && |open| == MAX_DEPTH then None
    else
      var after := if IsVoid(name) then open else open + [name];
      if !IsRaw(name) then Some(At(Tag(OpenTag(a.parts, a.rest, "")), a.end, after)) else
      var q := RawEnd(s, a.end, name);
      if q == |s| then None else Some(At(Tag(OpenTag(a.parts, a.rest, s[a.end..q])), q, after))
  }

  function OpenTagAt(s: string, p: nat, open: seq<string>): (r: Option<At<Item>>)
    requires p < |s|
    ensures r.Some? ==> p < r.value.end <= |s|
  {
    if !IsIdentStart(CharAt(s, p + 1)) then None else
    var n := NameEnd(s, p + 1);
    if n - p - 1 > MAX_NAME then None else
    match AttrsAt(s, p, [], p, n, '\0', n, n)
    case None => None
    case Some(a) => FinishAt(s, s[p + 1..n], a, open)
  }

  function ClosingAt(s: string, p: nat, open: seq<string>): (r: Option<At<Item>>)
    requires p + 2 <= |s|
    ensures r.Some? ==> p < r.value.end <= |s|
  {
    var n := NameEnd(s, p + 2);
    var q := FindAt(s, n, ">");
    if q == |s| || n == p + 2 || IsVoid(s[p + 2..n]) || open == [] then None
    else if Lower(open[|open| - 1]) != Lower(s[p + 2..n]) then None
    else Some(At(Closing(s[p..q + 1]), q + 1, open[..|open| - 1]))
  }

  /** One tag, comment or doctype. */
  function ElementAt(s: string, p: nat, open: seq<string>): (r: Option<At<Item>>)
    requires p < |s| && s[p] == '<'
    ensures r.Some? ==> p < r.value.end <= |s|
  {
    if StartsAt(s, p, "<!--") then
      var q := FindAt(s, p + 1, "-->");
      if q == |s| then None else Some(At(Verbatim(s[p..q + 3]), q + 3, open))
    else if StartsAt(s, p, "<!") then
      var q := FindAt(s, p + 1, ">");
      if q == |s| then None else Some(At(Verbatim(s[p..q + 1]), q + 1, open))
    else if StartsAt(s, p, "</") then ClosingAt(s, p, open)
    else OpenTagAt(s, p, open)
  }

  // ---- bodies ----

  /** Only white space is left before the closing brace. */
  predicate BodyEnds(s: string, p: nat)
    requires p <= |s|
  {
    CharAt(s, WsEnd(s, p)) == '}'
  }

  /** The items from p on up to the closing brace; `items` have been read before. */
  function BodyAt(s: string, p: nat, open: seq<string>, items: seq<Item>): (r: Option<At<Piece>>)
    requires p <= |s|
    ensures r.Some? ==> p <= r.value.end < |s| && s[r.value.end] == '}'
    decreases |s| - p, 3
  {
    if BodyEnds(s, p) then Some(At(Piece(items, s[p..WsEnd(s, p)]), WsEnd(s, p), open))
    else if CharAt(s, p) == '\0' then None
    else
      match ItemAt(s, p, open)
      case None => None
      case Some(At(item, e, after)) => BodyAt(s, e, after, items + [item])
  }

  /** A body in braces at p, and the position behind them. */
  function BlockAt(s: string, p: nat, open: seq<string>): (r: Option<At<Piece>>)
    requires p < |s|
    ensures r.Some? ==> p + 1 < r.value.end <= |s|
    decreases |s| - p, 0
  {
    match BodyAt(s, p + 1, open, [])
    case None => None
    case Some(At(piece, e, after)) => Some(At(piece, e + 1, after))
  }

  function ItemAt(s: string, p: nat, open: seq<string>): (r: Option<At<Item>>)
    requires p < |s|
    ensures r.Some? ==> p < r.value.end <= |s|
    decreases |s| - p, 2
  {
    if s[p] == '<' then ElementAt(s, p, open)
    else if s[p] == '{' then
      (match InterpAt(s, p, true)
       case None => None
       case Some(e) => Some(At(Braces(s[p + 1..e - 1]), e, open)))
    else if s[p] == '@' then CallAt(s, p, open)
    else
      var k := WsEnd(s, p);
      if KeywordAt(s, k, "else") then None
      else if KeywordAt(s, k, "if") then
        match ChainAt(s, k + 2, open)
        case None => None
        case Some(At(chain, e, after)) => Some(At(IfItem(s[p..k], chain), e, after))
      else if KeywordAt(s, k, "for") then
        match ForAt(s, k + 3, open)
        case None => None
        case Some(At(ForPart(head, body), e, after)) => Some(At(ForItem(s[p..k], head, body), e, after))
      else
        var e := TextEnd(s, p);
        if e == p || e == |s| || s[e] == '\0' || s[e] == '}' then None else Some(At(Run(s[p..e]), e, open))
  }

  datatype ForPart = ForPart(head: string, body: Piece)

  function ForAt(s: string, p: nat, open: seq<string>): (r: Option<At<ForPart>>)
    requires p <= |s|
    ensures r.Some? ==> p < r.value.end <= |s|
    decreases |s| - p, 1
  {
    match Scan(s, p, 0, ToBrace)
    case Fails(_) => None
    case Found(b) =>
      if Trim(s[p..b]) == "" then None else
      match BlockAt(s, b, open)
      case None => None
      case Some(At(body, e, after)) => Some(At(ForPart(s[p..b], body), e, after))
  }

  /** The condition of an if, its branch, and what follows. */
  function ChainAt(s: string, p: nat, open: seq<string>): (r: Option<At<Chain>>)
    requires p <= |s|
    ensures r.Some? ==> p < r.value.end <= |s|
    decreases |s| - p, 1
  {
    match Scan(s, p, 0, ToBrace)
    case Fails(_) => None
    case Found(b) =>
      if Trim(s[p..b]) == "" then None else
      match BlockAt(s, b, open)
      case None => None
      case Some(At(body, q, mid)) =>
        match ElseAt(s, q, mid)
        case None => None
        case Some(At(rest, e, after)) => Some(At(Chain(s[p..b], body, rest), e, after))
  }

  function ElseAt(s: string, p: nat, open: seq<string>): (r: Option<At<ElsePart>>)
    requires p <= |s|
    ensures r.Some? ==> p <= r.value.end <= |s|
    decreases |s| - p, 0
  {
    var g := WsEnd(s, p);
    if !KeywordAt(s, g, "else") then Some(At(NoElse, p, open)) else
    var k := WsEnd(s, g + 4);
    if KeywordAt(s, k, "if") then
      match ChainAt(s, k + 2, open)
      case None => None
      case Some(At(chain, e, after)) => Some(At(ElseIf(s[p..g], s[g + 4..k], chain), e, after))
    else if CharAt(s, k) == '{' && k < |s| then
      match BlockAt(s, k, open)
      case None => None
      case Some(At(body, e, after)) => Some(At(ElseBlock(s[p..g], s[g + 4..k], body), e, after))
    else None
  }

  /** What stands behind a call: a block, perhaps with data; data alone are seen but not consumed. */
  datatype Behind = Behind(data: Option<string>, part: BlockPart)

  function BehindAt(s: string, p: nat, open: seq<string>): (r: Option<At<Behind>>)
    requires p <= |s|
    ensures r.Some? ==> p <= r.value.end <= |s|
    decreases |s| - p, 1
  {
    var g := WsEnd(s, p);
    if KeywordAt(s, g, "with") then
      var a := WsEnd(s, g + 4);
      if CharAt(s, a) != '(' || a == |s| then Some(At(Behind(None, NoBlock), p, open)) else
      match Scan(s, a + 1, 1, MatchParen)
      case Fails(_) => None
      case Found(z) =>
        var data, b := Some(Trim(s[a + 1..z])), WsEnd(s, z + 1);
        if CharAt(s, b) != '{' || b == |s| then Some(At(Behind(data, NoBlock), p, open)) else
        match BlockAt(s, b, open)
        case None => None
        case Some(At(body, e, after)) =>
          Some(At(Behind(data, WithBlock(s[p..g], s[g + 4..a], s[a + 1..z], s[z + 1..b], body)), e, after))
    else if CharAt(s, g) == '{' && g < |s| then
      match BlockAt(s, g, open)
      case None => None
      case Some(At(body, e, after)) => Some(At(Behind(None, Block(s[p..g], body)), e, after))
    else Some(At(Behind(None, NoBlock), p, open))
  }

  /** The built-in calls: raw with an argument and no block, fragment and once with both. */
  predicate BuiltinOk(callee: string, args: Option<string>, behind: Behind) {
    IsBuiltin(callee) ==>
      behind.data.None? && args.Some? && Trim(args.value) != "" && (callee == "raw" <==> BlockNodes(behind.part) == Nil)
  }

  /** The parenthesised arguments at p, if there are any, and the position behind them. */
  function ArgsAt(s: string, p: nat): (r: Option<(Option<string>, nat)>)
    requires p <= |s|
    ensures r.Some? ==> p <= r.value.1 <= |s|
  {
    if CharAt(s, p) != '(' || p == |s| then Some((None, p)) else
    match Scan(s, p + 1, 1, MatchParen)
    case Fails(_) => None
    case Found(z) => Some((Some(s[p + 1..z]), z + 1))
  }

  function CallAt(s: string, p: nat, open: seq<string>): (r: Option<At<Item>>)
    requires p < |s|
    ensures r.Some? ==> p < r.value.end <= |s|
    decreases |s| - p, 1
  {
    if !IsIdentStart(CharAt(s, p + 1)) then None else
    var n := IdentEnd(s, p + 1);
    match ArgsAt(s, n)
    case None => None
    case Some((args, b)) =>
      match BehindAt(s, b, open)
      case None => None
      case Some(At(behind, e, after)) =>
        if !BuiltinOk(s[p + 1..n], args, behind) then None
        else Some(At(CallItem(s[p + 1..n], args, behind.data, behind.part), e, after))
  }

  /** The body of a component behind its opening brace, with all its tags closed; the position behind the brace. */
  function ComponentAt(s: string, p: nat): Option<At<Piece>>
    requires p <= |s|
  {
    match BodyAt(s, p, [], [])
    case None => None
    case Some(At(piece, e, open)) => if open == [] then Some(At(piece, e + 1, [])) else None
  }

  // ---- single steps ----

  /** A body ends, cannot go on, or goes on behind its next item. */
  lemma BodyStep(s: string, p: nat, open: seq<string>, items: seq<Item>)
    requires p <= |s|
    ensures BodyEnds(s, p) ==>
              BodyAt(s, p, open, items) == Some(At(Piece(items, s[p..WsEnd(s, p)]), WsEnd(s, p), open))
    ensures !BodyEnds(s, p) && CharAt(s, p) == '\0' ==> BodyAt(s, p, open, items) == None
    ensures !BodyEnds(s, p) && CharAt(s, p) != '\0' ==>
              var r := ItemAt(s, p, open);
              BodyAt(s, p, open, items) ==
              if r.None? then None else BodyAt(s, r.value.end, r.value.open, items + [r.value.value])
  {
    hide ItemAt, WsEnd;
  }

  /** White space before the closing brace is all the text there is. */
  lemma EndOfText(s: string, p: nat)
    requires p < |s| && !Special(s[p])
    ensures var e := TextEnd(s, p);
            BodyEnds(s, p) <==> e < |s| && s[e] == '}' && forall i :: p <= i < e ==> IsSpace(s[i])
    ensures BodyEnds(s, p) ==> WsEnd(s, p) == TextEnd(s, p)
  {
  }

  /** Which item begins with which character. */
  lemma ItemStep(s: string, p: nat, open: seq<string>)
    requires p < |s| && Special(s[p])
    ensures s[p] == '}' <==> BodyEnds(s, p)
    ensures s[p] == '}' ==> WsEnd(s, p) == p
    ensures s[p] == '<' ==> ItemAt(s, p, open) == ElementAt(s, p, open)
    ensures s[p] == '{' ==>
              var r := InterpAt(s, p, true);
              ItemAt(s, p, open) == if r.None? then None else Some(At(Braces(s[p + 1..r.value - 1]), r.value, open))
    ensures s[p] == '@' ==> ItemAt(s, p, open) == CallAt(s, p, open)
  {
    hide ElementAt, InterpAt, CallAt, ChainAt, ForAt, TextEnd, KeywordAt;
  }

  /** At the start of a run: a statement. */
  lemma StatementStep(s: string, p: nat, open: seq<string>)
    requires p < |s| && !Special(s[p]) && StartsStatement(s, p)
    ensures !BodyEnds(s, p)
    ensures KeywordAt(s, WsEnd(s, p), "else") ==> ItemAt(s, p, open) == None
    ensures KeywordAt(s, WsEnd(s, p), "if") ==>
              var k := WsEnd(s, p);
              var r := ChainAt(s, k + 2, open);
              ItemAt(s, p, open) ==
              if r.None? then None else Some(At(IfItem(s[p..k], r.value.value), r.value.end, r.value.open))
    ensures KeywordAt(s, WsEnd(s, p), "for") ==>
              var k := WsEnd(s, p);
              var r := ForAt(s, k + 3, open);
              ItemAt(s, p, open) ==
              if r.None? then None
              else Some(At(ForItem(s[p..k], r.value.value.head, r.value.value.body), r.value.end, r.value.open))
  {
    hide ElementAt, InterpAt, CallAt, ChainAt, ForAt, TextEnd, WsEnd;
    var k := WsEnd(s, p);
    if KeywordAt(s, k, "if") {
      KeywordFirst(s, k, "if");
    }
    if KeywordAt(s, k, "for") {
      KeywordFirst(s, k, "for");
    }
    if KeywordAt(s, k, "else") {
      KeywordFirst(s, k, "else");
    }
  }

  lemma KeywordFirst(s: string, k: nat, kw: string)
    requires KeywordAt(s, k, kw) && kw != ""
    ensures k < |s| && s[k] == kw[0]
  {
    assert s[k] == s[k..k + |kw|][0];
  }

  /** At the start of a run: text. */
  lemma PlainStep(s: string, p: nat, open: seq<string>)
    requires p < |s| && !Special(s[p]) && !StartsStatement(s, p)
    ensures var e := TextEnd(s, p);
            p < e && (BodyEnds(s, p) <==> e < |s| && s[e] == '}' && forall i :: p <= i < e ==> IsSpace(s[i])) &&
            (BodyEnds(s, p) ==> WsEnd(s, p) == e) &&
            ItemAt(s, p, open) == if e == |s| || s[e] == '\0' || s[e] == '}' then None
              else Some(At(Run(s[p..e]), e, open))
  {
    EndOfText(s, p);
    hide ElementAt, InterpAt, CallAt, ChainAt, ForAt, WsEnd, KeywordAt, BodyEnds;
  }
}
