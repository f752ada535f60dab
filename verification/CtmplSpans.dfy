/**
 * Which bytes of a source are markup and which are not: every body is cut into spans that are kept
 * and spans that are dropped, and what is dropped is code, keywords, braces and white space.
 */
module CtmplSpans {
  import opened Sequences
  import opened Wrappers
  import opened Chars
  import opened CtmplScan
  import opened CtmplTag
  import opened CtmplSyntax
  import opened CtmplConserve

  datatype Span =
    | Keep(text: string)                              // goes into a text node
    | Insert(text: string)                            // added to a text node
    | Expression(inner: string)                       // {inner}
    | Condition(inner: string)                        // ?={inner} behind an attribute name
    | CallHead(callee: string, args: Option<string>)  // @callee(args)
    | Keyword(word: string)
    | Head(code: string)                              // the condition of an if, the head of a for
    | Data(inner: string)                             // (inner) behind "with"
    | Edge(brace: char)                               // a brace around a block
    | Gap(text: string)                               // white space around statements and blocks

  /** The source bytes of a span. */
  function SourceText(x: Span): string {
    match x
    case Keep(t) => t
    case Insert(_) => ""
    case Expression(inner) => Braced(inner)
    case Condition(inner) => "?=" + Braced(inner)
    case CallHead(callee, args) => "@" + callee + (if args.Some? then Parens(args.value) else "")
    case Keyword(word) => word
    case Head(code) => code
    case Data(inner) => Parens(inner)
    case Edge(c) => [c]
    case Gap(t) => t
  }

  /** What a span contributes to the text nodes. */
  function MarkupText(x: Span): string {
    match x
    case Keep(t) => t
    case Insert(t) => t
    case _ => ""
  }

  /** The only spans there are. */
  predicate Legal(x: Span) {
    match x
    case Keep(_) => true
    case Insert(t) => t == "\"" || t == " "
    case Expression(inner) => IsExpr(inner)
    case Condition(inner) => IsExpr(inner)
    case CallHead(callee, args) => IsIdent(callee) && (args.Some? ==> Delimited(args.value, MatchParen))
    case Keyword(word) => word in {"if", "for", "else", "with"}
    case Head(code) => Delimited(code, ToBrace) && Trim(code) != ""
    case Data(inner) => Delimited(inner, MatchParen)
    case Edge(c) => c == '{' || c == '}'
    case Gap(t) => AllSpace(t)
  }

  function SourceOf(xs: seq<Span>): string {
    if xs == [] then "" else SourceOf(xs[..|xs| - 1]) + SourceText(xs[|xs| - 1])
  }

  function MarkupOf(xs: seq<Span>): string {
    if xs == [] then "" else MarkupOf(xs[..|xs| - 1]) + MarkupText(xs[|xs| - 1])
  }

  // ---- cutting ----

  function SpansAll(items: seq<Item>): seq<Span>
    decreases items, 1
  {
    if items == [] then [] else SpansAll(items[..|items| - 1]) + Spans(items[|items| - 1])
  }

  function Spans(item: Item): seq<Span>
    decreases item, 0
  {
    match item
    case Run(t) => [Keep(t)]
    case Verbatim(t) => [Keep(t)]
    case Closing(t) => [Keep(t)]
    case Tag(tag) => PartsSpans(tag.parts) + [Keep(tag.rest + ">")] + [Keep(tag.raw)]
    case Braces(inner) => [Expression(inner)]
    case CallItem(callee, args, _, block) => [CallHead(callee, args)] + BlockSpans(block)
    case IfItem(lead, chain) => [Gap(lead)] + [Keyword("if")] + ChainSpans(chain)
    case ForItem(lead, head, body) => [Gap(lead)] + [Keyword("for")] + [Head(head)] + BodySpans(body)
  }

  function PartSpans(p: Part): seq<Span> {
    match p
    case Plain(t) => [Keep(t)]
    case Value(inner, _) => [Expression(inner)]
    case Unquoted(inner, _) => [Insert("\"")] + [Expression(inner)] + [Insert("\"")]
    case Flag(name, inner) => [Insert(" ")] + [Keep(name)] + [Condition(inner)]
  }

  function PartsSpans(ps: seq<Part>): seq<Span> {
    if ps == [] then [] else PartsSpans(ps[..|ps| - 1]) + PartSpans(ps[|ps| - 1])
  }

  /** A body in its braces. */
  function BodySpans(body: Piece): seq<Span>
    decreases body, 0
  {
    [Edge('{')] + SpansAll(body.items) + [Gap(body.tail)] + [Edge('}')]
  }

  function ChainSpans(c: Chain): seq<Span>
    decreases c, 0
  {
    [Head(c.cond)] + BodySpans(c.body) + ElseSpans(c.rest)
  }

  function ElseSpans(e: ElsePart): seq<Span>
    decreases e, 0
  {
    match e
    case NoElse => []
    case ElseIf(gap, gap2, chain) => [Gap(gap)] + [Keyword("else")] + [Gap(gap2)] + [Keyword("if")] + ChainSpans(chain)
    case ElseBlock(gap, gap2, body) => [Gap(gap)] + [Keyword("else")] + [Gap(gap2)] + BodySpans(body)
  }

  function BlockSpans(b: BlockPart): seq<Span>
    decreases b, 0
  {
    match b
    case NoBlock => []
    case Block(gap, body) => [Gap(gap)] + BodySpans(body)
    case WithBlock(gap, gap2, inner, gap3, body) =>
      [Gap(gap)] + [Keyword("with")] + [Gap(gap2)] + [Data(inner)] + [Gap(gap3)] + BodySpans(body)
  }

  // ---- the spans are the source, what is kept is the markup ----

  ghost predicate CutsTo(xs: seq<Span>, source: string, markup: string) {
    SourceOf(xs) == source && MarkupOf(xs) == markup && forall i :: 0 <= i < |xs| ==> Legal(xs[i])
  }

  lemma CutOne(x: Span)
    requires Legal(x)
    ensures CutsTo([x], SourceText(x), MarkupText(x))
  {
    hide SourceText, MarkupText, Legal;
    assert [x][..0] == [];
    assert SourceOf([x]) == "" + SourceText(x) && MarkupOf([x]) == "" + MarkupText(x);
  }

  lemma CutNone()
    ensures CutsTo([], "", "")
  {
  }

  lemma {:induction false} CutJoin(a: seq<Span>, s: string, m: string, b: seq<Span>, t: string, n: string)
    requires CutsTo(a, s, m) && CutsTo(b, t, n)
    ensures CutsTo(a + b, s + t, m + n)
    decreases |b|
  {
    hide SourceText, MarkupText, Legal;
    if b == [] {
      assert a + b == a;
    } else {
      var init, x := b[..|b| - 1], b[|b| - 1];
      CutJoin(a, s, m, init, SourceOf(init), MarkupOf(init));
      assert (a + b)[..|a + b| - 1] == a + init;
      assert (s + SourceOf(init)) + SourceText(x) == s + (SourceOf(init) + SourceText(x));
      assert (m + MarkupOf(init)) + MarkupText(x) == m + (MarkupOf(init) + MarkupText(x));
    }
  }

  /** One dropped or kept span in front. */
  lemma CutFirst(x: Span, b: seq<Span>, t: string, n: string)
    requires Legal(x) && CutsTo(b, t, n)
    ensures CutsTo([x] + b, SourceText(x) + t, MarkupText(x) + n)
  {
    hide SourceText, MarkupText, Legal, CutsTo;
    CutOne(x);
    CutJoin([x], SourceText(x), MarkupText(x), b, t, n);
  }

  lemma {:induction false} PartsCut(start: Place, ps: seq<Part>)
    requires ProperParts(start, ps)
    ensures CutsTo(PartsSpans(ps), PartsSource(ps), PartsMarkup(ps))
    decreases |ps|
  {
    hide CutsTo, PartSpans, PartSource, PartMarkup, ProperPart;
    if ps == [] {
      CutNone();
    } else {
      var init, p := ps[..|ps| - 1], ps[|ps| - 1];
      PartsCut(start, init);
      PartCut(PartsSource(init), AfterParts(start, init), p);
      CutJoin(PartsSpans(init), PartsSource(init), PartsMarkup(init), PartSpans(p), PartSource(p), PartMarkup(p));
    }
  }

  lemma PartCut(s: string, pl: Place, p: Part)
    requires ProperPart(s, pl, p)
    ensures CutsTo(PartSpans(p), PartSource(p), PartMarkup(p))
  {
    hide CutsTo, IsExpr, IsTagText, ContextAt, AfterText, Trim;
    match p
    case Plain(t) => CutOne(Keep(t));
    case Value(inner, _) => CutOne(Expression(inner));
    case Unquoted(inner, _) =>
      var q, e := Insert("\""), Expression(inner);
      CutOne(q);
      CutFirst(e, [q], "", "\"");
      CutFirst(q, [e] + [q], Braced(inner) + "", "" + "\"");
      assert [q] + [e] + [q] == [q] + ([e] + [q]);
      assert "" + (Braced(inner) + "") == Braced(inner) && "\"" + ("" + "\"") == "\"\"";
    case Flag(name, inner) =>
      var i, k, c := Insert(" "), Keep(name), Condition(inner);
      CutOne(c);
      CutFirst(k, [c], SourceText(c), "");
      CutFirst(i, [k] + [c], name + SourceText(c), name + "");
      assert [i] + [k] + [c] == [i] + ([k] + [c]);
      FlagTexts(name, inner);
  }

  lemma FlagTexts(name: string, inner: string)
    ensures "" + (name + ("?=" + Braced(inner))) == name + "?={" + inner + "}" && " " + (name + "") == " " + name
  {
    assert "?=" + Braced(inner) == "?={" + inner + "}";
  }

  lemma TagCut(tag: OpenTag)
    requires ProperTag(tag)
    ensures CutsTo(Spans(Tag(tag)), TagSource(tag), Markup(Tag(tag)))
  {
    var a, src, m := PartsSpans(tag.parts), PartsSource(tag.parts), PartsMarkup(tag.parts);
    PartsCut(StartPlace(TagName(tag)), tag.parts);
    hide CutsTo, PartsSpans, PartsSource, PartsMarkup, ProperTag, TagName;
    RestCut(a, src, m, tag.rest, tag.raw);
  }

  /** Behind the parts of a tag: the rest up to its '>', and raw content. */
  lemma RestCut(a: seq<Span>, src: string, m: string, rest: string, raw: string)
    requires CutsTo(a, src, m)
    ensures CutsTo(a + [Keep(rest + ">")] + [Keep(raw)], src + rest + ">" + raw, m + (rest + ">") + raw)
  {
    hide CutsTo;
    CutOne(Keep(rest + ">"));
    CutOne(Keep(raw));
    CutJoin(a, src, m, [Keep(rest + ">")], rest + ">", rest + ">");
    Regroup(src, rest, ">");
    CutJoin(a + [Keep(rest + ">")], src + (rest + ">"), m + (rest + ">"), [Keep(raw)], raw, raw);
  }

  /** What is kept and inserted, in order, is the markup; what is kept and dropped is the source. */
  lemma {:induction false} MarkupIsCut(items: seq<Item>)
    requires ProperAll(items)
    ensures CutsTo(SpansAll(items), SourceAll(items), MarkupAll(items))
    decreases items, 1
  {
    hide CutsTo, Spans, Source, Markup, Proper;
    if items == [] {
      CutNone();
    } else {
      var init, last := items[..|items| - 1], items[|items| - 1];
      MarkupIsCut(init);
      ItemCut(last);
      CutJoin(SpansAll(init), SourceAll(init), MarkupAll(init), Spans(last), Source(last), Markup(last));
    }
  }

  lemma {:induction false} ItemCut(item: Item)
    requires Proper(item)
    ensures CutsTo(Spans(item), Source(item), Markup(item))
    decreases item, 0
  {
    hide CutsTo, SpansAll, SourceAll, MarkupAll, ProperAll, Trim, Delimited, ProperTag, TagSource, IsIdent, Braced,
         Parens, IsComment, IsDoctype, IsClosing, IsRun, ProperPiece, PieceSource, BodySpans, ProperChain,
         ChainSource, ChainSpans, ChainMarkup, ProperBlock, BlockSource, BlockSpans, BlockMarkup;
    match item
    case Run(t) => CutOne(Keep(t));
    case Verbatim(t) => CutOne(Keep(t));
    case Closing(t) => CutOne(Keep(t));
    case Tag(tag) => TagCut(tag);
    case Braces(inner) => CutOne(Expression(inner));
    case CallItem(callee, args, data, block) =>
      BlockCut(data, block);
      CutFirst(CallHead(callee, args), BlockSpans(block), BlockSource(block), BlockMarkup(block));
      Blank(BlockMarkup(block));
    case IfItem(lead, chain) =>
      ChainCut(chain);
      CutFirst(Keyword("if"), ChainSpans(chain), ChainSource(chain), ChainMarkup(chain));
      CutFirst(Gap(lead), [Keyword("if")] + ChainSpans(chain), "if" + ChainSource(chain), "" + ChainMarkup(chain));
      Regroup([Gap(lead)], [Keyword("if")], ChainSpans(chain));
      Regroup(lead, "if", ChainSource(chain));
      Blank(ChainMarkup(chain));
    case ForItem(lead, head, body) =>
      var b, t := BodySpans(body), Braced(PieceSource(body));
      BodyCut(body);
      CutFirst(Head(head), b, t, MarkupAll(body.items));
      CutFirst(Keyword("for"), [Head(head)] + b, head + t, "" + MarkupAll(body.items));
      CutFirst(Gap(lead), [Keyword("for")] + ([Head(head)] + b), "for" + (head + t), "" + ("" + MarkupAll(body.items)));
      Four([Gap(lead)], [Keyword("for")], [Head(head)], b);
      Four(lead, "for", head, t);
      Blank(MarkupAll(body.items));
  }

  lemma Blank(t: string)
    ensures "" + t == t
  {
  }

  lemma Four<T>(a: seq<T>, b: seq<T>, c: seq<T>, d: seq<T>)
    ensures a + b + c + d == a + (b + (c + d))
  {
  }

  lemma Five<T>(a: seq<T>, b: seq<T>, c: seq<T>, d: seq<T>, e: seq<T>)
    ensures a + b + c + d + e == a + (b + (c + (d + e)))
  {
  }

  lemma {:induction false} BodyCut(body: Piece)
    requires ProperPiece(body)
    ensures CutsTo(BodySpans(body), Braced(PieceSource(body)), MarkupAll(body.items))
    decreases body, 0
  {
    var items := body.items;
    MarkupIsCut(items);
    hide CutsTo, SpansAll, SourceAll, MarkupAll, ProperAll;
    CutOne(Edge('}'));
    CutFirst(Gap(body.tail), [Edge('}')], "}", "");
    var xs, t := [Gap(body.tail)] + [Edge('}')], body.tail + "}";
    CutJoin(SpansAll(items), SourceAll(items), MarkupAll(items), xs, t, "" + "");
    CutFirst(Edge('{'), SpansAll(items) + xs, SourceAll(items) + t, MarkupAll(items) + ("" + ""));
    Four([Edge('{')], SpansAll(items), [Gap(body.tail)], [Edge('}')]);
    BodyTexts(SourceAll(items), body.tail, MarkupAll(items));
  }

  lemma BodyTexts(t: string, tail: string, m: string)
    ensures "{" + (t + (tail + "}")) == "{" + (t + tail) + "}" && "" + (m + ("" + "")) == m
  {
  }

  lemma {:induction false} ChainCut(c: Chain)
    requires ProperChain(c)
    ensures CutsTo(ChainSpans(c), ChainSource(c), ChainMarkup(c))
    decreases c, 0
  {
    hide CutsTo, BodySpans, PieceSource, MarkupAll, ProperPiece, Trim, Delimited, ElseSpans, ElseSource, ElseMarkup,
         ProperElse, Braced;
    var b, t, m := BodySpans(c.body), Braced(PieceSource(c.body)), MarkupAll(c.body.items);
    BodyCut(c.body);
    ElseCut(c.rest);
    CutJoin(b, t, m, ElseSpans(c.rest), ElseSource(c.rest), ElseMarkup(c.rest));
    CutFirst(Head(c.cond), b + ElseSpans(c.rest), t + ElseSource(c.rest), m + ElseMarkup(c.rest));
    Regroup([Head(c.cond)], b, ElseSpans(c.rest));
    Regroup(c.cond, t, ElseSource(c.rest));
    Blank(m + ElseMarkup(c.rest));
  }

  lemma {:induction false} ElseCut(e: ElsePart)
    requires ProperElse(e)
    ensures CutsTo(ElseSpans(e), ElseSource(e), ElseMarkup(e))
    decreases e, 0
  {
    hide CutsTo, BodySpans, PieceSource, MarkupAll, ProperPiece, ProperChain, ChainSpans, ChainSource, ChainMarkup,
         Braced;
    match e
    case NoElse => CutNone();
    case ElseIf(gap, gap2, chain) =>
      ChainCut(chain);
      var k := [Keyword("if")] + ChainSpans(chain);
      CutFirst(Keyword("if"), ChainSpans(chain), ChainSource(chain), ChainMarkup(chain));
      ElseHead(gap, gap2, k, "if" + ChainSource(chain), "" + ChainMarkup(chain));
      Five([Gap(gap)], [Keyword("else")], [Gap(gap2)], [Keyword("if")], ChainSpans(chain));
      Five(gap, "else", gap2, "if", ChainSource(chain));
      Blank(ChainMarkup(chain));
    case ElseBlock(gap, gap2, body) =>
      BodyCut(body);
      ElseHead(gap, gap2, BodySpans(body), Braced(PieceSource(body)), MarkupAll(body.items));
      Four([Gap(gap)], [Keyword("else")], [Gap(gap2)], BodySpans(body));
      Four(gap, "else", gap2, Braced(PieceSource(body)));
  }

  lemma ElseHead(gap: string, gap2: string, xs: seq<Span>, t: string, m: string)
    requires AllSpace(gap) && AllSpace(gap2) && CutsTo(xs, t, m)
    ensures CutsTo([Gap(gap)] + ([Keyword("else")] + ([Gap(gap2)] + xs)), gap + ("else" + (gap2 + t)), m)
  {
    hide CutsTo;
    CutFirst(Gap(gap2), xs, t, m);
    CutFirst(Keyword("else"), [Gap(gap2)] + xs, gap2 + t, "" + m);
    CutFirst(Gap(gap), [Keyword("else")] + ([Gap(gap2)] + xs), "else" + (gap2 + t), "" + ("" + m));
    Blank(m);
  }

  lemma {:induction false} BlockCut(data: Option<string>, b: BlockPart)
    requires ProperBlock(data, b)
    ensures CutsTo(BlockSpans(b), BlockSource(b), BlockMarkup(b))
    decreases b, 0
  {
    hide CutsTo, BodySpans, PieceSource, MarkupAll, ProperPiece, Trim, Delimited, Braced, Parens;
    match b
    case NoBlock => CutNone();
    case Block(gap, body) =>
      BodyCut(body);
      CutFirst(Gap(gap), BodySpans(body), Braced(PieceSource(body)), MarkupAll(body.items));
      Blank(MarkupAll(body.items));
    case WithBlock(gap, gap2, inner, gap3, body) =>
      BodyCut(body);
      WithCut(gap, gap2, inner, gap3, BodySpans(body), Braced(PieceSource(body)), MarkupAll(body.items));
  }

  lemma WithCut(gap: string, gap2: string, inner: string, gap3: string, xs: seq<Span>, t: string, m: string)
    requires AllSpace(gap) && AllSpace(gap2) && AllSpace(gap3) && Delimited(inner, MatchParen) && CutsTo(xs, t, m)
    ensures CutsTo([Gap(gap)] + [Keyword("with")] + [Gap(gap2)] + [Data(inner)] + [Gap(gap3)] + xs,
                   gap + "with" + gap2 + Parens(inner) + gap3 + t, m)
  {
    hide CutsTo, Delimited, Parens;
    var data := [Data(inner)] + ([Gap(gap3)] + xs);
    CutFirst(Gap(gap3), xs, t, m);
    CutFirst(Data(inner), [Gap(gap3)] + xs, gap3 + t, "" + m);
    CutFirst(Gap(gap2), data, Parens(inner) + (gap3 + t), "" + ("" + m));
    Blank(m);
    var rest, u := [Gap(gap2)] + data, gap2 + (Parens(inner) + (gap3 + t));
    CutFirst(Keyword("with"), rest, u, m);
    CutFirst(Gap(gap), [Keyword("with")] + rest, "with" + u, m);
    Regroup([Gap(gap)] + [Keyword("with")] + [Gap(gap2)] + [Data(inner)], [Gap(gap3)], xs);
    Five([Gap(gap)], [Keyword("with")], [Gap(gap2)], [Data(inner)], [Gap(gap3)] + xs);
    Regroup(gap + "with" + gap2 + Parens(inner), gap3, t);
    Five(gap, "with", gap2, Parens(inner), gap3 + t);
  }

  /**
   * Every byte of a body is kept or dropped: the spans put together are the source, the texts of
   * the parse tree are what is kept with the inserted quotes and blanks, in order, and whatever is
   * dropped is code, a call head, a keyword, a brace around a block or white space beside one.
   */
  lemma EveryByteAccounted(items: seq<Item>)
    requires ProperAll(items)
    ensures SourceOf(SpansAll(items)) == SourceAll(items)
    ensures MarkupOf(SpansAll(items)) == TextsAll(NodesAll(items))
    ensures forall i :: 0 <= i < |SpansAll(items)| ==> Legal(SpansAll(items)[i])
  {
    MarkupIsCut(items);
    MarkupConserved(items);
  }
}
