/** Markup is conserved: which source bytes end up in text nodes, and in the literals of the generated code. */
module CtmplConserve {
  import opened Sequences
  import opened Wrappers
  import opened Chars
  import opened CtmplAst
  import opened CtmplTag
  import opened CtmplSyntax
  import opened CtmplLiteral
  import opened CtmplTarget
  import opened CtmplEmit

  // ---- texts of a tree ----

  /** All texts under the nodes, in source order. */
  function TextsOf(ns: Nodes): string
    decreases ns
  {
    match ns
    case Nil => ""
    case Cons(n, tail) => TextsIn(n) + TextsOf(tail)
  }

  function TextsIn(n: Node): string
    decreases n
  {
    match n
    case Text(t) => t
    case Call(_, _, _, block) => TextsOf(block)
    case If(_, yes, no) => TextsOf(yes) + TextsOf(no)
    case For(_, body) => TextsOf(body)
    case _ => ""
  }

  // ---- markup of a source ----

  /** The bytes of a source that are markup: statements, calls and expressions fall out. */
  function MarkupAll(items: seq<Item>): string
    decreases items, 1
  {
    if items == [] then "" else MarkupAll(items[..|items| - 1]) + Markup(items[|items| - 1])
  }

  function Markup(item: Item): string
    decreases item, 0
  {
    match item
    case Run(t) => t
    case Verbatim(t) => t
    case Closing(t) => t
    case Tag(tag) => PartsMarkup(tag.parts) + (tag.rest + ">") + tag.raw
    case Braces(_) => ""
    case CallItem(_, _, _, block) => BlockMarkup(block)
    case IfItem(_, chain) => ChainMarkup(chain)
    case ForItem(_, _, body) => MarkupAll(body.items)
  }

  function ChainMarkup(c: Chain): string
    decreases c, 0
  {
    MarkupAll(c.body.items) + ElseMarkup(c.rest)
  }

  function ElseMarkup(e: ElsePart): string
    decreases e, 0
  {
    match e
    case NoElse => ""
    case ElseIf(_, _, chain) => ChainMarkup(chain)
    case ElseBlock(_, _, body) => MarkupAll(body.items)
  }

  function BlockMarkup(b: BlockPart): string
    decreases b, 0
  {
    match b
    case NoBlock => ""
    case Block(_, body) => MarkupAll(body.items)
    case WithBlock(_, _, _, _, body) => MarkupAll(body.items)
  }

  /** In a tag: plain text, the two quotes around an unquoted value, the name of a boolean attribute. */
  function PartMarkup(p: Part): string {
    match p
    case Plain(t) => t
    case Value(_, _) => ""
    case Unquoted(_, _) => "\"\""
    case Flag(name, _) => " " + name
  }

  function PartsMarkup(ps: seq<Part>): string {
    if ps == [] then "" else PartsMarkup(ps[..|ps| - 1]) + PartMarkup(ps[|ps| - 1])
  }

  // ---- every markup byte is in exactly one text node, in order ----

  function TextsAll(ns: seq<Node>): string {
    TextsOf(ToNodes(ns))
  }

  lemma {:induction false} TextsConcat(a: seq<Node>, b: seq<Node>)
    ensures TextsAll(a + b) == TextsAll(a) + TextsAll(b)
  {
    hide TextsIn;
    if a == [] {
      assert a + b == b;
    } else {
      TextsConcat(a[1..], b);
      assert (a + b)[1..] == a[1..] + b;
      assert TextsAll(a) == TextsIn(a[0]) + TextsAll(a[1..]);
      assert TextsAll(a + b) == TextsIn(a[0]) + TextsAll(a[1..] + b);
      hide *;
      Regroup(TextsIn(a[0]), TextsAll(a[1..]), TextsAll(b));
    }
  }

  lemma TextsSingle(n: Node)
    ensures TextsAll([n]) == TextsIn(n)
  {
    assert ToNodes([n]) == Cons(n, Nil);
    assert TextsOf(Cons(n, Nil)) == TextsIn(n) + TextsOf(Nil);
  }

  lemma TextsOfText(t: string)
    ensures TextsAll(TextNodes(t)) == t
  {
    if t != "" {
      TextsSingle(Text(t));
    }
  }

  lemma PartTexts(p: Part)
    ensures TextsAll(PartNodes(p)) == PartMarkup(p)
  {
    match p
    case Plain(t) => TextsOfText(t);
    case Value(inner, ctx) => TextsSingle(InterpNode(inner, ctx));
    case Unquoted(inner, ctx) =>
      var q := Text("\"");
      var n := InterpNode(inner, ctx);
      TextsSingle(q);
      TextsSingle(n);
      TextsConcat([q], [n]);
      TextsConcat([q] + [n], [q]);
      assert [q] + [n] + [q] == PartNodes(p);
    case Flag(name, inner) =>
      var yes := Cons(Text(" " + name), Nil);
      TextsSingle(If(Trim(inner), yes, Nil));
      assert TextsOf(yes) == TextsIn(Text(" " + name)) + TextsOf(Nil) == " " + name;
  }

  lemma {:induction false} PartsTexts(ps: seq<Part>)
    ensures TextsAll(PartsNodes(ps)) == PartsMarkup(ps)
    decreases |ps|
  {
    hide TextsAll, PartNodes, PartMarkup;
    if ps == [] {
      TextsNone();
    } else {
      var init, last := ps[..|ps| - 1], ps[|ps| - 1];
      PartsTexts(init);
      PartTexts(last);
      TextsConcat(PartsNodes(init), PartNodes(last));
    }
  }

  lemma TextsNone()
    ensures TextsAll([]) == ""
  {
  }

  lemma TagTexts(tag: OpenTag)
    ensures TextsAll(TagNodes(tag)) == PartsMarkup(tag.parts) + (tag.rest + ">") + tag.raw
  {
    hide TextsAll, PartsNodes, PartsMarkup, TextNodes;
    PartsTexts(tag.parts);
    TextsOfText(tag.rest + ">");
    TextsOfText(tag.raw);
    TextsConcat(PartsNodes(tag.parts), TextNodes(tag.rest + ">"));
    TextsConcat(PartsNodes(tag.parts) + TextNodes(tag.rest + ">"), TextNodes(tag.raw));
  }

  /** The texts of the tree, in order, are the markup of the source. */
  lemma {:induction false} MarkupConserved(items: seq<Item>)
    ensures TextsAll(NodesAll(items)) == MarkupAll(items)
    decreases items, 1
  {
    hide TextsAll, NodesOf, Markup;
    if items == [] {
      TextsNone();
    } else {
      var init, last := items[..|items| - 1], items[|items| - 1];
      MarkupConserved(init);
      ItemConserved(last);
      TextsConcat(NodesAll(init), NodesOf(last));
    }
  }

  lemma {:induction false} ItemConserved(item: Item)
    ensures TextsAll(NodesOf(item)) == Markup(item)
    decreases item, 0
  {
    hide TextsAll, TextNodes, NodesAll, MarkupAll, TagNodes, Trim;
    match item
    case Run(t) => TextsOfText(t);
    case Verbatim(t) => TextsOfText(t);
    case Closing(t) => TextsOfText(t);
    case Tag(tag) => TagTexts(tag);
    case Braces(inner) => TextsSingle(InterpNode(inner, InText));
    case CallItem(callee, args, data, block) =>
      TextsSingle(Call(callee, if args.Some? then Trim(args.value) else "", data, BlockNodes(block)));
      BlockConserved(block);
    case IfItem(_, chain) =>
      TextsSingle(ChainNode(chain));
      ChainConserved(chain);
    case ForItem(_, head, body) =>
      TextsSingle(For(Trim(head), PieceNodes(body)));
      BodyConserved(body);
  }

  lemma BodyConserved(body: Piece)
    ensures TextsOf(PieceNodes(body)) == MarkupAll(body.items)
    decreases body, 0
  {
    MarkupConserved(body.items);
    hide NodesAll, MarkupAll, ToNodes, TextsOf;
  }

  lemma {:induction false} ChainConserved(c: Chain)
    ensures TextsIn(ChainNode(c)) == ChainMarkup(c)
    decreases c, 0
  {
    hide PieceNodes, MarkupAll, TextsOf, Trim;
    BodyConserved(c.body);
    ElseConserved(c.rest);
  }

  lemma {:induction false} ElseConserved(e: ElsePart)
    ensures TextsOf(ElseNodes(e)) == ElseMarkup(e)
    decreases e, 0
  {
    hide PieceNodes, MarkupAll, ChainNode, ChainMarkup, TextsIn;
    match e
    case NoElse =>
    case ElseIf(_, _, chain) =>
      ChainConserved(chain);
      assert TextsOf(Cons(ChainNode(chain), Nil)) == TextsIn(ChainNode(chain)) + TextsOf(Nil);
    case ElseBlock(_, _, body) => BodyConserved(body);
  }

  lemma BlockConserved(b: BlockPart)
    ensures TextsOf(BlockNodes(b)) == BlockMarkup(b)
    decreases b, 0
  {
    hide PieceNodes, MarkupAll, TextsOf;
    match b
    case NoBlock => TextsNil();
    case Block(_, body) => BodyConserved(body);
    case WithBlock(_, _, _, _, body) => BodyConserved(body);
  }

  lemma TextsNil()
    ensures TextsOf(Nil) == ""
  {
  }

  // ---- static bodies, end to end ----

  /** Text, comments, doctypes, closing tags, and tags without expressions. */
  predicate Static(item: Item) {
    match item
    case Run(_) => true
    case Verbatim(_) => true
    case Closing(_) => true
    case Tag(tag) => forall i :: 0 <= i < |tag.parts| ==> tag.parts[i].Plain?
    case _ => false
  }

  predicate AllText(ns: Nodes) {
    match ns
    case Nil => true
    case Cons(n, tail) => n.Text? && AllText(tail)
  }

  lemma {:induction false} AllTextConcat(a: seq<Node>, b: seq<Node>)
    ensures AllText(ToNodes(a + b)) <==> AllText(ToNodes(a)) && AllText(ToNodes(b))
  {
    if a == [] {
      assert a + b == b;
    } else {
      AllTextConcat(a[1..], b);
      assert (a + b)[1..] == a[1..] + b;
    }
  }

  lemma TextNodesAreText(t: string)
    ensures AllText(ToNodes(TextNodes(t)))
  {
    if t != "" {
      assert ToNodes([Text(t)]) == Cons(Text(t), Nil);
    }
  }

  lemma {:induction false} PlainParts(ps: seq<Part>)
    requires forall i :: 0 <= i < |ps| ==> ps[i].Plain?
    ensures PartsMarkup(ps) == PartsSource(ps) && AllText(ToNodes(PartsNodes(ps)))
    decreases |ps|
  {
    hide TextNodes, ToNodes, AllText;
    if ps == [] {
      assert TextNodes("") == [] by { NoTextNodes(); }
      TextNodesAreText("");
    } else {
      var init, last := ps[..|ps| - 1], ps[|ps| - 1];
      PlainParts(init);
      TextNodesAreText(last.text);
      AllTextConcat(PartsNodes(init), TextNodes(last.text));
    }
  }

  lemma NoTextNodes()
    ensures TextNodes("") == []
  {
  }

  lemma StaticItem(item: Item)
    requires Static(item)
    ensures Markup(item) == Source(item) && AllText(ToNodes(NodesOf(item)))
  {
    hide ToNodes, AllText, TextNodes, PartsNodes, PartsMarkup, PartsSource;
    match item
    case Run(t) => TextNodesAreText(t);
    case Verbatim(t) => TextNodesAreText(t);
    case Closing(t) => TextNodesAreText(t);
    case Tag(tag) =>
      PlainParts(tag.parts);
      TextNodesAreText(tag.rest + ">");
      TextNodesAreText(tag.raw);
      AllTextConcat(PartsNodes(tag.parts), TextNodes(tag.rest + ">"));
      AllTextConcat(PartsNodes(tag.parts) + TextNodes(tag.rest + ">"), TextNodes(tag.raw));
      assert PartsSource(tag.parts) + tag.rest + ">" == PartsSource(tag.parts) + (tag.rest + ">");
  }

  lemma {:induction false} StaticItems(items: seq<Item>)
    requires forall i :: 0 <= i < |items| ==> Static(items[i])
    ensures MarkupAll(items) == SourceAll(items) && AllText(ToNodes(NodesAll(items)))
    decreases |items|
  {
    hide Static, Markup, Source, ToNodes, AllText, NodesOf;
    if items == [] {
      NoTextNodes();
      TextNodesAreText("");
    } else {
      var init, last := items[..|items| - 1], items[|items| - 1];
      StaticItems(init);
      StaticItem(last);
      AllTextConcat(NodesAll(init), NodesOf(last));
    }
  }

  /** The values of the literals that the statements write, one after the other; None for other statements. */
  function LiteralBytes(ss: Stmts): Option<string> {
    match ss
    case End => Some("")
    case Then(WriteLiteral(content), next) =>
      (match (ReadLiteral(content), LiteralBytes(next))
       case (Some(a), Some(b)) => Some(a + b)
       case _ => None)
    case _ => None
  }

  lemma {:induction false} TakeTextTakes(ns: Nodes, total: nat)
    requires ns.Cons? && AllText(ns)
    ensures TextsOf(ns) == TakeText(ns, total).0 + TextsOf(TakeText(ns, total).1) && AllText(TakeText(ns, total).1)
    decreases ns
  {
    var t := ns.head.text;
    assert TextsOf(ns) == t + TextsOf(ns.tail);
    if total + |t| <= LITERAL_MAX && ns.tail.Cons? {
      TakeTextTakes(ns.tail, total + |t|);
      var (more, rest) := TakeText(ns.tail, total + |t|);
      Regroup(t, more, TextsOf(rest));
    }
  }

  predicate Bytes(s: string) {
    forall i :: 0 <= i < |s| ==> s[i] as int < 256
  }

  /** Text nodes compile to literals that hold exactly their texts. */
  lemma {:induction false} TextCompiles(ns: Nodes, params: string, base: nat)
    requires AllText(ns) && Bytes(TextsOf(ns))
    ensures LiteralBytes(EmitNodes(ns, params, base)) == Some(TextsOf(ns))
    decreases ns
  {
    if ns.Cons? {
      TakeTextTakes(ns, 0);
      var (t, rest) := TakeText(ns, 0);
      hide TakeText, EmitText, ReadLiteral;
      assert forall i :: 0 <= i < |t| ==> t[i] == TextsOf(ns)[i];
      assert forall i :: 0 <= i < |TextsOf(rest)| ==> TextsOf(rest)[i] == TextsOf(ns)[|t| + i];
      LiteralReadsBack(t);
      TextCompiles(rest, params, base);
    }
  }

  /**
   * Static markup is conserved end to end: a body without expressions, calls and statements compiles
   * to literals whose values, as a C compiler reads them, are the source bytes without the white
   * space before the closing brace.
   */
  lemma StaticMarkupConserved(text: string, piece: Piece, params: string, base: nat)
    requires text == PieceSource(piece) && ProperPiece(piece) && Bytes(text)
    requires forall i :: 0 <= i < |piece.items| ==> Static(piece.items[i])
    ensures var n := |text| - |piece.tail|;
            0 <= n && LiteralBytes(EmitNodes(PieceNodes(piece), params, base)) == Some(text[..n]) && AllSpace(text[n..])
  {
    hide NodesAll, SourceAll, MarkupAll, ProperAll, ToNodes, TextsOf, AllText, EmitNodes, LiteralBytes, Static;
    var n := |text| - |piece.tail|;
    StaticItems(piece.items);
    MarkupConserved(piece.items);
    assert text[..n] == SourceAll(piece.items) && text[n..] == piece.tail;
    TextCompiles(PieceNodes(piece), params, base);
  }
}
