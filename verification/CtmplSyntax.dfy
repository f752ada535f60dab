/**
 * Concrete syntax of template bodies: every piece of a body with all its bytes. One function gives
 * the source text of a piece, one the nodes the parser builds from it, one the open tags after it.
 * The parser is proved to consume exactly the source of what it builds.
 */
module CtmplSyntax {
  import opened Wrappers
  import opened Chars
  import opened CtmplAst
  import opened CtmplScan
  import opened CtmplTag

  datatype Item =
    | Run(text: string)                       // text between special characters
    | Verbatim(text: string)                  // a comment or doctype
    | Closing(text: string)                   // a closing tag
    | Tag(tag: OpenTag)
    | Braces(inner: string)                   // {inner} in a body
    | CallItem(callee: string, args: Option<string>, data: Option<string>, block: BlockPart)
    | IfItem(lead: string, chain: Chain)      // white space, then the if chain
    | ForItem(lead: string, head: string, body: Piece)

  /** A body: items, then the white space dropped before the closing brace. */
  datatype Piece = Piece(items: seq<Item>, tail: string)

  /** An if-chain after the keyword: condition, branch, rest. */
  datatype Chain = Chain(cond: string, body: Piece, rest: ElsePart)

  datatype ElsePart =
    | NoElse
    | ElseIf(gap: string, gap2: string, chain: Chain)
    | ElseBlock(gap: string, gap2: string, body: Piece)

  /** The child block of a call, after white space and perhaps a data binding. */
  datatype BlockPart =
    | NoBlock
    | Block(gap: string, body: Piece)
    | WithBlock(gap: string, gap2: string, inner: string, gap3: string, body: Piece)

  // ---- source text ----

  function Braced(s: string): string {
    "{" + s + "}"
  }

  function Parens(s: string): string {
    "(" + s + ")"
  }

  function SourceAll(items: seq<Item>): string
    decreases items, 1
  {
    if items == [] then [] else SourceAll(items[..|items| - 1]) + Source(items[|items| - 1])
  }

  function Source(item: Item): string
    decreases item, 0
  {
    match item
    case Run(t) => t
    case Verbatim(t) => t
    case Closing(t) => t
    case Tag(tag) => TagSource(tag)
    case Braces(inner) => Braced(inner)
    case CallItem(callee, args, _, block) =>
      "@" + callee + (if args.Some? then Parens(args.value) else "") + BlockSource(block)
    case IfItem(lead, chain) => lead + "if" + ChainSource(chain)
    case ForItem(lead, head, body) => lead + "for" + head + Braced(PieceSource(body))
  }

  function PieceSource(p: Piece): string
    decreases p, 0
  {
    SourceAll(p.items) + p.tail
  }

  function ChainSource(c: Chain): string
    decreases c, 0
  {
    c.cond + Braced(PieceSource(c.body)) + ElseSource(c.rest)
  }

  function ElseSource(e: ElsePart): string
    decreases e, 0
  {
    match e
    case NoElse => ""
    case ElseIf(gap, gap2, chain) => gap + "else" + gap2 + "if" + ChainSource(chain)
    case ElseBlock(gap, gap2, body) => gap + "else" + gap2 + Braced(PieceSource(body))
  }

  function BlockSource(b: BlockPart): string
    decreases b, 0
  {
    match b
    case NoBlock => ""
    case Block(gap, body) => gap + Braced(PieceSource(body))
    case WithBlock(gap, gap2, inner, gap3, body) =>
      gap + "with" + gap2 + Parens(inner) + gap3 + Braced(PieceSource(body))
  }

  // ---- nodes ----

  function ToNodes(ns: seq<Node>): Nodes {
    if ns == [] then Nil else Cons(ns[0], ToNodes(ns[1..]))
  }

  function NodesAll(items: seq<Item>): seq<Node>
    decreases items, 1
  {
    if items == [] then [] else NodesAll(items[..|items| - 1]) + NodesOf(items[|items| - 1])
  }

  function NodesOf(item: Item): seq<Node>
    decreases item, 0
  {
    match item
    case Run(t) => TextNodes(t)
    case Verbatim(t) => TextNodes(t)
    case Closing(t) => TextNodes(t)
    case Tag(tag) => TagNodes(tag)
    case Braces(inner) => [InterpNode(inner, InText)]
    case CallItem(callee, args, data, block) =>
      [Call(callee, if args.Some? then Trim(args.value) else "", data, BlockNodes(block))]
    case IfItem(_, chain) => [ChainNode(chain)]
    case ForItem(_, head, body) => [For(Trim(head), PieceNodes(body))]
  }

  function PieceNodes(p: Piece): Nodes
    decreases p, 0
  {
    ToNodes(NodesAll(p.items))
  }

  function ChainNode(c: Chain): Node
    decreases c, 0
  {
    If(Trim(c.cond), PieceNodes(c.body), ElseNodes(c.rest))
  }

  function ElseNodes(e: ElsePart): Nodes
    decreases e, 0
  {
    match e
    case NoElse => Nil
    case ElseIf(_, _, chain) => Cons(ChainNode(chain), Nil)
    case ElseBlock(_, _, body) => PieceNodes(body)
  }

  function BlockNodes(b: BlockPart): Nodes
    decreases b, 0
  {
    match b
    case NoBlock => Nil
    case Block(_, body) => PieceNodes(body)
    case WithBlock(_, _, _, _, body) => PieceNodes(body)
  }

  // ---- side conditions of the grammar ----

  predicate Special(c: char) {
    c == '<' || c == '{' || c == '@' || c == '}' || c == '\0'
  }

  /** A statement keyword counts only at the start of a run, after white space. */
  predicate StartsStatement(s: string, p: nat)
    requires p <= |s|
  {
    var k := WsEnd(s, p);
    KeywordAt(s, k, "if") || KeywordAt(s, k, "for") || KeywordAt(s, k, "else")
  }

  predicate IsRun(t: string) {
    t != "" && (forall i :: 0 <= i < |t| ==> !Special(t[i])) && !StartsStatement(t, 0)
  }

  predicate ProperAll(items: seq<Item>)
    decreases items, 1
  {
    items == [] || (ProperAll(items[..|items| - 1]) && Proper(items[|items| - 1]))
  }

  predicate Proper(item: Item)
    decreases item, 0
  {
    match item
    case Run(t) => IsRun(t)
    case Verbatim(t) => IsComment(t) || IsDoctype(t)
    case Closing(t) => IsClosing(t)
    case Tag(tag) => ProperTag(tag)
    case Braces(inner) => Delimited(inner, MatchBrace) && Trim(inner) != ""
    case CallItem(callee, args, data, block) =>
      IsIdent(callee) && (args.Some? ==> Delimited(args.value, MatchParen)) && ProperBlock(data, block) &&
      (IsBuiltin(callee) ==>
         data.None? && args.Some? && Trim(args.value) != "" && (callee == "raw" <==> BlockNodes(block) == Nil))
    case IfItem(lead, chain) => AllSpace(lead) && ProperChain(chain)
    case ForItem(lead, head, body) =>
      AllSpace(lead) && Delimited(head, ToBrace) && Trim(head) != "" && ProperPiece(body)
  }

  predicate ProperPiece(p: Piece)
    decreases p, 0
  {
    ProperAll(p.items) && AllSpace(p.tail)
  }

  predicate ProperChain(c: Chain)
    decreases c, 0
  {
    Delimited(c.cond, ToBrace) && Trim(c.cond) != "" && ProperPiece(c.body) && ProperElse(c.rest)
  }

  predicate ProperElse(e: ElsePart)
    decreases e, 0
  {
    match e
    case NoElse => true
    case ElseIf(gap, gap2, chain) => AllSpace(gap) && AllSpace(gap2) && ProperChain(chain)
    case ElseBlock(gap, gap2, body) => AllSpace(gap) && AllSpace(gap2) && ProperPiece(body)
  }

  predicate ProperBlock(data: Option<string>, b: BlockPart)
    decreases b, 0
  {
    match b
    case NoBlock => true
    case Block(gap, body) => AllSpace(gap) && data.None? && ProperPiece(body)
    case WithBlock(gap, gap2, inner, gap3, body) =>
      AllSpace(gap) && AllSpace(gap2) && AllSpace(gap3) && Delimited(inner, MatchParen) &&
      data == Some(Trim(inner)) && ProperPiece(body)
  }

  // ---- tags in parse order ----

  /** The open tags after items, innermost last; None when a tag does not nest. */
  function OpenAfter(items: seq<Item>, open: seq<string>): Option<seq<string>>
    decreases items, 1
  {
    if items == [] then Some(open) else
    match OpenAfter(items[..|items| - 1], open)
    case None => None
    case Some(o) => OpenItem(items[|items| - 1], o)
  }

  function OpenItem(item: Item, open: seq<string>): Option<seq<string>>
    decreases item, 0
  {
    match item
    case Closing(t) =>
      if open != [] && Lower(open[|open| - 1]) == Lower(ClosingName(t)) then Some(open[..|open| - 1]) else None
    case Tag(tag) =>
      if IsVoid(TagName(tag)) then Some(open)
      else if |open| < MAX_DEPTH then Some(open + [TagName(tag)]) else None
    case CallItem(_, _, _, block) => OpenBlock(block, open)
    case IfItem(_, chain) => OpenChain(chain, open)
    case ForItem(_, _, body) => OpenAfter(body.items, open)
    case _ => Some(open)
  }

  function OpenChain(c: Chain, open: seq<string>): Option<seq<string>>
    decreases c, 0
  {
    match OpenAfter(c.body.items, open)
    case None => None
    case Some(o) => OpenElse(c.rest, o)
  }

  function OpenElse(e: ElsePart, open: seq<string>): Option<seq<string>>
    decreases e, 0
  {
    match e
    case NoElse => Some(open)
    case ElseIf(_, _, chain) => OpenChain(chain, open)
    case ElseBlock(_, _, body) => OpenAfter(body.items, open)
  }

  function OpenBlock(b: BlockPart, open: seq<string>): Option<seq<string>>
    decreases b, 0
  {
    match b
    case NoBlock => Some(open)
    case Block(_, body) => OpenAfter(body.items, open)
    case WithBlock(_, _, _, _, body) => OpenAfter(body.items, open)
  }

  /** One more item at the end. */
  lemma ItemAppend(items: seq<Item>, item: Item)
    ensures SourceAll(items + [item]) == SourceAll(items) + Source(item)
    ensures NodesAll(items + [item]) == NodesAll(items) + NodesOf(item)
    ensures ProperAll(items + [item]) <==> ProperAll(items) && Proper(item)
    ensures forall open :: OpenAfter(items + [item], open) ==
                           match OpenAfter(items, open) case None => None case Some(o) => OpenItem(item, o)
  {
    hide Source, NodesOf, Proper, OpenItem;
    assert (items + [item])[..|items|] == items;
  }
}
