/** What it means that a piece of source has been parsed, and how such pieces combine. */
module CtmplBuilt {
  import opened Wrappers
  import opened Chars
  import opened CtmplAst
  import opened CtmplScan
  import opened CtmplTag
  import opened CtmplReading
  import opened CtmplSyntax

  /** `text` is the source of the items, `ns` their nodes, and their tags take `before` to `after`. */
  predicate Built(text: string, items: seq<Item>, ns: seq<Node>, before: seq<string>, after: seq<string>) {
    text == SourceAll(items) && ProperAll(items) && ns == NodesAll(items) && OpenAfter(items, before) == Some(after)
  }

  predicate BuiltOne(text: string, item: Item, ns: seq<Node>, before: seq<string>, after: seq<string>) {
    text == Source(item) && Proper(item) && ns == NodesOf(item) && OpenItem(item, before) == Some(after)
  }

  predicate BuiltPiece(text: string, p: Piece, ns: seq<Node>, before: seq<string>, after: seq<string>) {
    text == PieceSource(p) && ProperPiece(p) && ns == NodesAll(p.items) && OpenAfter(p.items, before) == Some(after)
  }

  predicate BuiltChain(text: string, c: Chain, n: Node, before: seq<string>, after: seq<string>) {
    text == ChainSource(c) && ProperChain(c) && n == ChainNode(c) && OpenChain(c, before) == Some(after)
  }

  predicate BuiltElse(text: string, e: ElsePart, ns: Nodes, before: seq<string>, after: seq<string>) {
    text == ElseSource(e) && ProperElse(e) && ns == ElseNodes(e) && OpenElse(e, before) == Some(after)
  }

  predicate BuiltBlock(text: string, data: Option<string>, b: BlockPart, ns: Nodes, before: seq<string>,
                       after: seq<string>)
  {
    text == BlockSource(b) && ProperBlock(data, b) && ns == BlockNodes(b) && OpenBlock(b, before) == Some(after)
  }

  lemma BuiltAppend(s: string, a: nat, b: nat, c: nat, items: seq<Item>, item: Item, ns: seq<Node>, ms: seq<Node>,
                    o1: seq<string>, o2: seq<string>, o3: seq<string>)
    requires a <= b <= c <= |s|
    requires Built(s[a..b], items, ns, o1, o2) && BuiltOne(s[b..c], item, ms, o2, o3)
    ensures Built(s[a..c], items + [item], ns + ms, o1, o3)
  {
    hide Source, SourceAll, ProperAll, Proper, NodesAll, NodesOf, OpenAfter, OpenItem;
    ItemAppend(items, item);
    Slices(s, a, b, c, c);
  }

  lemma PieceBuilt(s: string, a: nat, b: nat, c: nat, items: seq<Item>, ns: seq<Node>, o1: seq<string>, o2: seq<string>)
    requires a <= b <= c <= |s| && Built(s[a..b], items, ns, o1, o2) && AllSpace(s[b..c])
    ensures BuiltPiece(s[a..c], Piece(items, s[b..c]), ns, o1, o2)
  {
    hide SourceAll, ProperAll, NodesAll, OpenAfter;
    Slices(s, a, b, c, c);
  }

  // ---- one item of each kind ----

  lemma LeafBuilt(t: string, item: Item, o: seq<string>)
    requires (item == Run(t) && IsRun(t)) || (item == Verbatim(t) && (IsComment(t) || IsDoctype(t)))
    ensures BuiltOne(t, item, TextNodes(t), o, o)
  {
    hide SourceAll, TagSource, ChainSource, PieceSource, BlockSource, NodesAll, TagNodes, ChainNode, PieceNodes,
         BlockNodes, TextNodes, ProperAll, ProperPiece, ProperChain, ProperBlock, ProperTag, IsRun, IsComment,
         IsDoctype, IsClosing, IsIdent, Delimited, Trim, OpenAfter, OpenChain, OpenBlock, ClosingName, TagName,
         IsVoid, IsBuiltin, Braced, Parens;
  }

  lemma ClosingBuilt(t: string, o: seq<string>)
    requires IsClosing(t) && o != [] && Lower(o[|o| - 1]) == Lower(ClosingName(t))
    ensures BuiltOne(t, Closing(t), TextNodes(t), o, o[..|o| - 1])
  {
    hide SourceAll, TagSource, ChainSource, PieceSource, BlockSource, NodesAll, TagNodes, ChainNode, PieceNodes,
         BlockNodes, TextNodes, ProperAll, ProperPiece, ProperChain, ProperBlock, ProperTag, IsRun, IsComment,
         IsDoctype, IsClosing, IsIdent, Delimited, Trim, OpenAfter, OpenChain, OpenBlock, ClosingName, TagName,
         IsVoid, IsBuiltin, Braced, Parens;
  }

  lemma TagBuilt(tag: OpenTag, o: seq<string>)
    requires ProperTag(tag) && (!IsVoid(TagName(tag)) ==> |o| < MAX_DEPTH)
    ensures BuiltOne(TagSource(tag), Tag(tag), TagNodes(tag), o, if IsVoid(TagName(tag)) then o else o + [TagName(tag)])
  {
    hide SourceAll, TagSource, ChainSource, PieceSource, BlockSource, NodesAll, TagNodes, ChainNode, PieceNodes,
         BlockNodes, TextNodes, ProperAll, ProperPiece, ProperChain, ProperBlock, ProperTag, IsRun, IsComment,
         IsDoctype, IsClosing, IsIdent, Delimited, Trim, OpenAfter, OpenChain, OpenBlock, ClosingName, TagName,
         IsVoid, IsBuiltin, Braced, Parens;
  }

  lemma BracesBuilt(inner: string, o: seq<string>)
    requires IsExpr(inner)
    ensures BuiltOne(Braced(inner), Braces(inner), [InterpNode(inner, InText)], o, o)
  {
    hide SourceAll, TagSource, ChainSource, PieceSource, BlockSource, NodesAll, TagNodes, ChainNode, PieceNodes,
         BlockNodes, TextNodes, ProperAll, ProperPiece, ProperChain, ProperBlock, ProperTag, IsRun, IsComment,
         IsDoctype, IsClosing, IsIdent, Delimited, Trim, OpenAfter, OpenChain, OpenBlock, ClosingName, TagName,
         IsVoid, IsBuiltin, Braced, Parens;
  }

  lemma CallBuilt(callee: string, args: Option<string>, data: Option<string>, block: BlockPart, blockText: string,
                  ns: Nodes, o1: seq<string>, o2: seq<string>)
    requires IsIdent(callee) && (args.Some? ==> Delimited(args.value, MatchParen))
    requires BuiltBlock(blockText, data, block, ns, o1, o2)
    requires IsBuiltin(callee) ==>
               data.None? && args.Some? && Trim(args.value) != "" && (callee == "raw" <==> ns == Nil)
    ensures BuiltOne("@" + callee + (if args.Some? then Parens(args.value) else "") + blockText,
                     CallItem(callee, args, data, block),
                     [Call(callee, if args.Some? then Trim(args.value) else "", data, ns)], o1, o2)
  {
    hide SourceAll, TagSource, ChainSource, PieceSource, BlockSource, NodesAll, TagNodes, ChainNode, PieceNodes,
         BlockNodes, TextNodes, ProperAll, ProperPiece, ProperChain, ProperBlock, ProperTag, IsRun, IsComment,
         IsDoctype, IsClosing, IsIdent, Delimited, Trim, OpenAfter, OpenChain, OpenBlock, ClosingName, TagName,
         IsVoid, IsBuiltin, Braced, Parens;
  }

  lemma IfBuilt(lead: string, text: string, chain: Chain, n: Node, o1: seq<string>, o2: seq<string>)
    requires AllSpace(lead) && BuiltChain(text, chain, n, o1, o2)
    ensures BuiltOne(lead + "if" + text, IfItem(lead, chain), [n], o1, o2)
  {
    hide SourceAll, TagSource, ChainSource, PieceSource, BlockSource, NodesAll, TagNodes, ChainNode, PieceNodes,
         BlockNodes, TextNodes, ProperAll, ProperPiece, ProperChain, ProperBlock, ProperTag, IsRun, IsComment,
         IsDoctype, IsClosing, IsIdent, Delimited, Trim, OpenAfter, OpenChain, OpenBlock, ClosingName, TagName,
         IsVoid, IsBuiltin, Braced, Parens;
  }

  lemma ForBuilt(lead: string, head: string, text: string, body: Piece, ns: seq<Node>, o1: seq<string>, o2: seq<string>)
    requires AllSpace(lead) && Delimited(head, ToBrace) && Trim(head) != "" && BuiltPiece(text, body, ns, o1, o2)
    ensures BuiltOne(lead + "for" + head + Braced(text), ForItem(lead, head, body),
                     [For(Trim(head), ToNodes(ns))], o1, o2)
  {
    PieceIsBuilt(text, body, ns, o1, o2);
    hide SourceAll, TagSource, ChainSource, PieceSource, BlockSource, NodesAll, TagNodes, ChainNode, PieceNodes,
         BlockNodes, TextNodes, ProperAll, ProperPiece, ProperChain, ProperBlock, ProperTag, IsRun, IsComment,
         IsDoctype, IsClosing, IsIdent, Delimited, Trim, OpenAfter, OpenChain, OpenBlock, ClosingName, TagName,
         IsVoid, IsBuiltin, Braced, Parens;
  }

  lemma PieceIsBuilt(text: string, body: Piece, ns: seq<Node>, o1: seq<string>, o2: seq<string>)
    requires BuiltPiece(text, body, ns, o1, o2)
    ensures text == PieceSource(body) && ProperPiece(body) && ToNodes(ns) == PieceNodes(body) &&
            OpenAfter(body.items, o1) == Some(o2)
  {
    hide SourceAll, NodesAll, ProperPiece, ToNodes, OpenAfter;
  }

  // ---- if chains and child blocks ----

  lemma ChainBuilt(cond: string, text: string, body: Piece, ns: seq<Node>, restText: string, rest: ElsePart, no: Nodes,
                   o1: seq<string>, o2: seq<string>, o3: seq<string>)
    requires Delimited(cond, ToBrace) && Trim(cond) != "" && BuiltPiece(text, body, ns, o1, o2)
    requires BuiltElse(restText, rest, no, o2, o3)
    ensures BuiltChain(cond + Braced(text) + restText, Chain(cond, body, rest), If(Trim(cond), ToNodes(ns), no),
                       o1, o3)
  {
    PieceIsBuilt(text, body, ns, o1, o2);
    hide PieceSource, PieceNodes, ProperPiece, ElseSource, ElseNodes, ProperElse, OpenAfter, OpenElse, Delimited, Trim,
         ToNodes;
  }

  lemma ElseIfBuilt(gap: string, gap2: string, text: string, chain: Chain, n: Node, o1: seq<string>, o2: seq<string>)
    requires AllSpace(gap) && AllSpace(gap2) && BuiltChain(text, chain, n, o1, o2)
    ensures BuiltElse(gap + "else" + gap2 + "if" + text, ElseIf(gap, gap2, chain), Cons(n, Nil), o1, o2)
  {
    hide ChainSource, ChainNode, ProperChain, OpenChain;
  }

  lemma ElseBlockBuilt(gap: string, gap2: string, text: string, body: Piece, ns: seq<Node>, o1: seq<string>,
                       o2: seq<string>)
    requires AllSpace(gap) && AllSpace(gap2) && BuiltPiece(text, body, ns, o1, o2)
    ensures BuiltElse(gap + "else" + gap2 + Braced(text), ElseBlock(gap, gap2, body), ToNodes(ns), o1, o2)
  {
    PieceIsBuilt(text, body, ns, o1, o2);
    hide PieceSource, PieceNodes, ProperPiece, OpenAfter, ToNodes, BuiltPiece, Braced;
  }

  lemma NodesOfBlock(text: string, data: Option<string>, b: BlockPart, ns: Nodes, o1: seq<string>, o2: seq<string>)
    requires BuiltBlock(text, data, b, ns, o1, o2)
    ensures ns == BlockNodes(b)
  {
    hide BlockNodes, BlockSource, ProperBlock, OpenBlock;
  }

  lemma BlockBuilt(gap: string, text: string, body: Piece, ns: seq<Node>, o1: seq<string>, o2: seq<string>)
    requires AllSpace(gap) && BuiltPiece(text, body, ns, o1, o2)
    ensures BuiltBlock(gap + Braced(text), None, Block(gap, body), ToNodes(ns), o1, o2)
  {
    PieceIsBuilt(text, body, ns, o1, o2);
    hide PieceSource, PieceNodes, ProperPiece, OpenAfter, ToNodes, BuiltPiece, Braced;
  }

  lemma WithBlockBuilt(gap: string, gap2: string, inner: string, gap3: string, text: string, body: Piece, ns: seq<Node>,
                       o1: seq<string>, o2: seq<string>)
    requires AllSpace(gap) && AllSpace(gap2) && AllSpace(gap3) && Delimited(inner, MatchParen)
    requires BuiltPiece(text, body, ns, o1, o2)
    ensures BuiltBlock(gap + "with" + gap2 + Parens(inner) + gap3 + Braced(text), Some(Trim(inner)),
                       WithBlock(gap, gap2, inner, gap3, body), ToNodes(ns), o1, o2)
  {
    PieceIsBuilt(text, body, ns, o1, o2);
    hide PieceSource, PieceNodes, ProperPiece, OpenAfter, ToNodes, BuiltPiece, Delimited, Trim, Braced, Parens;
  }
}
