/** A printed body is read back: the parser accepts it and builds its nodes. */
module CtmplAccept {
  import opened Sequences
  import opened Wrappers
  import opened Chars
  import opened CtmplAst
  import opened CtmplScan
  import opened CtmplTag
  import opened CtmplSyntax
  import opened CtmplGrammar
  import opened CtmplFits
  import opened CtmplAcceptTag

  // ---- runs ----

  lemma {:induction false} TextEndIs(s: string, p: nat, e: nat)
    requires p <= e < |s| && Special(s[e]) && forall i :: p <= i < e ==> !Special(s[i])
    ensures TextEnd(s, p) == e
    decreases e - p
  {
    if p < e {
      TextEndIs(s, p + 1, e);
    }
  }

  /** A keyword seen in the source at the start of a run is seen in the run alone. */
  lemma KeywordInside(s: string, a: nat, k: nat, e: nat, kw: string)
    requires a <= k <= e < |s| && Special(s[e]) && KeywordAt(s, k, kw) &&
             forall i :: 0 <= i < |kw| ==> IsIdentChar(kw[i])
    ensures KeywordAt(s[a..e], k - a, kw)
  {
    Inner(s, a, e, k - a, k - a + |kw|);
  }

  lemma RunStands(s: string, p: nat, t: string, open: seq<string>)
    requires StartsAt(s, p, t) && IsRun(t)
    requires var c := CharAt(s, p + |t|); c == '<' || c == '{' || c == '@'
    ensures p < |s| && !BodyEnds(s, p) && CharAt(s, p) != '\0' && ItemAt(s, p, open) == Some(At(Run(t), p + |t|, open))
  {
    var e := p + |t|;
    RunChars(s, p, t);
    TextEndIs(s, p, e);
    NoStatement(s, p, e);
    hide IsRun, StartsStatement, WsEnd, TextEnd, BodyEnds, ItemAt, StartsAt;
    PlainStep(s, p, open);
  }

  lemma RunChars(s: string, p: nat, t: string)
    requires StartsAt(s, p, t) && IsRun(t)
    ensures p < p + |t| <= |s| && s[p..p + |t|] == t && forall i :: p <= i < p + |t| ==> !Special(s[i])
  {
    hide StartsStatement;
    forall i | p <= i < p + |t|
      ensures !Special(s[i])
    {
      assert s[i] == s[p..p + |t|][i - p];
    }
  }

  /** No statement begins at a run. */
  lemma NoStatement(s: string, p: nat, e: nat)
    requires p < e < |s| && Special(s[e]) && IsRun(s[p..e])
    ensures !StartsStatement(s, p)
  {
    WsEndLocal(s, p, p, e);
    var k := WsEnd(s, p);
    hide KeywordAt, WsEnd;
    if KeywordAt(s, k, "if") { KeywordInside(s, p, k, e, "if"); }
    if KeywordAt(s, k, "for") { KeywordInside(s, p, k, e, "for"); }
    if KeywordAt(s, k, "else") { KeywordInside(s, p, k, e, "else"); }
  }

  // ---- keywords ----

  /** White space and a keyword behind it. */
  lemma KeywordStands(s: string, p: nat, gap: string, kw: string)
    requires StartsAt(s, p, gap + kw) && AllSpace(gap) && kw != "" && IsIdentChar(kw[0]) &&
             !IsIdentChar(CharAt(s, p + |gap| + |kw|))
    ensures WsEnd(s, p) == p + |gap| && KeywordAt(s, p + |gap|, kw) && s[p..p + |gap|] == gap
  {
    StartsBoth(s, p, gap, kw);
    FirstChar(s, p + |gap|, kw);
    SpaceStands(s, p, gap);
  }

  lemma SpaceStands(s: string, p: nat, gap: string)
    requires StartsAt(s, p, gap) && AllSpace(gap) && (p + |gap| < |s| ==> !IsSpace(s[p + |gap|]))
    ensures WsEnd(s, p) == p + |gap| && s[p..p + |gap|] == gap
  {
    forall i | p <= i < p + |gap|
      ensures IsSpace(s[i])
    {
      assert s[i] == s[p..p + |gap|][i - p];
    }
    WsEndIs(s, p, p + |gap|);
  }

  lemma OneKeyword(s: string, k: nat)
    ensures KeywordAt(s, k, "if") ==> !KeywordAt(s, k, "else") && !KeywordAt(s, k, "for")
    ensures KeywordAt(s, k, "for") ==> !KeywordAt(s, k, "else")
  {
    if KeywordAt(s, k, "if") { KeywordFirst(s, k, "if"); }
    if KeywordAt(s, k, "for") { KeywordFirst(s, k, "for"); }
    if KeywordAt(s, k, "else") { KeywordFirst(s, k, "else"); }
  }

  // ---- items in order ----

  lemma {:induction false} InOrder(s: string, p: nat, items: seq<Item>, k: nat, open: seq<string>)
    requires k < |items| && StartsAt(s, p, SourceAll(items)) && ProperAll(items) && FitsAll(s, p, items)
    requires OpenAfter(items, open).Some?
    ensures OpenAfter(items[..k], open).Some? && OpenAfter(items[..k + 1], open).Some?
    ensures OpenItem(items[k], OpenAfter(items[..k], open).value) == OpenAfter(items[..k + 1], open)
    ensures |SourceAll(items[..k + 1])| == |SourceAll(items[..k])| + |Source(items[k])|
    ensures var q := p + |SourceAll(items[..k])|;
            StartsAt(s, q, Source(items[k])) && Proper(items[k]) && Fits(s, q, items[k])
    decreases |items|
  {
    hide Source, Proper, Fits, OpenItem;
    var init := items[..|items| - 1];
    StartsBoth(s, p, SourceAll(init), Source(items[|items| - 1]));
    if k < |items| - 1 {
      InOrder(s, p, init, k, open);
      assert init[..k] == items[..k] && init[..k + 1] == items[..k + 1] && init[k] == items[k];
    } else {
      assert items[..k] == init && items[..k + 1] == items;
    }
  }

  /** The body from item k on. */
  lemma {:induction false} BodyStands(s: string, p: nat, items: seq<Item>, k: nat, tail: string, open: seq<string>)
    requires k <= |items| && StartsAt(s, p, SourceAll(items) + tail + "}") && ProperAll(items) && AllSpace(tail)
    requires FitsAll(s, p, items) && OpenAfter(items, open).Some?
    ensures OpenAfter(items[..k], open).Some? && p + |SourceAll(items[..k])| <= |s|
    ensures BodyAt(s, p + |SourceAll(items[..k])|, OpenAfter(items[..k], open).value, items[..k]) ==
            Some(At(Piece(items, tail), p + |SourceAll(items)| + |tail|, OpenAfter(items, open).value))
    decreases items, |items| - k
  {
    hide SourceAll, ProperAll, FitsAll, OpenAfter, BodyAt, BodyEnds, ItemAt, OpenItem, Source, Proper, Fits;
    StartsBoth(s, p, SourceAll(items) + tail, "}");
    StartsBoth(s, p, SourceAll(items), tail);
    var q := p + |SourceAll(items[..k])|;
    if k == |items| {
      assert items[..k] == items;
      CharHere(s, q + |tail|, '}');
      SpaceStands(s, q, tail);
      EndsHere(s, q);
      BodyStep(s, q, OpenAfter(items, open).value, items);
    } else {
      InOrder(s, p, items, k, open);
      var mid := OpenAfter(items[..k], open).value;
      ItemStands(s, q, items[k], mid);
      BodyStep(s, q, mid, items[..k]);
      assert items[..k] + [items[k]] == items[..k + 1];
      BodyStands(s, p, items, k + 1, tail, open);
    }
  }

  lemma EndsHere(s: string, q: nat)
    requires q <= |s| && CharAt(s, WsEnd(s, q)) == '}'
    ensures BodyEnds(s, q)
  {
  }

  /** A body in braces. */
  lemma BlockStands(s: string, p: nat, body: Piece, open: seq<string>)
    requires StartsAt(s, p, Braced(PieceSource(body))) && ProperPiece(body) && FitsAll(s, p + 1, body.items)
    requires OpenAfter(body.items, open).Some?
    ensures p < |s| && s[p] == '{'
    ensures BlockAt(s, p, open) == Some(At(body, p + |PieceSource(body)| + 2, OpenAfter(body.items, open).value))
    decreases body, 0
  {
    hide SourceAll, ProperAll, FitsAll, OpenAfter, BodyAt;
    var inner := SourceAll(body.items) + body.tail;
    assert Braced(PieceSource(body)) == "{" + (inner + "}");
    StartsBoth(s, p, "{", inner + "}");
    CharHere(s, p, '{');
    BodyStands(s, p + 1, body.items, 0, body.tail, open);
    assert body.items[..0] == [];
    NoItems(open);
  }

  lemma NoItems(open: seq<string>)
    ensures OpenAfter([], open) == Some(open) && SourceAll([]) == ""
  {
  }

  // ---- single items ----

  lemma {:induction false} ItemStands(s: string, p: nat, item: Item, open: seq<string>)
    requires StartsAt(s, p, Source(item)) && Proper(item) && Fits(s, p, item) && OpenItem(item, open).Some?
    ensures p < |s| && !BodyEnds(s, p) && CharAt(s, p) != '\0'
    ensures ItemAt(s, p, open) == Some(At(item, p + |Source(item)|, OpenItem(item, open).value))
    decreases item, 0
  {
    hide ItemAt, BodyEnds, StartsAt, SourceAll, ProperAll, FitsAll, OpenAfter, ElementAt, InterpAt, CallAt, TagFits,
         TagSource, ProperTag, IsVoid, IsRaw, TagName, CloserAt, IsRun, IsComment, IsDoctype, IsClosing, Braced,
         Parens, PieceSource, ProperPiece, ChainSource, ProperChain, FitsChain, OpenChain, BlockSource, ProperBlock,
         FitsBlock, OpenBlock, Lower, ClosingName, Delimited, Trim, IsIdent, AllSpace;
    match item
    case Run(t) => RunStands(s, p, t, open);
    case Verbatim(t) =>
      VerbatimStands(s, p, t, open);
      ItemStep(s, p, open);
    case Closing(t) =>
      ClosingStands(s, p, t, open);
      ItemStep(s, p, open);
    case Tag(tag) =>
      TagStands(s, p, tag, open);
      ItemStep(s, p, open);
    case Braces(inner) =>
      BracedSize(inner);
      InterpStands(s, p, inner, true);
      ItemStep(s, p, open);
    case CallItem(callee, args, data, block) => CallStands(s, p, callee, args, data, block, open);
    case IfItem(lead, chain) => IfStands(s, p, lead, chain, open);
    case ForItem(lead, head, body) =>
      var block := Braced(PieceSource(body));
      BracedSize(PieceSource(body));
      Regroup(lead + "for", head, block);
      StartsBoth(s, p, lead + "for", head + block);
      ForStands(s, p, lead, head, body, open);
  }

  /** Code up to a brace, and a body in braces behind it. */
  lemma CodeStands(s: string, p: nat, code: string, body: Piece, open: seq<string>)
    requires StartsAt(s, p, code + Braced(PieceSource(body))) && Delimited(code, ToBrace)
    requires ProperPiece(body) && FitsAll(s, p + |code| + 1, body.items) && OpenAfter(body.items, open).Some?
    ensures p + |code| < |s| && Scan(s, p, 0, ToBrace) == Found(p + |code|) && s[p..p + |code|] == code
    ensures BlockAt(s, p + |code|, open) ==
            Some(At(body, p + |code| + |PieceSource(body)| + 2, OpenAfter(body.items, open).value))
    decreases body, 1
  {
    hide Scan, PieceSource, ProperPiece, FitsAll, OpenAfter, BlockAt;
    StartsBoth(s, p, code, Braced(PieceSource(body)));
    BlockStands(s, p + |code|, body, open);
    assert s[p..p + |code| + 1] == s[p..p + |code|] + [s[p + |code|]];
    DelimitedIsFound(s, p, code, ToBrace);
  }

  lemma IfStands(s: string, p: nat, lead: string, chain: Chain, open: seq<string>)
    requires StartsAt(s, p, lead + "if" + ChainSource(chain)) && AllSpace(lead) && ProperChain(chain)
    requires FitsChain(s, p + |lead| + 2, chain) && OpenChain(chain, open).Some?
    ensures p < |s| && !BodyEnds(s, p) && CharAt(s, p) != '\0'
    ensures ItemAt(s, p, open) ==
            Some(At(IfItem(lead, chain), p + |lead| + 2 + |ChainSource(chain)|, OpenChain(chain, open).value))
    decreases chain, 1
  {
    hide ChainSource, ProperChain, FitsChain, OpenChain, ChainAt, ForAt, ItemAt, BodyEnds, WsEnd, StartsAt,
         AllSpace, KeywordAt, IsIdentChar, Special;
    assert IsIdentChar('i') by { Letters(); }
    var k := p + |lead|;
    StartsBoth(s, p, lead + "if", ChainSource(chain));
    ChainStands(s, k + 2, chain, open);
    KeywordStands(s, p, lead, "if");
    OneKeyword(s, k);
    LeadChar(s, p, lead, "if");
    StatementStep(s, p, open);
  }

  /** A statement begins with white space or with its keyword. */
  lemma LeadChar(s: string, p: nat, lead: string, kw: string)
    requires StartsAt(s, p, lead + kw) && AllSpace(lead) && kw != "" && IsIdentChar(kw[0])
    ensures p < |s| && !Special(s[p]) && CharAt(s, p) != '\0'
  {
    FirstChar(s, p, lead + kw);
  }

  lemma ForStands(s: string, p: nat, lead: string, head: string, body: Piece, open: seq<string>)
    requires StartsAt(s, p, lead + "for") && StartsAt(s, p + |lead| + 3, head + Braced(PieceSource(body)))
    requires AllSpace(lead) && Delimited(head, ToBrace)
    requires Trim(head) != "" && ProperPiece(body) && !IsIdentChar(CharAt(head, 0))
    requires FitsAll(s, p + |lead| + 3 + |head| + 1, body.items) && OpenAfter(body.items, open).Some?
    ensures p < |s| && !BodyEnds(s, p) && CharAt(s, p) != '\0'
    ensures ItemAt(s, p, open) ==
            Some(At(ForItem(lead, head, body), p + |lead| + 3 + |head| + |PieceSource(body)| + 2,
                    OpenAfter(body.items, open).value))
    decreases body, 2
  {
    hide PieceSource, ProperPiece, FitsAll, OpenAfter, ItemAt, BodyEnds, WsEnd, BlockAt, Scan, StartsAt, AllSpace,
         KeywordAt, IsIdentChar, Special, Braced, ChainAt, ForAt, Delimited, Trim, CharAt;
    var k := p + |lead|;
    assert IsIdentChar('f') by { Letters(); }
    CodeStands(s, k + 3, head, body, open);
    ForReads(s, k + 3, head, body, open);
    NotIdent(s, k + 3, head);
    KeywordStands(s, p, lead, "for");
    OneKeyword(s, k);
    LeadChar(s, p, lead, "for");
    StatementStep(s, p, open);
  }

  lemma ForReads(s: string, p: nat, head: string, body: Piece, open: seq<string>)
    requires p + |head| < |s| && Scan(s, p, 0, ToBrace) == Found(p + |head|) && s[p..p + |head|] == head &&
             Trim(head) != ""
    requires BlockAt(s, p + |head|, open).Some? && BlockAt(s, p + |head|, open).value.value == body
    ensures var r := BlockAt(s, p + |head|, open).value;
            ForAt(s, p, open) == Some(At(ForPart(head, body), r.end, r.open))
  {
    hide Scan, BlockAt, Trim;
  }

  lemma Letters()
    ensures IsIdentChar('i') && IsIdentChar('f') && IsIdentChar('e') && IsIdentChar('w')
  {
  }

  lemma BracedSize(t: string)
    ensures |Braced(t)| == |t| + 2
  {
  }

  /** The character behind a keyword: the first of the code behind it. */
  lemma NotIdent(s: string, p: nat, code: string)
    requires p + |code| < |s| && s[p..p + |code|] == code && s[p + |code|] == '{' && !IsIdentChar(CharAt(code, 0))
    ensures !IsIdentChar(CharAt(s, p))
  {
    assert code != "" ==> s[p] == s[p..p + |code|][0];
  }

  lemma {:induction false} ChainStands(s: string, p: nat, c: Chain, open: seq<string>)
    requires StartsAt(s, p, ChainSource(c)) && ProperChain(c) && FitsChain(s, p, c) && OpenChain(c, open).Some?
    ensures p <= |s| && !IsIdentChar(CharAt(s, p))
    ensures ChainAt(s, p, open) == Some(At(c, p + |ChainSource(c)|, OpenChain(c, open).value))
    decreases c, 0
  {
    hide PieceSource, ProperPiece, FitsAll, OpenAfter, BlockAt, Scan, Trim, Delimited, ElseSource, ProperElse,
         FitsElse, OpenElse, ElseAt, StartsAt, Braced, IsIdentChar;
    var body := Braced(PieceSource(c.body));
    BracedSize(PieceSource(c.body));
    StartsBoth(s, p, c.cond + body, ElseSource(c.rest));
    CodeStands(s, p, c.cond, c.body, open);
    NotIdent(s, p, c.cond);
    ElseStands(s, p + |c.cond| + |PieceSource(c.body)| + 2, c.rest, OpenAfter(c.body.items, open).value);
  }

  lemma {:induction false} ElseStands(s: string, p: nat, e: ElsePart, open: seq<string>)
    requires StartsAt(s, p, ElseSource(e)) && ProperElse(e) && FitsElse(s, p, e) && OpenElse(e, open).Some?
    ensures p <= |s| && ElseAt(s, p, open) == Some(At(e, p + |ElseSource(e)|, OpenElse(e, open).value))
    decreases e, 0
  {
    hide PieceSource, ProperPiece, FitsAll, OpenAfter, ElseAt, ChainSource, ProperChain, FitsChain, OpenChain, WsEnd,
         KeywordAt, Braced, StartsAt, AllSpace;
    match e
    case NoElse => NoElseStands(s, p, open);
    case ElseIf(gap, gap2, chain) =>
      ElseTexts(s, p, gap, gap2, "if", ChainSource(chain));
      ElseIfStands(s, p, gap, gap2, chain, open);
    case ElseBlock(gap, gap2, body) =>
      BracedSize(PieceSource(body));
      assert gap + "else" + gap2 + "" == gap + "else" + gap2 && gap2 + "" == gap2;
      ElseTexts(s, p, gap, gap2, "", Braced(PieceSource(body)));
      ElseBlockStands(s, p, gap, gap2, body, open);
  }

  lemma NoElseStands(s: string, p: nat, open: seq<string>)
    requires p <= |s| && !KeywordAt(s, WsEnd(s, p), "else")
    ensures ElseAt(s, p, open) == Some(At(NoElse, p, open))
  {
    hide KeywordAt, WsEnd;
  }

  lemma ElseTexts(s: string, p: nat, gap: string, gap2: string, kw: string, rest: string)
    requires StartsAt(s, p, gap + "else" + gap2 + kw + rest)
    ensures var h := p + |gap| + 4;
            StartsAt(s, p, gap + "else") && StartsAt(s, h, gap2 + kw) && StartsAt(s, h, gap2) &&
            StartsAt(s, h + |gap2| + |kw|, rest)
  {
    hide StartsAt;
    StartsBoth(s, p, gap + "else" + gap2 + kw, rest);
    Regroup(gap + "else", gap2, kw);
    StartsBoth(s, p, gap + "else", gap2 + kw);
    StartsBoth(s, p + |gap| + 4, gap2, kw);
  }

  lemma ElseIfStands(s: string, p: nat, gap: string, gap2: string, chain: Chain, open: seq<string>)
    requires var h := p + |gap| + 4;
             StartsAt(s, p, gap + "else") && StartsAt(s, h, gap2 + "if") &&
               StartsAt(s, h + |gap2| + 2, ChainSource(chain))
    requires AllSpace(gap) && AllSpace(gap2) && gap2 != ""
    requires ProperChain(chain) && FitsChain(s, p + |gap| + 4 + |gap2| + 2, chain) && OpenChain(chain, open).Some?
    ensures p <= |s|
    ensures ElseAt(s, p, open) ==
            Some(At(ElseIf(gap, gap2, chain), p + |gap| + 4 + |gap2| + 2 + |ChainSource(chain)|,
              OpenChain(chain, open).value))
    decreases chain, 1
  {
    hide ChainSource, ProperChain, FitsChain, OpenChain, WsEnd, KeywordAt, StartsAt, IsIdentChar, ElseAt, ChainAt;
    var h := p + |gap| + 4;
    Letters();
    assert !IsIdentChar(gap2[0]) by { SpaceIsNoLetter(gap2[0]); }
    hide AllSpace;
    FirstChar(s, h, gap2 + "if");
    KeywordStands(s, p, gap, "else");
    ChainStands(s, h + |gap2| + 2, chain, open);
    KeywordStands(s, h, gap2, "if");
    ElseIfReads(s, p, open, p + |gap|, h + |gap2|);
  }

  lemma ElseIfReads(s: string, p: nat, open: seq<string>, g: nat, k: nat)
    requires p <= g && g + 4 <= k && k + 2 <= |s| && WsEnd(s, p) == g && KeywordAt(s, g, "else")
    requires WsEnd(s, g + 4) == k && KeywordAt(s, k, "if") && ChainAt(s, k + 2, open).Some?
    ensures var r := ChainAt(s, k + 2, open).value;
            ElseAt(s, p, open) == Some(At(ElseIf(s[p..g], s[g + 4..k], r.value), r.end, r.open))
  {
    hide WsEnd, KeywordAt, ChainAt, BlockAt;
  }

  lemma ElseBlockReads(s: string, p: nat, open: seq<string>, g: nat, k: nat)
    requires p <= g && g + 4 <= k < |s| && WsEnd(s, p) == g && KeywordAt(s, g, "else")
    requires WsEnd(s, g + 4) == k && !KeywordAt(s, k, "if") && s[k] == '{' && BlockAt(s, k, open).Some?
    ensures var r := BlockAt(s, k, open).value;
            ElseAt(s, p, open) == Some(At(ElseBlock(s[p..g], s[g + 4..k], r.value), r.end, r.open))
  {
    hide WsEnd, KeywordAt, ChainAt, BlockAt;
  }

  lemma SpaceIsNoLetter(c: char)
    requires IsSpace(c)
    ensures !IsIdentChar(c)
  {
  }

  lemma ElseBlockStands(s: string, p: nat, gap: string, gap2: string, body: Piece, open: seq<string>)
    requires var h := p + |gap| + 4;
             StartsAt(s, p, gap + "else") && StartsAt(s, h, gap2) && StartsAt(s, h + |gap2|, Braced(PieceSource(body)))
    requires AllSpace(gap) && AllSpace(gap2)
    requires ProperPiece(body) && FitsAll(s, p + |gap| + 4 + |gap2| + 1, body.items) &&
             OpenAfter(body.items, open).Some?
    ensures p <= |s|
    ensures ElseAt(s, p, open) ==
            Some(At(ElseBlock(gap, gap2, body), p + |gap| + 4 + |gap2| + |PieceSource(body)| + 2,
              OpenAfter(body.items, open).value))
    decreases body, 1
  {
    hide PieceSource, ProperPiece, FitsAll, OpenAfter, BlockAt, WsEnd, KeywordAt, StartsAt, IsIdentChar, AllSpace,
         Braced, IsSpace, ElseAt;
    var h := p + |gap| + 4;
    Letters();
    BlockStands(s, h + |gap2|, body, open);
    NoKeyword(s, h + |gap2|);
    SpaceStands(s, h, gap2);
    AfterGap(s, h, gap2);
    KeywordStands(s, p, gap, "else");
    ElseBlockReads(s, p, open, p + |gap|, h + |gap2|);
  }

  lemma AfterGap(s: string, h: nat, gap: string)
    requires StartsAt(s, h, gap) && AllSpace(gap) && h + |gap| < |s| && s[h + |gap|] == '{'
    ensures !IsIdentChar(CharAt(s, h))
  {
    if gap != "" {
      FirstChar(s, h, gap);
    }
  }

  lemma NoKeyword(s: string, k: nat)
    requires k < |s| && (s[k] == '{' || s[k] == '(')
    ensures !KeywordAt(s, k, "if") && !KeywordAt(s, k, "with") && !IsSpace(s[k])
  {
    if KeywordAt(s, k, "if") { KeywordFirst(s, k, "if"); }
    if KeywordAt(s, k, "with") { KeywordFirst(s, k, "with"); }
  }

  // ---- calls ----

  lemma {:induction false} BehindStands(s: string, p: nat, data: Option<string>, b: BlockPart, open: seq<string>)
    requires StartsAt(s, p, BlockSource(b)) && ProperBlock(data, b) && FitsBlock(s, p, data, b) &&
             OpenBlock(b, open).Some?
    ensures p <= |s|
    ensures BehindAt(s, p, open) == Some(At(Behind(data, b), p + |BlockSource(b)|, OpenBlock(b, open).value))
    decreases b, 0
  {
    hide PieceSource, ProperPiece, FitsAll, OpenAfter, BehindAt, WsEnd, KeywordAt, Scan, Trim, Delimited, Braced,
         Parens, StartsAt, AllSpace, NoBlockAt;
    match b
    case NoBlock => NoBlockStands(s, p, data, open);
    case Block(gap, body) => PlainBlockStands(s, p, gap, body, open);
    case WithBlock(gap, gap2, inner, gap3, body) =>
      ParensSize(inner);
      BracedSize(PieceSource(body));
      WithTexts(s, p, gap, gap2, Parens(inner), gap3, Braced(PieceSource(body)));
      WithStands(s, p, gap, gap2, inner, gap3, body, open);
  }

  lemma NoBlockStands(s: string, p: nat, data: Option<string>, open: seq<string>)
    requires p <= |s| && NoBlockAt(s, p, data)
    ensures BehindAt(s, p, open) == Some(At(Behind(data, NoBlock), p, open))
  {
    hide BlockAt, WsEnd, KeywordAt, Scan, Trim;
  }

  lemma PlainBlockStands(s: string, p: nat, gap: string, body: Piece, open: seq<string>)
    requires StartsAt(s, p, gap + Braced(PieceSource(body))) && AllSpace(gap) && ProperPiece(body)
    requires FitsAll(s, p + |gap| + 1, body.items) && OpenAfter(body.items, open).Some?
    ensures p <= |s|
    ensures BehindAt(s, p, open) ==
            Some(At(Behind(None, Block(gap, body)), p + |gap| + |Braced(PieceSource(body))|,
              OpenAfter(body.items, open).value))
    decreases body, 1
  {
    hide PieceSource, ProperPiece, FitsAll, OpenAfter, BlockAt, WsEnd, KeywordAt, Scan, Trim, Braced, StartsAt,
         AllSpace, IsSpace;
    BracedSize(PieceSource(body));
    StartsBoth(s, p, gap, Braced(PieceSource(body)));
    BlockStands(s, p + |gap|, body, open);
    NoKeyword(s, p + |gap|);
    SpaceStands(s, p, gap);
  }

  lemma ParensStand(s: string, p: nat, inner: string)
    requires StartsAt(s, p, Parens(inner)) && Delimited(inner, MatchParen)
    ensures p + |inner| + 2 <= |s| && s[p] == '(' && Scan(s, p + 1, 1, MatchParen) == Found(p + 1 + |inner|)
    ensures s[p + 1..p + 1 + |inner|] == inner
  {
    hide Scan, Delimited;
    assert Parens(inner) == "(" + (inner + [')']);
    StartsBoth(s, p, "(", inner + [')']);
    CharHere(s, p, '(');
    DelimitedIsFound(s, p + 1, inner, MatchParen);
    StartsBoth(s, p + 1, inner, [')']);
  }

  lemma WithTexts(s: string, p: nat, gap: string, gap2: string, inner: string, gap3: string, rest: string)
    requires StartsAt(s, p, gap + "with" + gap2 + inner + gap3 + rest)
    ensures var w := p + |gap|;
            var a := w + 4 + |gap2|;
            var z := a + |inner|;
            StartsAt(s, p, gap + "with") && StartsAt(s, w + 4, gap2) && StartsAt(s, a, inner) && StartsAt(s, z, gap3) &&
            StartsAt(s, z + |gap3|, rest)
  {
    hide StartsAt;
    StartsBoth(s, p, gap + "with" + gap2 + inner + gap3, rest);
    StartsBoth(s, p, gap + "with" + gap2 + inner, gap3);
    StartsBoth(s, p, gap + "with" + gap2, inner);
    StartsBoth(s, p, gap + "with", gap2);
  }

  lemma WithStands(s: string, p: nat, gap: string, gap2: string, inner: string, gap3: string, body: Piece,
                   open: seq<string>)
    requires var w := p + |gap|;
             var a := w + 4 + |gap2|;
             var z := a + |inner| + 2;
             StartsAt(s, p, gap + "with") && StartsAt(s, w + 4, gap2) && StartsAt(s, a, Parens(inner)) &&
               StartsAt(s, z, gap3) &&
             StartsAt(s, z + |gap3|, Braced(PieceSource(body))) && FitsAll(s, z + |gap3| + 1, body.items)
    requires AllSpace(gap) && AllSpace(gap2) && AllSpace(gap3) && Delimited(inner, MatchParen) && ProperPiece(body)
    requires OpenAfter(body.items, open).Some?
    ensures p <= |s|
    ensures BehindAt(s, p, open) ==
            Some(At(Behind(Some(Trim(inner)), WithBlock(gap, gap2, inner, gap3, body)),
                    p + |gap| + 4 + |gap2| + |inner| + 2 + |gap3| + |PieceSource(body)| + 2,
                      OpenAfter(body.items, open).value))
    decreases body, 1
  {
    hide PieceSource, ProperPiece, FitsAll, OpenAfter, BlockAt, WsEnd, KeywordAt, Scan, Trim, Delimited, Braced,
         Parens, BehindAt, StartsAt, AllSpace, IsIdentChar, IsSpace;
    Letters();
    var w := p + |gap|;
    var a := w + 4 + |gap2|;
    var z := a + 1 + |inner|;
    var b := z + 1 + |gap3|;
    BlockStands(s, b, body, open);
    ParensStand(s, a, inner);
    NoKeyword(s, b);
    NoKeyword(s, a);
    SpaceStands(s, z + 1, gap3);
    SpaceStands(s, w + 4, gap2);
    GapThenParen(s, w + 4, gap2);
    KeywordStands(s, p, gap, "with");
    BehindWith(s, p, open, w, a, z, b);
  }

  lemma ParensSize(inner: string)
    ensures |Parens(inner)| == |inner| + 2
  {
  }

  lemma GapThenParen(s: string, h: nat, gap: string)
    requires StartsAt(s, h, gap) && AllSpace(gap) && h + |gap| < |s| && s[h + |gap|] == '('
    ensures !IsIdentChar(CharAt(s, h))
  {
    if gap != "" {
      FirstChar(s, h, gap);
    }
  }

  lemma BehindWith(s: string, p: nat, open: seq<string>, w: nat, a: nat, z: nat, b: nat)
    requires p <= w && w + 4 <= a < z < b + 1 <= |s| && b < |s|
    requires WsEnd(s, p) == w && KeywordAt(s, w, "with") && WsEnd(s, w + 4) == a && s[a] == '('
    requires Scan(s, a + 1, 1, MatchParen) == Found(z) && WsEnd(s, z + 1) == b && s[b] == '{' &&
             BlockAt(s, b, open).Some?
    ensures var r := BlockAt(s, b, open).value;
            BehindAt(s, p, open) ==
            Some(At(Behind(Some(Trim(s[a + 1..z])), WithBlock(s[p..w], s[w + 4..a], s[a + 1..z], s[z + 1..b], r.value)),
                    r.end, r.open))
  {
    hide BlockAt, WsEnd, KeywordAt, Scan, Trim;
  }

  lemma {:induction false} IdentEndIs(s: string, p: nat, e: nat)
    requires p <= e <= |s| && (forall i :: p <= i < e ==> IsIdentChar(s[i])) && !IsIdentChar(CharAt(s, e))
    ensures IdentEnd(s, p) == e
    decreases e - p
  {
    if p < e {
      IdentEndIs(s, p + 1, e);
    }
  }

  lemma IdentStands(s: string, p: nat, callee: string)
    requires StartsAt(s, p, callee) && IsIdent(callee) && !IsIdentChar(CharAt(s, p + |callee|))
    ensures IsIdentStart(CharAt(s, p)) && IdentEnd(s, p) == p + |callee| && s[p..p + |callee|] == callee
  {
    forall i | p <= i < p + |callee|
      ensures s[i] == callee[i - p]
    {
      assert s[i] == s[p..p + |callee|][i - p];
    }
    IdentEndIs(s, p, p + |callee|);
  }

  lemma ArgsStand(s: string, p: nat, args: Option<string>)
    requires p <= |s| && StartsAt(s, p, if args.Some? then Parens(args.value) else "")
    requires if args.Some? then Delimited(args.value, MatchParen) else CharAt(s, p) != '('
    ensures ArgsAt(s, p) == Some((args, p + if args.Some? then |args.value| + 2 else 0))
  {
    hide Scan, Delimited, Parens;
    if args.Some? {
      ParensStand(s, p, args.value);
    }
  }

  lemma CallTexts(s: string, p: nat, callee: string, text: string, rest: string)
    requires StartsAt(s, p, "@" + callee + text + rest)
    ensures var n := p + 1 + |callee|;
            p < |s| && s[p] == '@' && StartsAt(s, p + 1, callee) && StartsAt(s, n, text) &&
              StartsAt(s, n + |text|, rest)
  {
    hide StartsAt;
    StartsBoth(s, p, "@" + callee + text, rest);
    StartsBoth(s, p, "@" + callee, text);
    StartsBoth(s, p, "@", callee);
    CharHere(s, p, '@');
  }

  lemma CallReads(s: string, p: nat, callee: string, args: Option<string>, b: nat, behind: Behind, e: nat,
                  open: seq<string>,
                  after: seq<string>)
    requires p < |s| && s[p] == '@' && IsIdentStart(CharAt(s, p + 1)) && p + 1 + |callee| <= |s| && b <= |s|
    requires IdentEnd(s, p + 1) == p + 1 + |callee| && s[p + 1..p + 1 + |callee|] == callee
    requires ArgsAt(s, p + 1 + |callee|) == Some((args, b)) && BehindAt(s, b, open) == Some(At(behind, e, after))
    requires BuiltinOk(callee, args, behind)
    ensures CallAt(s, p, open) == Some(At(CallItem(callee, args, behind.data, behind.part), e, after))
  {
    hide IdentEnd, ArgsAt, BehindAt, BuiltinOk, IsIdentStart;
  }

  lemma CallStands(s: string, p: nat, callee: string, args: Option<string>, data: Option<string>, block: BlockPart,
                   open: seq<string>)
    requires var item := CallItem(callee, args, data, block);
             StartsAt(s, p, Source(item)) && Proper(item) && Fits(s, p, item) && OpenBlock(block, open).Some?
    ensures var item := CallItem(callee, args, data, block);
            p < |s| && !BodyEnds(s, p) && CharAt(s, p) != '\0' &&
            ItemAt(s, p, open) == Some(At(item, p + |Source(item)|, OpenBlock(block, open).value))
    decreases block, 1
  {
    hide Trim, Delimited, Parens, IsIdent, BlockSource, ProperBlock, FitsBlock, OpenBlock, BlockNodes, IdentEnd,
         ArgsAt, BehindAt, ItemAt, BodyEnds, StartsAt, IsIdentChar, IsIdentStart, CallAt, IsBuiltin;
    var text := if args.Some? then Parens(args.value) else "";
    var n := p + 1 + |callee|;
    if args.Some? {
      ParensSize(args.value);
    }
    CallTexts(s, p, callee, text, BlockSource(block));
    IdentStands(s, p + 1, callee);
    ArgsStand(s, n, args);
    BehindStands(s, n + |text|, data, block, open);
    var e := n + |text| + |BlockSource(block)|;
    CallReads(s, p, callee, args, n + |text|, Behind(data, block), e, open, OpenBlock(block, open).value);
    ItemStep(s, p, open);
  }

  // ---- the main result ----

  /**
   * A body that is well formed, whose neighbouring items keep their look-ahead apart and whose tags
   * nest and are all closed, is accepted in front of a closing brace, and its items are read back.
   */
  lemma ParseUndoesPrint(s: string, p: nat, piece: Piece)
    requires StartsAt(s, p, PieceSource(piece) + "}") && ProperPiece(piece) && FitsAll(s, p, piece.items)
    requires OpenAfter(piece.items, []) == Some([])
    ensures p <= |s| && ComponentAt(s, p) == Some(At(piece, p + |PieceSource(piece)| + 1, []))
  {
    hide SourceAll, ProperAll, FitsAll, OpenAfter, BodyAt;
    BodyStands(s, p, piece.items, 0, piece.tail, []);
    assert piece.items[..0] == [];
    NoItems([]);
  }
}
