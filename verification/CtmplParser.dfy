/**
 * The recursive-descent parser for template bodies. Each method returns the nodes it appends and,
 * as ghost results, the concrete syntax it has consumed byte for byte.
 */
module CtmplParser {
  import opened Sequences
  import opened Wrappers
  import opened Chars
  import opened CtmplAst
  import opened CtmplScan
  import opened CtmplTag
  import opened CtmplReading
  import opened CtmplSyntax
  import opened CtmplGrammar
  import opened CtmplCursor
  import opened CtmplBuilt

  /** An open tag and where it began. */
  datatype Frame = Frame(name: string, pos: nat)

  function Names(tags: seq<Frame>): (r: seq<string>)
    ensures |r| == |tags|
  {
    if tags == [] then [] else Names(tags[..|tags| - 1]) + [tags[|tags| - 1].name]
  }

  lemma NamesPushPop(tags: seq<Frame>, f: Frame)
    ensures Names(tags + [f]) == Names(tags) + [f.name]
    ensures tags != [] ==> Names(tags[..|tags| - 1]) == Names(tags)[..|tags| - 1]
    ensures tags != [] ==> Names(tags)[|tags| - 1] == tags[|tags| - 1].name
  {
    assert (tags + [f])[..|tags|] == tags;
  }

  /** Every open tag began inside the source. */
  predicate FramesInside(tags: seq<Frame>, n: nat) {
    forall i :: 0 <= i < |tags| ==> tags[i].pos < n
  }

  // ---- what a run looks like from inside ----

  lemma KeywordLocal(s: string, a: nat, p: nat, e: nat, kw: string)
    requires a <= p <= e < |s| && Special(s[e]) && KeywordAt(s[a..e], p - a, kw)
    ensures KeywordAt(s, p, kw)
  {
    Inner(s, a, e, p - a, p - a + |kw|);
  }

  lemma RunLocal(s: string, a: nat, e: nat)
    requires a < e < |s| && Special(s[e]) && !StartsStatement(s, a)
    requires forall i :: a <= i < e ==> !Special(s[i])
    ensures IsRun(s[a..e])
  {
    WsEndLocal(s, a, a, e);
    var t, k := s[a..e], WsEnd(s, a);
    if KeywordAt(t, k - a, "if") { KeywordLocal(s, a, k, e, "if"); }
    if KeywordAt(t, k - a, "for") { KeywordLocal(s, a, k, e, "for"); }
    if KeywordAt(t, k - a, "else") { KeywordLocal(s, a, k, e, "else"); }
  }

  class Parser {
    const src: string
    const c: Cursor
    var tags: seq<Frame>

    ghost predicate Valid()
      reads this, c
    {
      c.src == src && c.Located() && |tags| <= MAX_DEPTH && FramesInside(tags, |src|)
    }

    constructor (text: string)
      ensures Valid() && fresh(c) && src == text && c.pos == 0 && tags == []
    {
      src := text;
      c := new Cursor(text);
      tags := [];
    }

    /** The source from one position to another. */
    ghost function Slice(from: nat, to: nat): string {
      if from <= to <= |src| then src[from..to] else ""
    }

    /** Looks past white space without moving. */
    method EndOfSpace(p: nat) returns (k: nat)
      requires p <= |src|
      ensures k == WsEnd(src, p)
    {
      k := p;
      while k < |src| && IsSpace(src[k])
        invariant k <= |src| && WsEnd(src, k) == WsEnd(src, p)
        decreases |src| - k
      {
        k := k + 1;
      }
    }

    // ---- expressions ----

    method ParseInterp(ctx: Context) returns (ok: bool, n: Node, ghost inner: string)
      requires Valid() && c.Peek() == '{' && c.pos < |src|
      modifies c
      ensures Valid() && old(c.pos) < c.pos
      ensures ok <==> InterpAt(src, old(c.pos), ctx == InText).Some?
      ensures ok ==> InterpAt(src, old(c.pos), ctx == InText) == Some(c.pos)
      ensures ok ==> inner == Slice(old(c.pos) + 1, c.pos - 1)
      ensures ok ==> Slice(old(c.pos), c.pos) == "{" + inner + "}" && n == InterpNode(inner, ctx) && IsExpr(inner)
      ensures ok && ctx != InText ==> Trim(inner) != "children..."
      ensures !ok ==> c.err.Some?
    {
      hide LineAt, LineStartAt, FramesInside, Trim, Scan;
      ghost var p := c.pos;
      c.Advance();
      var good, start, end := c.ScanC(MatchBrace);
      ok, n, inner := false, Children, "";
      if !good {
        return;
      }
      var expr := Trim(src[start..end]);
      inner := src[start..end];
      FoundIsDelimited(src, start, end, MatchBrace);
      BracedAt(p, end + 1);
      if expr == "children..." {
        if ctx != InText {
          c.Report();
          return;
        }
        n := Children;
      } else if expr == "" {
        c.Report();
        return;
      } else {
        n := Interp(expr, ctx);
      }
      ok := true;
    }

    /** The context of an attribute; None (reported) where expressions are refused. */
    method ClassifyAttr(from: nat, to: nat) returns (ctx: Option<Context>)
      requires Valid() && from <= |src| && to <= |src|
      modifies c`err
      ensures Valid()
      ensures ctx == ClassifyAt(src, from, to)
      ensures ctx.Some? ==> ctx != Some(InText)
      ensures ctx.None? ==> c.err.Some?
      ensures ctx.Some? ==> c.err == old(c.err)
    {
      hide LineAt, LineStartAt, FramesInside, Lower;
      var len: int := to - from;
      if len == 0 {
        return Some(InAttr);
      }
      var long := len < 0;   // the length of a name that ends before it starts wraps around
      ghost var name := if long then "" else src[from..to];
      if !long {
        assert len >= 3 ==> src[from..from + 2] == name[..2];
        assert len >= 6 ==> src[from..from + 6] == name[..6];
      }
      if ((long || len >= 3) && StartsNoCase(src, from, "on")) ||
        ((long || len >= 6) && StartsNoCase(src, from, "hx-on:")) {
        c.Report();
        return None;
      }
      var i := 0;
      while i < |URLS|
        invariant 0 <= i <= |URLS|
        invariant !long ==> forall k :: 0 <= k < i ==> Lower(name) != URLS[k]
      {
        if |URLS[i]| == len && Lower(src[from..to]) == URLS[i] {
          return Some(InUrl);
        }
        i := i + 1;
      }
      if len == 5 && Lower(src[from..to]) == "style" {
        return Some(InCss);
      }
      return Some(InAttr);
    }

    // ---- comments, doctypes, closing tags ----

    lemma CommentText(start: nat, at: nat)
      requires StartsAt(src, start, "<!--") && start < at && StartsAt(src, at, "-->")
      requires forall i :: start + 1 <= i < at ==> !StartsAt(src, i, "-->")
      ensures at + 3 <= |src| && IsComment(src[start..at + 3])
    {
      var t := src[start..at + 3];
      assert src[start..start + 4] == "<!--" && src[at..at + 3] == "-->";
      assert src[start] == '<' && src[start + 1] == '!' && src[start + 2] == '-';
      assert src[at] == '-';
      Inner(src, start, at + 3, 0, 4);
      Inner(src, start, at + 3, at - start, at + 3 - start);
      forall i | 1 <= i < |t| - 3 ensures !StartsAt(t, i, "-->") {
        Inner(src, start, at + 3, i, i + 3);
        assert !StartsAt(src, start + i, "-->");
      }
    }

    /** Moves behind the end of a comment. */
    method PastComment() returns (ok: bool)
      requires Valid()
      modifies c
      ensures Valid() && old(c.pos) <= c.pos
      ensures ok <==> FindAt(src, old(c.pos), "-->") < |src|
      ensures ok ==> c.pos == FindAt(src, old(c.pos), "-->") + 3
      ensures !ok ==> c.err.Some?
    {
      hide LineAt, LineStartAt, FramesInside;
      while c.pos < |src| && !StartsAt(src, c.pos, "-->")
        invariant Valid() && old(c.pos) <= c.pos
        invariant FindAt(src, old(c.pos), "-->") == FindAt(src, c.pos, "-->")
        decreases |src| - c.pos
      {
        c.Advance();
      }
      ok := c.pos < |src|;
      if ok {
        c.AdvanceN(3);
      } else {
        c.Report();
      }
    }

    method ParseComment() returns (ok: bool, ns: seq<Node>, ghost item: Item)
      requires Valid() && StartsAt(src, c.pos, "<!--")
      modifies c
      ensures Valid() && old(c.pos) < c.pos
      ensures ok <==> FindAt(src, old(c.pos) + 1, "-->") < |src|
      ensures ok ==> c.pos == FindAt(src, old(c.pos) + 1, "-->") + 3 && item == Verbatim(src[old(c.pos)..c.pos])
      ensures ok ==> BuiltOne(Slice(old(c.pos), c.pos), item, ns, Names(tags), Names(tags))
      ensures !ok ==> c.err.Some?
    {
      hide LineAt, LineStartAt, FramesInside, BuiltOne, TextNodes, Names, FindAt;
      var start := c.pos;
      assert src[start..start + 4] == "<!--";
      c.Advance();
      ok := PastComment();
      ns, item := [], Run("");
      if ok {
        CommentText(start, c.pos - 3);
        ghost var t := src[start..c.pos];
        LeafBuilt(t, Verbatim(t), Names(tags));
        ns, item := TextNodes(src[start..c.pos]), Verbatim(t);
      }
    }

    /** Moves behind the next '>'. */
    method PastGreater(start: nat) returns (ok: bool)
      requires Valid() && start <= c.pos
      modifies c
      ensures Valid() && old(c.pos) <= c.pos
      ensures ok <==> FindAt(src, old(c.pos), ">") < |src|
      ensures ok ==> c.pos == FindAt(src, old(c.pos), ">") + 1
      ensures ok ==> c.pos > old(c.pos) && src[c.pos - 1] == '>' &&
                     forall i :: old(c.pos) <= i < c.pos - 1 ==> src[i] != '>'
      ensures !ok ==> c.err.Some?
    {
      hide LineAt, LineStartAt, FramesInside;
      while c.pos < |src| && src[c.pos] != '>'
        invariant Valid() && old(c.pos) <= c.pos
        invariant forall i :: old(c.pos) <= i < c.pos ==> src[i] != '>'
        invariant FindAt(src, old(c.pos), ">") == FindAt(src, c.pos, ">")
        decreases |src| - c.pos
      {
        assert src[c.pos..c.pos + 1][0] != '>';
        c.Advance();
      }
      assert c.pos < |src| ==> src[c.pos..c.pos + 1] == ">";
      ok := c.pos < |src|;
      if !ok {
        c.Report();
        return;
      }
      c.Advance();
    }

    lemma EndsAtGreater(start: nat, from: nat, end: nat)
      requires start <= from < end <= |src| && src[end - 1] == '>'
      requires forall i :: from <= i < end - 1 ==> src[i] != '>'
      ensures EndsAtFirst(src[start..end], from - start, ">")
    {
      var t := src[start..end];
      assert t[|t| - 1..] == ">";
      forall i | from - start <= i < |t| - 1 ensures !StartsAt(t, i, ">") {
        assert t[i..i + 1][0] == src[start + i];
      }
    }

    method ParseDoctype() returns (ok: bool, ns: seq<Node>, ghost item: Item)
      requires Valid() && StartsAt(src, c.pos, "<!") && !StartsAt(src, c.pos, "<!--")
      modifies c
      ensures Valid() && old(c.pos) < c.pos
      ensures ok <==> FindAt(src, old(c.pos) + 1, ">") < |src|
      ensures ok ==> c.pos == FindAt(src, old(c.pos) + 1, ">") + 1 && item == Verbatim(src[old(c.pos)..c.pos])
      ensures ok ==> BuiltOne(Slice(old(c.pos), c.pos), item, ns, Names(tags), Names(tags))
      ensures !ok ==> c.err.Some?
    {
      hide LineAt, LineStartAt, FramesInside, BuiltOne, TextNodes, Names, FindAt;
      var start := c.pos;
      c.Advance();
      ok := PastGreater(start);
      ns, item := [], Run("");
      if ok {
        EndsAtGreater(start, start + 1, c.pos);
        ghost var t := src[start..c.pos];
        assert src[start..start + 2] == "<!";
        assert t[..2] == src[start..start + 2];
        assert |t| >= 4 ==> t[..4] == src[start..start + 4];
        assert EndsAtFirst(t, 1, ">") && !StartsAt(t, 0, "<!--");
        LeafBuilt(t, Verbatim(t), Names(tags));
        ns, item := TextNodes(src[start..c.pos]), Verbatim(t);
      }
    }

    /** The table of elements without content. */
    method IsVoidTag(name: string) returns (r: bool)
      ensures r == IsVoid(name)
    {
      hide Lower;
      if |name| > 8 {
        assert forall k :: 0 <= k < |VOIDS| ==> |VOIDS[k]| <= 8;
        return false;
      }
      var i := 0;
      while i < |VOIDS|
        invariant 0 <= i <= |VOIDS|
        invariant forall k :: 0 <= k < i ==> Lower(name) != VOIDS[k]
      {
        if |VOIDS[i]| == |name| && Lower(name) == VOIDS[i] {
          return true;
        }
        i := i + 1;
      }
      return false;
    }

    method ReadTagName() returns (name: string)
      requires Valid()
      modifies c`pos, c`line, c`lineStart
      ensures Valid() && c.pos == NameEnd(src, old(c.pos)) && name == src[old(c.pos)..c.pos]
    {
      hide LineAt, LineStartAt, FramesInside;
      var start := c.pos;
      while c.pos < |src| && IsNameChar(src[c.pos])
        invariant Valid() && start <= c.pos && NameEnd(src, c.pos) == NameEnd(src, start)
        decreases |src| - c.pos
      {
        c.Advance();
      }
      name := src[start..c.pos];
    }

    lemma {:induction false} NameEndLocal(start: nat, p: nat, e: nat)
      requires start <= p <= |src| && NameEnd(src, p) < e <= |src|
      ensures NameEnd(src[start..e], p - start) == NameEnd(src, p) - start
      decreases |src| - p
    {
      if IsNameChar(src[p]) {
        NameEndLocal(start, p + 1, e);
      }
    }

    lemma {:induction false} NoGreaterInName(p: nat)
      requires p <= |src|
      ensures forall i :: p <= i < NameEnd(src, p) ==> src[i] != '>'
      decreases |src| - p
    {
      if p < |src| && IsNameChar(src[p]) {
        NoGreaterInName(p + 1);
      }
    }

    lemma ClosingText(start: nat, end: nat, name: string)
      requires start + 2 <= |src| && NameEnd(src, start + 2) < end <= |src| && src[start..start + 2] == "</" &&
               src[end - 1] == '>'
      requires name == src[start + 2..NameEnd(src, start + 2)]
      requires forall i :: NameEnd(src, start + 2) <= i < end - 1 ==> src[i] != '>'
      ensures var t := src[start..end]; StartsAt(t, 0, "</") && EndsAtFirst(t, 2, ">") && ClosingName(t) == name
    {
      NoGreaterInName(start + 2);
      EndsAtGreater(start, start + 2, end);
      NameEndLocal(start, start + 2, end);
      Inner(src, start, end, 0, 2);
      Inner(src, start, end, 2, NameEnd(src, start + 2) - start);
    }

    /** Reads a closing tag up to its '>'. */
    method ReadClosing() returns (ok: bool, name: string)
      requires Valid() && StartsAt(src, c.pos, "</")
      modifies c
      ensures Valid() && old(c.pos) < c.pos
      ensures ok <==> FindAt(src, NameEnd(src, old(c.pos) + 2), ">") < |src|
      ensures ok ==> c.pos == FindAt(src, NameEnd(src, old(c.pos) + 2), ">") + 1
      ensures ok ==> name == src[old(c.pos) + 2..NameEnd(src, old(c.pos) + 2)]
      ensures ok ==> var t := Slice(old(c.pos), c.pos);
                     StartsAt(t, 0, "</") && EndsAtFirst(t, 2, ">") && ClosingName(t) == name
      ensures !ok ==> c.err.Some?
    {
      hide LineAt, LineStartAt, FramesInside, ClosingName, EndsAtFirst, FindAt;
      var start := c.pos;
      assert src[start..start + 2] == "</";
      c.AdvanceN(2);
      name := ReadTagName();
      ok := PastGreater(start);
      if ok {
        ClosingText(start, c.pos, name);
      }
    }

    method ParseClosing() returns (ok: bool, ns: seq<Node>, ghost item: Item)
      requires Valid() && StartsAt(src, c.pos, "</")
      modifies c, this`tags
      ensures Valid() && old(c.pos) < c.pos
      ensures ok == ClosingAt(src, old(c.pos), Names(old(tags))).Some?
      ensures ok ==> ClosingAt(src, old(c.pos), Names(old(tags))) == Some(At(item, c.pos, Names(tags)))
      ensures ok ==> BuiltOne(Slice(old(c.pos), c.pos), item, ns, Names(old(tags)), Names(tags))
      ensures !ok ==> c.err.Some?
    {
      hide LineAt, LineStartAt, Lower, IsVoid, BuiltOne, TextNodes, StartsAt, EndsAtFirst, ClosingName, Names,
           FindAt, NameEnd;
      var start := c.pos;
      var good, name := ReadClosing();
      ok, ns, item := false, [], Run("");
      if !good {
        return;
      }
      if name == "" {
        c.ReportAt(start);
        return;
      }
      var void := IsVoidTag(name);
      if void || tags == [] {
        c.ReportAt(start);
        return;
      }
      var top := tags[|tags| - 1].name;
      NamesPushPop(tags, tags[|tags| - 1]);
      if |top| != |name| || Lower(top) != Lower(name) {
        c.ReportAt(start);
        return;
      }
      ClosingBuilt(Slice(start, c.pos), Names(tags));
      tags := tags[..|tags| - 1];
      ok, ns, item := true, TextNodes(src[start..c.pos]), Closing(src[start..c.pos]);
    }

    // ---- open tags ----

    /** At '{' in a quoted value: pending text, then the expression. */
    method AttrValue(flushTo: nat, from: nat, to: nat) returns (ok: bool, ns: seq<Node>, ghost inner: string,
                     ghost ctx: Context)
      requires Valid() && c.pos < |src| && src[c.pos] == '{' && flushTo <= c.pos && from <= |src| && to <= |src|
      modifies c
      ensures Valid() && old(c.pos) < c.pos
      ensures ok ==> Slice(old(c.pos), c.pos) == "{" + inner + "}" && IsExpr(inner) && Trim(inner) != "children..."
      ensures ok <==> ClassifyAt(src, from, to).Some? && InterpAt(src, old(c.pos), false).Some?
      ensures ok ==> ClassifyAt(src, from, to) == Some(ctx) && InterpAt(src, old(c.pos), false) == Some(c.pos)
      ensures ok ==> inner == Slice(old(c.pos) + 1, c.pos - 1)
      ensures ok ==> ns == TextNodes(src[flushTo..old(c.pos)]) + PartNodes(Value(inner, ctx))
      ensures !ok ==> c.err.Some?
    {
      hide LineAt, LineStartAt, FramesInside, ClassifyAt, InterpAt, IsExpr, Trim, InterpNode, TextNodes;
      ghost var p := c.pos;
      ok, ns, inner, ctx := false, [], "", InAttr;
      var found := ClassifyAttr(from, to);
      if found.None? {
        c.Advance();
        return;
      }
      ctx := found.value;
      var text := TextNodes(src[flushTo..c.pos]);
      var n;
      ok, n, inner := ParseInterp(found.value);
      ns := text + [n];
    }

    /** At '{' right after '=': the quotes become text nodes of their own. */
    method AttrUnquoted(flushTo: nat, from: nat, to: nat)
      returns (ok: bool, ns: seq<Node>, ghost inner: string, ghost ctx: Context)
      requires Valid() && c.pos < |src| && src[c.pos] == '{' && flushTo <= c.pos && from <= |src| && to <= |src|
      modifies c
      ensures Valid() && old(c.pos) < c.pos
      ensures ok ==> Slice(old(c.pos), c.pos) == "{" + inner + "}" && IsExpr(inner) && Trim(inner) != "children..."
      ensures ok <==> ClassifyAt(src, from, to).Some? && InterpAt(src, old(c.pos), false).Some?
      ensures ok ==> ClassifyAt(src, from, to) == Some(ctx) && InterpAt(src, old(c.pos), false) == Some(c.pos)
      ensures ok ==> inner == Slice(old(c.pos) + 1, c.pos - 1)
      ensures ok ==> ns == TextNodes(src[flushTo..old(c.pos)]) + PartNodes(Unquoted(inner, ctx))
      ensures !ok ==> c.err.Some?
    {
      hide LineAt, LineStartAt, FramesInside, ClassifyAt, InterpAt, IsExpr, Trim, InterpNode, TextNodes;
      ghost var p := c.pos;
      ok, ns, inner, ctx := false, [], "", InAttr;
      var found := ClassifyAttr(from, to);
      if found.None? {
        c.Advance();
        return;
      }
      ctx := found.value;
      var text := TextNodes(src[flushTo..c.pos]);
      var n;
      ok, n, inner := ParseInterp(found.value);
      ns := text + ([Text("\"")] + [n] + [Text("\"")]);
    }

    lemma FlagText(p: nat, end: nat)
      requires p + 3 <= end < |src| && src[p..p + 2] == "?=" && src[p + 2] == '{' && src[end] == '}'
      ensures src[p..end + 1] == "?={" + src[p + 3..end] + "}"
    {
      BracedAt(p + 2, end + 1);
      Slices(src, p, p + 2, end + 1, end + 1);
      assert "?=" + ("{" + src[p + 3..end] + "}") == "?={" + src[p + 3..end] + "}";
    }

    /** At "?=": text up to the attribute name, then an if-node that writes the name. */
    method AttrFlag(flushTo: nat, from: nat) returns (ok: bool, ns: seq<Node>, ghost inner: string)
      requires Valid() && StartsAt(src, c.pos, "?=") && flushTo <= c.pos && from <= c.pos
      modifies c
      ensures Valid() && old(c.pos) < c.pos
      ensures ok <==> flushTo <= from < old(c.pos) && FlagAt(src, old(c.pos)).Some?
      ensures ok ==> FlagAt(src, old(c.pos)) == Some(c.pos) && inner == Slice(old(c.pos) + 3, c.pos - 1)
      ensures ok ==> Slice(old(c.pos), c.pos) == "?={" + inner + "}" && IsExpr(inner)
      ensures ok ==> ns == TextNodes(src[flushTo..from]) + PartNodes(Flag(src[from..old(c.pos)], inner))
      ensures !ok ==> c.err.Some?
    {
      hide LineAt, LineStartAt, FramesInside, Trim, Scan, TextNodes;
      var p := c.pos;
      assert src[p..p + 2] == "?=";
      ok, ns, inner := false, [], "";
      if from >= p || from < flushTo {
        // no name, or a slice that ends before it starts: its length wraps around and cannot be allocated
        c.Report();
        c.Advance();
        return;
      }
      var text := TextNodes(src[flushTo..from]);
      c.AdvanceN(2);
      if c.Peek() != '{' {
        c.Report();
        return;
      }
      c.Advance();
      var good, start, end := c.ScanC(MatchBrace);
      if !good {
        return;
      }
      FoundIsDelimited(src, start, end, MatchBrace);
      var cond := Trim(src[start..end]);
      inner := src[start..end];
      if cond == "" {
        c.Report();
        return;
      }
      FlagText(p, end);
      ok, ns := true, text + [If(cond, Cons(Text(" " + src[from..p]), Nil), Nil)];
    }

    /** The steps of the attribute loop, each with its invariant. */
    method StepValue(tag: nat, ghost name: string, ghost parts: seq<Part>, flushTo: nat, ghost quote: char, from: nat,
                     to: nat)
      returns (ok: bool, ns: seq<Node>, ghost ps: seq<Part>)
      requires Valid() && c.pos < |src| && src[c.pos] == '{' && quote != '\0'
      requires Reading(src, tag, name, parts, flushTo, c.pos, quote, from, to)
      modifies c
      ensures Valid() && old(c.pos) < c.pos
      ensures ok ==> Reading(src, tag, name, ps, c.pos, c.pos, quote, from, to) &&
                     PartsNodes(ps) == PartsNodes(parts) + ns
      ensures AttrsAt(src, tag, parts, flushTo, old(c.pos), quote, from, to) ==
              if ok then AttrsAt(src, tag, ps, c.pos, c.pos, quote, from, to) else None
      ensures !ok ==> c.err.Some?
    {
      hide LineAt, LineStartAt, FramesInside, AttrContext, ClassifyAt, InterpAt, IsExpr, Trim, TextNodes, PartNodes,
           PartsSource, ProperParts, AfterParts, IsTagText, AfterText, AtName, PartsNodes;
      ghost var p := c.pos;
      ghost var inner, ctx;
      ok, ns, inner, ctx := AttrValue(flushTo, from, to);
      ps := parts;
      if ok {
        ClassifySeen(src, from, to, ctx);
        ReadValue(src, tag, name, parts, flushTo, p, quote, from, to, inner, ctx, c.pos);
        ps := parts + [Plain(src[flushTo..p]), Value(inner, ctx)];
        Regroup(PartsNodes(parts), TextNodes(src[flushTo..p]), PartNodes(Value(inner, ctx)));
      }
    }

    method StepUnquoted(tag: nat, ghost name: string, ghost parts: seq<Part>, flushTo: nat, from: nat, to: nat)
      returns (ok: bool, ns: seq<Node>, ghost ps: seq<Part>)
      requires Valid() && c.pos < |src| && src[c.pos] == '{' && 0 < c.pos && src[c.pos - 1] == '=' && from < c.pos - 1
      requires Reading(src, tag, name, parts, flushTo, c.pos, '\0', from, to)
      modifies c
      ensures Valid() && old(c.pos) < c.pos
      ensures ok ==> Reading(src, tag, name, ps, c.pos, c.pos, '\0', from, to) &&
                     PartsNodes(ps) == PartsNodes(parts) + ns
      ensures AttrsAt(src, tag, parts, flushTo, old(c.pos), '\0', from, to) ==
              if ok then AttrsAt(src, tag, ps, c.pos, c.pos, '\0', from, to) else None
      ensures !ok ==> c.err.Some?
    {
      hide LineAt, LineStartAt, FramesInside, AttrContext, ClassifyAt, InterpAt, IsExpr, Trim, TextNodes, PartNodes,
           PartsSource, ProperParts, AfterParts, IsTagText, AfterText, AtName, PartsNodes;
      ghost var p := c.pos;
      EqualsSeen(src, tag, AfterParts(StartPlace(name), parts), flushTo, p, from, to);
      ghost var inner, ctx;
      ok, ns, inner, ctx := AttrUnquoted(flushTo, from, to);
      ps := parts;
      if ok {
        ClassifySeen(src, from, to, ctx);
        ReadUnquoted(src, tag, name, parts, flushTo, p, from, to, inner, ctx, c.pos);
        ps := parts + [Plain(src[flushTo..p]), Unquoted(inner, ctx)];
        Regroup(PartsNodes(parts), TextNodes(src[flushTo..p]), PartNodes(Unquoted(inner, ctx)));
      }
    }

    method StepFlag(tag: nat, ghost name: string, ghost parts: seq<Part>, flushTo: nat, from: nat, ghost to: nat)
      returns (ok: bool, ns: seq<Node>, ghost ps: seq<Part>)
      requires Valid() && StartsAt(src, c.pos, "?=") && Reading(src, tag, name, parts, flushTo, c.pos, '\0', from, to)
      modifies c
      ensures Valid() && old(c.pos) < c.pos
      ensures ok ==> Reading(src, tag, name, ps, c.pos, c.pos, '\0', c.pos, to) &&
                     PartsNodes(ps) == PartsNodes(parts) + ns
      ensures AttrsAt(src, tag, parts, flushTo, old(c.pos), '\0', from, to) ==
              if ok then AttrsAt(src, tag, ps, c.pos, c.pos, '\0', c.pos, to) else None
      ensures !ok ==> c.err.Some?
    {
      hide LineAt, LineStartAt, FramesInside, FlagAt, IsExpr, Trim, TextNodes, PartNodes, PartsSource, ProperParts,
           AfterParts, IsTagText, AfterText, AtName, PartsNodes;
      ghost var p := c.pos;
      assert src[p..p + 2] == "?=";
      assert src[p] == '?';
      assert from <= p;
      ghost var inner;
      ok, ns, inner := AttrFlag(flushTo, from);
      ps := parts;
      if ok {
        ReadFlag(src, tag, name, parts, flushTo, p, from, to, inner, c.pos);
        ps := parts + [Plain(src[flushTo..from]), Flag(src[from..p], inner)];
        Regroup(PartsNodes(parts), TextNodes(src[flushTo..from]), PartNodes(Flag(src[from..p], inner)));
      }
    }

    method StepPlain(tag: nat, ghost name: string, ghost parts: seq<Part>, ghost flushTo: nat, quote: char, from: nat,
                     to: nat)
      returns (quote': char, from': nat, to': nat)
      requires Valid() && c.pos < |src| && src[c.pos] != '{'
      requires quote == '\0' ==> src[c.pos] != '>' && !(src[c.pos] == '?' && CharAt(src, c.pos + 1) == '=')
      requires Reading(src, tag, name, parts, flushTo, c.pos, quote, from, to)
      modifies c`pos, c`line, c`lineStart
      ensures Valid() && c.pos == old(c.pos) + 1
      ensures Reading(src, tag, name, parts, flushTo, c.pos, quote', from', to')
      ensures AttrsAt(src, tag, parts, flushTo, old(c.pos), quote, from, to) ==
              AttrsAt(src, tag, parts, flushTo, c.pos, quote', from', to')
    {
      hide LineAt, LineStartAt, FramesInside, PartsSource, ProperParts, AfterParts, IsTagText, AfterText, AtName;
      ReadChar(src, tag, AfterParts(StartPlace(name), parts), flushTo, c.pos, quote, from, to);
      hide Pending;
      quote', from', to' := quote, from, to;
      var ch := src[c.pos];
      c.Advance();
      if quote != '\0' {
        if ch == quote {
          quote' := '\0';
        }
      } else if ch == '"' || ch == '\'' {
        quote' := ch;
      } else if ch == '=' {
        to' := c.pos - 1;
      } else if IsSpace(ch) {
        from' := EndOfSpace(c.pos);
      }
    }

    /** Reads the attributes up to the '>' of the tag that starts at `tag`. */
    method ParseAttributes(tag: nat, ghost name: string)
      returns (ok: bool, ns: seq<Node>, ghost parts: seq<Part>, ghost rest: string)
      requires Valid() && tag < c.pos && src[tag] == '<' && c.pos == NameEnd(src, tag + 1) &&
               name == src[tag + 1..c.pos]
      modifies c
      ensures Valid() && old(c.pos) <= c.pos
      ensures ok ==> old(c.pos) < c.pos && Slice(tag, c.pos) == PartsSource(parts) + rest + ">"
      ensures ok ==> ProperParts(StartPlace(name), parts)
      ensures ok ==> IsTagText(AfterParts(StartPlace(name), parts), rest)
      ensures ok ==> AfterText(AfterParts(StartPlace(name), parts), rest).quote == '\0'
      ensures ok ==> ns == PartsNodes(parts) + TextNodes(rest + ">")
      ensures AttrsAt(src, tag, [], tag, old(c.pos), '\0', old(c.pos), old(c.pos)) ==
              if ok then Some(Attrs(parts, rest, c.pos)) else None
      ensures !ok ==> c.err.Some?
    {
      hide LineAt, LineStartAt, FramesInside, TextNodes, PartsSource, ProperParts, AfterParts, IsTagText, AfterText,
           PartsNodes, NameEnd, AtName, AttrsAt;
      ReadName(src, tag, c.pos);
      var quote := '\0';
      var flushTo: nat, attrStart: nat, attrEnd: nat := tag, c.pos, c.pos;
      ok, ns, parts, rest := false, [], [], "";
      PartsNodesEmpty();
      while true
        invariant Valid() && old(c.pos) <= c.pos && tags == old(tags)
        invariant Reading(src, tag, name, parts, flushTo, c.pos, quote, attrStart, attrEnd) && ns == PartsNodes(parts)
        invariant !ok
        invariant AttrsAt(src, tag, [], tag, old(c.pos), '\0', old(c.pos), old(c.pos)) ==
                  AttrsAt(src, tag, parts, flushTo, c.pos, quote, attrStart, attrEnd)
        decreases |src| - c.pos
      {
        AttrsStop(src, tag, parts, flushTo, c.pos, quote, attrStart, attrEnd);
        if c.pos >= |src| {
          c.Report();
          return;
        }
        var ch := src[c.pos];
        var good, ms;
        if ch == '{' && quote != '\0' {
          good, ms, parts := StepValue(tag, name, parts, flushTo, quote, attrStart, attrEnd);
          if !good {
            return;
          }
          ns, flushTo := ns + ms, c.pos;
        } else if ch == '{' {
          if !(c.pos > tag && src[c.pos - 1] == '=' && attrStart < c.pos - 1) {
            c.Report();
            return;
          }
          good, ms, parts := StepUnquoted(tag, name, parts, flushTo, attrStart, attrEnd);
          if !good {
            return;
          }
          ns, flushTo := ns + ms, c.pos;
        } else if quote == '\0' && ch == '?' && c.PeekAt(1) == '=' {
          good, ms, parts := StepFlag(tag, name, parts, flushTo, attrStart, attrEnd);
          if !good {
            return;
          }
          ns, flushTo, attrStart := ns + ms, c.pos, c.pos;
        } else if quote == '\0' && ch == '>' {
          rest := src[flushTo..c.pos];
          c.Advance();
          TagClosed(tag, flushTo, c.pos);
          ok, ns := true, ns + TextNodes(src[flushTo..c.pos]);
          return;
        } else {
          quote, attrStart, attrEnd := StepPlain(tag, name, parts, flushTo, quote, attrStart, attrEnd);
        }
      }
    }

    lemma TagClosed(tag: nat, flushTo: nat, end: nat)
      requires tag <= flushTo < end <= |src| && src[end - 1] == '>'
      ensures src[flushTo..end] == src[flushTo..end - 1] + ">"
      ensures src[tag..end] == src[tag..flushTo] + src[flushTo..end - 1] + ">"
    {
    }

    lemma PartsNodesEmpty()
      ensures PartsNodes([]) == []
    {
    }

    lemma RawText(start: nat, end: nat, name: string)
      requires start <= end <= |src| && forall i :: start <= i < end ==> !CloserAt(src, i, name)
      ensures NoCloser(src[start..end], name)
    {
      hide Lower;
      var raw := src[start..end];
      forall i | 0 <= i < |raw|
        ensures !CloserAt(raw, i, name)
      {
        assert !CloserAt(src, start + i, name);
        if i + 2 + |name| <= |raw| {
          Inner(src, start, end, i, i + 2 + |name|);
        }
      }
    }

    /** The content of a script or style, up to its closing tag. */
    method ParseRaw(name: string) returns (ok: bool, ns: seq<Node>, ghost raw: string)
      requires Valid() && name != ""
      modifies c
      ensures Valid() && old(c.pos) <= c.pos
      ensures ok <==> RawEnd(src, old(c.pos), name) < |src|
      ensures ok ==> c.pos == RawEnd(src, old(c.pos), name)
      ensures ok ==> raw == Slice(old(c.pos), c.pos) && NoCloser(raw, name) && ns == TextNodes(raw)
      ensures !ok ==> c.err.Some?
    {
      hide LineAt, LineStartAt, FramesInside, Lower, TextNodes, CloserAt, NoCloser;
      var start := c.pos;
      while c.pos < |src| && !CloserAt(src, c.pos, name)
        invariant Valid() && start <= c.pos && tags == old(tags)
        invariant forall i :: start <= i < c.pos ==> !CloserAt(src, i, name)
        invariant RawEnd(src, start, name) == RawEnd(src, c.pos, name)
        decreases |src| - c.pos
      {
        c.Advance();
      }
      ok, ns, raw := false, [], "";
      if c.pos >= |src| {
        c.Report();
        return;
      }
      raw := src[start..c.pos];
      RawText(start, c.pos, name);
      ok, ns := true, TextNodes(src[start..c.pos]);
    }

    lemma NameOfTag(tag: nat, tagText: string, open: OpenTag)
      requires tag < |src| && tagText == TagText(open) && tag + |tagText| <= |src|
      requires src[tag..tag + |tagText|] == tagText && NameEnd(src, tag + 1) < tag + |tagText|
      ensures TagName(open) == src[tag + 1..NameEnd(src, tag + 1)]
    {
      hide TagText;
      NameEndLocal(tag, tag + 1, tag + |tagText|);
      Inner(src, tag, tag + |tagText|, 1, NameEnd(src, tag + 1) - tag);
    }

    lemma TagIsProper(tag: nat, end: nat, name: string, open: OpenTag)
      requires tag < end <= |src| && src[tag] == '<' && src[tag..end] == TagText(open)
      requires NameEnd(src, tag + 1) < end && name == src[tag + 1..NameEnd(src, tag + 1)]
      requires name != "" && IsIdentStart(name[0]) && |name| <= MAX_NAME
      requires ProperParts(StartPlace(name), open.parts)
      requires IsTagText(AfterParts(StartPlace(name), open.parts), open.rest)
      requires AfterText(AfterParts(StartPlace(name), open.parts), open.rest).quote == '\0'
      requires !IsVoid(name) ==> !(src[end - 2] == '/' && src[end - 1] == '>')
      requires if IsRaw(name) then NoCloser(open.raw, name) else open.raw == ""
      ensures ProperTag(open) && TagName(open) == name
    {
      hide ProperParts, IsTagText, AfterText, AfterParts, NoCloser, Lower, IsVoid, IsRaw;
      NameOfTag(tag, TagText(open), open);
      EndOfTag(tag, end);
      hide TagText, TagName, StartsAt, StartPlace;
    }

    /** The first and the last two characters of a tag. */
    lemma EndOfTag(tag: nat, end: nat)
      requires tag + 2 <= end <= |src| && src[tag] == '<'
      ensures StartsAt(src[tag..end], 0, "<")
      ensures StartsAt(src[tag..end], end - tag - 2, "/>") ==> src[end - 2] == '/' && src[end - 1] == '>'
    {
      var s := src[tag..end];
      assert s[0..1] == "<";
      Inner(src, tag, end, end - tag - 2, end - tag);
      assert src[end - 2..end][0] == src[end - 2] && src[end - 2..end][1] == src[end - 1];
    }

    /** Behind the '>' of the tag that starts at `tag`: structure checks, the tag stack, raw content. */
    method FinishOpen(tag: nat, name: string, ghost parts: seq<Part>, ghost rest: string)
      returns (ok: bool, ns: seq<Node>, ghost raw: string)
      requires Valid() && tag + 2 <= c.pos && name != ""
      modifies c, this`tags
      ensures Valid() && old(c.pos) <= c.pos
      ensures FinishAt(src, name, Attrs(parts, rest, old(c.pos)), Names(old(tags))) ==
              if ok then Some(At(Tag(OpenTag(parts, rest, raw)), c.pos, Names(tags))) else None
      ensures ok ==> raw == Slice(old(c.pos), c.pos) && ns == TextNodes(raw)
      ensures ok ==> if IsRaw(name) then NoCloser(raw, name) else raw == ""
      ensures ok && !IsVoid(name) ==> !(src[old(c.pos) - 2] == '/' && src[old(c.pos) - 1] == '>')
      ensures ok && !IsVoid(name) ==> |old(tags)| < MAX_DEPTH
      ensures ok ==> Names(tags) == if IsVoid(name) then Names(old(tags)) else Names(old(tags)) + [name]
      ensures !ok ==> c.err.Some?
    {
      hide LineAt, LineStartAt, NoCloser, Lower, IsVoid, Names, TextNodes, RawEnd, IsRaw;
      var end := c.pos;
      ok, ns, raw := false, [], "";
      var void := IsVoidTag(name);
      if !void && src[end - 2] == '/' && src[end - 1] == '>' {
        c.ReportAt(tag);
        return;
      }
      if !void && |tags| == MAX_DEPTH {
        c.ReportAt(tag);
        return;
      }
      if !void {
        NamesPushPop(tags, Frame(name, tag));
        tags := tags + [Frame(name, tag)];
      }
      ok := true;
      assert TextNodes("") == [] by { NoText(); }
      if IsRaw(name) {
        ok, ns, raw := ParseRaw(name);
      }
    }

    lemma OpenDone(tag: nat, end: nat, e: nat, name: string, open: OpenTag, o: seq<string>)
      requires tag < end <= e <= |src| && src[tag] == '<' && src[tag..end] == TagText(open) && src[end..e] == open.raw
      requires NameEnd(src, tag + 1) < end && name == src[tag + 1..NameEnd(src, tag + 1)]
      requires name != "" && IsIdentStart(name[0]) && |name| <= MAX_NAME
      requires ProperParts(StartPlace(name), open.parts)
      requires IsTagText(AfterParts(StartPlace(name), open.parts), open.rest)
      requires AfterText(AfterParts(StartPlace(name), open.parts), open.rest).quote == '\0'
      requires !IsVoid(name) ==> !(src[end - 2] == '/' && src[end - 1] == '>') && |o| < MAX_DEPTH
      requires if IsRaw(name) then NoCloser(open.raw, name) else open.raw == ""
      ensures BuiltOne(Slice(tag, e), Tag(open),
              PartsNodes(open.parts) + TextNodes(open.rest + ">") + TextNodes(open.raw), o,
                       if IsVoid(name) then o else o + [name])
    {
      hide BuiltOne, ProperTag, ProperParts, IsTagText, AfterText, AfterParts, NoCloser, Lower, IsVoid, IsRaw, NameEnd,
           StartPlace, PartsNodes, TextNodes, TagText, TagName;
      TagIsProper(tag, end, name, open);
      TagBuilt(open, o);
      Slices(src, tag, end, e, e);
    }

    /** The name behind the angle bracket. */
    method ReadOpenName() returns (ok: bool, name: string)
      requires Valid() && c.pos < |src|
      modifies c
      ensures Valid() && old(c.pos) < c.pos
      ensures ok <==> IsIdentStart(CharAt(src, old(c.pos) + 1)) &&
                      NameEnd(src, old(c.pos) + 1) - (old(c.pos) + 1) <= MAX_NAME
      ensures ok ==> c.pos == NameEnd(src, old(c.pos) + 1) && name == src[old(c.pos) + 1..c.pos] && name != ""
      ensures !ok ==> c.err.Some?
    {
      hide LineAt, LineStartAt, FramesInside, NameEnd;
      var start := c.pos + 1;
      c.Advance();
      ok, name := false, "";
      if !IsIdentStart(c.Peek()) {
        c.Report();
        return;
      }
      name := ReadTagName();
      NameNotEmpty(start);
      if |name| > MAX_NAME {
        c.Report();
        return;
      }
      ok := true;
    }

    /** An open tag: name, attributes, structure checks, raw content. */
    method ParseOpen() returns (ok: bool, ns: seq<Node>, ghost item: Item)
      requires Valid() && c.pos < |src| && src[c.pos] == '<'
      modifies c, this`tags
      ensures Valid() && old(c.pos) < c.pos
      ensures ok == OpenTagAt(src, old(c.pos), Names(old(tags))).Some?
      ensures ok ==> OpenTagAt(src, old(c.pos), Names(old(tags))) == Some(At(item, c.pos, Names(tags)))
      ensures ok ==> BuiltOne(Slice(old(c.pos), c.pos), item, ns, Names(old(tags)), Names(tags))
      ensures !ok ==> c.err.Some?
    {
      hide LineAt, LineStartAt, FramesInside, ProperParts, IsTagText, AfterText, AfterParts, NoCloser, Lower,
           IsVoid, IsRaw, BuiltOne, Names, PartsSource, PartsNodes, TextNodes, NameEnd, StartPlace, AttrsAt,
           FinishAt, Trim;
      var tag := c.pos;
      ns, item := [], Run("");
      var name;
      ok, name := ReadOpenName();
      if !ok {
        return;
      }
      ok := false;
      var good, ms; ghost var parts, rest;
      good, ms, parts, rest := ParseAttributes(tag, name);
      if !good {
        return;
      }
      var end, rawNodes := c.pos, []; ghost var raw;
      ok, rawNodes, raw := FinishOpen(tag, name, parts, rest);
      if ok {
        ghost var t := OpenTag(parts, rest, raw);
        OpenDone(tag, end, c.pos, name, t, Names(old(tags)));
        ns, item := ms + rawNodes, Tag(t);
      }
    }

    lemma NoText()
      ensures TextNodes("") == []
    {
    }

    lemma NameNotEmpty(p: nat)
      requires p < |src| && IsIdentStart(src[p])
      ensures p < NameEnd(src, p)
    {
    }

    /** What kind of tag stands at p, told from its first characters. */
    lemma KindOfTag(p: nat)
      requires p < |src| && src[p] == '<'
      ensures CharAt(src, p + 1) == '!' && CharAt(src, p + 2) == '-' && CharAt(src, p + 3) == '-' <==>
              StartsAt(src, p, "<!--")
      ensures CharAt(src, p + 1) == '!' <==> StartsAt(src, p, "<!")
      ensures CharAt(src, p + 1) == '/' <==> StartsAt(src, p, "</")
    {
      if p + 2 <= |src| {
        assert src[p..p + 2] == [src[p], src[p + 1]];
      }
      if p + 4 <= |src| {
        assert src[p..p + 4] == [src[p], src[p + 1], src[p + 2], src[p + 3]];
      }
    }

    /** One tag, comment or doctype. */
    method ParseElement() returns (ok: bool, ns: seq<Node>, ghost item: Item)
      requires Valid() && c.pos < |src| && src[c.pos] == '<'
      modifies c, this`tags
      ensures Valid() && old(c.pos) < c.pos
      ensures ok == ElementAt(src, old(c.pos), Names(old(tags))).Some?
      ensures ok ==> ElementAt(src, old(c.pos), Names(old(tags))) == Some(At(item, c.pos, Names(tags)))
      ensures ok ==> BuiltOne(Slice(old(c.pos), c.pos), item, ns, Names(old(tags)), Names(tags))
      ensures !ok ==> c.err.Some?
    {
      hide LineAt, LineStartAt, FramesInside, BuiltOne, Names, FindAt, ClosingAt, OpenTagAt, StartsAt;
      KindOfTag(c.pos);
      if c.PeekAt(1) == '!' && c.PeekAt(2) == '-' && c.PeekAt(3) == '-' {
        ok, ns, item := ParseComment();
      } else if c.PeekAt(1) == '!' {
        ok, ns, item := ParseDoctype();
      } else if c.PeekAt(1) == '/' {
        ok, ns, item := ParseClosing();
      } else {
        ok, ns, item := ParseOpen();
      }
    }

    // ---- statements ----

    /** A brace-delimited body: '{', items, '}'. */
    method ParseBlock() returns (ok: bool, ns: seq<Node>, ghost piece: Piece)
      requires Valid() && c.pos < |src| && src[c.pos] == '{'
      modifies c, this`tags
      ensures Valid() && old(c.pos) < c.pos
      ensures BlockAt(src, old(c.pos), Names(old(tags))) == if ok then Some(At(piece, c.pos, Names(tags))) else None
      ensures ok ==> BlockFrom(old(c.pos), c.pos, piece, ns, Names(old(tags)), Names(tags))
      ensures !ok ==> c.err.Some?
      decreases |src| - c.pos, 0
    {
      hide LineAt, LineStartAt, FramesInside, BuiltPiece, Names, BodyAt;
      ghost var p := c.pos;
      c.Advance();
      ok, ns, piece := ParseBody();
      if ok {
        c.Advance();
      }
    }

    ghost predicate BlockFrom(from: nat, to: nat, piece: Piece, ns: seq<Node>, before: seq<string>,
                              after: seq<string>) {
      from + 2 <= to <= |src| && src[from] == '{' && src[to - 1] == '}' &&
      BuiltPiece(Slice(from + 1, to - 1), piece, ns, before, after)
    }

    /** The parenthesised data after "with", and white space; `found` tells whether there is any. */
    method ParseData() returns (ok: bool, found: bool, data: Option<string>, ghost open: nat, ghost close: nat)
      requires Valid()
      modifies c
      ensures Valid() && old(c.pos) <= c.pos
      ensures !ok ==> c.err.Some?
      ensures ok && !found ==> data.None?
      ensures var a := WsEnd(src, old(c.pos));
              if CharAt(src, a) != '(' then ok && !found
              else match Scan(src, a + 1, 1, MatchParen)
                   case Fails(_) => !ok
                   case Found(z) => ok && found && open == a && close == z && c.pos == WsEnd(src, z + 1)
      ensures ok && found ==> old(c.pos) <= open < close < c.pos && src[open] == '(' && src[close] == ')'
      ensures ok && found ==> Delimited(src[open + 1..close], MatchParen) && data == Some(Trim(src[open + 1..close]))
      ensures ok && found ==> AllSpace(src[old(c.pos)..open]) && AllSpace(src[close + 1..c.pos])
      ensures ok && found && c.pos < |src| ==> !IsSpace(src[c.pos])
    {
      hide LineAt, LineStartAt, FramesInside, Scan, Trim, AllSpace;
      ok, found, data, open, close := true, false, None, 0, 0;
      c.SkipWs();
      open := c.pos;
      if c.Peek() != '(' {
        return;
      }
      c.Advance();
      var start, end;
      ok, start, end := c.ScanC(MatchParen);
      if !ok {
        return;
      }
      FoundIsDelimited(src, start, end, MatchParen);
      close := end;
      found, data := true, Some(Trim(src[start..end]));
      c.SkipWs();
    }

    /** After a call: white space and a block, perhaps with bound data; the cursor goes back when there is none. */
    method ParseCallBlock() returns (ok: bool, data: Option<string>, block: Nodes, ghost part: BlockPart)
      requires Valid()
      modifies c, this`tags
      ensures Valid() && old(c.pos) <= c.pos
      ensures ok ==> BuiltBlock(Slice(old(c.pos), c.pos), data, part, block, Names(old(tags)), Names(tags))
      ensures BehindAt(src, old(c.pos), Names(old(tags))) ==
              if ok then Some(At(Behind(data, part), c.pos, Names(tags))) else None
      ensures !ok ==> c.err.Some?
      decreases |src| - c.pos, 1
    {
      hide LineAt, LineStartAt, BuiltPiece, BuiltBlock, Names, ToNodes, Trim, Delimited, AllSpace, BlockAt, Scan,
           WsEnd, FramesInside;
      var save, saveLine, saveStart := c.pos, c.line, c.lineStart;
      ok, data, block, part := false, None, Nil, NoBlock;
      c.SkipWs();
      ghost var g := c.pos;
      var found := true;
      var isWith := c.EatKeyword("with");
      ghost var w, open, close := c.pos, 0, 0;
      if isWith {
        assert src[g] == src[g..w][0] == "with"[0];
        var good;
        good, found, data, open, close := ParseData();
        if !good {
          return;
        }
      }
      if found && c.Peek() == '{' {
        ghost var b := c.pos;
        var ns; ghost var piece;
        ok, ns, piece := ParseBlock();
        if ok {
          part := CallBlockDone(isWith, save, g, w, open, close, b, c.pos, piece, ns, data, Names(old(tags)),
            Names(tags));
          block := ToNodes(ns);
        }
        return;
      }
      c.Rewind(save, saveLine, saveStart);
      NothingDone(save, data, Names(tags));
      ok := true;
    }

    /** The syntax of a child block, with or without data. */
    lemma CallBlockDone(isWith: bool, a: nat, g: nat, w: nat, open: nat, close: nat, b: nat, end: nat, piece: Piece,
                        ns: seq<Node>, data: Option<string>, o1: seq<string>, o2: seq<string>)
      returns (part: BlockPart)
      requires a <= g <= b && BlockFrom(b, end, piece, ns, o1, o2) && AllSpace(src[a..g])
      requires if isWith
               then g <= w <= open < close < b && src[g..w] == "with" && src[open] == '(' && src[close] == ')' &&
                    Delimited(src[open + 1..close], MatchParen) && AllSpace(src[w..open]) &&
                      AllSpace(src[close + 1..b]) &&
                    data == Some(Trim(src[open + 1..close]))
               else g == b && data.None?
      ensures part == if isWith then WithBlock(src[a..g], src[w..open], src[open + 1..close], src[close + 1..b], piece)
                      else Block(src[a..g], piece)
      ensures BuiltBlock(Slice(a, end), data, part, ToNodes(ns), o1, o2)
    {
      hide BuiltBlock, BuiltPiece, ToNodes, Trim, Delimited, AllSpace;
      if isWith {
        WithDone(a, g, w, open, close, b, end, piece, ns, o1, o2);
        part := WithBlock(src[a..g], src[w..open], src[open + 1..close], src[close + 1..b], piece);
      } else {
        BlockDone(a, g, end, piece, ns, o1, o2);
        part := Block(src[a..g], piece);
      }
    }

    lemma BracedAt(b: nat, end: nat)
      requires b + 2 <= end <= |src| && src[b] == '{' && src[end - 1] == '}'
      ensures src[b..end] == Braced(Slice(b + 1, end - 1))
    {
      Slices(src, b, b + 1, end - 1, end);
      assert src[b..b + 1] == "{" && src[end - 1..end] == "}";
    }

    lemma ParensAt(b: nat, close: nat)
      requires b < close < |src| && src[b] == '(' && src[close] == ')'
      ensures src[b..close + 1] == Parens(src[b + 1..close])
    {
      Slices(src, b, b + 1, close, close + 1);
      assert src[b..b + 1] == "(" && src[close..close + 1] == ")";
    }

    lemma NothingDone(p: nat, data: Option<string>, o: seq<string>)
      ensures BuiltBlock(Slice(p, p), data, NoBlock, Nil, o, o) && BuiltElse(Slice(p, p), NoElse, Nil, o, o)
    {
      assert Slice(p, p) == "";
    }

    lemma BlockDone(a: nat, b: nat, end: nat, piece: Piece, ns: seq<Node>, o1: seq<string>, o2: seq<string>)
      requires a <= b && BlockFrom(b, end, piece, ns, o1, o2) && AllSpace(src[a..b])
      ensures BuiltBlock(Slice(a, end), None, Block(src[a..b], piece), ToNodes(ns), o1, o2)
    {
      hide BuiltPiece, BuiltBlock, ToNodes;
      BracedAt(b, end);
      Slices(src, a, b, end, end);
      BlockBuilt(src[a..b], Slice(b + 1, end - 1), piece, ns, o1, o2);
    }

    lemma WithDone(a: nat, b: nat, w: nat, open: nat, close: nat, d: nat, end: nat, piece: Piece, ns: seq<Node>,
                   o1: seq<string>, o2: seq<string>)
      requires a <= b <= w <= open < close < d && BlockFrom(d, end, piece, ns, o1, o2)
      requires src[b..w] == "with" && src[open] == '(' && src[close] == ')' &&
               Delimited(src[open + 1..close], MatchParen)
      requires AllSpace(src[a..b]) && AllSpace(src[w..open]) && AllSpace(src[close + 1..d])
      ensures var inner := src[open + 1..close];
              BuiltBlock(Slice(a, end), Some(Trim(inner)),
                         WithBlock(src[a..b], src[w..open], inner, src[close + 1..d], piece), ToNodes(ns), o1, o2)
    {
      hide BuiltPiece, BuiltBlock, ToNodes, Delimited, Trim, Braced, Parens;
      WithText(a, b, w, open, close, d, end);
      WithBlockBuilt(src[a..b], src[w..open], src[open + 1..close], src[close + 1..d], Slice(d + 1, end - 1), piece, ns,
                     o1, o2);
    }

    lemma ElseBlockDone(a: nat, b: nat, e: nat, d: nat, end: nat, piece: Piece, ns: seq<Node>, o1: seq<string>,
                        o2: seq<string>)
      requires a <= b <= e <= d && BlockFrom(d, end, piece, ns, o1, o2) && src[b..e] == "else"
      requires AllSpace(src[a..b]) && AllSpace(src[e..d])
      ensures BuiltElse(Slice(a, end), ElseBlock(src[a..b], src[e..d], piece), ToNodes(ns), o1, o2)
    {
      hide BuiltPiece, BuiltElse, ToNodes, Braced;
      BracedAt(d, end);
      Slices(src, a, b, e, d);
      Slices(src, a, d, end, end);
      ElseBlockBuilt(src[a..b], src[e..d], Slice(d + 1, end - 1), piece, ns, o1, o2);
    }

    lemma ElseIfDone(a: nat, b: nat, e: nat, d: nat, i: nat, end: nat, chain: Chain, n: Node, o1: seq<string>,
                     o2: seq<string>)
      requires a <= b <= e <= d <= i <= end <= |src| && BuiltChain(Slice(i, end), chain, n, o1, o2)
      requires src[b..e] == "else" && src[d..i] == "if" && AllSpace(src[a..b]) && AllSpace(src[e..d])
      ensures BuiltElse(Slice(a, end), ElseIf(src[a..b], src[e..d], chain), Cons(n, Nil), o1, o2)
    {
      hide BuiltChain, BuiltElse;
      Slices(src, a, b, e, d);
      Slices(src, a, d, i, end);
      ElseIfBuilt(src[a..b], src[e..d], Slice(i, end), chain, n, o1, o2);
    }

    lemma CallDone(at: nat, e: nat, b: nat, end: nat, name: string, args: Option<string>, data: Option<string>,
                   part: BlockPart, block: Nodes, o1: seq<string>, o2: seq<string>)
      requires at < e <= b <= end <= |src| && src[at] == '@' && name == src[at + 1..e] && IsIdent(name)
      requires if args.Some? then src[e..b] == Parens(args.value) && Delimited(args.value, MatchParen) else e == b
      requires BuiltBlock(Slice(b, end), data, part, block, o1, o2)
      requires IsBuiltin(name) ==>
                 data.None? && args.Some? && Trim(args.value) != "" && (name == "raw" <==> block == Nil)
      ensures BuiltOne(Slice(at, end), CallItem(name, args, data, part),
                       [Call(name, if args.Some? then Trim(args.value) else "", data, block)], o1, o2)
    {
      hide BuiltBlock, BuiltOne, Parens, Delimited, Trim, IsIdent;
      CallBuilt(name, args, data, part, Slice(b, end), block, o1, o2);
      assert src[at..e] == "@" + name;
      Slices(src, at, e, b, end);
      assert Slice(b, end) == src[b..end] && Slice(at, end) == src[at..end];
      if args.None? {
        assert src[at..e] + "" == src[at..e];
      }
    }

    lemma IfDone(a: nat, end: nat, q: nat, e: nat, body: Piece, yes: seq<Node>, rest: ElsePart, no: Nodes,
                 o1: seq<string>, o2: seq<string>, o3: seq<string>)
      requires a <= end && q <= e <= |src| && BlockFrom(end, q, body, yes, o1, o2)
      requires Delimited(src[a..end], ToBrace) && Trim(src[a..end]) != "" && BuiltElse(Slice(q, e), rest, no, o2, o3)
      ensures BuiltChain(Slice(a, e), Chain(src[a..end], body, rest), If(Trim(src[a..end]), ToNodes(yes), no), o1, o3)
    {
      hide BuiltPiece, BuiltElse, BuiltChain, ToNodes, Trim, Braced, Delimited;
      BracedAt(end, q);
      Slices(src, a, end, q, e);
      ChainBuilt(src[a..end], Slice(end + 1, q - 1), body, yes, Slice(q, e), rest, no, o1, o2, o3);
    }

    lemma ForDone(a: nat, k: nat, end: nat, head: string, body: Piece, ns: seq<Node>, o1: seq<string>, o2: seq<string>)
      requires a <= k && k + 3 <= end <= |src| && AllSpace(src[a..k]) && src[k..k + 3] == "for"
      requires Slice(k + 3, end) == head + Braced(PieceSource(body)) && Delimited(head, ToBrace) && Trim(head) != ""
      requires BuiltPiece(PieceSource(body), body, ns, o1, o2)
      ensures BuiltOne(Slice(a, end), ForItem(src[a..k], head, body), [For(Trim(head), ToNodes(ns))], o1, o2)
    {
      hide BuiltPiece, BuiltOne, PieceSource, Braced, Delimited, Trim, ToNodes;
      ForBuilt(src[a..k], head, PieceSource(body), body, ns, o1, o2);
      Slices(src, a, k, k + 3, end);
      Regroup(src[a..k + 3], head, Braced(PieceSource(body)));
    }

    lemma IfStatementDone(a: nat, k: nat, end: nat, chain: Chain, n: Node, o1: seq<string>, o2: seq<string>)
      requires a <= k && k + 2 <= end <= |src| && AllSpace(src[a..k]) && src[k..k + 2] == "if"
      requires BuiltChain(Slice(k + 2, end), chain, n, o1, o2)
      ensures BuiltOne(Slice(a, end), IfItem(src[a..k], chain), [n], o1, o2)
    {
      hide BuiltChain, BuiltOne;
      IfBuilt(src[a..k], Slice(k + 2, end), chain, n, o1, o2);
      Slices(src, a, k, k + 2, end);
    }

    lemma WithText(a: nat, b: nat, w: nat, open: nat, close: nat, d: nat, end: nat)
      requires a <= b <= w <= open < close < d && d + 2 <= end <= |src|
      requires src[b..w] == "with" && src[open] == '(' && src[close] == ')' && src[d] == '{' && src[end - 1] == '}'
      ensures Slice(a, end) == src[a..b] + "with" + src[w..open] + Parens(src[open + 1..close]) + src[close + 1..d] +
                               Braced(Slice(d + 1, end - 1))
    {
      BracedAt(d, end);
      ParensAt(open, close);
      hide Braced, Parens;
      Slices(src, a, b, w, open);
      Slices(src, a, open, close + 1, d);
      Slices(src, a, d, end, end);
    }

    /** raw takes one argument and no block, fragment and once an argument and a block, none of them data. */
    method CheckBuiltin(name: string, args: Option<string>, data: Option<string>, block: Nodes) returns (ok: bool)
      requires Valid()
      modifies c`err
      ensures Valid()
      ensures ok == (IsBuiltin(name) ==>
                       data.None? && args.Some? && args.value != "" && (name == "raw" <==> block == Nil))
      ensures ok ==> c.err == old(c.err)
      ensures !ok ==> c.err.Some?
    {
      hide LineAt, LineStartAt, FramesInside;
      ok := true;
      if IsBuiltin(name) {
        if data.Some? {
          ok := false;
        } else if name == "raw" {
          ok := !(args.None? || args.value == "" || block != Nil);
        } else {
          ok := !(args.None? || args.value == "") && block != Nil;
        }
        if !ok {
          c.Report();
        }
      }
    }

    /** The parenthesised arguments of a call, if there are any. */
    method ParseArgs() returns (ok: bool, args: Option<string>, ghost raw: Option<string>)
      requires Valid()
      modifies c
      ensures Valid() && old(c.pos) <= c.pos
      ensures ArgsAt(src, old(c.pos)) == if ok then Some((raw, c.pos)) else None
      ensures ok ==> if raw.Some? then Slice(old(c.pos), c.pos) == Parens(raw.value) && Delimited(raw.value, MatchParen)
                     else old(c.pos) == c.pos
      ensures ok ==> args == if raw.Some? then Some(Trim(raw.value)) else None
      ensures !ok ==> c.err.Some?
    {
      hide LineAt, LineStartAt, FramesInside, Scan, Trim, Parens;
      ghost var e := c.pos;
      ok, args, raw := true, None, None;
      if c.Peek() == '(' {
        c.Advance();
        var start, end;
        ok, start, end := c.ScanC(MatchParen);
        if !ok {
          return;
        }
        FoundIsDelimited(src, start, end, MatchParen);
        raw := Some(src[start..end]);
        args := Some(Trim(src[start..end]));
        ParensAt(e, end);
      }
    }

    lemma {:induction false} IdentEnds(p: nat, e: nat)
      requires p <= e <= |src| && (forall i :: p <= i < e ==> IsIdentChar(src[i])) &&
               (e == |src| || !IsIdentChar(src[e]))
      ensures IdentEnd(src, p) == e
      decreases e - p
    {
      if p < e {
        IdentEnds(p + 1, e);
      }
    }

    method ParseCall() returns (ok: bool, ns: seq<Node>, ghost item: Item)
      requires Valid() && c.pos < |src| && src[c.pos] == '@'
      modifies c, this`tags
      ensures Valid() && old(c.pos) < c.pos
      ensures ok ==> BuiltOne(Slice(old(c.pos), c.pos), item, ns, Names(old(tags)), Names(tags))
      ensures CallAt(src, old(c.pos), Names(old(tags))) == if ok then Some(At(item, c.pos, Names(tags))) else None
      ensures !ok ==> c.err.Some?
      decreases |src| - c.pos, 2
    {
      hide LineAt, LineStartAt, FramesInside, BuiltOne, BuiltBlock, Names, Trim, Parens, BehindAt, ArgsAt,
           Delimited, BlockNodes, IdentEnd, AllSpace;
      ghost var at := c.pos;
      ok, ns, item := false, [], Run("");
      c.Advance();
      var good, name := c.ReadIdent();
      if !good {
        return;
      }
      ghost var e := c.pos;
      IdentEnds(at + 1, e);
      var args; ghost var rawArgs;
      good, args, rawArgs := ParseArgs();
      if !good {
        return;
      }
      ghost var b := c.pos;
      var data, block; ghost var part;
      good, data, block, part := ParseCallBlock();
      if !good {
        return;
      }
      NodesOfBlock(Slice(b, c.pos), data, part, block, Names(old(tags)), Names(tags));
      good := CheckBuiltin(name, args, data, block);
      if !good {
        return;
      }
      CallDone(at, e, b, c.pos, name, rawArgs, data, part, block, Names(old(tags)), Names(tags));
      ok, ns, item := true, [Call(name, if args.Some? then args.value else "", data, block)],
                      CallItem(name, rawArgs, data, part);
    }

    /** The rest of an if statement, after the keyword. */
    method ParseIf() returns (ok: bool, n: Node, ghost chain: Chain)
      requires Valid()
      modifies c, this`tags
      ensures Valid() && old(c.pos) <= c.pos
      ensures ChainAt(src, old(c.pos), Names(old(tags))) == if ok then Some(At(chain, c.pos, Names(tags))) else None
      ensures ok ==> BuiltChain(Slice(old(c.pos), c.pos), chain, n, Names(old(tags)), Names(tags))
      ensures !ok ==> c.err.Some?
      decreases |src| - c.pos, 3
    {
      hide LineAt, LineStartAt, FramesInside, BuiltPiece, BuiltElse, BuiltChain, Names, ToNodes, Braced, Scan, Trim,
           BlockAt, ElseAt;
      ghost var p := c.pos;
      ok, n, chain := false, Children, Chain("", Piece([], ""), NoElse);
      var good, start, end := c.ScanC(ToBrace);
      if !good {
        return;
      }
      FoundIsDelimited(src, start, end, ToBrace);
      var cond := Trim(src[start..end]);
      if cond == "" {
        c.Report();
        return;
      }
      var yes; ghost var body;
      good, yes, body := ParseBlock();
      if !good {
        return;
      }
      ghost var q, mid := c.pos, Names(tags);
      var no; ghost var rest;
      good, no, rest := ParseElse();
      if !good {
        return;
      }
      IfDone(p, end, q, c.pos, body, yes, rest, no, Names(old(tags)), mid, Names(tags));
      ok, n, chain := true, If(cond, ToNodes(yes), no), Chain(src[start..end], body, rest);
    }

    /** Behind "else" at g: an if, or a block. */
    method ParseBranch(ghost save: nat, ghost g: nat) returns (ok: bool, no: Nodes, ghost rest: ElsePart)
      requires Valid() && save <= g && g + 4 == c.pos && WsEnd(src, save) == g && KeywordAt(src, g, "else")
      modifies c, this`tags
      ensures Valid() && old(c.pos) <= c.pos
      ensures ok ==> BuiltElse(Slice(save, c.pos), rest, no, Names(old(tags)), Names(tags))
      ensures ElseAt(src, save, Names(old(tags))) == if ok then Some(At(rest, c.pos, Names(tags))) else None
      ensures !ok ==> c.err.Some?
      decreases |src| - c.pos, 1
    {
      hide LineAt, LineStartAt, BuiltPiece, BuiltElse, BuiltChain, Names, ToNodes, Braced, BlockAt, ChainAt, WsEnd,
           AllSpace, FramesInside;
      ok, no, rest := false, Nil, NoElse;
      ghost var h := c.pos;
      assert src[g..h] == "else";
      c.SkipWs();
      ghost var k := c.pos;
      var isIf := c.EatKeyword("if");
      if isIf {
        ghost var i := c.pos;
        assert src[k..i] == "if";
        var n; ghost var chain;
        ok, n, chain := ParseIf();
        if ok {
          ElseIfDone(save, g, h, k, i, c.pos, chain, n, Names(old(tags)), Names(tags));
          no, rest := Cons(n, Nil), ElseIf(src[save..g], src[h..k], chain);
        }
      } else if c.Peek() == '{' {
        var ns; ghost var piece;
        ok, ns, piece := ParseBlock();
        if ok {
          ElseBlockDone(save, g, h, k, c.pos, piece, ns, Names(old(tags)), Names(tags));
          no, rest := ToNodes(ns), ElseBlock(src[save..g], src[h..k], piece);
        }
      } else {
        c.Report();
      }
    }

    /** else and else-if after white space; the cursor goes back when there is none. */
    method ParseElse() returns (ok: bool, no: Nodes, ghost rest: ElsePart)
      requires Valid()
      modifies c, this`tags
      ensures Valid() && old(c.pos) <= c.pos
      ensures ok ==> BuiltElse(Slice(old(c.pos), c.pos), rest, no, Names(old(tags)), Names(tags))
      ensures ElseAt(src, old(c.pos), Names(old(tags))) == if ok then Some(At(rest, c.pos, Names(tags))) else None
      ensures !ok ==> c.err.Some?
      decreases |src| - c.pos, 1
    {
      hide LineAt, LineStartAt, BuiltElse, Names, BlockAt, ChainAt, WsEnd, AllSpace, KeywordAt, FramesInside;
      var save, saveLine, saveStart := c.pos, c.line, c.lineStart;
      c.SkipWs();
      ghost var g := c.pos;
      var isElse := c.EatKeyword("else");
      if isElse {
        ok, no, rest := ParseBranch(save, g);
      } else {
        c.Rewind(save, saveLine, saveStart);
        NothingDone(save, None, Names(tags));
        ok, no, rest := true, Nil, NoElse;
      }
    }

    /** The rest of a for statement, after the keyword. */
    method ParseFor() returns (ok: bool, n: Node, ghost head: string, ghost body: Piece, ghost ns: seq<Node>)
      requires Valid()
      modifies c, this`tags
      ensures Valid() && old(c.pos) <= c.pos
      ensures ForAt(src, old(c.pos), Names(old(tags))) ==
              if ok then Some(At(ForPart(head, body), c.pos, Names(tags))) else None
      ensures ok ==> Delimited(head, ToBrace) && Trim(head) != "" && n == For(Trim(head), ToNodes(ns))
      ensures ok ==> BuiltPiece(PieceSource(body), body, ns, Names(old(tags)), Names(tags))
      ensures ok ==> Slice(old(c.pos), c.pos) == head + Braced(PieceSource(body))
      ensures !ok ==> c.err.Some?
      decreases |src| - c.pos, 1
    {
      hide LineAt, LineStartAt, FramesInside, BuiltPiece, Names, ToNodes, Scan, Trim, Braced, BlockAt;
      ghost var p := c.pos;
      ok, n, head, body, ns := false, Children, "", Piece([], ""), [];
      var good, start, end := c.ScanC(ToBrace);
      if !good {
        return;
      }
      FoundIsDelimited(src, start, end, ToBrace);
      var expr := Trim(src[start..end]);
      if expr == "" {
        c.Report();
        return;
      }
      var nodes;
      good, nodes, body := ParseBlock();
      if !good {
        return;
      }
      BracedAt(end, c.pos);
      Slices(src, p, end, c.pos, c.pos);
      PieceIsBuilt(Slice(end + 1, c.pos - 1), body, nodes, Names(old(tags)), Names(tags));
      ok, n, head, ns := true, For(expr, ToNodes(nodes)), src[start..end], nodes;
    }

    /** Plain text up to a special character; white space alone before '}' ends the body instead. */
    method ParseText() returns (ok: bool, ended: bool)
      requires Valid() && c.pos < |src| && !Special(src[c.pos]) && !StartsStatement(src, c.pos)
      modifies c
      ensures Valid() && old(c.pos) < c.pos
      ensures ok ==> c.pos == TextEnd(src, old(c.pos)) && (ended <==> CharAt(src, c.pos) == '}')
      ensures ok <==> var e := TextEnd(src, old(c.pos));
                      CharAt(src, e) != '\0' && (src[e] == '}' ==> forall i :: old(c.pos) <= i < e ==> IsSpace(src[i]))
      ensures ok ==> c.pos < |src| && Special(src[c.pos]) && forall i :: old(c.pos) <= i < c.pos ==> !Special(src[i])
      ensures ok && ended ==> src[c.pos] == '}' && forall i :: old(c.pos) <= i < c.pos ==> IsSpace(src[i])
      ensures !ok ==> c.err.Some?
    {
      hide LineAt, LineStartAt, FramesInside, StartsStatement;
      var start := c.pos;
      c.Advance();
      while !Special(c.Peek())
        invariant Valid() && start < c.pos && tags == old(tags)
        invariant forall i :: start <= i < c.pos ==> !Special(src[i])
        invariant TextEnd(src, start) == TextEnd(src, c.pos)
        decreases |src| - c.pos
      {
        c.Advance();
      }
      ok, ended := false, false;
      if c.Peek() == '\0' {
        c.Report();
        return;
      }
      if c.Peek() == '}' {
        var i := start;
        while i < c.pos
          invariant start <= i <= c.pos && forall j :: start <= j < i ==> IsSpace(src[j])
        {
          if !IsSpace(src[i]) {
            c.Report();
            return;
          }
          i := i + 1;
        }
        ended := true;
      }
      ok := true;
    }

    /** Text at the start of a run, or the white space before the closing brace. */
    method ParsePlain() returns (ok: bool, ended: bool, ns: seq<Node>, ghost item: Item)
      requires Valid() && c.pos < |src| && !Special(src[c.pos]) && !StartsStatement(src, c.pos)
      modifies c
      ensures Valid() && old(c.pos) < c.pos
      ensures ok && !ended ==> BuiltOne(Slice(old(c.pos), c.pos), item, ns, Names(tags), Names(tags))
      ensures BodyEnds(src, old(c.pos)) <==> ok && ended
      ensures ok && ended ==> c.pos == WsEnd(src, old(c.pos))
      ensures !BodyEnds(src, old(c.pos)) ==>
                ItemAt(src, old(c.pos), Names(tags)) == if ok then Some(At(item, c.pos, Names(tags))) else None
      ensures !ok ==> c.err.Some?
    {
      hide LineAt, LineStartAt, FramesInside, BuiltOne, Names, TextNodes, StartsStatement, ItemAt, BodyEnds,
           TextEnd, WsEnd;
      var start := c.pos;
      PlainStep(src, start, Names(tags));
      ns, item := [], Run("");
      ok, ended := ParseText();
      if ok && !ended {
        RunLocal(src, start, c.pos);
        LeafBuilt(src[start..c.pos], Run(src[start..c.pos]), Names(tags));
        ns, item := TextNodes(src[start..c.pos]), Run(src[start..c.pos]);
      }
    }

    /** A statement: white space up to k, and a keyword there. */
    method ParseStatement(k: nat) returns (ok: bool, ns: seq<Node>, ghost item: Item)
      requires Valid() && c.pos < |src| && !Special(src[c.pos]) && StartsStatement(src, c.pos) && k == WsEnd(src, c.pos)
      modifies c, this`tags
      ensures Valid() && old(c.pos) < c.pos
      ensures ok ==> BuiltOne(Slice(old(c.pos), c.pos), item, ns, Names(old(tags)), Names(tags))
      ensures !BodyEnds(src, old(c.pos))
      ensures ItemAt(src, old(c.pos), Names(old(tags))) == if ok then Some(At(item, c.pos, Names(tags))) else None
      ensures !ok ==> c.err.Some?
      decreases |src| - c.pos, 2
    {
      hide LineAt, LineStartAt, BuiltOne, BuiltChain, BuiltPiece, Names, ToNodes, PieceSource, Trim, Braced,
           ChainAt, ForAt, ItemAt, BodyEnds, FramesInside;
      var start := c.pos;
      ok, ns, item := false, [], Run("");
      StatementStep(src, start, Names(tags));
      hide WsEnd;
      if KeywordAt(src, k, "else") {
        c.ReportAt(k);
        c.Advance();
      } else if KeywordAt(src, k, "if") {
        assert src[k..k + 2] == "if";
        c.AdvanceN(k + 2 - c.pos);
        var n; ghost var chain;
        ok, n, chain := ParseIf();
        if ok {
          IfStatementDone(start, k, c.pos, chain, n, Names(old(tags)), Names(tags));
          ns, item := [n], IfItem(src[start..k], chain);
        }
      } else {
        assert src[k..k + 3] == "for";
        c.AdvanceN(k + 3 - c.pos);
        var n; ghost var head, body, ms;
        ok, n, head, body, ms := ParseFor();
        if ok {
          ForDone(start, k, c.pos, head, body, ms, Names(old(tags)), Names(tags));
          ns, item := [n], ForItem(src[start..k], head, body);
        }
      }
    }

    /** Statement or text at the start of a run. */
    method ParseRun() returns (ok: bool, ended: bool, ns: seq<Node>, ghost item: Item)
      requires Valid() && c.pos < |src| && !Special(src[c.pos])
      modifies c, this`tags
      ensures Valid() && old(c.pos) < c.pos
      ensures ok && !ended ==> BuiltOne(Slice(old(c.pos), c.pos), item, ns, Names(old(tags)), Names(tags))
      ensures BodyEnds(src, old(c.pos)) <==> ok && ended
      ensures ok && ended ==> c.pos == WsEnd(src, old(c.pos)) && tags == old(tags)
      ensures !BodyEnds(src, old(c.pos)) ==>
                ItemAt(src, old(c.pos), Names(old(tags))) == if ok then Some(At(item, c.pos, Names(tags))) else None
      ensures !ok ==> c.err.Some?
      decreases |src| - c.pos, 3
    {
      hide LineAt, LineStartAt, BuiltOne, Names, ItemAt, BodyEnds, StartsStatement, WsEnd, FramesInside;
      ended := false;
      if StartsStatement(src, c.pos) {
        var k := EndOfSpace(c.pos);
        ok, ns, item := ParseStatement(k);
      } else {
        ok, ended, ns, item := ParsePlain();
      }
    }

    /** The next item of a body, or the white space before its closing brace. */
    method ParseItem() returns (ok: bool, ended: bool, ns: seq<Node>, ghost item: Item)
      requires Valid() && c.pos < |src| && src[c.pos] != '\0' && src[c.pos] != '}'
      modifies c, this`tags
      ensures Valid() && old(c.pos) < c.pos
      ensures ok && !ended ==> BuiltOne(Slice(old(c.pos), c.pos), item, ns, Names(old(tags)), Names(tags))
      ensures BodyEnds(src, old(c.pos)) <==> ok && ended
      ensures ok && ended ==> c.pos == WsEnd(src, old(c.pos)) && tags == old(tags)
      ensures !BodyEnds(src, old(c.pos)) ==>
                ItemAt(src, old(c.pos), Names(old(tags))) == if ok then Some(At(item, c.pos, Names(tags))) else None
      ensures !ok ==> c.err.Some?
      decreases |src| - c.pos, 4
    {
      hide LineAt, LineStartAt, FramesInside, BuiltOne, Names, BodyEnds, ItemAt, ElementAt, CallAt, InterpAt;
      ghost var p, mid := c.pos, Names(tags);
      if Special(src[p]) {
        ItemStep(src, p, mid);
      }
      ended := false;
      if c.Peek() == '<' {
        ok, ns, item := ParseElement();
      } else if c.Peek() == '{' {
        var n; ghost var inner;
        ok, n, inner := ParseInterp(InText);
        if ok {
          BracesBuilt(inner, mid);
        }
        ns, item := [n], Braces(inner);
      } else if c.Peek() == '@' {
        ok, ns, item := ParseCall();
      } else {
        ok, ended, ns, item := ParseRun();
      }
    }

    /** Body nodes up to the closing brace of the current block, which is not consumed. */
    method ParseBody() returns (ok: bool, ns: seq<Node>, ghost piece: Piece)
      requires Valid()
      modifies c, this`tags
      ensures Valid() && old(c.pos) <= c.pos
      ensures ok ==> c.pos < |src| && src[c.pos] == '}'
      ensures BodyAt(src, old(c.pos), Names(old(tags)), []) == if ok then Some(At(piece, c.pos, Names(tags))) else None
      ensures ok ==> BuiltPiece(Slice(old(c.pos), c.pos), piece, ns, Names(old(tags)), Names(tags))
      ensures !ok ==> c.err.Some?
      decreases |src| - c.pos, 5
    {
      hide LineAt, LineStartAt, FramesInside, Built, BuiltOne, BuiltPiece, Names, BodyAt, ItemAt;
      ghost var start, open := c.pos, Names(tags);
      ghost var items: seq<Item> := [];
      ok, ns, piece := false, [], Piece([], "");
      NothingBuilt(start, open);
      while true
        invariant Valid() && start <= c.pos
        invariant BodyAt(src, start, open, []) == BodyAt(src, c.pos, Names(tags), items)
        invariant Built(Slice(start, c.pos), items, ns, open, Names(tags))
        decreases |src| - c.pos
      {
        ghost var p, mid := c.pos, Names(tags);
        BodyStep(src, p, mid, items);
        if c.Peek() == '\0' {
          c.Report();
          return;
        }
        var good, ended, ms := true, true, [];
        ghost var item := Run("");
        if c.Peek() != '}' {
          good, ended, ms, item := ParseItem();
        }
        if !good {
          return;
        }
        if ended {
          BuiltEnd(start, p, c.pos, items, ns, open, mid);
          ok, piece := true, Piece(items, src[p..c.pos]);
          return;
        }
        BuiltAppend(src, start, p, c.pos, items, item, ns, ms, open, mid, Names(tags));
        ns, items := ns + ms, items + [item];
      }
    }

    lemma NothingBuilt(p: nat, open: seq<string>)
      ensures Built(Slice(p, p), [], [], open, open)
    {
    }

    lemma BuiltEnd(a: nat, b: nat, e: nat, items: seq<Item>, ns: seq<Node>, o1: seq<string>, o2: seq<string>)
      requires a <= b <= e <= |src| && Built(Slice(a, b), items, ns, o1, o2)
      requires forall i :: b <= i < e ==> IsSpace(src[i])
      ensures BuiltPiece(Slice(a, e), Piece(items, src[b..e]), ns, o1, o2)
    {
      hide Built, BuiltPiece;
      PieceBuilt(src, a, b, e, items, ns, o1, o2);
    }

    /** The body of a component, after its opening brace: every tag opened in it is closed in it. */
    method ParseComponent() returns (ok: bool, body: Nodes, ghost piece: Piece)
      requires Valid()
      modifies c, this`tags
      ensures Valid() && old(c.pos) <= c.pos
      ensures ComponentAt(src, old(c.pos)) == if ok then Some(At(piece, c.pos, [])) else None
      ensures ok ==> old(c.pos) < c.pos && src[c.pos - 1] == '}'
      ensures ok ==> Slice(old(c.pos), c.pos - 1) == PieceSource(piece) && ProperPiece(piece)
      ensures ok ==> body == PieceNodes(piece) && OpenAfter(piece.items, []) == Some([])
      ensures !ok ==> c.err.Some?
    {
      hide LineAt, LineStartAt, PieceSource, ProperPiece, PieceNodes, OpenAfter, ToNodes, BuiltPiece, BodyAt;
      tags := [];
      var ns;
      ok, ns, piece := ParseBody();
      body := ToNodes(ns);
      if !ok {
        return;
      }
      if tags != [] {
        c.ReportAt(tags[|tags| - 1].pos);
        ok := false;
        return;
      }
      PieceIsBuilt(Slice(old(c.pos), c.pos), piece, ns, [], []);
      c.Advance();
    }
  }
}
