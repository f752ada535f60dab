/** A printed tag, comment or doctype is read back. */
module CtmplAcceptTag {
  import opened Wrappers
  import opened Chars
  import opened CtmplAst
  import opened CtmplScan
  import opened CtmplTag
  import opened CtmplReading
  import opened CtmplSyntax
  import opened CtmplGrammar
  import opened CtmplFits

  // ---- expressions ----

  lemma InterpStands(s: string, p: nat, inner: string, inBody: bool)
    requires IsExpr(inner) && StartsAt(s, p, Braced(inner)) && (inBody || Trim(inner) != "children...")
    ensures p < |s| && s[p] == '{' && InterpAt(s, p, inBody) == Some(p + |inner| + 2)
    ensures s[p + 1..p + 1 + |inner|] == inner
  {
    hide Trim, Scan;
    assert Braced(inner) == "{" + (inner + ['}']);
    StartsBoth(s, p, "{", inner + ['}']);
    CharHere(s, p, '{');
    DelimitedIsFound(s, p + 1, inner, MatchBrace);
    StartsBoth(s, p + 1, inner, ['}']);
  }

  lemma FlagStands(s: string, p: nat, inner: string)
    requires IsExpr(inner) && StartsAt(s, p, "?={" + inner + "}")
    ensures p + 3 <= |s| && s[p] == '?' && s[p + 1] == '=' && FlagAt(s, p) == Some(p + |inner| + 4)
    ensures s[p + 3..p + 3 + |inner|] == inner
  {
    hide Trim, Scan;
    assert "?={" + inner + "}" == "?={" + (inner + ['}']);
    StartsBoth(s, p, "?={", inner + ['}']);
    assert s[p..p + 3] == "?={";
    assert s[p] == s[p..p + 3][0] && s[p + 1] == s[p..p + 3][1] && s[p + 2] == s[p..p + 3][2];
    DelimitedIsFound(s, p + 3, inner, MatchBrace);
    StartsBoth(s, p + 3, inner, ['}']);
  }

  // ---- the attribute loop ----

  lemma {:induction false} TagTextAt(pl: Place, u: string, j: nat)
    requires IsTagText(pl, u) && j < |u|
    ensures u[j] != '{' && (AfterText(pl, u[..j]).quote == '\0' ==> u[j] != '>')
    decreases |u|
  {
    var init := u[..|u| - 1];
    if j < |u| - 1 {
      TagTextAt(pl, init, j);
      assert init[..j] == u[..j];
    }
  }

  /** The state of the loop as one value: what the parser holds between two characters. */
  datatype Loop = Loop(flush: nat, pos: nat, quote: char, from: nat, to: nat)

  ghost predicate InLoop(s: string, tag: nat, name: string, parts: seq<Part>, l: Loop) {
    Reading(s, tag, name, parts, l.flush, l.pos, l.quote, l.from, l.to)
  }

  function RunLoop(s: string, tag: nat, parts: seq<Part>, l: Loop): Option<Attrs>
    requires tag <= l.flush <= l.pos <= |s| && l.from <= |s| && l.to <= |s|
  {
    AttrsAt(s, tag, parts, l.flush, l.pos, l.quote, l.from, l.to)
  }

  lemma LoopBounds(s: string, tag: nat, name: string, parts: seq<Part>, l: Loop)
    requires InLoop(s, tag, name, parts, l)
    ensures tag <= l.flush <= l.pos <= |s| && tag <= l.to <= l.pos && tag <= l.from <= |s|
    ensures s[tag..l.flush] == PartsSource(parts)
    ensures PlaceIs(AfterText(AfterParts(StartPlace(name), parts), s[l.flush..l.pos]), s, tag, l.pos, l.quote,
            l.from, l.to)
  {
    hide IsTagText, AfterText, AtName, PlaceIs, StartPlace, PartsSource, AfterParts, ProperParts;
  }

  /** The pending text u is read to its end. */
  lemma {:induction false} PlainRead(s: string, tag: nat, name: string, parts: seq<Part>, l: Loop, u: string)
    returns (m: Loop)
    requires InLoop(s, tag, name, parts, l) && StartsAt(s, l.flush, u) && l.pos <= l.flush + |u|
    requires var pl := AfterParts(StartPlace(name), parts); IsTagText(pl, u) && NoFlag(s, l.flush, pl, u)
    ensures InLoop(s, tag, name, parts, m) && m.flush == l.flush && m.pos == l.flush + |u|
    ensures tag <= l.flush <= l.pos <= |s| && l.from <= |s| && l.to <= |s| && m.pos <= |s| && m.from <= |s| &&
            m.to <= |s|
    ensures RunLoop(s, tag, parts, l) == RunLoop(s, tag, parts, m)
    decreases l.flush + |u| - l.pos
  {
    hide AfterText, IsTagText, PartsSource, ProperParts, AfterParts, AtName, AttrsAt, StartPlace;
    if l.pos == l.flush + |u| {
      m := l;
    } else {
      var pl, j := AfterParts(StartPlace(name), parts), l.pos - l.flush;
      assert s[l.flush..l.pos] == u[..j] && s[l.pos] == u[j];
      TagTextAt(pl, u, j);
      var quote, from, to := NextQuote(l.quote, s[l.pos]), NextFrom(s, l.pos, l.quote, l.from),
                             NextTo(l.pos, l.quote, s[l.pos], l.to);
      ReadChar(s, tag, pl, l.flush, l.pos, l.quote, l.from, l.to);
      AttrsChar(s, tag, parts, l.flush, l.pos, l.quote, l.from, l.to);
      hide Pending, NoFlag;
      m := PlainRead(s, tag, name, parts, Loop(l.flush, l.pos + 1, quote, from, to), u);
    }
  }

  // ---- parts in order ----

  lemma {:induction false} PartStands(s: string, tag: nat, start: Place, ps: seq<Part>, i: nat)
    requires i < |ps| && StartsAt(s, tag, PartsSource(ps)) && ProperParts(start, ps)
    ensures StartsAt(s, tag + |PartsSource(ps[..i])|, PartSource(ps[i])) && StartsAt(s, tag, PartsSource(ps[..i]))
    ensures ProperParts(start, ps[..i]) && ProperPart(PartsSource(ps[..i]), AfterParts(start, ps[..i]), ps[i])
    decreases |ps|
  {
    hide PartSource, ProperPart, AfterPart;
    var init := ps[..|ps| - 1];
    StartsBoth(s, tag, PartsSource(init), PartSource(ps[|ps| - 1]));
    if i < |ps| - 1 {
      PartStands(s, tag, start, init, i);
      assert init[..i] == ps[..i];
    }
  }

  /** The parts up to i + 2 are those up to i and two more. */
  lemma TwoMore(ps: seq<Part>, i: nat, start: Place)
    requires i + 2 <= |ps|
    ensures ps[..i + 2] == ps[..i] + [ps[i], ps[i + 1]]
    ensures PartsSource(ps[..i + 1]) == PartsSource(ps[..i]) + PartSource(ps[i])
    ensures AfterParts(start, ps[..i + 1]) == AfterPart(AfterParts(start, ps[..i]), ps[i])
    ensures |PartsSource(ps[..i + 2])| == |PartsSource(ps[..i])| + |PartSource(ps[i])| + |PartSource(ps[i + 1])|
  {
    hide PartSource, AfterPart;
    assert ps[..i + 1] == ps[..i] + [ps[i]] && ps[..i + 2] == ps[..i + 1] + [ps[i + 1]];
    PartAppend(start, ps[..i], ps[i]);
    PartAppend(start, ps[..i + 1], ps[i + 1]);
  }

  /** At an expression the loop's quote and name bounds are those of the place. */
  lemma PlaceSeen(s: string, tag: nat, mid: Place, l: Loop)
    requires tag <= l.to <= l.pos < |s| && tag <= l.from <= |s| && PlaceIs(mid, s, tag, l.pos, l.quote, l.from, l.to)
    requires !IsSpace(s[l.pos])
    ensures mid.quote == l.quote && l.from == tag + mid.from && l.to == tag + mid.to && l.from <= l.pos
  {
  }

  /** The loop stands at the expression inner, behind the pending text t. */
  ghost predicate AtExpression(s: string, tag: nat, name: string, done: seq<Part>, l: Loop, t: string, inner: string,
                               ctx: Context)
  {
    var mid := AfterText(AfterParts(StartPlace(name), done), t);
    InLoop(s, tag, name, done, l) && l.pos < |s| && s[l.flush..l.pos] == t && s[l.pos] == '{' &&
    mid.quote == l.quote && l.from == tag + mid.from && l.to == tag + mid.to && l.from <= l.pos && l.to <= |s| &&
    ClassifyAt(s, l.from, l.to) == Some(ctx) && IsExpr(inner) && Trim(inner) != "children..." &&
    var e := l.pos + |inner| + 2;
    e <= |s| && s[l.pos..e] == Braced(inner) && s[l.pos + 1..e - 1] == inner && InterpAt(s, l.pos, false) == Some(e)
  }

  lemma ExpressionStands(s: string, tag: nat, name: string, done: seq<Part>, l: Loop, t: string, inner: string,
                         ctx: Context)
    requires InLoop(s, tag, name, done, l) && l.flush <= l.pos <= |s| && s[l.flush..l.pos] == t
    requires StartsAt(s, l.pos, Braced(inner)) && IsExpr(inner) && Trim(inner) != "children..."
    requires var mid := AfterText(AfterParts(StartPlace(name), done), t);
             tag + mid.from <= |s| && tag + mid.to <= |s| && ClassifyAt(s, tag + mid.from, tag + mid.to) == Some(ctx)
    ensures AtExpression(s, tag, name, done, l, t, inner, ctx)
  {
    hide InLoop, IsExpr, Trim, AfterText, AfterParts, PlaceIs, InterpAt, ClassifyAt, StartPlace, PartsSource;
    LoopBounds(s, tag, name, done, l);
    InterpStands(s, l.pos, inner, false);
    hide Braced;
    PlaceSeen(s, tag, AfterText(AfterParts(StartPlace(name), done), t), l);
  }

  /** Before the expression: the loop's quote and name start are those of the place. */
  lemma ExpressionPlace(s: string, tag: nat, name: string, done: seq<Part>, l: Loop, t: string, inner: string)
    requires InLoop(s, tag, name, done, l) && l.flush <= l.pos <= |s| && s[l.flush..l.pos] == t
    requires StartsAt(s, l.pos, Braced(inner))
    ensures var mid := AfterText(AfterParts(StartPlace(name), done), t);
            mid.quote == l.quote && l.from == tag + mid.from
  {
    hide InLoop, AfterText, AfterParts, PlaceIs, StartPlace, PartsSource;
    LoopBounds(s, tag, name, done, l);
    FirstChar(s, l.pos, Braced(inner));
    hide Braced;
    PlaceSeen(s, tag, AfterText(AfterParts(StartPlace(name), done), t), l);
  }

  lemma ValueRead(s: string, tag: nat, name: string, done: seq<Part>, l: Loop, t: string, inner: string, ctx: Context)
    returns (m: Loop)
    requires AtExpression(s, tag, name, done, l, t, inner, ctx) && l.quote != '\0'
    ensures InLoop(s, tag, name, done + [Plain(t), Value(inner, ctx)], m) && m.flush == m.pos == l.pos + |inner| + 2
    ensures tag <= l.flush <= l.pos && l.from <= |s| && l.to <= |s| && m.pos <= |s| && m.from <= |s| && m.to <= |s|
    ensures RunLoop(s, tag, done, l) == RunLoop(s, tag, done + [Plain(t), Value(inner, ctx)], m)
  {
    hide AttrContext, IsExpr, Trim, ProperParts, AfterText, IsTagText, PartsNodes, PartsSource, AfterParts, AtName,
         ClassifyAt, InterpAt, StartPlace, PlaceIs, AttrsAt;
    var e := l.pos + |inner| + 2;
    ClassifySeen(s, l.from, l.to, ctx);
    ReadValue(s, tag, name, done, l.flush, l.pos, l.quote, l.from, l.to, inner, ctx, e);
    AttrsValue(s, tag, done, l.flush, l.pos, l.quote, l.from, l.to, e, ctx);
    m := Loop(e, e, l.quote, l.from, l.to);
  }

  lemma UnquotedRead(s: string, tag: nat, name: string, done: seq<Part>, l: Loop, t: string, inner: string,
                     ctx: Context)
    returns (m: Loop)
    requires AtExpression(s, tag, name, done, l, t, inner, ctx) && l.quote == '\0'
    requires tag < l.pos && s[l.pos - 1] == '=' && l.from < l.pos - 1
    ensures InLoop(s, tag, name, done + [Plain(t), Unquoted(inner, ctx)], m) && m.flush == m.pos == l.pos + |inner| + 2
    ensures tag <= l.flush <= l.pos && l.from <= |s| && l.to <= |s| && m.pos <= |s| && m.from <= |s| && m.to <= |s|
    ensures RunLoop(s, tag, done, l) == RunLoop(s, tag, done + [Plain(t), Unquoted(inner, ctx)], m)
  {
    hide AttrContext, IsExpr, Trim, ProperParts, AfterText, IsTagText, PartsNodes, PartsSource, AfterParts, AtName,
         ClassifyAt, InterpAt, StartPlace, PlaceIs, AttrsAt;
    var e := l.pos + |inner| + 2;
    ClassifySeen(s, l.from, l.to, ctx);
    EqualsSeen(s, tag, AfterParts(StartPlace(name), done), l.flush, l.pos, l.from, l.to);
    ReadUnquoted(s, tag, name, done, l.flush, l.pos, l.from, l.to, inner, ctx, e);
    AttrsUnquoted(s, tag, done, l.flush, l.pos, l.from, l.to, e, ctx);
    m := Loop(e, e, l.quote, l.from, l.to);
  }

  lemma FlagRead(s: string, tag: nat, name: string, done: seq<Part>, l: Loop, t: string, flag: string, inner: string)
    returns (m: Loop)
    requires InLoop(s, tag, name, done, l) && flag != "" && l.quote == '\0'
    requires l.flush <= l.from <= l.pos <= |s| && s[l.flush..l.from] == t && s[l.from..l.pos] == flag
    requires IsExpr(inner) && StartsAt(s, l.pos, "?={" + inner + "}")
    ensures InLoop(s, tag, name, done + [Plain(t), Flag(flag, inner)], m) && m.flush == m.pos == l.pos + |inner| + 4
    ensures tag <= l.flush <= l.pos && l.from <= |s| && l.to <= |s| && m.pos <= |s| && m.from <= |s| && m.to <= |s|
    ensures RunLoop(s, tag, done, l) == RunLoop(s, tag, done + [Plain(t), Flag(flag, inner)], m)
  {
    hide IsExpr, Trim, ProperParts, AfterText, IsTagText, PartsNodes, PartsSource, AfterParts, AtName, FlagAt,
         StartPlace, PlaceIs, AttrsAt;
    LoopBounds(s, tag, name, done, l);
    FlagStands(s, l.pos, inner);
    var e := l.pos + |inner| + 4;
    m := Loop(e, e, '\0', e, l.to);
    hide Pending;
    ReadFlag(s, tag, name, done, l.flush, l.pos, l.from, l.to, inner, e);
    AttrsFlag(s, tag, done, l.flush, l.pos, l.from, l.to, e);
  }

  lemma FlagPair(s: string, tag: nat, name: string, done: seq<Part>, l: Loop, t: string, flag: string, inner: string)
    returns (m: Loop)
    requires InLoop(s, tag, name, done, l) && StartsAt(s, l.flush, t) && l.pos <= l.flush + |t|
    requires StartsAt(s, l.flush + |t|, flag + "?={" + inner + "}") && flag != "" && IsExpr(inner)
    requires var pl := AfterParts(StartPlace(name), done);
             var mid := AfterText(pl, t);
             IsTagText(pl, t) && IsTagText(mid, flag) && mid.from == mid.at && AfterText(mid, flag).quote == '\0' &&
             AfterText(mid, flag).from == mid.from && NoFlag(s, l.flush, pl, t + flag)
    requires tag + AfterParts(StartPlace(name), done).at == l.flush
    ensures InLoop(s, tag, name, done + [Plain(t), Flag(flag, inner)], m) && m.flush == m.pos <= |s|
    ensures m.pos == l.flush + |t| + |flag| + |inner| + 4
    ensures tag <= l.flush <= l.pos <= |s| && l.from <= |s| && l.to <= |s| && m.from <= |s| && m.to <= |s|
    ensures RunLoop(s, tag, done, l) == RunLoop(s, tag, done + [Plain(t), Flag(flag, inner)], m)
  {
    hide InLoop, RunLoop, AfterText, IsTagText, PartsSource, AfterParts, StartPlace, NoFlag, IsExpr, PlaceIs;
    var pl := AfterParts(StartPlace(name), done);
    var f, q, code := l.flush, l.flush + |t| + |flag|, "?={" + inner + "}";
    TextAppend(pl, t, flag);
    assert flag + "?={" + inner + "}" == flag + code;
    StartsBoth(s, f + |t|, flag, code);
    StartsJoin(s, f, t, flag);
    FirstChar(s, q, code);
    LoopBounds(s, tag, name, done, l);
    var n := PlainRead(s, tag, name, done, l, t + flag);
    LoopBounds(s, tag, name, done, n);
    PlaceSeen(s, tag, AfterText(pl, t + flag), n);
    m := FlagRead(s, tag, name, done, n, t, flag, inner);
  }

  lemma StartsJoin(s: string, p: nat, a: string, b: string)
    requires StartsAt(s, p, a) && StartsAt(s, p + |a|, b)
    ensures StartsAt(s, p, a + b)
  {
    assert s[p..p + |a| + |b|] == s[p..p + |a|] + s[p + |a|..p + |a| + |b|];
  }

  lemma ExpressionPair(s: string, tag: nat, name: string, done: seq<Part>, l: Loop, t: string, x: Part)
    returns (m: Loop)
    requires InLoop(s, tag, name, done, l) && StartsAt(s, l.flush, t) && l.pos <= l.flush + |t|
    requires (x.Value? || x.Unquoted?) && StartsAt(s, l.flush + |t|, PartSource(x))
    requires s[tag..l.flush] == PartsSource(done)
    requires var pl := AfterParts(StartPlace(name), done);
             var mid := AfterText(pl, t);
             IsTagText(pl, t) && NoFlag(s, l.flush, pl, t) && ProperPart(PartsSource(done) + t, mid, x) &&
             tag + mid.from <= |s| && tag + mid.to <= |s| && ClassifyAt(s, tag + mid.from, tag + mid.to) == Some(x.ctx)
    ensures InLoop(s, tag, name, done + [Plain(t), x], m) && m.flush == m.pos <= |s|
    ensures m.pos == l.flush + |t| + |PartSource(x)|
    ensures tag <= l.flush <= l.pos <= |s| && l.from <= |s| && l.to <= |s| && m.from <= |s| && m.to <= |s|
    ensures RunLoop(s, tag, done, l) == RunLoop(s, tag, done + [Plain(t), x], m)
  {
    hide InLoop, RunLoop, AfterText, IsTagText, PartsSource, AfterParts, StartPlace, NoFlag, IsExpr, ClassifyAt,
         ContextAt, Trim, AtExpression, PlaceIs;
    assert PartSource(x) == Braced(x.inner);
    LoopBounds(s, tag, name, done, l);
    var n := PlainRead(s, tag, name, done, l, t);
    LoopBounds(s, tag, name, done, n);
    ExpressionPlace(s, tag, name, done, n, t, x.inner);
    ExpressionStands(s, tag, name, done, n, t, x.inner, x.ctx);
    if x.Value? {
      m := ValueRead(s, tag, name, done, n, t, x.inner, x.ctx);
    } else {
      Slices(s, tag, n.flush, n.pos, n.pos);
      assert s[n.pos - 1] == s[tag..n.pos][n.pos - 1 - tag];
      m := UnquotedRead(s, tag, name, done, n, t, x.inner, x.ctx);
    }
  }

  /** Text and an expression, from the end of what is done to the end of the expression. */
  lemma PairRead(s: string, tag: nat, name: string, parts: seq<Part>, i: nat, l: Loop) returns (m: Loop)
    requires i + 1 < |parts| && InLoop(s, tag, name, parts[..i], l) && PairFits(s, tag, name, parts, i)
    requires StartsAt(s, tag, PartsSource(parts)) && ProperParts(StartPlace(name), parts)
    requires l.flush == tag + |PartsSource(parts[..i])| && l.pos <= l.flush + |parts[i].text|
    ensures InLoop(s, tag, name, parts[..i + 2], m) && m.flush == m.pos == tag + |PartsSource(parts[..i + 2])|
    ensures tag <= l.flush <= l.pos <= |s| && l.from <= |s| && l.to <= |s| && m.pos <= |s| && m.from <= |s| &&
            m.to <= |s|
    ensures RunLoop(s, tag, parts[..i], l) == RunLoop(s, tag, parts[..i + 2], m)
  {
    hide InLoop, RunLoop, AfterText, IsTagText, PartsSource, AfterParts, StartPlace, NoFlag, IsExpr, ClassifyAt,
         ContextAt, ProperParts, Trim;
    var start, t, x := StartPlace(name), parts[i].text, parts[i + 1];
    LoopBounds(s, tag, name, parts[..i], l);
    PartStands(s, tag, start, parts, i);
    PartStands(s, tag, start, parts, i + 1);
    TwoMore(parts, i, start);
    if x.Flag? {
      m := FlagPair(s, tag, name, parts[..i], l, t, x.name, x.inner);
    } else {
      assert t + "" == t;
      m := ExpressionPair(s, tag, name, parts[..i], l, t, x);
    }
  }

  // ---- a whole open tag ----

  /** From part i on, the loop reads the rest of the tag. */
  lemma {:induction false} PairsRead(s: string, p: nat, tag: OpenTag, i: nat, l: Loop)
    requires i <= |tag.parts| && i % 2 == 0 && StartsAt(s, p, TagText(tag)) && TagFits(s, p, tag)
    requires var name := TagName(tag);
             ProperParts(StartPlace(name), tag.parts) &&
             IsTagText(AfterParts(StartPlace(name), tag.parts), tag.rest) &&
             AfterText(AfterParts(StartPlace(name), tag.parts), tag.rest).quote == '\0' &&
             InLoop(s, p, name, tag.parts[..i], l)
    requires l.flush == p + |PartsSource(tag.parts[..i])|
    requires l.pos <= l.flush + |if i < |tag.parts| then PartSource(tag.parts[i]) else tag.rest|
    ensures p <= l.flush <= l.pos <= |s| && l.from <= |s| && l.to <= |s|
    ensures RunLoop(s, p, tag.parts[..i], l) == Some(Attrs(tag.parts, tag.rest, p + |TagText(tag)|))
    decreases |tag.parts| - i
  {
    hide InLoop, RunLoop, AfterText, IsTagText, PartsSource, AfterParts, StartPlace, NoFlag, ProperParts, TagName,
         PlaceIs;
    var name := TagName(tag);
    LoopBounds(s, p, name, tag.parts[..i], l);
    TagPieces(s, p, tag);
    if i == |tag.parts| {
      assert tag.parts[..i] == tag.parts;
      CharHere(s, l.flush + |tag.rest|, '>');
      var m := PlainRead(s, p, name, tag.parts, l, tag.rest);
      LoopBounds(s, p, name, tag.parts, m);
      LoopEnds(s, p, name, tag.parts, m);
    } else {
      assert PairFits(s, p, name, tag.parts, 2 * (i / 2));
      var m := PairRead(s, p, name, tag.parts, i, l);
      PairsRead(s, p, tag, i + 2, m);
    }
  }

  lemma LoopEnds(s: string, p: nat, name: string, parts: seq<Part>, m: Loop)
    requires p <= m.flush <= m.pos < |s| && m.from <= |s| && m.to <= m.pos && p <= m.to && p <= m.from &&
             s[m.pos] == '>'
    requires var pl := AfterText(AfterParts(StartPlace(name), parts), s[m.flush..m.pos]);
             PlaceIs(pl, s, p, m.pos, m.quote, m.from, m.to) && pl.quote == '\0'
    ensures RunLoop(s, p, parts, m) == Some(Attrs(parts, s[m.flush..m.pos], m.pos + 1))
  {
    hide AttrsAt, AfterText, AfterParts, StartPlace;
    AttrsStop(s, p, parts, m.flush, m.pos, m.quote, m.from, m.to);
  }

  lemma CharOf(s: string, p: nat, t: string, i: nat)
    requires StartsAt(s, p, t) && i < |t|
    ensures p + i < |s| && s[p + i] == t[i]
  {
    assert s[p + i] == s[p..p + |t|][i];
  }

  /** A name that ends inside a text ends there wherever the text stands. */
  lemma {:induction false} NameEndMoves(s: string, p: nat, t: string, a: nat)
    requires StartsAt(s, p, t) && a <= |t| && NameEnd(t, a) < |t|
    ensures p + a <= |s| && NameEnd(s, p + a) == p + NameEnd(t, a)
    decreases |t| - a
  {
    CharOf(s, p, t, a);
    hide StartsAt;
    if IsNameChar(t[a]) {
      NameEndMoves(s, p, t, a + 1);
    }
  }

  /** A text that ends with '>' holds the names in it. */
  lemma NameInside(t: string, a: nat)
    requires a < |t| && t[|t| - 1] == '>'
    ensures NameEnd(t, a) < |t|
  {
    NameChars(t, a);
    assert !IsNameChar('>');
  }

  lemma {:induction false} NameChars(s: string, p: nat)
    requires p <= |s|
    ensures forall i :: p <= i < NameEnd(s, p) ==> IsNameChar(s[i])
    ensures NameEnd(s, p) < |s| ==> !IsNameChar(s[NameEnd(s, p)])
    decreases |s| - p
  {
    if p < |s| && IsNameChar(s[p]) {
      NameChars(s, p + 1);
    }
  }

  /** The name of a printed tag is read where the tag stands. */
  lemma NameStands(s: string, p: nat, tag: OpenTag)
    requires StartsAt(s, p, TagText(tag)) && StartsAt(TagText(tag), 0, "<")
    ensures var n := p + 1 + |TagName(tag)|;
            n < p + |TagText(tag)| <= |s| && NameEnd(s, p + 1) == n && s[p + 1..n] == TagName(tag) && s[p] == '<'
  {
    hide NameEnd, TagText;
    LastOfTag(tag);
    NameOfText(s, p, TagText(tag));
  }

  lemma NameOfText(s: string, p: nat, t: string)
    requires StartsAt(s, p, t) && StartsAt(t, 0, "<") && t[|t| - 1] == '>'
    ensures var e := NameEnd(t, 1);
            e < |t| && p + |t| <= |s| && NameEnd(s, p + 1) == p + e && s[p + 1..p + e] == t[1..e] && s[p] == '<'
  {
    hide NameEnd;
    CharHere(t, 0, '<');
    NameInside(t, 1);
    NameEndMoves(s, p, t, 1);
    CharOf(s, p, t, 0);
    Inner(s, p, p + |t|, 1, NameEnd(t, 1));
  }

  lemma LastOfTag(tag: OpenTag)
    ensures TagText(tag) != "" && TagText(tag)[|TagText(tag)| - 1] == '>'
  {
    hide PartsSource;
  }

  /** The text before the first expression covers the name of the tag. */
  lemma NameInFirst(s: string, p: nat, tag: OpenTag)
    requires StartsAt(s, p, TagText(tag)) && StartsAt(TagText(tag), 0, "<") && TagFits(s, p, tag)
    requires ProperParts(StartPlace(TagName(tag)), tag.parts)
    ensures 1 + |TagName(tag)| <= |if tag.parts == [] then tag.rest else PartSource(tag.parts[0])|
  {
    NameStands(s, p, tag);
    if tag.parts == [] {
      assert TagText(tag) == tag.rest + ">";
    } else {
      hide NameEnd, TagName;
      assert PairFits(s, p, TagName(tag), tag.parts, 2 * 0);
      PairShape(s, p, TagName(tag), tag.parts, 0);
      hide PairFits;
      FirstPart(s, p, tag, TagName(tag));
    }
  }

  lemma PairShape(s: string, p: nat, name: string, parts: seq<Part>, i: nat)
    requires i + 1 < |parts| && PairFits(s, p, name, parts, i)
    ensures parts[i].Plain? && !parts[i + 1].Plain?
  {
    hide NoFlag, ClassifyAt, AfterText, AfterParts, PartsSource, StartPlace;
  }

  lemma TagPieces(s: string, p: nat, tag: OpenTag)
    requires StartsAt(s, p, TagText(tag))
    ensures var q := p + |PartsSource(tag.parts)|;
            StartsAt(s, p, PartsSource(tag.parts)) && StartsAt(s, q, tag.rest) && StartsAt(s, q + |tag.rest|, ">")
  {
    hide StartsAt, PartsSource;
    StartsBoth(s, p, PartsSource(tag.parts) + tag.rest, ">");
    StartsBoth(s, p, PartsSource(tag.parts), tag.rest);
  }

  lemma FirstPart(s: string, p: nat, tag: OpenTag, name: string)
    requires StartsAt(s, p, TagText(tag)) && StartsAt(TagText(tag), 0, "<") && tag.parts != []
    requires |tag.parts| > 1 && tag.parts[0].Plain? && !tag.parts[1].Plain? && ProperParts(StartPlace(name), tag.parts)
    requires NameEnd(s, p + 1) == p + 1 + |name| < |s| && s[p] == '<'
    ensures 1 + |name| <= |PartSource(tag.parts[0])|
  {
    hide NameEnd, AfterText, AfterParts, ProperParts, PartsSource, StartPlace, ProperPart, TagText, StartsAt;
    var ps, t := tag.parts, tag.parts[0].text;
    var start := StartPlace(name);
    TagPieces(s, p, tag);
    PartStands(s, p, start, ps, 0);
    PartStands(s, p, start, ps, 1);
    TwoMore(ps, 0, start);
    NoParts(start);
    assert ps[..0] == [] && "" + t == t;
    FirstCovers(s, p, name, t, ps[1]);
  }

  /** An expression cannot stand inside the name: it needs a quote, a '=' or white space before it. */
  lemma FirstCovers(s: string, p: nat, name: string, t: string, x: Part)
    requires p < |s| && StartsAt(s, p, t) && s[p] == '<' && NameEnd(s, p + 1) == p + 1 + |name| < |s|
    requires !x.Plain? && ProperPart(t, AfterText(StartPlace(name), t), x)
    ensures 1 + |name| <= |t|
  {
    hide NameEnd, IsTagText, AfterText, IsExpr, ContextAt;
    if |t| < 1 + |name| {
      if t == "" {
        NoText(StartPlace(name));
      } else {
        NameText(s, p, p + |t|, StartPlace(name));
      }
    }
  }

  lemma NoParts(start: Place)
    ensures AfterParts(start, []) == start && PartsSource([]) == ""
  {
  }

  lemma NoText(start: Place)
    ensures AfterText(start, "") == start
  {
  }

  /** The attribute loop reads a printed tag, from its name to its '>'. */
  lemma AttrsStand(s: string, p: nat, tag: OpenTag)
    requires StartsAt(s, p, TagText(tag)) && ProperTag(tag) && TagFits(s, p, tag)
    ensures var n := p + 1 + |TagName(tag)|;
            n <= |s| && NameEnd(s, p + 1) == n && s[p + 1..n] == TagName(tag) && s[p] == '<' &&
            AttrsAt(s, p, [], p, n, '\0', n, n) == Some(Attrs(tag.parts, tag.rest, p + |TagText(tag)|))
  {
    hide IsTagText, AfterText, AfterParts, ProperParts, TagName, NameEnd, StartPlace, PartsSource, TagFits, IsVoid,
         IsRaw, NoCloser, AttrsAt;
    NameStands(s, p, tag);
    NameInFirst(s, p, tag);
    var n := p + 1 + |TagName(tag)|;
    ReadName(s, p, n);
    assert tag.parts[..0] == [];
    NoParts(StartPlace(TagName(tag)));
    PairsRead(s, p, tag, 0, Loop(p, n, '\0', n, n));
  }

  // ---- elements ----

  lemma {:induction false} RawEndIs(s: string, p: nat, e: nat, name: string)
    requires p <= e < |s| && CloserAt(s, e, name) && forall i :: p <= i < e ==> !CloserAt(s, i, name)
    ensures RawEnd(s, p, name) == e
    decreases e - p
  {
    hide CloserAt;
    if p < e {
      RawEndIs(s, p + 1, e, name);
    }
  }

  lemma {:induction false} LowerAt(s: string, i: nat)
    requires i < |s|
    ensures Lower(s)[i] == LowerChar(s[i])
  {
  }

  /** No closing tag of the name begins in raw content that has none in itself and stands before one. */
  lemma RawStands(s: string, p: nat, raw: string, name: string)
    requires StartsAt(s, p, raw) && NoCloser(raw, name) && CloserAt(s, p + |raw|, name)
    requires forall i :: 0 <= i < |name| ==> IsNameChar(name[i])
    ensures RawEnd(s, p, name) == p + |raw|
  {
    var e := p + |raw|;
    CloserFirst(s, e, name);
    forall i | p <= i < e
      ensures !CloserAt(s, i, name)
    {
      NotCloser(s, p, raw, i, name);
    }
    hide CloserAt;
    RawEndIs(s, p, e, name);
  }

  lemma NotCloser(s: string, p: nat, raw: string, i: nat, name: string)
    requires StartsAt(s, p, raw) && NoCloser(raw, name) && p <= i < p + |raw| < |s| && s[p + |raw|] == '<'
    requires forall i :: 0 <= i < |name| ==> IsNameChar(name[i])
    ensures !CloserAt(s, i, name)
  {
    hide Lower;
    var e := p + |raw|;
    assert !CloserAt(raw, i - p, name);
    if i + 2 + |name| <= e {
      Inner(s, p, e, i - p, i - p + 2 + |name|);
    } else if CloserAt(s, i, name) {
      CloserInside(s, i, e, name);
    }
  }

  lemma CloserFirst(s: string, e: nat, name: string)
    requires CloserAt(s, e, name)
    ensures e < |s| && s[e] == '<'
  {
    LowerAt(s[e..e + 2 + |name|], 0);
  }

  /** Behind its first character a closing tag has no '<'. */
  lemma CloserInside(s: string, i: nat, e: nat, name: string)
    requires CloserAt(s, i, name) && i < e < i + 2 + |name| && forall k :: 0 <= k < |name| ==> IsNameChar(name[k])
    ensures s[e] != '<'
  {
    var t := s[i..i + 2 + |name|];
    LowerAt(t, e - i);
    assert Lower(t) == "</" + Lower(name);
    if e - i >= 2 {
      LowerAt(name, e - i - 2);
    }
  }

  lemma TagNameChars(tag: OpenTag)
    ensures forall i :: 0 <= i < |TagName(tag)| ==> IsNameChar(TagName(tag)[i])
  {
    hide TagText;
    if TagText(tag) != "" {
      NameChars(TagText(tag), 1);
    }
  }

  /** A printed open tag is read back, with its raw content. */
  lemma OpenTagStands(s: string, p: nat, tag: OpenTag, open: seq<string>)
    requires StartsAt(s, p, TagSource(tag)) && ProperTag(tag) && TagFits(s, p, tag)
    requires IsRaw(TagName(tag)) ==> CloserAt(s, p + |TagSource(tag)|, TagName(tag))
    requires !IsVoid(TagName(tag)) ==> |open| < MAX_DEPTH
    ensures p < |s| && s[p] == '<' && IsIdentStart(CharAt(s, p + 1))
    ensures OpenTagAt(s, p, open) ==
            Some(At(Tag(tag), p + |TagSource(tag)|, if IsVoid(TagName(tag)) then open else open + [TagName(tag)]))
  {
    hide TagFits, TagText, AttrsAt, NameEnd, ProperParts, IsTagText, AfterText, AfterParts, StartPlace, CloserAt,
         NoCloser, IsVoid, IsRaw, TagName, RawEnd, FinishAt, StartsAt;
    var name := TagName(tag);
    StartsBoth(s, p, TagText(tag), tag.raw);
    AttrsStand(s, p, tag);
    assert s[p + 1] == s[p + 1..p + 1 + |name|][0] == name[0];
    FinishStands(s, p, tag, open);
  }

  /** Behind the '>' of a printed tag. */
  lemma FinishStands(s: string, p: nat, tag: OpenTag, open: seq<string>)
    requires StartsAt(s, p, TagText(tag)) && StartsAt(s, p + |TagText(tag)|, tag.raw) && ProperTag(tag) &&
             |TagText(tag)| >= 2
    requires IsRaw(TagName(tag)) ==> CloserAt(s, p + |TagSource(tag)|, TagName(tag))
    requires !IsVoid(TagName(tag)) ==> |open| < MAX_DEPTH
    ensures p + |TagText(tag)| <= |s|
    ensures FinishAt(s, TagName(tag), Attrs(tag.parts, tag.rest, p + |TagText(tag)|), open) ==
            Some(At(Tag(tag), p + |TagSource(tag)|, if IsVoid(TagName(tag)) then open else open + [TagName(tag)]))
  {
    hide TagText, ProperParts, IsTagText, AfterText, AfterParts, StartPlace, CloserAt, NoCloser, IsVoid, IsRaw,
         TagName, RawEnd;
    var e, name := p + |TagText(tag)|, TagName(tag);
    TagEnd(s, p, tag);
    if IsRaw(name) {
      TagNameChars(tag);
      RawStands(s, e, tag.raw, name);
      CloserFirst(s, e + |tag.raw|, name);
    }
    assert s[e..e + |tag.raw|] == tag.raw;
  }

  /** The last two characters of a tag, in the source and in itself. */
  lemma TagEnd(s: string, p: nat, tag: OpenTag)
    requires StartsAt(s, p, TagText(tag)) && |TagText(tag)| >= 2
    ensures var e := p + |TagText(tag)|; s[e - 2] == '/' && s[e - 1] == '>' ==>
            StartsAt(TagText(tag), |TagText(tag)| - 2, "/>")
  {
    hide TagText;
    var t := TagText(tag);
    var e := p + |t|;
    assert s[e - 2] == s[p..e][|t| - 2] && s[e - 1] == s[p..e][|t| - 1];
    if s[e - 2] == '/' && s[e - 1] == '>' {
      assert t[|t| - 2..] == "/>";
    }
  }

  lemma {:induction false} FindAtIs(s: string, p: nat, e: nat, pat: string)
    requires p <= e < |s| && StartsAt(s, e, pat) && forall i :: p <= i < e ==> !StartsAt(s, i, pat)
    ensures FindAt(s, p, pat) == e
    decreases e - p
  {
    if p < e {
      FindAtIs(s, p + 1, e, pat);
    }
  }

  /** A text that ends at the first `pat` ends there in every source. */
  lemma EndsStands(s: string, p: nat, t: string, from: nat, pat: string)
    requires StartsAt(s, p, t) && EndsAtFirst(t, from, pat) && pat != ""
    ensures FindAt(s, p + from, pat) == p + |t| - |pat| < |s|
  {
    var e := p + |t| - |pat|;
    Inner(s, p, p + |t|, |t| - |pat|, |t|);
    forall i | p + from <= i < e
      ensures !StartsAt(s, i, pat)
    {
      assert !StartsAt(t, i - p, pat);
      Inner(s, p, p + |t|, i - p, i - p + |pat|);
    }
    hide StartsAt, EndsAtFirst;
    FindAtIs(s, p + from, e, pat);
  }

  lemma SameStart(s: string, p: nat, t: string, u: string)
    requires StartsAt(s, p, t) && |u| <= |t|
    ensures StartsAt(s, p, u) <==> StartsAt(t, 0, u)
  {
    assert s[p..p + |u|] == s[p..p + |t|][..|u|];
  }

  lemma VerbatimStands(s: string, p: nat, t: string, open: seq<string>)
    requires StartsAt(s, p, t) && (IsComment(t) || IsDoctype(t))
    ensures p < |s| && s[p] == '<' && ElementAt(s, p, open) == Some(At(Verbatim(t), p + |t|, open))
  {
    hide StartsAt, EndsAtFirst, FindAt, ClosingAt, OpenTagAt;
    if IsComment(t) {
      StartSize(t, 0, "<!--");
      SameStart(s, p, t, "<!--");
      FirstChar(s, p, "<!--");
      EndsStands(s, p, t, 1, "-->");
    } else {
      StartSize(t, 0, "<!");
      SameStart(s, p, t, "<!");
      FirstChar(s, p, "<!");
      EndsStands(s, p, t, 1, ">");
      NotComment(s, p, t);
    }
    assert s[p..p + |t|] == t by { StartSlice(s, p, t); }
  }

  lemma StartSize(t: string, p: nat, u: string)
    requires StartsAt(t, p, u)
    ensures p + |u| <= |t|
  {
  }

  lemma StartSlice(s: string, p: nat, t: string)
    requires StartsAt(s, p, t)
    ensures p + |t| <= |s| && s[p..p + |t|] == t
  {
  }

  lemma NotComment(s: string, p: nat, t: string)
    requires StartsAt(s, p, t) && IsDoctype(t)
    ensures !StartsAt(s, p, "<!--")
  {
    if |t| >= 4 {
      SameStart(s, p, t, "<!--");
    } else {
      assert t[|t| - 1..][0] == '>' && t[..2][1] == '!';
      assert s[p + |t| - 1] == s[p..p + |t|][|t| - 1];
      Mismatch(s, p, "<!--", |t| - 1);
    }
  }

  lemma Mismatch(s: string, p: nat, u: string, k: nat)
    requires k < |u| && p + k < |s| && s[p + k] != u[k]
    ensures !StartsAt(s, p, u)
  {
    assert p + |u| <= |s| ==> s[p..p + |u|][k] == s[p + k];
  }

  lemma ClosingStands(s: string, p: nat, t: string, open: seq<string>)
    requires StartsAt(s, p, t) && IsClosing(t) && open != [] && Lower(open[|open| - 1]) == Lower(ClosingName(t))
    ensures p < |s| && s[p] == '<' && ElementAt(s, p, open) == Some(At(Closing(t), p + |t|, open[..|open| - 1]))
  {
    hide StartsAt, EndsAtFirst, FindAt, OpenTagAt, Lower, IsVoid, ClosingName;
    StartSize(t, 0, "</");
    SameStart(s, p, t, "</");
    FirstChar(s, p, "</");
    NotBang(s, p);
    ClosingEnds(s, p, t);
    assert s[p..p + |t|] == t by { StartSlice(s, p, t); }
  }

  lemma NotBang(s: string, p: nat)
    requires StartsAt(s, p, "</")
    ensures !StartsAt(s, p, "<!--") && !StartsAt(s, p, "<!")
  {
    assert s[p + 1] == s[p..p + 2][1];
    Mismatch(s, p, "<!--", 1);
    Mismatch(s, p, "<!", 1);
  }

  /** Name and end of a printed closing tag. */
  lemma ClosingEnds(s: string, p: nat, t: string)
    requires StartsAt(s, p, t) && IsClosing(t)
    ensures var n := p + 2 + |ClosingName(t)|;
            p + 2 <= n < p + |t| <= |s| && NameEnd(s, p + 2) == n && s[p + 2..n] == ClosingName(t) &&
            FindAt(s, n, ">") == p + |t| - 1
  {
    hide NameEnd, FindAt, Lower, IsVoid;
    var e := NameEnd(t, 2);
    CharHere(t, |t| - 1, '>');
    NameInside(t, 2);
    NameEndMoves(s, p, t, 2);
    Inner(s, p, p + |t|, 2, e);
    assert EndsAtFirst(t, e, ">");
    EndsStands(s, p, t, e, ">");
  }

  lemma TagStands(s: string, p: nat, tag: OpenTag, open: seq<string>)
    requires StartsAt(s, p, TagSource(tag)) && ProperTag(tag) && TagFits(s, p, tag)
    requires IsRaw(TagName(tag)) ==> CloserAt(s, p + |TagSource(tag)|, TagName(tag))
    requires !IsVoid(TagName(tag)) ==> |open| < MAX_DEPTH
    ensures p < |s| && s[p] == '<'
    ensures ElementAt(s, p, open) ==
            Some(At(Tag(tag), p + |TagSource(tag)|, if IsVoid(TagName(tag)) then open else open + [TagName(tag)]))
  {
    hide TagFits, TagSource, ProperTag, CloserAt, IsVoid, IsRaw, TagName, OpenTagAt, FindAt, ClosingAt;
    OpenTagStands(s, p, tag, open);
    NotMarkup(s, p);
    hide StartsAt;
  }

  lemma NotMarkup(s: string, p: nat)
    requires p < |s| && IsIdentStart(CharAt(s, p + 1))
    ensures !StartsAt(s, p, "<!--") && !StartsAt(s, p, "<!") && !StartsAt(s, p, "</")
  {
    Mismatch(s, p, "<!--", 1);
    Mismatch(s, p, "<!", 1);
    Mismatch(s, p, "</", 1);
  }
}
