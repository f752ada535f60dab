/** The invariant of the loop that reads an open tag, and its steps. */
module CtmplReading {
  import opened Wrappers
  import opened Chars
  import opened CtmplAst
  import opened CtmplScan
  import opened CtmplTag

  /** Right where an attribute name may begin. */
  predicate AtName(pl: Place) {
    pl.quote == '\0' && pl.from == pl.at
  }

  /**
   * Text s[flush..pos] of the tag that starts at `tag` is pending after place `start`; the loop
   * holds the open quote and the bounds of the current attribute name. White space behind the
   * cursor may already be skipped by `from`.
   */
  predicate Pending(s: string, tag: nat, start: Place, flush: nat, pos: nat, quote: char, from: nat, to: nat) {
    tag <= flush <= pos <= |s| && tag < pos && tag <= to <= pos && tag <= from <= |s| &&
    (quote == '\0' || quote == '"' || quote == '\'') &&
    IsTagText(start, s[flush..pos]) && PlaceIs(AfterText(start, s[flush..pos]), s, tag, pos, quote, from, to) &&
    (flush <= from <= pos ==> AtName(AfterText(start, s[flush..from]))) &&
    (quote == '\0' && flush < pos ==>
       (s[pos - 1] == '?' ==> CharAt(s, pos) != '=') &&
       (s[pos - 1] == '=' ==> to == pos - 1 && tag + 2 <= pos && s[pos - 2] != '?')) &&
    (tag < flush ==> s[flush - 1] == '}')
  }

  predicate PlaceIs(pl: Place, s: string, tag: nat, pos: nat, quote: char, from: nat, to: nat)
    requires tag <= to <= pos <= |s| && tag <= from <= |s|
  {
    pl.quote == quote && tag + pl.at == pos && tag + pl.to == to &&
    (if from <= pos then from == tag + pl.from else quote == '\0' && forall i :: pos <= i < from ==> IsSpace(s[i]))
  }

  predicate Reading(s: string, tag: nat, name: string, parts: seq<Part>, flush: nat, pos: nat, quote: char,
                    from: nat, to: nat)
  {
    Pending(s, tag, AfterParts(StartPlace(name), parts), flush, pos, quote, from, to) &&
    s[tag..flush] == PartsSource(parts) && ProperParts(StartPlace(name), parts)
  }

  // ---- one character ----

  function NextQuote(quote: char, c: char): char {
    if quote != '\0' then (if c == quote then '\0' else quote)
    else if c == '"' || c == '\'' then c else '\0'
  }

  function NextFrom(s: string, pos: nat, quote: char, from: nat): nat
    requires pos < |s|
  {
    if quote == '\0' && IsSpace(s[pos]) then WsEnd(s, pos + 1) else from
  }

  function NextTo(pos: nat, quote: char, c: char, to: nat): nat {
    if quote == '\0' && c == '=' then pos else to
  }

  lemma TextStep(start: Place, s: string, flush: nat, pos: nat)
    requires flush <= pos < |s|
    ensures AfterText(start, s[flush..pos + 1]) == StepChar(AfterText(start, s[flush..pos]), s[pos])
    ensures IsTagText(start, s[flush..pos + 1]) <==>
            IsTagText(start, s[flush..pos]) && s[pos] != '{' &&
            (AfterText(start, s[flush..pos]).quote == '\0' ==> s[pos] != '>')
  {
    hide StepChar;
    assert s[flush..pos + 1][..pos - flush] == s[flush..pos];
  }

  lemma StepPlace(pl: Place, s: string, tag: nat, pos: nat, quote: char, from: nat, to: nat)
    requires tag <= to <= pos < |s| && tag <= from <= |s| && PlaceIs(pl, s, tag, pos, quote, from, to)
    ensures var from' := NextFrom(s, pos, quote, from);
            PlaceIs(StepChar(pl, s[pos]), s, tag, pos + 1, NextQuote(quote, s[pos]), from',
              NextTo(pos, quote, s[pos], to))
    ensures NextFrom(s, pos, quote, from) == pos + 1 && from != pos + 1 ==> AtName(StepChar(pl, s[pos]))
    ensures from == pos + 1 ==> quote == '\0' && IsSpace(s[pos])
    ensures quote == '\0' && IsSpace(s[pos]) ==> AtName(StepChar(pl, s[pos])) || NextFrom(s, pos, quote, from) > pos + 1
  {
  }

  lemma ReadChar(s: string, tag: nat, start: Place, flush: nat, pos: nat, quote: char, from: nat, to: nat)
    requires Pending(s, tag, start, flush, pos, quote, from, to)
    requires pos < |s| && s[pos] != '{'
    requires quote == '\0' ==> s[pos] != '>' && !(s[pos] == '?' && CharAt(s, pos + 1) == '=')
    ensures Pending(s, tag, start, flush, pos + 1, NextQuote(quote, s[pos]), NextFrom(s, pos, quote, from),
                    NextTo(pos, quote, s[pos], to))
  {
    hide AfterText, IsTagText, AtName;
    TextStep(start, s, flush, pos);
    StepPlace(AfterText(start, s[flush..pos]), s, tag, pos, quote, from, to);
    hide PlaceIs, StepChar;
  }

  // ---- one expression ----

  /** Pending text is flushed, then a part is added. */
  lemma PairAppend(start: Place, parts: seq<Part>, t: string, p: Part)
    ensures var two, mid := parts + [Plain(t), p], AfterText(AfterParts(start, parts), t);
            PartsSource(two) == PartsSource(parts) + t + PartSource(p) &&
            PartsNodes(two) == PartsNodes(parts) + TextNodes(t) + PartNodes(p) &&
            AfterParts(start, two) == AfterPart(mid, p) &&
            (ProperParts(start, two) <==>
             ProperParts(start, parts) && IsTagText(AfterParts(start, parts), t) &&
             ProperPart(PartsSource(parts) + t, mid, p))
  {
    hide AfterText, IsTagText;
    assert parts + [Plain(t), p] == (parts + [Plain(t)]) + [p];
    PartAppend(start, parts, Plain(t));
    PartAppend(start, parts + [Plain(t)], p);
    hide *;
  }

  lemma Slices(s: string, a: nat, b: nat, c: nat, d: nat)
    requires a <= b <= c <= d <= |s|
    ensures s[a..b] + s[b..c] == s[a..c] && s[a..b] + s[b..c] + s[c..d] == s[a..d]
  {
  }

  /** An expression in a quoted value. */
  lemma ReadValue(s: string, tag: nat, name: string, parts: seq<Part>, flush: nat, pos: nat, quote: char, from: nat,
                  to: nat, inner: string, ctx: Context, end: nat)
    requires Reading(s, tag, name, parts, flush, pos, quote, from, to) && quote != '\0'
    requires pos <= end <= |s| && s[pos..end] == "{" + inner + "}" && IsExpr(inner) && Trim(inner) != "children..."
    requires if from <= to then AttrContext(s[from..to]) == Some(ctx) else ctx == InAttr
    ensures Reading(s, tag, name, parts + [Plain(s[flush..pos]), Value(inner, ctx)], end, end, quote, from, to)
    ensures PartsNodes(parts + [Plain(s[flush..pos]), Value(inner, ctx)]) ==
            PartsNodes(parts) + TextNodes(s[flush..pos]) + PartNodes(Value(inner, ctx))
  {
    hide AttrContext, IsExpr, Trim, ProperParts, AfterText, IsTagText, PartsNodes, PartsSource, AfterParts, AtName,
         PartNodes, ContextAt;
    var start, t, p := AfterParts(StartPlace(name), parts), s[flush..pos], Value(inner, ctx);
    PairAppend(StartPlace(name), parts, t, p);
    Slices(s, tag, flush, pos, end);
    ContextSeen(s, tag, AfterText(start, t), pos, quote, from, to);
    Ended(s, tag, AfterText(start, t), pos, quote, from, to, end, p);
    hide AfterPart, StartPlace, Pending, PlaceIs;
  }

  /** The attribute name as seen in the source and in the tag. */
  lemma ContextSeen(s: string, tag: nat, pl: Place, pos: nat, quote: char, from: nat, to: nat)
    requires tag <= to <= pos <= |s| && tag <= from <= pos && PlaceIs(pl, s, tag, pos, quote, from, to)
    ensures ContextAt(s[tag..pos], pl) == if from <= to then AttrContext(s[from..to]) else Some(InAttr)
  {
    hide AttrContext;
    if from <= to {
      Inner(s, tag, pos, pl.from, pl.to);
    }
  }

  /** Behind an expression nothing is pending. */
  lemma Ended(s: string, tag: nat, pl: Place, pos: nat, quote: char, from: nat, to: nat, end: nat, p: Part)
    requires tag <= to <= pos < end <= |s| && tag <= from <= pos && PlaceIs(pl, s, tag, pos, quote, from, to)
    requires quote == '\0' || quote == '"' || quote == '\''
    requires (p.Value? || p.Unquoted?) && s[pos..end] == PartSource(p)
    ensures Pending(s, tag, AfterPart(pl, p), end, end, quote, from, to)
  {
    assert s[end..end] == "";
    assert s[end - 1] == s[pos..end][end - pos - 1] == '}';
  }

  /** An expression right after '=': the generator adds the quotes. */
  lemma ReadUnquoted(s: string, tag: nat, name: string, parts: seq<Part>, flush: nat, pos: nat, from: nat, to: nat,
                     inner: string, ctx: Context, end: nat)
    requires Reading(s, tag, name, parts, flush, pos, '\0', from, to)
    requires pos <= end <= |s| && s[pos..end] == "{" + inner + "}" && IsExpr(inner) && Trim(inner) != "children..."
    requires tag < pos && s[pos - 1] == '=' && from < pos - 1
    requires AttrContext(s[from..pos - 1]) == Some(ctx)
    ensures Reading(s, tag, name, parts + [Plain(s[flush..pos]), Unquoted(inner, ctx)], end, end, '\0', from, to)
    ensures PartsNodes(parts + [Plain(s[flush..pos]), Unquoted(inner, ctx)]) ==
            PartsNodes(parts) + TextNodes(s[flush..pos]) + PartNodes(Unquoted(inner, ctx))
  {
    hide AttrContext, IsExpr, Trim, ProperParts, AfterText, IsTagText, PartsNodes, PartsSource, AfterParts, AtName,
         PartNodes, ContextAt;
    var start, t, p := AfterParts(StartPlace(name), parts), s[flush..pos], Unquoted(inner, ctx);
    EqualsSeen(s, tag, start, flush, pos, from, to);
    PairAppend(StartPlace(name), parts, t, p);
    Slices(s, tag, flush, pos, end);
    ContextSeen(s, tag, AfterText(start, t), pos, '\0', from, to);
    Ended(s, tag, AfterText(start, t), pos, '\0', from, to, end, p);
    assert ProperPart(s[tag..pos], AfterText(start, t), p);
    hide AfterPart, StartPlace, Pending, PlaceIs, ProperPart;
  }

  /** The name before an unquoted expression ends at its '=', which no '?' precedes. */
  lemma EqualsSeen(s: string, tag: nat, start: Place, flush: nat, pos: nat, from: nat, to: nat)
    requires Pending(s, tag, start, flush, pos, '\0', from, to)
    requires tag < pos && s[pos - 1] == '='
    ensures flush < pos && to == pos - 1 && tag + 2 <= pos && s[pos - 2] != '?'
  {
    hide AfterText, IsTagText, PlaceIs, AtName;
  }

  /** A boolean attribute. */
  lemma ReadFlag(s: string, tag: nat, name: string, parts: seq<Part>, flush: nat, pos: nat, from: nat, to: nat,
                 inner: string, end: nat)
    requires Reading(s, tag, name, parts, flush, pos, '\0', from, to) && flush <= from < pos
    requires pos <= end <= |s| && s[pos..end] == "?={" + inner + "}" && IsExpr(inner)
    ensures Reading(s, tag, name, parts + [Plain(s[flush..from]), Flag(s[from..pos], inner)], end, end, '\0', end, to)
    ensures PartsNodes(parts + [Plain(s[flush..from]), Flag(s[from..pos], inner)]) ==
            PartsNodes(parts) + TextNodes(s[flush..from]) + PartNodes(Flag(s[from..pos], inner))
  {
    hide IsExpr, Trim, ProperParts, AfterText, IsTagText, PartsNodes, PartsSource, AfterParts, PartNodes;
    var start, t, p := AfterParts(StartPlace(name), parts), s[flush..from], Flag(s[from..pos], inner);
    PairAppend(StartPlace(name), parts, t, p);
    Slices(s, flush, from, pos, pos);
    TextAppend(start, t, s[from..pos]);
    Slices(s, from, pos, end, end);
    FlagEnded(s, tag, AfterText(start, t), from, pos, to, end, p);
    Slices(s, tag, flush, from, end);
    hide AfterPart, StartPlace, Pending, PlaceIs;
  }

  lemma FlagEnded(s: string, tag: nat, pl: Place, from: nat, pos: nat, to: nat, end: nat, p: Part)
    requires p.Flag? && tag <= from < pos <= end <= |s| && s[from..end] == PartSource(p) && tag + pl.at == from
    requires var q := AfterText(pl, p.name); q.quote == '\0' && tag + q.to == to && tag <= to <= pos
    ensures Pending(s, tag, AfterPart(pl, p), end, end, '\0', end, to)
  {
    assert s[end..end] == "";
    assert |s[from..end]| == end - from;
    assert s[end - 1] == s[from..end][end - from - 1] == '}';
  }

  /** Before the first attribute: the tag's own name has been read. */
  lemma ReadName(s: string, tag: nat, pos: nat)
    requires tag < pos <= |s| && s[tag] == '<' && pos == NameEnd(s, tag + 1)
    ensures Reading(s, tag, s[tag + 1..pos], [], tag, pos, '\0', pos, pos)
  {
    var start := StartPlace(s[tag + 1..pos]);
    NameText(s, tag, pos, start);
    assert s[tag..tag] == "";
  }

  lemma {:induction false} NameText(s: string, tag: nat, pos: nat, start: Place)
    requires tag < pos <= |s| && s[tag] == '<' && pos <= NameEnd(s, tag + 1) && start.quote == '\0'
    ensures IsTagText(start, s[tag..pos]) && AfterText(start, s[tag..pos]) == start.(at := start.at + pos - tag)
    ensures pos > tag + 1 ==> IsNameChar(s[pos - 1])
  {
    TextStep(start, s, tag, pos - 1);
    if pos == tag + 1 {
      assert s[tag..tag] == "";
    } else {
      NameText(s, tag, pos - 1, start);
      NameCharAt(s, tag + 1, pos - 1);
    }
  }

  lemma {:induction false} NameCharAt(s: string, p: nat, i: nat)
    requires p <= |s| && p <= i < NameEnd(s, p)
    ensures i < |s| && IsNameChar(s[i])
    decreases i - p
  {
    if p < i {
      NameCharAt(s, p + 1, i);
    }
  }
}
