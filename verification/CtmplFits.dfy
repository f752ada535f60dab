/**
 * When the print of a body is read back: the look-ahead between neighbouring items, stated on the
 * source in which the items stand. Everything else is said by the items themselves.
 */
module CtmplFits {
  import opened Wrappers
  import opened Chars
  import opened CtmplAst
  import opened CtmplScan
  import opened CtmplTag
  import opened CtmplSyntax
  import opened CtmplGrammar

  // ---- open tags ----

  /** In tag text u at p, after place pl: no '?' outside quotes stands before a '='. */
  predicate NoFlag(s: string, p: nat, pl: Place, u: string) {
    forall j :: 0 <= j < |u| ==>
      !(u[j] == '?' && CharAt(s, p + j + 1) == '=' && AfterText(pl, u[..j]).quote == '\0')
  }

  /** The text pending before part i: plain text and, for a boolean attribute, its name. */
  function PendingText(parts: seq<Part>, i: nat): string
    requires i + 1 < |parts| && parts[i].Plain?
  {
    parts[i].text + (if parts[i + 1].Flag? then parts[i + 1].name else "")
  }

  /** Parts i and i + 1 of the tag that starts at p: plain text, then an expression. */
  predicate PairFits(s: string, p: nat, name: string, parts: seq<Part>, i: nat)
    requires i + 1 < |parts|
  {
    var before, pl := PartsSource(parts[..i]), AfterParts(StartPlace(name), parts[..i]);
    parts[i].Plain? &&
    NoFlag(s, p + |before|, pl, PendingText(parts, i)) &&
    var mid := AfterText(pl, parts[i].text);
    match parts[i + 1]
    case Plain(_) => false
    case Value(_, ctx) => p + mid.from <= |s| && p + mid.to <= |s| &&
      ClassifyAt(s, p + mid.from, p + mid.to) == Some(ctx)
    case Unquoted(_, ctx) => p + mid.from <= |s| && p + mid.to <= |s| &&
      ClassifyAt(s, p + mid.from, p + mid.to) == Some(ctx)
    case Flag(flag, _) => AfterText(mid, flag).from == mid.from
  }

  /** Plain text and expressions alternate, and boolean attributes are the only "?=" outside quotes. */
  predicate TagFits(s: string, p: nat, tag: OpenTag) {
    var name, n := TagName(tag), |tag.parts|;
    n % 2 == 0 &&
    (forall i :: 0 <= i < n / 2 ==> PairFits(s, p, name, tag.parts, 2 * i)) &&
    NoFlag(s, p + |PartsSource(tag.parts)|, AfterParts(StartPlace(name), tag.parts), tag.rest)
  }

  // ---- items ----

  /** Behind a call without a block: no block, and the data seen there. */
  predicate NoBlockAt(s: string, p: nat, data: Option<string>)
    requires p <= |s|
  {
    var g := WsEnd(s, p);
    if KeywordAt(s, g, "with") then
      var a := WsEnd(s, g + 4);
      if CharAt(s, a) != '(' then data.None? else
      match Scan(s, a + 1, 1, MatchParen)
      case Fails(_) => false
      case Found(z) => data == Some(Trim(s[a + 1..z])) && CharAt(s, WsEnd(s, z + 1)) != '{'
    else CharAt(s, g) != '{' && data.None?
  }

  predicate FitsAll(s: string, p: nat, items: seq<Item>)
    decreases items, 1
  {
    items == [] ||
    (FitsAll(s, p, items[..|items| - 1]) && Fits(s, p + |SourceAll(items[..|items| - 1])|, items[|items| - 1]))
  }

  predicate Fits(s: string, p: nat, item: Item)
    decreases item, 0
  {
    var e := p + |Source(item)|;
    match item
    case Run(_) => CharAt(s, e) == '<' || CharAt(s, e) == '{' || CharAt(s, e) == '@'
    case Tag(tag) => TagFits(s, p, tag) && (IsRaw(TagName(tag)) ==> CloserAt(s, e, TagName(tag)))
    case CallItem(callee, args, data, block) =>
      var n := p + 1 + |callee|;
      !IsIdentChar(CharAt(s, n)) && (args.None? ==> CharAt(s, n) != '(') &&
      FitsBlock(s, n + (if args.Some? then |args.value| + 2 else 0), data, block)
    case IfItem(lead, chain) => FitsChain(s, p + |lead| + 2, chain)
    case ForItem(lead, head, body) =>
      !IsIdentChar(CharAt(head, 0)) && FitsAll(s, p + |lead| + 3 + |head| + 1, body.items)
    case _ => true
  }

  predicate FitsChain(s: string, p: nat, c: Chain)
    decreases c, 0
  {
    !IsIdentChar(CharAt(c.cond, 0)) && FitsAll(s, p + |c.cond| + 1, c.body.items) &&
    FitsElse(s, p + |c.cond| + |PieceSource(c.body)| + 2, c.rest)
  }

  predicate FitsElse(s: string, p: nat, e: ElsePart)
    decreases e, 0
  {
    match e
    case NoElse => p <= |s| && !KeywordAt(s, WsEnd(s, p), "else")
    case ElseIf(gap, gap2, chain) => gap2 != "" && FitsChain(s, p + |gap| + 4 + |gap2| + 2, chain)
    case ElseBlock(gap, gap2, body) => FitsAll(s, p + |gap| + 4 + |gap2| + 1, body.items)
  }

  predicate FitsBlock(s: string, p: nat, data: Option<string>, b: BlockPart)
    decreases b, 0
  {
    match b
    case NoBlock => p <= |s| && NoBlockAt(s, p, data)
    case Block(gap, body) => FitsAll(s, p + |gap| + 1, body.items)
    case WithBlock(gap, gap2, inner, gap3, body) =>
      FitsAll(s, p + |gap| + 4 + |gap2| + |inner| + 2 + |gap3| + 1, body.items)
  }
}
