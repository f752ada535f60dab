/** Tags: names, attribute contexts, and the pieces of an open tag as the parser cuts them. */
module CtmplTag {
  import opened Wrappers
  import opened Chars
  import opened CtmplAst
  import opened CtmplScan

  const MAX_DEPTH := 32
  const MAX_NAME := 31

  // ---- expressions ----

  function InterpNode(inner: string, ctx: Context): Node {
    if Trim(inner) == "children..." then Children else Interp(Trim(inner), ctx)
  }

  function TextNodes(t: string): seq<Node> {
    if t == "" then [] else [Text(t)]
  }

  predicate IsIdent(s: string) {
    s != "" && IsIdentStart(s[0]) && forall i :: 0 <= i < |s| ==> IsIdentChar(s[i])
  }

  // ---- names ----

  const VOIDS := ["area", "base", "br", "col", "embed", "hr", "img", "input", "link", "meta", "param", "source",
                  "track", "wbr"]
  const URLS := ["href", "src", "action", "formaction", "poster", "cite", "background"]

  predicate IsVoid(name: string) {
    Lower(name) in VOIDS
  }

  predicate IsNameChar(c: char) {
    IsIdentChar(c) || c == '-'
  }

  /** The end of the tag name that starts at p. */
  function NameEnd(s: string, p: nat): (r: nat)
    requires p <= |s|
    ensures p <= r <= |s|
    decreases |s| - p
  {
    if p < |s| && IsNameChar(s[p]) then NameEnd(s, p + 1) else p
  }

  /** The escaping context an attribute name asks for; None where expressions are refused. */
  function AttrContext(name: string): Option<Context> {
    if (|name| >= 3 && Lower(name[..2]) == "on") || (|name| >= 6 && Lower(name[..6]) == "hx-on:") then None
    else if Lower(name) in URLS then Some(InUrl)
    else if Lower(name) == "style" then Some(InCss)
    else Some(InAttr)
  }

  // ---- comments, doctypes, closing tags ----

  /** `pat` ends t and stands nowhere else from p on. */
  predicate EndsAtFirst(t: string, p: nat, pat: string) {
    p + |pat| <= |t| && StartsAt(t, |t| - |pat|, pat) &&
    forall i :: p <= i < |t| - |pat| ==> !StartsAt(t, i, pat)
  }

  predicate IsComment(t: string) {
    StartsAt(t, 0, "<!--") && EndsAtFirst(t, 1, "-->")
  }

  predicate IsDoctype(t: string) {
    StartsAt(t, 0, "<!") && !StartsAt(t, 0, "<!--") && EndsAtFirst(t, 1, ">")
  }

  function ClosingName(t: string): string {
    if |t| < 2 then "" else t[2..NameEnd(t, 2)]
  }

  predicate IsClosing(t: string) {
    StartsAt(t, 0, "</") && EndsAtFirst(t, 2, ">") && ClosingName(t) != "" && !IsVoid(ClosingName(t))
  }

  // ---- open tags ----

  datatype Part =
    | Plain(text: string)
    | Value(inner: string, ctx: Context)      // {inner} inside a quoted value
    | Unquoted(inner: string, ctx: Context)   // attr={inner}: the parser adds the quotes
    | Flag(name: string, inner: string)       // name?={inner}

  /** An open tag: its parts, the text up to its '>', and the raw content of a script or style. */
  datatype OpenTag = OpenTag(parts: seq<Part>, rest: string, raw: string)

  function PartSource(p: Part): string {
    match p
    case Plain(t) => t
    case Value(inner, _) => "{" + inner + "}"
    case Unquoted(inner, _) => "{" + inner + "}"
    case Flag(name, inner) => name + "?={" + inner + "}"
  }

  function PartsSource(ps: seq<Part>): string {
    if ps == [] then [] else PartsSource(ps[..|ps| - 1]) + PartSource(ps[|ps| - 1])
  }

  function TagText(tag: OpenTag): string {
    PartsSource(tag.parts) + tag.rest + ">"
  }

  function TagSource(tag: OpenTag): string {
    TagText(tag) + tag.raw
  }

  function TagName(tag: OpenTag): string {
    TagText(tag)[1..NameEnd(TagText(tag), 1)]
  }

  function PartNodes(p: Part): seq<Node> {
    match p
    case Plain(t) => TextNodes(t)
    case Value(inner, ctx) => [InterpNode(inner, ctx)]
    case Unquoted(inner, ctx) => [Text("\""), InterpNode(inner, ctx), Text("\"")]
    case Flag(name, inner) => [If(Trim(inner), Cons(Text(" " + name), Nil), Nil)]
  }

  function PartsNodes(ps: seq<Part>): seq<Node> {
    if ps == [] then [] else PartsNodes(ps[..|ps| - 1]) + PartNodes(ps[|ps| - 1])
  }

  function TagNodes(tag: OpenTag): seq<Node> {
    PartsNodes(tag.parts) + TextNodes(tag.rest + ">") + TextNodes(tag.raw)
  }

  // ---- where attribute names begin and end ----

  /** After some text of a tag: the open quote or NUL, and the current attribute name, as offsets. */
  datatype Place = Place(at: nat, quote: char, from: nat, to: nat)

  function StepChar(pl: Place, c: char): Place {
    if pl.quote != '\0' then pl.(at := pl.at + 1, quote := if c == pl.quote then '\0' else pl.quote)
    else if c == '"' || c == '\'' then pl.(at := pl.at + 1, quote := c)
    else if c == '=' then pl.(at := pl.at + 1, to := pl.at)
    else if IsSpace(c) then pl.(at := pl.at + 1, from := pl.at + 1)
    else pl.(at := pl.at + 1)
  }

  function AfterText(pl: Place, t: string): (r: Place)
    ensures r.at == pl.at + |t|
  {
    if t == [] then pl else StepChar(AfterText(pl, t[..|t| - 1]), t[|t| - 1])
  }

  function AfterPart(pl: Place, p: Part): (r: Place)
    ensures r.at == pl.at + |PartSource(p)|
  {
    match p
    case Plain(t) => AfterText(pl, t)
    case Flag(name, inner) =>
      var e := pl.at + |PartSource(p)|;
      AfterText(pl, name).(at := e, from := e)
    case _ => pl.(at := pl.at + |PartSource(p)|)
  }

  function AfterParts(pl: Place, ps: seq<Part>): (r: Place)
    ensures r.at == pl.at + |PartsSource(ps)|
  {
    if ps == [] then pl else AfterPart(AfterParts(pl, ps[..|ps| - 1]), ps[|ps| - 1])
  }

  /** Tag text: no brace, and no '>' outside quotes. */
  predicate IsTagText(pl: Place, t: string) {
    t == [] ||
    (var pl' := AfterText(pl, t[..|t| - 1]);
     IsTagText(pl, t[..|t| - 1]) && t[|t| - 1] != '{' && (pl'.quote == '\0' ==> t[|t| - 1] != '>'))
  }

  /** The context of an expression: that of the attribute name; a name that ends before it starts is plain. */
  function ContextAt(s: string, pl: Place): Option<Context> {
    if pl.from <= pl.to <= |s| then AttrContext(s[pl.from..pl.to]) else Some(InAttr)
  }

  predicate IsExpr(inner: string) {
    Delimited(inner, MatchBrace) && Trim(inner) != ""
  }

  /** Part p is rightly cut at place pl, after the tag text s. */
  predicate ProperPart(s: string, pl: Place, p: Part) {
    match p
    case Plain(t) => IsTagText(pl, t)
    case Value(inner, ctx) =>
      IsExpr(inner) && Trim(inner) != "children..." && pl.quote != '\0' && ContextAt(s, pl) == Some(ctx)
    case Unquoted(inner, ctx) =>
      IsExpr(inner) && Trim(inner) != "children..." && pl.quote == '\0' && ContextAt(s, pl) == Some(ctx) &&
      |s| >= 2 && s[|s| - 1] == '=' && s[|s| - 2] != '?' && pl.from < |s| - 1
    case Flag(name, inner) =>
      IsExpr(inner) && name != "" && IsTagText(pl, name) && pl.quote == '\0' && pl.from == pl.at &&
      AfterText(pl, name).quote == '\0'
  }

  predicate ProperParts(start: Place, ps: seq<Part>) {
    ps == [] ||
    (var init := ps[..|ps| - 1];
     ProperParts(start, init) && ProperPart(PartsSource(init), AfterParts(start, init), ps[|ps| - 1]))
  }

  predicate IsRaw(name: string) {
    Lower(name) == "script" || Lower(name) == "style"
  }

  predicate CloserAt(s: string, p: nat, name: string) {
    p + 2 + |name| <= |s| && Lower(s[p..p + 2 + |name|]) == "</" + Lower(name)
  }

  /** The raw content stops before the first closing tag of the same name. */
  predicate NoCloser(raw: string, name: string) {
    forall i :: 0 <= i < |raw| ==> !CloserAt(raw, i, name)
  }

  function StartPlace(name: string): Place {
    Place(0, '\0', 1 + |name|, 1 + |name|)
  }

  predicate ProperTag(tag: OpenTag) {
    var s, name := TagText(tag), TagName(tag);
    StartsAt(s, 0, "<") && name != "" && IsIdentStart(name[0]) && |name| <= MAX_NAME &&
    ProperParts(StartPlace(name), tag.parts) &&
    IsTagText(AfterParts(StartPlace(name), tag.parts), tag.rest) &&
    AfterText(AfterParts(StartPlace(name), tag.parts), tag.rest).quote == '\0' &&
    (!IsVoid(name) ==> !StartsAt(s, |s| - 2, "/>")) &&
    (if IsRaw(name) then NoCloser(tag.raw, name) else tag.raw == "")
  }

  lemma PartAppend(start: Place, ps: seq<Part>, p: Part)
    ensures PartsSource(ps + [p]) == PartsSource(ps) + PartSource(p)
    ensures PartsNodes(ps + [p]) == PartsNodes(ps) + PartNodes(p)
    ensures AfterParts(start, ps + [p]) == AfterPart(AfterParts(start, ps), p)
    ensures ProperParts(start, ps + [p]) <==>
            ProperParts(start, ps) && ProperPart(PartsSource(ps), AfterParts(start, ps), p)
  {
    hide PartSource, PartNodes, AfterPart, ProperPart;
    assert (ps + [p])[..|ps|] == ps;
  }

  /** Reading two texts one after the other. */
  lemma {:induction false} TextAppend(pl: Place, t: string, u: string)
    ensures AfterText(pl, t + u) == AfterText(AfterText(pl, t), u)
    ensures IsTagText(pl, t + u) <==> IsTagText(pl, t) && IsTagText(AfterText(pl, t), u)
    decreases |u|
  {
    hide StepChar;
    if u == [] {
      assert t + u == t;
    } else {
      var init := u[..|u| - 1];
      TextAppend(pl, t, init);
      assert (t + u)[..|t + u| - 1] == t + init;
      assert AfterText(pl, t + u) == StepChar(AfterText(pl, t + init), u[|u| - 1]);
    }
  }
}
