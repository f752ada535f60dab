/** The parse tree of a template, and how a child block captures its component's parameter. */
module CtmplAst {
  import opened Wrappers
  import opened Chars

  /** The escaping context of an interpolation. */
  datatype Context = InText | InAttr | InUrl | InCss

  datatype Node =
    | Text(text: string)
    | Interp(expr: string, ctx: Context)
    | Children
    | Call(callee: string, args: string, data: Option<string>, block: Nodes)
    | If(cond: string, yes: Nodes, no: Nodes)
    | For(head: string, body: Nodes)

  /** The siblings of a body, as the linked list the parser builds. */
  datatype Nodes = Nil | Cons(head: Node, tail: Nodes)

  datatype Component = Component(name: string, params: string, body: Nodes)

  predicate IsBuiltin(name: string) {
    name == "raw" || name == "fragment" || name == "once"
  }

  // ---- characters ----

  predicate IsIdentStart(c: char) {
    IsAlpha(c) || c == '_'
  }

  predicate IsIdentChar(c: char) {
    IsAlpha(c) || IsDigit(c) || c == '_'
  }

  // ---- parameter lists ----

  /** Commas outside brackets and quotes; `quote` is the open quote or NUL. */
  function Commas(s: string, depth: int, quote: char): nat
    decreases |s|
  {
    if s == [] then 0
    else if quote != '\0' then
      if s[0] == '\\' then (if |s| == 1 then 0 else Commas(s[2..], depth, quote))
      else if s[0] == quote then Commas(s[1..], depth, '\0')
      else Commas(s[1..], depth, quote)
    else if s[0] == '"' || s[0] == '\'' then Commas(s[1..], depth, s[0])
    else if s[0] == '(' || s[0] == '[' || s[0] == '{' then Commas(s[1..], depth + 1, quote)
    else if s[0] == ')' || s[0] == ']' || s[0] == '}' then Commas(s[1..], depth - 1, quote)
    else (if s[0] == ',' && depth == 0 then 1 else 0) + Commas(s[1..], depth, quote)
  }

  /** Length of s without its trailing identifier characters. */
  function BeforeIdent(s: string): (n: nat)
    ensures n <= |s|
  {
    if s != [] && IsIdentChar(s[|s| - 1]) then BeforeIdent(s[..|s| - 1]) else |s|
  }

  /** The declared name of a single plain parameter. */
  function ParamName(params: string): Option<string> {
    var s := TrimRight(params);
    var e := BeforeIdent(s);
    if e == |s| then None
    else if e > 0 && !IsSpace(s[e - 1]) && s[e - 1] != '*' then None
    else Some(s[e..])
  }

  datatype BlockMode = Untyped | Void0 | One(name: string)

  /** How the function of a child block is generated: with bound data, bare, or capturing the parameter. */
  function ModeOf(params: string, data: Option<string>): BlockMode {
    if data.Some? then Untyped
    else if params == "" || params == "void" then Void0
    else if Commas(params, 0, '\0') == 0 && ParamName(params).Some? then One(ParamName(params).value)
    else Untyped
  }

  // ---- measures over trees ----

  /** The calls with a child block that becomes a function of its own. */
  function Count(ns: Nodes): nat
    decreases ns
  {
    match ns
    case Nil => 0
    case Cons(n, tail) => CountNode(n) + Count(tail)
  }

  function CountNode(n: Node): nat
    decreases n
  {
    match n
    case Call(callee, _, _, block) => Count(block) + (if block.Cons? && !IsBuiltin(callee) then 1 else 0)
    case If(_, yes, no) => Count(no) + Count(yes)
    case For(_, body) => Count(body)
    case _ => 0
  }

  /** Every text is made of C characters without NUL. */
  predicate Clean(ns: Nodes)
    decreases ns
  {
    match ns
    case Nil => true
    case Cons(n, tail) => CleanNode(n) && Clean(tail)
  }

  predicate CleanNode(n: Node)
    decreases n
  {
    match n
    case Text(t) => CleanText(t)
    case Call(_, _, _, block) => Clean(block)
    case If(_, yes, no) => Clean(yes) && Clean(no)
    case For(_, body) => Clean(body)
    case _ => true
  }

  predicate CleanText(t: string) {
    forall i :: 0 <= i < |t| ==> 0 < t[i] as int < 256
  }
}
