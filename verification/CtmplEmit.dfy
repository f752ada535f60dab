/**
 * Code generation: text nodes merge into literals, else-if chains are flattened, fragment and once
 * blocks expand in place, and child blocks become numbered functions, innermost first.
 */
module CtmplEmit {
  import opened Wrappers
  import opened CtmplAst
  import opened CtmplLiteral
  import opened CtmplMeaning
  import opened CtmplTarget

  const LITERAL_MAX := 4000

  // ---- names ----

  function Dec(n: nat): string {
    if n < 10 then ['0' + n as char] else Dec(n / 10) + ['0' + (n % 10) as char]
  }

  function BlockName(id: nat): string {
    "tpl_" + ("_block_" + Dec(id))
  }

  function AdapterName(id: nat): string {
    BlockName(id) + "_adapter"
  }

  function ComponentName(name: string): string {
    "tpl_" + name
  }

  /** The function a call site puts into its children struct. */
  function PassedName(mode: BlockMode, id: nat): string {
    if mode.Untyped? then BlockName(id) else AdapterName(id)
  }

  function PassedData(mode: BlockMode, data: Option<string>): DataExpr {
    match mode
    case Void0 => NullPointer
    case One(name) => Captured(name)
    case Untyped => if data.Some? then PointerTo(data.value) else NullPointer
  }

  /** The function that writes a value. */
  function WriterOf(ctx: Context): Writer {
    match ctx
    case InText => TplEsc
    case InAttr => TplAttr
    case InUrl => TplAttrUrl
    case InCss => TplAttrCss
  }

  // ---- statements ----

  /** The text nodes at the front of ns that go into one literal, and the nodes after them. */
  function TakeText(ns: Nodes, total: nat): (r: (string, Nodes))
    requires ns.Cons? && ns.head.Text?
    ensures r.1 < ns
    decreases ns
  {
    var t := ns.head.text;
    var sum := total + |t|;
    if sum <= LITERAL_MAX && ns.tail.Cons? && ns.tail.head.Text? then
      var (more, rest) := TakeText(ns.tail, sum);
      (t + more, rest)
    else (t, ns.tail)
  }

  /** The statements for ns; `base` child functions have been numbered before them. */
  function EmitNodes(ns: Nodes, params: string, base: nat): Stmts
    decreases ns, 1
  {
    match ns
    case Nil => End
    case Cons(Text(_), _) =>
      var (t, rest) := TakeText(ns, 0);
      Then(WriteLiteral(EmitText(t)), EmitNodes(rest, params, base))
    case Cons(n, tail) => Then(EmitNode(n, params, base), EmitNodes(tail, params, base + CountNode(n)))
  }

  function EmitNode(n: Node, params: string, base: nat): Stmt
    decreases n, 0
  {
    match n
    case Text(t) => WriteLiteral(EmitText(t))
    case Interp(e, ctx) => WriteEscaped(WriterOf(ctx), e)
    case Children => InvokeChildren
    case For(h, body) => Loop(h, EmitNodes(body, params, base))
    case If(c, yes, no) => IfElse(Clause(c, EmitNodes(yes, params, base + Count(no)), EmitElse(no, params, base)))
    case Call(callee, args, data, block) =>
      if callee == "raw" then WriteRaw(args)
      else if callee == "fragment" then InFragment(args, EmitNodes(block, params, base))
      else if callee == "once" then IfOnce(args, EmitNodes(block, params, base))
      else if block.Nil? then Invoke(ComponentName(callee), args)
      else
        var mode := ModeOf(params, data);
        InvokeWith(ComponentName(callee), args, PassedName(mode, base + Count(block) + 1), PassedData(mode, data))
  }

  /** An else branch that is a single if goes on with the chain. */
  function EmitElse(no: Nodes, params: string, base: nat): Clauses
    decreases no, 2
  {
    match no
    case Cons(If(c, yes, no'), Nil) =>
      Clause(c, EmitNodes(yes, params, base + Count(no')), EmitElse(no', params, base))
    case _ => Else(EmitNodes(no, params, base))
  }

  // ---- functions ----

  /** The function of a child block and, unless it takes the data pointer itself, its adapter. */
  function BlockDefs(block: Nodes, params: string, data: Option<string>, base: nat): seq<Def> {
    var id := base + Count(block) + 1;
    var code := Code(EmitNodes(block, params, base));
    match ModeOf(params, data)
    case Untyped => [Def(BlockName(id), DataPointer, code)]
    case Void0 => [Def(BlockName(id), Bare, code), Def(AdapterName(id), DataPointer, Forward(BlockName(id), false))]
    case One(_) =>
      [Def(BlockName(id), Params(params), code), Def(AdapterName(id), DataPointer, Forward(BlockName(id), true))]
  }

  /** The child functions of ns, innermost first. */
  function NodesDefs(ns: Nodes, params: string, base: nat): seq<Def>
    decreases ns
  {
    match ns
    case Nil => []
    case Cons(n, tail) => NodeDefs(n, params, base) + NodesDefs(tail, params, base + CountNode(n))
  }

  function NodeDefs(n: Node, params: string, base: nat): seq<Def>
    decreases n
  {
    match n
    case Call(callee, _, data, block) =>
      NodesDefs(block, params, base) +
      (if block.Cons? && !IsBuiltin(callee) then BlockDefs(block, params, data, base) else [])
    case If(_, yes, no) => NodesDefs(no, params, base) + NodesDefs(yes, params, base + Count(no))
    case For(_, body) => NodesDefs(body, params, base)
    case _ => []
  }

  // ---- programs ----

  /** The child functions numbered before component i. */
  function BaseOf(prog: seq<Component>, i: nat): nat
    requires i <= |prog|
  {
    if i == 0 then 0 else BaseOf(prog, i - 1) + Count(prog[i - 1].body)
  }

  function BlocksUpTo(prog: seq<Component>, i: nat): seq<Def>
    requires i <= |prog|
  {
    if i == 0 then []
    else BlocksUpTo(prog, i - 1) + NodesDefs(prog[i - 1].body, prog[i - 1].params, BaseOf(prog, i - 1))
  }

  function ComponentDef(c: Component, base: nat): Def {
    Def(ComponentName(c.name), Params(c.params), Code(EmitNodes(c.body, c.params, base)))
  }

  function ComponentsUpTo(prog: seq<Component>, i: nat): seq<Def>
    requires i <= |prog|
  {
    if i == 0 then [] else ComponentsUpTo(prog, i - 1) + [ComponentDef(prog[i - 1], BaseOf(prog, i - 1))]
  }

  /** The generated file: all child functions, then the component functions. */
  function Compile(prog: seq<Component>): seq<Def> {
    BlocksUpTo(prog, |prog|) + ComponentsUpTo(prog, |prog|)
  }
}
