/**
 * What the names in a generated file stand for, and when the C texts copied into it are complete.
 * The generator writes names of its own (functions, `out`, `children`, the captured parameter) into
 * scopes that parameters and loops fill, and declares names (`tpl_data`, `tpl_children`) around
 * texts it copies.
 */
module CtmplScopes {
  import opened Wrappers
  import opened Chars
  import opened CtmplAst
  import opened CtmplScan
  import opened CtmplTag
  import opened CtmplLiteral
  import opened CtmplMeaning
  import opened CtmplTarget
  import opened CtmplEmit

  /**
   * The names that come from C texts: those a parameter list or for-head declares, those an
   * expression uses, and the render-once handles of the file.
   */
  datatype Names = Names(declares: string -> set<string>, uses: string -> set<string>, handles: seq<string>)

  /** What a parameter list declares: nothing, its plain single parameter, or what C finds in it. */
  function Declared(c: Names, params: string): set<string> {
    match ModeOf(params, None)
    case Void0 => {}
    case One(name) => {name}
    case Untyped => c.declares(params)
  }

  function Used(c: Names, e: string): set<string> {
    if e == "" then {} else if IsIdent(e) then {e} else c.uses(e)
  }

  // ---- copied texts ----

  /** There is code besides comments, and no line comment is open at the end; `seen` tells of code before p. */
  predicate CompleteFrom(e: string, p: nat, seen: bool)
    requires p <= |e|
    decreases |e| - p
  {
    if p == |e| then seen else
    match SkipAt(e, p)
    case NeverEnds => false
    case SkipTo(next) =>
      if e[p] != '/' then CompleteFrom(e, next, true)
      else (CharAt(e, p + 1) == '*' || next < |e|) && CompleteFrom(e, next, seen)
    case IsCode => CompleteFrom(e, p + 1, seen || !IsSpace(e[p]))
  }

  /** A C text that can stand in front of a closing parenthesis on its line. */
  predicate Complete(e: string) {
    CompleteFrom(e, 0, false)
  }

  predicate CompleteArgs(e: string) {
    e == "" || Complete(e)
  }

  const DATA_SIZE := 256

  /** The buffer for the data pointer of a children struct holds the text, its cast and a NUL. */
  predicate FitsPointer(e: string) {
    |"(void *)(" + e + ")"| < DATA_SIZE
  }

  // ---- scopes ----

  /** What the parameters of a function declare besides `out`, and what its statements declare inside. */
  datatype Scope = Scope(params: set<string>, inner: set<string>)

  /** A name of the file scope is not hidden. */
  predicate Seen(sc: Scope, name: string) {
    name !in sc.params && name !in sc.inner
  }

  /** A parameter is declared and not hidden. */
  predicate IsParam(sc: Scope, name: string) {
    name in sc.params && name !in sc.inner
  }

  /** A call of a function of the file scope with `out`. */
  predicate Calls(sc: Scope, fn: string) {
    Seen(sc, fn) && "out" !in sc.inner
  }

  predicate HandleSeen(c: Names, sc: Scope, e: string) {
    forall h :: h in c.handles && h in Used(c, e) ==> h != "out" && Seen(sc, h)
  }

  function Inside(c: Names, sc: Scope, head: string): Scope {
    sc.(inner := sc.inner + c.declares(head))
  }

  function WriterName(writer: Writer): string {
    match writer
    case TplEsc => "tpl_esc"
    case TplAttr => "tpl_attr"
    case TplAttrUrl => "tpl_attr_url"
    case TplAttrCss => "tpl_attr_css"
  }

  /** The function a value in this context is written by. */
  function ContextWriter(ctx: Context): string {
    match ctx
    case InText => "tpl_esc"
    case InAttr => "tpl_attr"
    case InUrl => "tpl_attr_url"
    case InCss => "tpl_attr_css"
  }

  // ---- the generated functions ----

  predicate StmtsStand(c: Names, ss: Stmts, sc: Scope)
    decreases ss
  {
    match ss
    case End => true
    case Then(s, next) => StmtStands(c, s, sc) && StmtsStand(c, next, sc)
  }

  predicate StmtStands(c: Names, s: Stmt, sc: Scope)
    decreases s
  {
    match s
    case WriteLiteral(_) => Calls(sc, "tpl_lit")
    case WriteEscaped(writer, e) => Calls(sc, WriterName(writer)) && Complete(e)
    case WriteRaw(e) => Calls(sc, "tpl_raw") && Complete(e)
    case InFragment(name, block) =>
      Calls(sc, "tpl_frag_begin") && Calls(sc, "tpl_frag_end") && Complete(name) && StmtsStand(c, block, sc)
    case IfOnce(h, block) =>
      Calls(sc, "tpl_once_begin") && Complete(h) && HandleSeen(c, sc, h) && StmtsStand(c, block, sc)
    case IfElse(clauses) => ClausesStand(c, clauses, sc)
    case Loop(h, block) => Complete(h) && StmtsStand(c, block, Inside(c, sc, h))
    case Invoke(callee, args) => Calls(sc, callee) && CompleteArgs(args)
    case InvokeWith(callee, args, fn, data) =>
      // { TplChildren tpl_children = {fn, data}; callee(out, args, &tpl_children); }
      && Seen(sc, "TplChildren")
      && (var within := sc.(inner := sc.inner + {"tpl_children"});
          Calls(within, callee) && CompleteArgs(args) && "tpl_children" !in Used(c, args) &&
          Seen(within, fn) && DataStands(c, data, within))
    case InvokeChildren => IsParam(sc, "children") && "out" !in sc.inner
  }

  predicate DataStands(c: Names, d: DataExpr, sc: Scope) {
    match d
    case NullPointer => true
    case PointerTo(e) => Complete(e) && FitsPointer(e) && "tpl_children" !in Used(c, e)
    case Captured(name) => IsParam(sc, name) && FitsPointer(name)
  }

  predicate ClausesStand(c: Names, cs: Clauses, sc: Scope)
    decreases cs
  {
    match cs
    case Else(rest) => StmtsStand(c, rest, sc)
    case Clause(cond, block, more) => Complete(cond) && StmtsStand(c, block, sc) && ClausesStand(c, more, sc)
  }

  /** `out` is declared once. */
  predicate SignatureStands(c: Names, sig: Signature) {
    sig.Params? ==> "out" !in Declared(c, sig.params) && CompleteArgs(sig.params)
  }

  function ScopeOf(c: Names, sig: Signature): Scope {
    match sig
    case Bare => Scope({}, {})
    case Params(params) => Scope(Declared(c, params), {})
    case DataPointer => Scope({"tpl_data"}, {})
  }

  predicate DefStands(c: Names, d: Def) {
    SignatureStands(c, d.sig) &&
    match d.body
    case Code(ss) => StmtsStand(c, ss, ScopeOf(c, d.sig))
    case Forward(fn, pass) => Calls(ScopeOf(c, d.sig), fn) && (pass ==> IsParam(ScopeOf(c, d.sig), "tpl_data"))
  }

  ghost predicate DefsStand(c: Names, ds: seq<Def>) {
    forall d :: d in ds ==> DefStands(c, d)
  }

  // ---- the template ----

  /** The signature of the function a child block becomes. */
  function BlockSignature(params: string, data: Option<string>): Signature {
    match ModeOf(params, data)
    case Void0 => Bare
    case One(_) => Params(params)
    case Untyped => DataPointer
  }

  /**
   * The nodes, in the scope of the function that writes them: nothing the template declares hides
   * a function or `out`, every child content is a parameter in scope, a block that captures the
   * parameter of its component stands where that is seen, and no text uses `tpl_children`.
   */
  ghost predicate NodesStand(c: Names, ns: Nodes, params: string, base: nat, sc: Scope)
    decreases ns
  {
    match ns
    case Nil => true
    case Cons(n, tail) => NodeStands(c, n, params, base, sc) && NodesStand(c, tail, params, base + CountNode(n), sc)
  }

  ghost predicate NodeStands(c: Names, n: Node, params: string, base: nat, sc: Scope)
    decreases n
  {
    match n
    case Text(_) => Calls(sc, "tpl_lit")
    case Interp(e, ctx) => Calls(sc, ContextWriter(ctx)) && Complete(e)
    case Children => IsParam(sc, "children") && "out" !in sc.inner
    case If(cond, yes, no) =>
      Complete(cond) && NodesStand(c, no, params, base, sc) && NodesStand(c, yes, params, base + Count(no), sc)
    case For(h, body) => Complete(h) && NodesStand(c, body, params, base, Inside(c, sc, h))
    case Call(callee, args, data, block) =>
      if callee == "raw" then // which the parser gives no block
        Calls(sc, "tpl_raw") && Complete(args) && DefsStand(c, NodesDefs(block, params, base))
      else if callee == "fragment" then
        Calls(sc, "tpl_frag_begin") && Calls(sc, "tpl_frag_end") && Complete(args) &&
        NodesStand(c, block, params, base, sc)
      else if callee == "once" then
        Calls(sc, "tpl_once_begin") && Complete(args) && HandleSeen(c, sc, args) &&
        NodesStand(c, block, params, base, sc)
      else
        Calls(sc, ComponentName(callee)) && CompleteArgs(args) &&
        (block.Cons? ==>
           && callee != "children" && Seen(sc, "TplChildren") && "tpl_children" !in Used(c, args)
           && Seen(sc, PassedName(ModeOf(params, data), base + Count(block) + 1))
           && BindingStands(c, params, data, sc)
           && NodesStand(c, block, params, base, ScopeOf(c, BlockSignature(params, data))))
  }

  predicate BindingStands(c: Names, params: string, data: Option<string>, sc: Scope) {
    match ModeOf(params, data)
    case Void0 => true
    case One(name) => IsParam(sc, name) && FitsPointer(name) && name != "tpl_children"
    case Untyped =>
      data.Some? ==> Complete(data.value) && FitsPointer(data.value) && "tpl_children" !in Used(c, data.value)
  }

  // ---- the two agree ----

  lemma DefsParts(c: Names, a: seq<Def>, b: seq<Def>)
    ensures DefsStand(c, a + b) <==> DefsStand(c, a) && DefsStand(c, b)
  {
    if DefsStand(c, a + b) {
      assert forall d :: d in a || d in b ==> d in a + b;
    }
  }

  /** Names of child functions are not among those the generator declares. */
  lemma ChildNames(id: nat)
    ensures BlockName(id) != "tpl_data" && BlockName(id) != "tpl_children" && AdapterName(id) != "tpl_children"
  {
    assert BlockName(id)[4] == '_' && AdapterName(id)[4] == '_';
    assert "tpl_data"[4] == 'd' && "tpl_children"[4] == 'c';
  }

  lemma ChildrenName(callee: string)
    ensures ComponentName(callee) == "tpl_children" <==> callee == "children"
  {
    assert ComponentName(callee)[4..] == callee;
    assert "tpl_children"[4..] == "children";
  }

  /** The text nodes merged into one literal. */
  lemma {:induction false} TextsStand(c: Names, ns: Nodes, total: nat, params: string, base: nat, sc: Scope)
    requires ns.Cons? && ns.head.Text?
    ensures var rest := TakeText(ns, total).1;
            && (NodesStand(c, ns, params, base, sc) <==> Calls(sc, "tpl_lit") && NodesStand(c, rest, params, base, sc))
            && NodesDefs(ns, params, base) == NodesDefs(rest, params, base)
    decreases ns
  {
    var sum := total + |ns.head.text|;
    if sum <= LITERAL_MAX && ns.tail.Cons? && ns.tail.head.Text? {
      TextsStand(c, ns.tail, sum, params, base, sc);
    }
  }

  lemma {:induction false} NodesExactly(c: Names, ns: Nodes, params: string, base: nat, sc: Scope)
    requires SignatureStands(c, Params(params))
    ensures NodesStand(c, ns, params, base, sc) <==>
            StmtsStand(c, EmitNodes(ns, params, base), sc) && DefsStand(c, NodesDefs(ns, params, base))
    decreases ns, 1
  {
    hide SignatureStands, DefsStand, TakeText, NodeStands, StmtStands, EmitNode, Calls, NodeDefs;
    match ns
    case Nil => assert DefsStand(c, []) by { NoDefs(c); }
    case Cons(Text(_), _) =>
      TextStep(c, ns, params, base, sc);
      NodesExactly(c, TakeText(ns, 0).1, params, base, sc);
    case Cons(n, tail) =>
      NodeExactly(c, n, params, base, sc);
      NodesExactly(c, tail, params, base + CountNode(n), sc);
      DefsParts(c, NodeDefs(n, params, base), NodesDefs(tail, params, base + CountNode(n)));
  }

  lemma NoDefs(c: Names)
    ensures DefsStand(c, [])
  {
  }

  /** The text nodes in front of ns and the literal made of them. */
  lemma TextStep(c: Names, ns: Nodes, params: string, base: nat, sc: Scope)
    requires ns.Cons? && ns.head.Text?
    ensures var rest := TakeText(ns, 0).1;
            && (NodesStand(c, ns, params, base, sc) <==> Calls(sc, "tpl_lit") && NodesStand(c, rest, params, base, sc))
            && (StmtsStand(c, EmitNodes(ns, params, base), sc) <==>
                Calls(sc, "tpl_lit") && StmtsStand(c, EmitNodes(rest, params, base), sc))
            && NodesDefs(ns, params, base) == NodesDefs(rest, params, base)
  {
    TextsStand(c, ns, 0, params, base, sc);
    hide TakeText, Calls, NodesStand, NodesDefs;
    var (t, rest) := TakeText(ns, 0);
    assert EmitNodes(ns, params, base) == Then(WriteLiteral(EmitText(t)), EmitNodes(rest, params, base));
    assert StmtStands(c, WriteLiteral(EmitText(t)), sc) <==> Calls(sc, "tpl_lit");
  }

  lemma {:induction false} NodeExactly(c: Names, n: Node, params: string, base: nat, sc: Scope)
    requires SignatureStands(c, Params(params))
    ensures NodeStands(c, n, params, base, sc) <==>
            StmtStands(c, EmitNode(n, params, base), sc) && DefsStand(c, NodeDefs(n, params, base))
    decreases n, 0
  {
    hide SignatureStands, DefsStand, Calls, Complete, IsParam, HandleSeen, Seen, Inside, Used, EmitText;
    NoDefs(c);
    match n
    case If(cond, yes, no) =>
      NodesExactly(c, yes, params, base + Count(no), sc);
      ElseExactly(c, no, params, base, sc);
      DefsParts(c, NodesDefs(no, params, base), NodesDefs(yes, params, base + Count(no)));
    case For(h, body) => NodesExactly(c, body, params, base, Inside(c, sc, h));
    case Call(callee, args, data, block) =>
      DefsParts(c, NodesDefs(block, params, base), []);
      if IsBuiltin(callee) {
        NodesExactly(c, block, params, base, sc);
      } else if block.Cons? {
        CallExactly(c, n, params, base, sc);
      }
    case _ =>
  }

  /** A flattened else branch. */
  lemma {:induction false} ElseExactly(c: Names, no: Nodes, params: string, base: nat, sc: Scope)
    requires SignatureStands(c, Params(params))
    ensures NodesStand(c, no, params, base, sc) <==>
            ClausesStand(c, EmitElse(no, params, base), sc) && DefsStand(c, NodesDefs(no, params, base))
    decreases no, 2
  {
    hide SignatureStands, DefsStand, Complete;
    match no
    case Cons(If(cond, yes, no'), Nil) =>
      NodesExactly(c, yes, params, base + Count(no'), sc);
      ElseExactly(c, no', params, base, sc);
      NoDefs(c);
      DefsParts(c, NodeDefs(no.head, params, base), []);
      DefsParts(c, NodesDefs(no', params, base), NodesDefs(yes, params, base + Count(no')));
    case _ => NodesExactly(c, no, params, base, sc);
  }

  /** A call with a child block: the call site, the function of the block and its adapter. */
  lemma {:induction false} CallExactly(c: Names, n: Node, params: string, base: nat, sc: Scope)
    requires SignatureStands(c, Params(params)) && n.Call? && n.block.Cons? && !IsBuiltin(n.callee)
    ensures NodeStands(c, n, params, base, sc) <==>
            StmtStands(c, EmitNode(n, params, base), sc) && DefsStand(c, NodeDefs(n, params, base))
    decreases n.block, 2
  {
    var Call(callee, args, data, block) := n;
    var inside := ScopeOf(c, BlockSignature(params, data));
    NodesExactly(c, block, params, base, inside);
    BlockExactly(c, block, params, data, base);
    DefsParts(c, NodesDefs(block, params, base), BlockDefs(block, params, data, base));
    SiteExactly(c, n, params, base, sc);
  }

  /** The call site alone. */
  lemma SiteExactly(c: Names, n: Node, params: string, base: nat, sc: Scope)
    requires n.Call? && n.block.Cons? && !IsBuiltin(n.callee)
    ensures StmtStands(c, EmitNode(n, params, base), sc) <==>
            && Calls(sc, ComponentName(n.callee)) && CompleteArgs(n.args) && n.callee != "children"
            && Seen(sc, "TplChildren") && "tpl_children" !in Used(c, n.args)
            && Seen(sc, PassedName(ModeOf(params, n.data), base + Count(n.block) + 1))
            && BindingStands(c, params, n.data, sc)
  {
    ChildNames(base + Count(n.block) + 1);
    ChildrenName(n.callee);
    hide EmitNodes, Count, ModeOf, Complete, Used, ComponentName, BlockName, AdapterName;
  }

  /** The function of a block and its adapter. */
  lemma BlockExactly(c: Names, block: Nodes, params: string, data: Option<string>, base: nat)
    requires SignatureStands(c, Params(params))
    ensures DefsStand(c, BlockDefs(block, params, data, base)) <==>
            StmtsStand(c, EmitNodes(block, params, base), ScopeOf(c, BlockSignature(params, data)))
  {
    var id := base + Count(block) + 1;
    var ds := BlockDefs(block, params, data, base);
    ChildNames(id);
    hide EmitNodes, StmtsStand, Count, ModeOf, BlockName, AdapterName, Declared;
    assert DefStands(c, ds[0]) <==>
           StmtsStand(c, EmitNodes(block, params, base), ScopeOf(c, BlockSignature(params, data)));
    assert |ds| == 2 ==> DefStands(c, ds[1]);
  }
}
