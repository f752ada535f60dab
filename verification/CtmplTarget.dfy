/** The generated C program, reduced to the statements the generator emits, and its execution. */
module CtmplTarget {
  import opened Wrappers
  import opened TplRuntime
  import opened TplEscape
  import opened CtmplLiteral
  import opened CtmplMeaning

  /** The data pointer of a children struct: none, a bound expression, or the captured parameter. */
  datatype DataExpr = NullPointer | PointerTo(expr: string) | Captured(name: string)

  datatype Stmt =
    | WriteLiteral(content: string)                // tpl_lit(out, "content");
    | WriteEscaped(writer: Writer, expr: string)   // tpl_esc, tpl_attr, tpl_attr_url, tpl_attr_css
    | WriteRaw(expr: string)
    | InFragment(name: string, block: Stmts)       // { tpl_frag_begin(..); block tpl_frag_end(out); }
    | IfOnce(handle: string, block: Stmts)
    | IfElse(clauses: Clauses)                     // if .. else if .. else
    | Loop(head: string, block: Stmts)
    | Invoke(callee: string, args: string)
    | InvokeWith(callee: string, args: string, fn: string, data: DataExpr)
    | InvokeChildren

  datatype Stmts = End | Then(first: Stmt, next: Stmts)

  datatype Clauses = Else(rest: Stmts) | Clause(cond: string, block: Stmts, more: Clauses)

  /** What follows `TplOut *out` in a function's parameter list. */
  datatype Signature = Bare | Params(params: string) | DataPointer

  /** A function either runs statements or is an adapter that calls another function. */
  datatype Body = Code(stmts: Stmts) | Forward(fn: string, passData: bool)

  datatype Def = Def(name: string, sig: Signature, body: Body)

  function Lookup(defs: seq<Def>, name: string): Option<Def> {
    if defs == [] then None
    else if defs[0].name == name then Some(defs[0])
    else Lookup(defs[1..], name)
  }

  /** A children struct as stored: function name and data pointer. */
  datatype Passed<V> = Passed(fn: string, data: V)

  function DataValue<E, V>(w: World<E, V>, d: DataExpr, env: E): V {
    match d
    case NullPointer => w.nothing
    case PointerTo(e) => w.pointer(e, env)
    case Captured(name) => w.pointer(name, env)
  }

  /** What tpl_lit makes of a literal: its value up to the first NUL. */
  function LiteralText(content: string): string {
    match ReadLiteral(content)
    case None => ""
    case Some(s) => UpToNul(s)
  }

  function UpToNul(s: string): string {
    if s == [] || s[0] == '\0' then [] else [s[0]] + UpToNul(s[1..])
  }

  function RunStmts<E, V>(w: World<E, V>, defs: seq<Def>, fuel: nat, ss: Stmts, env: E,
                          st: St<Passed<V>>): Option<St<Passed<V>>>
    decreases fuel, ss, 0
  {
    match ss
    case End => Some(st)
    case Then(s, next) =>
      match RunStmt(w, defs, fuel, s, env, st)
      case None => None
      case Some(st') => RunStmts(w, defs, fuel, next, env, st')
  }

  function RunStmt<E, V>(w: World<E, V>, defs: seq<Def>, fuel: nat, s: Stmt, env: E,
                         st: St<Passed<V>>): Option<St<Passed<V>>>
    decreases fuel, s, 0
  {
    match s
    case WriteLiteral(content) => Some(PutText(st, LiteralText(content)))
    case WriteEscaped(writer, e) => Some(PutText(st, Escape(w.passed(writer, e, env))))
    case WriteRaw(e) => Some(PutText(st, w.str(e, env)))
    case InFragment(name, block) =>
      (match RunStmts(w, defs, fuel, block, env, st.(out := FragBegin(st.out, Some(w.str(name, env)))))
       case None => None
       case Some(st') => Some(st'.(out := FragEnd(st'.out))))
    case IfOnce(h, block) =>
      var (first, out) := OnceBegin(st.out, w.handle(h, env));
      if first then RunStmts(w, defs, fuel, block, env, st.(out := out)) else Some(st.(out := out))
    case IfElse(clauses) => RunClauses(w, defs, fuel, clauses, env, st)
    case Loop(h, block) => RunIterations(w, defs, fuel, block, w.iterations(h, env), st)
    case Invoke(callee, args) => if fuel == 0 then None else RunFunction(w, defs, fuel - 1, callee, args, None, env, st)
    case InvokeWith(callee, args, fn, data) =>
      var d := DataValue(w, data, env);
      if fuel == 0 then None else
      RunFunction(w, defs, fuel - 1, callee, args, Some(|st.kids|), env, st.(kids := st.kids + [Passed(fn, d)]))
    case InvokeChildren =>
      (match w.children(env)
       case None => Some(st)
       case Some(h) => if fuel == 0 || h >= |st.kids| then None else RunPassed(w, defs, fuel - 1, st.kids[h], st))
  }

  function RunClauses<E, V>(w: World<E, V>, defs: seq<Def>, fuel: nat, cs: Clauses, env: E,
                            st: St<Passed<V>>): Option<St<Passed<V>>>
    decreases fuel, cs, 0
  {
    match cs
    case Else(rest) => RunStmts(w, defs, fuel, rest, env, st)
    case Clause(c, block, more) =>
      if w.truth(c, env) then RunStmts(w, defs, fuel, block, env, st)
      else RunClauses(w, defs, fuel, more, env, st)
  }

  function RunIterations<E, V>(w: World<E, V>, defs: seq<Def>, fuel: nat, block: Stmts, envs: seq<E>,
                               st: St<Passed<V>>): Option<St<Passed<V>>>
    decreases fuel, block, 1 + |envs|
  {
    if envs == [] then Some(st) else
    match RunStmts(w, defs, fuel, block, envs[0], st)
    case None => None
    case Some(st') => RunIterations(w, defs, fuel, block, envs[1..], st')
  }

  /** Calls the function of a component. */
  function RunFunction<E, V>(w: World<E, V>, defs: seq<Def>, fuel: nat, fn: string, args: string, kid: Option<nat>,
                             env: E, st: St<Passed<V>>): Option<St<Passed<V>>>
    decreases fuel
  {
    match Lookup(defs, fn)
    case Some(Def(_, Params(params), Code(ss))) =>
      RunStmts(w, defs, fuel, ss, w.enter(params, args, env, kid), st)
    case _ => None
  }

  /** Calls children->fn(out, children->data), directly or through an adapter. */
  function RunPassed<E, V>(w: World<E, V>, defs: seq<Def>, fuel: nat, p: Passed<V>,
                           st: St<Passed<V>>): Option<St<Passed<V>>>
    decreases fuel
  {
    match Lookup(defs, p.fn)
    case Some(Def(_, DataPointer, Code(ss))) => RunStmts(w, defs, fuel, ss, w.bound(p.data), st)
    case Some(Def(_, DataPointer, Forward(fn, pass))) =>
      (match Lookup(defs, fn)
       case Some(Def(_, Bare, Code(ss))) =>
         if pass then None else RunStmts(w, defs, fuel, ss, w.bare, st)
       case Some(Def(_, Params(params), Code(ss))) =>
         if pass then RunStmts(w, defs, fuel, ss, w.capture(params, p.data), st) else None
       case _ => None)
    case _ => None
  }
}
