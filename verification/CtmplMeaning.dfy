/**
 * The direct meaning of a template: the tree is walked and the runtime is called. C expressions
 * are opaque functions of the environment in which they stand; a child block is a closure.
 */
module CtmplMeaning {
  import opened Wrappers
  import opened TplRuntime
  import opened TplEscape
  import opened CtmplAst

  /** The runtime functions that write a value: as text, as an attribute, as a TplUrl, as a TplCss. */
  datatype Writer = TplEsc | TplAttr | TplAttrUrl | TplAttrCss

  /** The writer each context is meant to have. */
  function Meant(ctx: Context): Writer {
    match ctx
    case InText => TplEsc
    case InAttr => TplAttr
    case InUrl => TplAttrUrl
    case InCss => TplAttrCss
  }

  /**
   * The C side of a program: values of expressions, iterations of for-heads, and the scopes of
   * the generated functions. E are environments and V the values a void pointer can carry.
   */
  datatype World<!E, !V> = World(
    str: (string, E) -> string,
    passed: (Writer, string, E) -> string,          // the text a writer gets from an expression of its type
    truth: (string, E) -> bool,
    handle: (string, E) -> Handle,
    iterations: (string, E) -> seq<E>,
    pointer: (string, E) -> V,
    nothing: V,
    enter: (string, string, E, Option<nat>) -> E,   // parameters, arguments, caller's scope, children
    children: E -> Option<nat>,                     // the variable `children` of a scope
    bare: E,                                        // the scope of a block without parameters
    capture: (string, V) -> E,                      // a block scope with the component's one parameter
    bound: V -> E)                                  // a block scope with tpl_data

  /** The state of a render: the runtime object and the child contents passed so far. */
  datatype St<K> = St(out: Render, kids: seq<K>)

  /** A child block together with the place where it was passed. */
  datatype Closure<E> = Closure(block: Nodes, params: string, data: Option<string>, env: E)

  /** What the block sees: the captured parameter, the bound data, or nothing. */
  function BlockScope<E, V>(w: World<E, V>, c: Closure<E>): E {
    match ModeOf(c.params, c.data)
    case Void0 => w.bare
    case One(name) => w.capture(c.params, w.pointer(name, c.env))
    case Untyped => w.bound(if c.data.Some? then w.pointer(c.data.value, c.env) else w.nothing)
  }

  function Find(prog: seq<Component>, name: string): Option<Component> {
    if prog == [] then None
    else if prog[0].name == name then Some(prog[0])
    else Find(prog[1..], name)
  }

  function PutText<K>(st: St<K>, s: string): St<K> {
    st.(out := Lit(st.out, s))
  }

  /** Renders nodes; None when the fuel for nested calls runs out or a component is missing. */
  function RunNodes<E, V>(w: World<E, V>, prog: seq<Component>, fuel: nat, params: string, ns: Nodes, env: E,
                          st: St<Closure<E>>): Option<St<Closure<E>>>
    decreases fuel, ns, 0
  {
    match ns
    case Nil => Some(st)
    case Cons(n, tail) =>
      match RunNode(w, prog, fuel, params, n, env, st)
      case None => None
      case Some(st') => RunNodes(w, prog, fuel, params, tail, env, st')
  }

  function RunNode<E, V>(w: World<E, V>, prog: seq<Component>, fuel: nat, params: string, n: Node, env: E,
                         st: St<Closure<E>>): Option<St<Closure<E>>>
    decreases fuel, n, 0
  {
    match n
    case Text(t) => Some(PutText(st, t))
    case Interp(e, ctx) => Some(PutText(st, Escape(w.passed(Meant(ctx), e, env))))
    case Children =>
      (match w.children(env)
       case None => Some(st)
       case Some(h) =>
         if fuel == 0 || h >= |st.kids| then None
         else RunNodes(w, prog, fuel - 1, st.kids[h].params, st.kids[h].block, BlockScope(w, st.kids[h]), st))
    case If(c, yes, no) => RunNodes(w, prog, fuel, params, if w.truth(c, env) then yes else no, env, st)
    case For(h, body) => RunLoop(w, prog, fuel, params, body, w.iterations(h, env), st)
    case Call(callee, args, data, block) =>
      if callee == "raw" then Some(PutText(st, w.str(args, env)))
      else if callee == "fragment" then
        match RunNodes(w, prog, fuel, params, block, env, st.(out := FragBegin(st.out, Some(w.str(args, env)))))
        case None => None
        case Some(st') => Some(st'.(out := FragEnd(st'.out)))
      else if callee == "once" then
        var (first, out) := OnceBegin(st.out, w.handle(args, env));
        if first then RunNodes(w, prog, fuel, params, block, env, st.(out := out)) else Some(st.(out := out))
      else RunCall(w, prog, fuel, params, callee, args, data, block, env, st)
  }

  function RunLoop<E, V>(w: World<E, V>, prog: seq<Component>, fuel: nat, params: string, body: Nodes, envs: seq<E>,
                         st: St<Closure<E>>): Option<St<Closure<E>>>
    decreases fuel, body, 1 + |envs|
  {
    if envs == [] then Some(st) else
    match RunNodes(w, prog, fuel, params, body, envs[0], st)
    case None => None
    case Some(st') => RunLoop(w, prog, fuel, params, body, envs[1..], st')
  }

  /** A component call; a non-empty block is passed as a new child content. */
  function RunCall<E, V>(w: World<E, V>, prog: seq<Component>, fuel: nat, params: string, callee: string, args: string,
                         data: Option<string>, block: Nodes, env: E, st: St<Closure<E>>): Option<St<Closure<E>>>
    decreases fuel, block, 0
  {
    var c := Find(prog, callee);
    if fuel == 0 || c.None? then None else
    var kid := if block.Nil? then None else Some(|st.kids|);
    var st' := if block.Nil? then st else st.(kids := st.kids + [Closure(block, params, data, env)]);
    RunNodes(w, prog, fuel - 1, c.value.params, c.value.body, w.enter(c.value.params, args, env, kid), st')
  }

  // ---- call depth ----

  /** A rendering that ends does not depend on how much fuel was left. */
  lemma {:induction false} MoreFuel<E, V>(w: World<E, V>, prog: seq<Component>, fuel: nat, params: string, ns: Nodes,
                                          env: E, st: St<Closure<E>>)
    requires RunNodes(w, prog, fuel, params, ns, env, st).Some?
    ensures RunNodes(w, prog, fuel + 1, params, ns, env, st) == RunNodes(w, prog, fuel, params, ns, env, st)
    decreases fuel, ns, 1
  {
    match ns
    case Nil =>
    case Cons(n, tail) =>
      MoreFuelNode(w, prog, fuel, params, n, env, st);
      MoreFuel(w, prog, fuel, params, tail, env, RunNode(w, prog, fuel, params, n, env, st).value);
  }

  lemma {:induction false} MoreFuelNode<E, V>(w: World<E, V>, prog: seq<Component>, fuel: nat, params: string, n: Node,
                                              env: E, st: St<Closure<E>>)
    requires RunNode(w, prog, fuel, params, n, env, st).Some?
    ensures RunNode(w, prog, fuel + 1, params, n, env, st) == RunNode(w, prog, fuel, params, n, env, st)
    decreases fuel, n, 0
  {
    hide Lit, FragBegin, FragEnd, OnceBegin, Escape;
    match n
    case Children =>
      var h := w.children(env);
      if h.Some? {
        var k := st.kids[h.value];
        MoreFuel(w, prog, fuel - 1, k.params, k.block, BlockScope(w, k), st);
      }
    case If(c, yes, no) => MoreFuel(w, prog, fuel, params, if w.truth(c, env) then yes else no, env, st);
    case For(h, body) => MoreFuelLoop(w, prog, fuel, params, body, w.iterations(h, env), st);
    case Call(callee, args, data, block) =>
      if callee == "fragment" {
        MoreFuel(w, prog, fuel, params, block, env, st.(out := FragBegin(st.out, Some(w.str(args, env)))));
      } else if callee == "once" {
        var (first, out) := OnceBegin(st.out, w.handle(args, env));
        if first {
          MoreFuel(w, prog, fuel, params, block, env, st.(out := out));
        }
      } else if callee != "raw" {
        var c := Find(prog, callee).value;
        var kid := if block.Nil? then None else Some(|st.kids|);
        var st' := if block.Nil? then st else st.(kids := st.kids + [Closure(block, params, data, env)]);
        MoreFuel(w, prog, fuel - 1, c.params, c.body, w.enter(c.params, args, env, kid), st');
      }
    case _ =>
  }

  lemma {:induction false} MoreFuelLoop<E, V>(w: World<E, V>, prog: seq<Component>, fuel: nat, params: string,
                                              body: Nodes,
                                              envs: seq<E>, st: St<Closure<E>>)
    requires RunLoop(w, prog, fuel, params, body, envs, st).Some?
    ensures RunLoop(w, prog, fuel + 1, params, body, envs, st) == RunLoop(w, prog, fuel, params, body, envs, st)
    decreases fuel, body, 2 + |envs|
  {
    if envs != [] {
      MoreFuel(w, prog, fuel, params, body, envs[0], st);
      MoreFuelLoop(w, prog, fuel, params, body, envs[1..], RunNodes(w, prog, fuel, params, body, envs[0], st).value);
    }
  }
}
