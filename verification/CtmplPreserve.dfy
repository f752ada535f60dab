/** Compilation preserves meaning: the generated program writes what the template means. */
module CtmplPreserve {
  import opened Wrappers
  import opened TplRuntime
  import opened TplEscape
  import opened CtmplAst
  import opened CtmplLiteral
  import opened CtmplMeaning
  import opened CtmplTarget
  import opened CtmplEmit

  // ---- literals ----

  lemma {:induction false} NoNul(s: string)
    requires forall i :: 0 <= i < |s| ==> s[i] != '\0'
    ensures UpToNul(s) == s
  {
    if s != [] {
      NoNul(s[1..]);
      assert [s[0]] + s[1..] == s;
    }
  }

  /** A literal writes its source text. */
  lemma LiteralWrites(t: string)
    requires CleanText(t)
    ensures LiteralText(EmitText(t)) == t
  {
    LiteralReadsBack(t);
    NoNul(t);
  }

  lemma {:induction false} CutAtNul(s: string)
    ensures forall i :: 0 <= i < |UpToNul(s)| ==> UpToNul(s)[i] != '\0'
  {
    if s != [] && s[0] != '\0' {
      CutAtNul(s[1..]);
    }
  }

  /** Exactly the texts without NUL survive: tpl_lit measures its literal with strlen. */
  lemma LiteralWritesExactly(t: string)
    requires forall i :: 0 <= i < |t| ==> t[i] as int < 256
    ensures LiteralText(EmitText(t)) == t <==> '\0' !in t
  {
    LiteralReadsBack(t);
    CutAtNul(t);
    if '\0' !in t {
      NoNul(t);
    }
  }

  lemma PutTextTwice<K>(st: St<K>, a: string, b: string)
    ensures PutText(PutText(st, a), b) == PutText(st, a + b)
  {
    assert (st.out.data + a) + b == st.out.data + (a + b);
  }

  /** Merging text nodes: the merged literal stands for all of them. */
  lemma {:induction false} TextRun<E, V>(w: World<E, V>, prog: seq<Component>, fuel: nat, params: string, ns: Nodes,
                                         total: nat, env: E, st: St<Closure<E>>)
    requires ns.Cons? && ns.head.Text? && Clean(ns)
    ensures var (t, rest) := TakeText(ns, total);
            && CleanText(t) && Clean(rest)
            && RunNodes(w, prog, fuel, params, ns, env, st) ==
              RunNodes(w, prog, fuel, params, rest, env, PutText(st, t))
    decreases ns
  {
    var t := ns.head.text;
    var sum := total + |t|;
    assert RunNode(w, prog, fuel, params, ns.head, env, st) == Some(PutText(st, t));
    if sum <= LITERAL_MAX && ns.tail.Cons? && ns.tail.head.Text? {
      TextRun(w, prog, fuel, params, ns.tail, sum, env, PutText(st, t));
      PutTextTwice(st, t, TakeText(ns.tail, sum).0);
    }
  }

  lemma {:induction false} TextDefs(ns: Nodes, total: nat, params: string, base: nat)
    requires ns.Cons? && ns.head.Text?
    ensures NodesDefs(ns, params, base) == NodesDefs(TakeText(ns, total).1, params, base)
    decreases ns
  {
    var sum := total + |ns.head.text|;
    if sum <= LITERAL_MAX && ns.tail.Cons? && ns.tail.head.Text? {
      TextDefs(ns.tail, sum, params, base);
    }
  }

  // ---- linked programs ----

  /** The definitions ds are the ones found under their names. */
  ghost predicate Has(defs: seq<Def>, ds: seq<Def>) {
    forall d :: d in ds ==> Lookup(defs, d.name) == Some(d)
  }

  /** The component is found under its name, and so are its child functions. */
  ghost predicate LinkedAt(defs: seq<Def>, c: Component, base: nat) {
    && Clean(c.body)
    && Lookup(defs, ComponentName(c.name)) == Some(ComponentDef(c, base))
    && Has(defs, NodesDefs(c.body, c.params, base))
  }

  ghost predicate Linked(prog: seq<Component>, defs: seq<Def>) {
    forall i :: 0 <= i < |prog| ==> IsLinked(defs, prog[i])
  }

  ghost predicate IsLinked(defs: seq<Def>, c: Component) {
    exists base :: LinkedAt(defs, c, base)
  }

  lemma {:induction false} FindIsMember(prog: seq<Component>, name: string)
    ensures var c := Find(prog, name); c.Some? ==> c.value in prog && c.value.name == name
  {
    if prog != [] && prog[0].name != name {
      FindIsMember(prog[1..], name);
    }
  }

  // ---- the simulation relation ----

  /** A closure and the children struct made for it. */
  ghost predicate KidAt<E, V>(w: World<E, V>, defs: seq<Def>, c: Closure<E>, p: Passed<V>, base: nat) {
    var mode := ModeOf(c.params, c.data);
    && Clean(c.block)
    && Has(defs, BlockDefs(c.block, c.params, c.data, base))
    && Has(defs, NodesDefs(c.block, c.params, base))
    && p.fn == PassedName(mode, base + Count(c.block) + 1)
    && p.data == DataValue(w, PassedData(mode, c.data), c.env)
  }

  ghost predicate KidOk<E, V>(w: World<E, V>, defs: seq<Def>, c: Closure<E>, p: Passed<V>) {
    exists base :: KidAt(w, defs, c, p, base)
  }

  ghost predicate Related<E, V>(w: World<E, V>, defs: seq<Def>, s: St<Closure<E>>, t: St<Passed<V>>) {
    && s.out == t.out
    && |s.kids| == |t.kids|
    && forall i :: 0 <= i < |s.kids| ==> KidOk(w, defs, s.kids[i], t.kids[i])
  }

  /** The target ends like the source, when the source ends. */
  ghost predicate Agree<E, V>(w: World<E, V>, defs: seq<Def>, s: Option<St<Closure<E>>>, t: Option<St<Passed<V>>>) {
    s.Some? ==> t.Some? && Related(w, defs, s.value, t.value)
  }

  /** Calling a passed function runs its block in the block's scope. */
  lemma PassedRuns<E, V>(w: World<E, V>, defs: seq<Def>, fuel: nat, c: Closure<E>, p: Passed<V>, base: nat,
                         st: St<Passed<V>>)
    requires KidAt(w, defs, c, p, base)
    ensures RunPassed(w, defs, fuel, p, st) ==
            RunStmts(w, defs, fuel, EmitNodes(c.block, c.params, base), BlockScope(w, c), st)
  {
    var ds := BlockDefs(c.block, c.params, c.data, base);
    hide EmitNodes, Count, NodesDefs, RunStmts, Lookup, Clean;
    assert ds[0] in ds;
    if ModeOf(c.params, c.data) != Untyped {
      assert ds[1] in ds;
    }
  }

  lemma RelatedPush<E, V>(w: World<E, V>, defs: seq<Def>, s: St<Closure<E>>, t: St<Passed<V>>, c: Closure<E>,
                          p: Passed<V>, base: nat)
    requires Related(w, defs, s, t) && KidAt(w, defs, c, p, base)
    ensures Related(w, defs, s.(kids := s.kids + [c]), t.(kids := t.kids + [p]))
  {
    assert KidOk(w, defs, c, p);
    hide KidAt, KidOk;
  }

  // ---- the simulation ----

  lemma {:induction false} SimNodes<E, V>(w: World<E, V>, prog: seq<Component>, defs: seq<Def>, fuel: nat,
                                          params: string,
                                          ns: Nodes, base: nat, env: E, s: St<Closure<E>>, t: St<Passed<V>>)
    requires Linked(prog, defs) && Clean(ns) && Has(defs, NodesDefs(ns, params, base)) && Related(w, defs, s, t)
    ensures Agree(w, defs, RunNodes(w, prog, fuel, params, ns, env, s),
                  RunStmts(w, defs, fuel, EmitNodes(ns, params, base), env, t))
    decreases fuel, ns, 1
  {
    hide Linked, Related, TakeText, Has, RunNode, RunStmt, EmitNode, PutText, CleanText, LiteralText, EmitText;
    match ns
    case Nil =>
    case Cons(Text(_), _) =>
      var (text, rest) := TakeText(ns, 0);
      TextStep(w, prog, defs, fuel, params, ns, base, env, s, t);
      hide NodesDefs, RunStmts, RunNodes, EmitNodes, Clean;
      SimNodes(w, prog, defs, fuel, params, rest, base, env, PutText(s, text), PutText(t, text));
    case Cons(n, tail) =>
      HasParts(defs, NodeDefs(n, params, base), NodesDefs(tail, params, base + CountNode(n)));
      SimNode(w, prog, defs, fuel, params, n, base, env, s, t);
      var s' := RunNode(w, prog, fuel, params, n, env, s);
      var t' := RunStmt(w, defs, fuel, EmitNode(n, params, base), env, t);
      if s'.Some? {
        SimNodes(w, prog, defs, fuel, params, tail, base + CountNode(n), env, s'.value, t'.value);
      }
  }

  /** The text nodes in front of ns and the literal made of them write the same. */
  lemma TextStep<E, V>(w: World<E, V>, prog: seq<Component>, defs: seq<Def>, fuel: nat, params: string, ns: Nodes,
                       base: nat, env: E, s: St<Closure<E>>, t: St<Passed<V>>)
    requires ns.Cons? && ns.head.Text? && Clean(ns) && Related(w, defs, s, t)
    ensures var (text, rest) := TakeText(ns, 0);
            && Clean(rest) && NodesDefs(ns, params, base) == NodesDefs(rest, params, base)
            && Related(w, defs, PutText(s, text), PutText(t, text))
            && RunNodes(w, prog, fuel, params, ns, env, s) ==
              RunNodes(w, prog, fuel, params, rest, env, PutText(s, text))
            && RunStmts(w, defs, fuel, EmitNodes(ns, params, base), env, t) ==
               RunStmts(w, defs, fuel, EmitNodes(rest, params, base), env, PutText(t, text))
  {
    hide Related, TakeText, RunNode, RunStmt, EmitNode, PutText, CleanText, LiteralText, EmitText;
    var (text, rest) := TakeText(ns, 0);
    TextRun(w, prog, fuel, params, ns, 0, env, s);
    TextDefs(ns, 0, params, base);
    PutRelated(w, defs, s, t, text);
    assert EmitNodes(ns, params, base) == Then(WriteLiteral(EmitText(text)), EmitNodes(rest, params, base));
    hide NodesDefs, RunNodes, EmitNodes, Clean, RunStmts;
    LiteralFirst(w, defs, fuel, text, EmitNodes(rest, params, base), env, t);
  }

  lemma LiteralFirst<E, V>(w: World<E, V>, defs: seq<Def>, fuel: nat, text: string, next: Stmts, env: E,
                           t: St<Passed<V>>)
    requires CleanText(text)
    ensures RunStmts(w, defs, fuel, Then(WriteLiteral(EmitText(text)), next), env, t) ==
            RunStmts(w, defs, fuel, next, env, PutText(t, text))
  {
    LiteralWrites(text);
    assert RunStmt(w, defs, fuel, WriteLiteral(EmitText(text)), env, t) == Some(PutText(t, text));
  }

  lemma PutRelated<E, V>(w: World<E, V>, defs: seq<Def>, s: St<Closure<E>>, t: St<Passed<V>>, text: string)
    requires Related(w, defs, s, t)
    ensures Related(w, defs, PutText(s, text), PutText(t, text))
  {
    hide KidOk;
  }

  lemma OutRelated<E, V>(w: World<E, V>, defs: seq<Def>, s: St<Closure<E>>, t: St<Passed<V>>, out: Render)
    requires Related(w, defs, s, t)
    ensures Related(w, defs, s.(out := out), t.(out := out))
  {
    hide KidOk;
  }

  lemma {:induction false} SimNode<E, V>(w: World<E, V>, prog: seq<Component>, defs: seq<Def>, fuel: nat,
                                         params: string,
                                         n: Node, base: nat, env: E, s: St<Closure<E>>, t: St<Passed<V>>)
    requires Linked(prog, defs) && CleanNode(n) && Has(defs, NodeDefs(n, params, base)) && Related(w, defs, s, t)
    ensures Agree(w, defs, RunNode(w, prog, fuel, params, n, env, s),
                  RunStmt(w, defs, fuel, EmitNode(n, params, base), env, t))
    decreases fuel, n, 1
  {
    hide Related, Linked, Has, Lit, Escape, EmitText, LiteralText, FragBegin, FragEnd, OnceBegin, CleanText;
    match n
    case Text(text) =>
      LiteralWrites(text);
      PutRelated(w, defs, s, t, text);
    case Interp(e, ctx) =>
      PutRelated(w, defs, s, t, Escape(w.passed(Meant(ctx), e, env)));
    case Children =>
      SimChildren(w, prog, defs, fuel, params, n, env, s, t);
    case For(h, body) =>
      SimLoop(w, prog, defs, fuel, params, body, base, w.iterations(h, env), s, t);
    case If(c, yes, no) =>
      HasParts(defs, NodesDefs(no, params, base), NodesDefs(yes, params, base + Count(no)));
      if w.truth(c, env) {
        SimNodes(w, prog, defs, fuel, params, yes, base + Count(no), env, s, t);
      } else {
        SimElse(w, prog, defs, fuel, params, no, base, env, s, t);
      }
    case Call(callee, _, _, _) =>
      if IsBuiltin(callee) {
        SimBuiltin(w, prog, defs, fuel, params, n, base, env, s, t);
      } else {
        SimCall(w, prog, defs, fuel, params, n, base, env, s, t);
      }
  }

  /** Raw output, fragments and once blocks expand in place. */
  lemma {:induction false} SimBuiltin<E, V>(w: World<E, V>, prog: seq<Component>, defs: seq<Def>, fuel: nat,
                                            params: string,
                                            n: Node, base: nat, env: E, s: St<Closure<E>>, t: St<Passed<V>>)
    requires Linked(prog, defs) && CleanNode(n) && Has(defs, NodeDefs(n, params, base)) && Related(w, defs, s, t)
    requires n.Call? && IsBuiltin(n.callee)
    ensures Agree(w, defs, RunNode(w, prog, fuel, params, n, env, s),
                  RunStmt(w, defs, fuel, EmitNode(n, params, base), env, t))
    decreases fuel, n, 0
  {
    hide Related, Linked, Has, Lit, FragBegin, FragEnd, OnceBegin, PutText;
    var Call(callee, args, data, block) := n;
    assert s.out == t.out by { RelatedOut(w, defs, s, t); }
    if callee == "raw" {
      PutRelated(w, defs, s, t, w.str(args, env));
    } else {
      HasParts(defs, NodesDefs(block, params, base), []);
      var out := if callee == "fragment" then FragBegin(s.out, Some(w.str(args, env)))
                 else OnceBegin(s.out, w.handle(args, env)).1;
      OutRelated(w, defs, s, t, out);
      SimNodes(w, prog, defs, fuel, params, block, base, env, s.(out := out), t.(out := out));
      var s' := RunNodes(w, prog, fuel, params, block, env, s.(out := out));
      var t' := RunStmts(w, defs, fuel, EmitNodes(block, params, base), env, t.(out := out));
      if s'.Some? {
        RelatedOut(w, defs, s'.value, t'.value);
        OutRelated(w, defs, s'.value, t'.value, FragEnd(s'.value.out));
      }
    }
  }

  lemma RelatedOut<E, V>(w: World<E, V>, defs: seq<Def>, s: St<Closure<E>>, t: St<Passed<V>>)
    requires Related(w, defs, s, t)
    ensures s.out == t.out && |s.kids| == |t.kids|
  {
    hide KidOk;
  }

  /** A flattened else-if chain takes the branch the nested ifs take. */
  lemma {:induction false} SimElse<E, V>(w: World<E, V>, prog: seq<Component>, defs: seq<Def>, fuel: nat,
                                         params: string,
                                         no: Nodes, base: nat, env: E, s: St<Closure<E>>, t: St<Passed<V>>)
    requires Linked(prog, defs) && Clean(no) && Has(defs, NodesDefs(no, params, base)) && Related(w, defs, s, t)
    ensures Agree(w, defs, RunNodes(w, prog, fuel, params, no, env, s),
                  RunClauses(w, defs, fuel, EmitElse(no, params, base), env, t))
    decreases fuel, no, 2
  {
    hide Linked, Related, Has;
    match no
    case Cons(If(c, yes, no'), Nil) =>
      HasParts(defs, NodeDefs(no.head, params, base), []);
      HasParts(defs, NodesDefs(no', params, base), NodesDefs(yes, params, base + Count(no')));
      assert RunNodes(w, prog, fuel, params, no, env, s) ==
             RunNodes(w, prog, fuel, params, if w.truth(c, env) then yes else no', env, s) by {
        SingleNode(w, prog, fuel, params, no.head, env, s);
      }
      if w.truth(c, env) {
        SimNodes(w, prog, defs, fuel, params, yes, base + Count(no'), env, s, t);
      } else {
        SimElse(w, prog, defs, fuel, params, no', base, env, s, t);
      }
    case _ =>
      SimNodes(w, prog, defs, fuel, params, no, base, env, s, t);
  }

  lemma SingleNode<E, V>(w: World<E, V>, prog: seq<Component>, fuel: nat, params: string, n: Node, env: E,
                         s: St<Closure<E>>)
    ensures RunNodes(w, prog, fuel, params, Cons(n, Nil), env, s) == RunNode(w, prog, fuel, params, n, env, s)
  {
    match RunNode(w, prog, fuel, params, n, env, s)
    case None =>
    case Some(s') => assert RunNodes(w, prog, fuel, params, Nil, env, s') == Some(s');
  }

  lemma HasParts(defs: seq<Def>, a: seq<Def>, b: seq<Def>)
    ensures Has(defs, a + b) <==> Has(defs, a) && Has(defs, b)
  {
    if Has(defs, a + b) {
      forall d | d in a
        ensures Lookup(defs, d.name) == Some(d)
      {
        assert d in a + b;
      }
      forall d | d in b
        ensures Lookup(defs, d.name) == Some(d)
      {
        assert d in a + b;
      }
    }
  }

  lemma {:induction false} SimLoop<E, V>(w: World<E, V>, prog: seq<Component>, defs: seq<Def>, fuel: nat,
                                         params: string,
                                         body: Nodes, base: nat, envs: seq<E>, s: St<Closure<E>>, t: St<Passed<V>>)
    requires Linked(prog, defs) && Clean(body) && Has(defs, NodesDefs(body, params, base)) && Related(w, defs, s, t)
    ensures Agree(w, defs, RunLoop(w, prog, fuel, params, body, envs, s),
                  RunIterations(w, defs, fuel, EmitNodes(body, params, base), envs, t))
    decreases fuel, body, 2 + |envs|
  {
    hide Linked, Related, Has;
    if envs != [] {
      SimNodes(w, prog, defs, fuel, params, body, base, envs[0], s, t);
      var s' := RunNodes(w, prog, fuel, params, body, envs[0], s);
      var t' := RunStmts(w, defs, fuel, EmitNodes(body, params, base), envs[0], t);
      if s'.Some? {
        SimLoop(w, prog, defs, fuel, params, body, base, envs[1..], s'.value, t'.value);
      }
    }
  }

  /** Rendering the children in scope: the closure on one side, the passed function on the other. */
  lemma {:induction false} SimChildren<E, V>(w: World<E, V>, prog: seq<Component>, defs: seq<Def>, fuel: nat,
                                             params: string,
                                             n: Node, env: E, s: St<Closure<E>>, t: St<Passed<V>>)
    requires Linked(prog, defs) && Related(w, defs, s, t) && n.Children?
    ensures Agree(w, defs, RunNode(w, prog, fuel, params, n, env, s), RunStmt(w, defs, fuel, InvokeChildren, env, t))
    decreases fuel, n, 0
  {
    hide Linked, Has, BlockScope, RunPassed;
    var h := w.children(env);
    if h.Some? && fuel > 0 && h.value < |s.kids| {
      var c, p := s.kids[h.value], t.kids[h.value];
      assert KidOk(w, defs, c, p);
      var base :| KidAt(w, defs, c, p, base);
      hide Related;
      PassedRuns(w, defs, fuel - 1, c, p, base, t);
      SimNodes(w, prog, defs, fuel - 1, c.params, c.block, base, BlockScope(w, c), s, t);
    }
  }

  /** A component call, with or without a child block. */
  lemma {:induction false} SimCall<E, V>(w: World<E, V>, prog: seq<Component>, defs: seq<Def>, fuel: nat,
                                         params: string,
                                         n: Node, base: nat, env: E, s: St<Closure<E>>, t: St<Passed<V>>)
    requires Linked(prog, defs) && CleanNode(n) && Has(defs, NodeDefs(n, params, base)) && Related(w, defs, s, t)
    requires n.Call? && !IsBuiltin(n.callee)
    ensures Agree(w, defs, RunNode(w, prog, fuel, params, n, env, s),
                  RunStmt(w, defs, fuel, EmitNode(n, params, base), env, t))
    decreases fuel, n, 0
  {
    hide Related, KidAt, Has, Clean, Count, NodesDefs, BlockDefs, ModeOf, PassedName;
    var Call(callee, args, data, block) := n;
    var found := Find(prog, callee);
    if fuel > 0 && found.Some? {
      var c := found.value;
      FindIsMember(prog, callee);
      assert IsLinked(defs, c);
      var at :| LinkedAt(defs, c, at);
      if block.Nil? {
        SimNodes(w, prog, defs, fuel - 1, c.params, c.body, at, w.enter(c.params, args, env, None), s, t);
      } else {
        var kid := Closure(block, params, data, env);
        var mode := ModeOf(params, data);
        var p := Passed(PassedName(mode, base + Count(block) + 1), DataValue(w, PassedData(mode, data), env));
        KidPassed(w, defs, n, params, base, env);
        RelatedPush(w, defs, s, t, kid, p, base);
        RelatedOut(w, defs, s, t);
        SimNodes(w, prog, defs, fuel - 1, c.params, c.body, at, w.enter(c.params, args, env, Some(|s.kids|)),
                 s.(kids := s.kids + [kid]), t.(kids := t.kids + [p]));
      }
    }
  }

  /** The children struct built at a call site stands for the closure passed there. */
  lemma KidPassed<E, V>(w: World<E, V>, defs: seq<Def>, n: Node, params: string, base: nat, env: E)
    requires n.Call? && !IsBuiltin(n.callee) && n.block.Cons? && CleanNode(n) && Has(defs, NodeDefs(n, params, base))
    ensures var mode := ModeOf(params, n.data);
            KidAt(w, defs, Closure(n.block, params, n.data, env),
                  Passed(PassedName(mode, base + Count(n.block) + 1), DataValue(w, PassedData(mode, n.data), env)),
                    base)
  {
    HasParts(defs, NodesDefs(n.block, params, base), BlockDefs(n.block, params, n.data, base));
    hide Has, Count, NodesDefs, BlockDefs, ModeOf, Clean;
  }

  // ---- the main result ----

  /**
   * For every program whose generated functions link, every component, scope, render state and
   * call depth: when the template has a meaning, the generated component function writes it.
   */
  lemma CompiledWritesMeaning<E, V>(w: World<E, V>, prog: seq<Component>, defs: seq<Def>, fuel: nat, name: string,
                                    args: string, env: E, out: Render)
    requires Linked(prog, defs)
    ensures var s := RunCall(w, prog, fuel + 1, "", name, args, None, Nil, env, St(out, []));
            var t := RunFunction(w, defs, fuel, ComponentName(name), args, None, env, St(out, []));
            s.Some? ==> t.Some? && t.value.out == s.value.out
  {
    var found := Find(prog, name);
    if found.Some? {
      var c := found.value;
      FindIsMember(prog, name);
      assert IsLinked(defs, c);
      var at :| LinkedAt(defs, c, at);
      hide Find, NodesDefs, EmitNodes;
      SimNodes(w, prog, defs, fuel, c.params, c.body, at, w.enter(c.params, args, env, None), St(out, []), St(out, []));
    }
  }
}
