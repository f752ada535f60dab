/** The order of generated functions: each one refers only to child functions written before it. */
module CtmplOrder {
  import opened Wrappers
  import opened CtmplAst
  import opened CtmplTarget
  import opened CtmplEmit
  import opened CtmplNames
  import P = CtmplPreserve

  /** The child functions that statements pass on. */
  function Refs(ss: Stmts): set<string>
    decreases ss
  {
    match ss
    case End => {}
    case Then(s, next) => RefsOf(s) + Refs(next)
  }

  function RefsOf(s: Stmt): set<string>
    decreases s
  {
    match s
    case InFragment(_, block) => Refs(block)
    case IfOnce(_, block) => Refs(block)
    case IfElse(clauses) => ClauseRefs(clauses)
    case Loop(_, block) => Refs(block)
    case InvokeWith(_, _, fn, _) => {fn}
    case _ => {}
  }

  function ClauseRefs(cs: Clauses): set<string>
    decreases cs
  {
    match cs
    case Else(rest) => Refs(rest)
    case Clause(_, block, more) => Refs(block) + ClauseRefs(more)
  }

  function BodyRefs(b: Body): set<string> {
    match b
    case Code(ss) => Refs(ss)
    case Forward(fn, _) => {fn}
  }

  /** Everything referred to comes earlier in the list. */
  ghost predicate EarlierOnly(ds: seq<Def>) {
    forall i, r :: 0 <= i < |ds| && r in BodyRefs(ds[i].body) ==> Named(ds[..i], r)
  }

  ghost predicate AllNamed(refs: set<string>, ds: seq<Def>) {
    forall r :: r in refs ==> Named(ds, r)
  }

  lemma AllNamedIn(refs: set<string>, a: seq<Def>, b: seq<Def>)
    requires AllNamed(refs, a) || AllNamed(refs, b)
    ensures AllNamed(refs, a + b)
  {
    hide Named;
    forall r | r in refs
      ensures Named(a + b, r)
    {
      NamedParts(a, b, r);
    }
  }

  lemma EarlierJoin(a: seq<Def>, b: seq<Def>)
    requires EarlierOnly(a)
    requires forall i, r :: 0 <= i < |b| && r in BodyRefs(b[i].body) ==> Named(a + b[..i], r)
    ensures EarlierOnly(a + b)
  {
    hide Named, BodyRefs;
    var s := a + b;
    forall i, r | 0 <= i < |s| && r in BodyRefs(s[i].body)
      ensures Named(s[..i], r)
    {
      if i < |a| {
        assert s[..i] == a[..i] && s[i] == a[i];
      } else {
        assert s[..i] == a + b[..i - |a|] && s[i] == b[i - |a|];
      }
    }
  }

  lemma EarlierAppend(a: seq<Def>, b: seq<Def>)
    requires EarlierOnly(a) && EarlierOnly(b)
    ensures EarlierOnly(a + b)
  {
    hide Named, BodyRefs;
    forall i, r | 0 <= i < |b| && r in BodyRefs(b[i].body)
      ensures Named(a + b[..i], r)
    {
      NamedParts(a, b[..i], r);
    }
    EarlierJoin(a, b);
  }

  /** The statements for ns pass on only the child functions of ns. */
  lemma {:induction false} NodesRefs(ns: Nodes, params: string, base: nat)
    ensures AllNamed(Refs(EmitNodes(ns, params, base)), NodesDefs(ns, params, base))
    decreases ns, 1
  {
    hide AllNamed, TakeText, EmitNode;
    match ns
    case Nil => NoRefs([]);
    case Cons(Text(_), _) =>
      var rest := TakeText(ns, 0).1;
      P.TextDefs(ns, 0, params, base);
      NodesRefs(rest, params, base);
      assert {} + Refs(EmitNodes(rest, params, base)) == Refs(EmitNodes(rest, params, base));
    case Cons(n, tail) =>
      var a, b := NodeDefs(n, params, base), NodesDefs(tail, params, base + CountNode(n));
      NodeRefs(n, params, base);
      NodesRefs(tail, params, base + CountNode(n));
      AllNamedIn(RefsOf(EmitNode(n, params, base)), a, b);
      AllNamedIn(Refs(EmitNodes(tail, params, base + CountNode(n))), a, b);
      JoinRefs(RefsOf(EmitNode(n, params, base)), Refs(EmitNodes(tail, params, base + CountNode(n))), a + b);
  }

  lemma NoRefs(ds: seq<Def>)
    ensures AllNamed({}, ds)
  {
  }

  lemma JoinRefs(a: set<string>, b: set<string>, ds: seq<Def>)
    requires AllNamed(a, ds) && AllNamed(b, ds)
    ensures AllNamed(a + b, ds)
  {
  }

  lemma {:induction false} NodeRefs(n: Node, params: string, base: nat)
    ensures AllNamed(RefsOf(EmitNode(n, params, base)), NodeDefs(n, params, base))
    decreases n, 0
  {
    hide AllNamed, Named, ModeOf, BlockDefs, EmitNodes;
    NoRefs(NodeDefs(n, params, base));
    match n
    case Call(callee, args, data, block) =>
      NodesRefs(block, params, base);
      if IsBuiltin(callee) {
        AllNamedIn(Refs(EmitNodes(block, params, base)), NodesDefs(block, params, base), []);
      } else if block.Cons? {
        PassedIsNamed(block, params, data, base);
        AllNamedIn({PassedName(ModeOf(params, data), base + Count(block) + 1)}, NodesDefs(block, params, base),
                   BlockDefs(block, params, data, base));
      }
    case If(c, yes, no) =>
      var a, b := NodesDefs(no, params, base), NodesDefs(yes, params, base + Count(no));
      NodesRefs(yes, params, base + Count(no));
      ElseRefs(no, params, base);
      AllNamedIn(Refs(EmitNodes(yes, params, base + Count(no))), a, b);
      AllNamedIn(ClauseRefs(EmitElse(no, params, base)), a, b);
      JoinRefs(Refs(EmitNodes(yes, params, base + Count(no))), ClauseRefs(EmitElse(no, params, base)), a + b);
    case For(_, body) => NodesRefs(body, params, base);
    case _ =>
  }

  lemma PassedIsNamed(block: Nodes, params: string, data: Option<string>, base: nat)
    ensures AllNamed({PassedName(ModeOf(params, data), base + Count(block) + 1)}, BlockDefs(block, params, data, base))
  {
    hide EmitNodes, Count, ModeOf, BlockName, AdapterName;
    var ds := BlockDefs(block, params, data, base);
    if ModeOf(params, data).Untyped? {
      assert ds[0].name == BlockName(base + Count(block) + 1);
    } else {
      assert ds[1].name == AdapterName(base + Count(block) + 1);
    }
  }

  lemma {:induction false} ElseRefs(no: Nodes, params: string, base: nat)
    ensures AllNamed(ClauseRefs(EmitElse(no, params, base)), NodesDefs(no, params, base))
    decreases no, 2
  {
    hide AllNamed, EmitNodes;
    match no
    case Cons(If(c, yes, no'), Nil) =>
      var a, b := NodesDefs(no', params, base), NodesDefs(yes, params, base + Count(no'));
      assert NodesDefs(no, params, base) == (a + b) + [] == a + b;
      NodesRefs(yes, params, base + Count(no'));
      ElseRefs(no', params, base);
      AllNamedIn(Refs(EmitNodes(yes, params, base + Count(no'))), a, b);
      AllNamedIn(ClauseRefs(EmitElse(no', params, base)), a, b);
      JoinRefs(Refs(EmitNodes(yes, params, base + Count(no'))), ClauseRefs(EmitElse(no', params, base)), a + b);
    case _ => NodesRefs(no, params, base);
  }

  lemma {:induction false} NodesEarlier(ns: Nodes, params: string, base: nat)
    ensures EarlierOnly(NodesDefs(ns, params, base))
    decreases ns, 1
  {
    hide EarlierOnly;
    match ns
    case Nil => EmptyEarlier();
    case Cons(n, tail) =>
      NodeEarlier(n, params, base);
      NodesEarlier(tail, params, base + CountNode(n));
      EarlierAppend(NodeDefs(n, params, base), NodesDefs(tail, params, base + CountNode(n)));
  }

  lemma EmptyEarlier()
    ensures EarlierOnly([])
  {
  }

  lemma {:induction false} NodeEarlier(n: Node, params: string, base: nat)
    ensures EarlierOnly(NodeDefs(n, params, base))
    decreases n, 0
  {
    hide EarlierOnly, BlockDefs;
    EmptyEarlier();
    match n
    case Call(callee, _, data, block) =>
      NodesEarlier(block, params, base);
      if block.Cons? && !IsBuiltin(callee) {
        BlockEarlier(block, params, data, base);
      } else {
        assert NodesDefs(block, params, base) + [] == NodesDefs(block, params, base);
      }
    case If(_, yes, no) =>
      NodesEarlier(no, params, base);
      NodesEarlier(yes, params, base + Count(no));
      EarlierAppend(NodesDefs(no, params, base), NodesDefs(yes, params, base + Count(no)));
    case For(_, body) => NodesEarlier(body, params, base);
    case _ =>
  }

  /** A block's function follows the functions of the blocks inside it, and its adapter follows it. */
  lemma BlockEarlier(block: Nodes, params: string, data: Option<string>, base: nat)
    requires EarlierOnly(NodesDefs(block, params, base))
    ensures EarlierOnly(NodesDefs(block, params, base) + BlockDefs(block, params, data, base))
  {
    var a, b := NodesDefs(block, params, base), BlockDefs(block, params, data, base);
    NodesRefs(block, params, base);
    hide EarlierOnly, EmitNodes, NodesDefs, Count, ModeOf, BlockName, AdapterName, Refs;
    forall i, r | 0 <= i < |b| && r in BodyRefs(b[i].body)
      ensures Named(a + b[..i], r)
    {
      if i == 0 {
        assert a + b[..0] == a;
      } else {
        assert (a + b[..1])[|a|] == b[0] && b[0].name == r;
      }
    }
    EarlierJoin(a, b);
  }

  lemma {:induction false} BlocksEarlier(prog: seq<Component>, i: nat)
    requires i <= |prog|
    ensures EarlierOnly(BlocksUpTo(prog, i))
  {
    hide EarlierOnly, NodesDefs;
    if i == 0 {
      EmptyEarlier();
    } else {
      BlocksEarlier(prog, i - 1);
      NodesEarlier(prog[i - 1].body, prog[i - 1].params, BaseOf(prog, i - 1));
      EarlierAppend(BlocksUpTo(prog, i - 1), NodesDefs(prog[i - 1].body, prog[i - 1].params, BaseOf(prog, i - 1)));
    }
  }

  lemma {:induction false} BlocksCover(prog: seq<Component>, i: nat, j: nat, r: string)
    requires j < i <= |prog| && Named(NodesDefs(prog[j].body, prog[j].params, BaseOf(prog, j)), r)
    ensures Named(BlocksUpTo(prog, i), r)
  {
    hide NodesDefs, BaseOf, Named;
    NamedParts(BlocksUpTo(prog, i - 1), NodesDefs(prog[i - 1].body, prog[i - 1].params, BaseOf(prog, i - 1)), r);
    if j < i - 1 {
      BlocksCover(prog, i - 1, j, r);
    }
  }

  /** In the whole file, every function refers only to child functions emitted before it. */
  lemma CompileEarlier(prog: seq<Component>)
    ensures EarlierOnly(Compile(prog))
  {
    var n := |prog|;
    var a, b := BlocksUpTo(prog, n), ComponentsUpTo(prog, n);
    BlocksEarlier(prog, n);
    ComponentsAt(prog, n);
    hide EarlierOnly, BlocksUpTo, ComponentsUpTo, BaseOf, Named, Refs;
    forall i, r | 0 <= i < |b| && r in BodyRefs(b[i].body)
      ensures Named(a + b[..i], r)
    {
      NodesRefs(prog[i].body, prog[i].params, BaseOf(prog, i));
      BlocksCover(prog, n, i, r);
      NamedParts(a, b[..i], r);
    }
    EarlierJoin(a, b);
  }
}
