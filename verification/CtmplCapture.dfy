/**
 * When a child block captures the parameter of its component, in terms of the declarations the
 * parameter list is made of, and that generated adapters call their functions with the right number
 * of arguments.
 */
module CtmplCapture {
  import opened Wrappers
  import opened Chars
  import opened CtmplAst
  import opened CtmplCode
  import opened CtmplTarget
  import opened CtmplEmit

  // ---- declarations as C texts ----

  /** A parameter list: declarations with commas between them. */
  function PrintList(ds: seq<CText>): string {
    if ds == [] then "" else if |ds| == 1 then Print(ds[0]) else Print(ds[0]) + ("," + PrintList(ds[1..]))
  }

  predicate Declarations(ds: seq<CText>) {
    forall i :: 0 <= i < |ds| ==> Proper(ds[i]) && NoComments(ds[i]) && Flat(ds[i]) && Print(ds[i]) != ""
  }

  /** The list ends in a name behind white space, behind a star, or on its own. */
  ghost predicate EndsInName(params: string, name: string) {
    exists k, e :: 0 <= k < e <= |params| && params[k..e] == name && AllSpace(params[e..]) &&
      (forall i :: k <= i < e ==> IsIdentChar(params[i])) &&
      (k == 0 || IsSpace(params[k - 1]) || params[k - 1] == '*')
  }

  // ---- counting commas ----

  lemma {:induction false} BodyCommas(quote: char, qs: seq<QuotedChar>, tail: string, depth: int)
    requires quote in {'"', '\''} && ProperBody(quote, qs)
    ensures Commas(PrintBody(qs) + ([quote] + tail), depth, quote) == Commas(tail, depth, '\0')
    decreases |qs|
  {
    var s := PrintBody(qs) + ([quote] + tail);
    if qs == [] {
      assert s == [quote] + tail && s[1..] == tail;
    } else {
      var more := PrintBody(qs[1..]) + ([quote] + tail);
      assert ProperBody(quote, qs[1..]);
      BodyCommas(quote, qs[1..], tail, depth);
      if qs[0].AsIs? {
        assert s == [qs[0].c] + more && s[1..] == more;
      } else {
        assert s == ['\\', qs[0].c] + more && s[2..] == more;
      }
    }
  }

  /** One character that is not in a literal. */
  lemma CharCommas(c: char, t: string, depth: int)
    ensures Commas([c] + t, depth, '\0') ==
            if c in {'"', '\''} then Commas(t, depth, c)
            else if c in {'(', '[', '{'} then Commas(t, depth + 1, '\0')
            else if c in {')', ']', '}'} then Commas(t, depth - 1, '\0')
            else (if c == ',' && depth == 0 then 1 else 0) + Commas(t, depth, '\0')
  {
    assert ([c] + t)[1..] == t;
  }

  lemma {:induction false} TextCommas(t: CText, tail: string, depth: nat)
    requires Proper(t) && NoComments(t) && (depth == 0 ==> Flat(t))
    ensures Commas(Print(t) + tail, depth, '\0') == Commas(tail, depth, '\0')
    decreases t, 1
  {
    hide Commas;
    match t
    case Nothing => assert Print(t) + tail == tail;
    case Char(c, rest) =>
      TextCommas(rest, tail, depth);
      CharCommas(c, Print(rest) + tail, depth);
      assert Print(t) + tail == [c] + (Print(rest) + tail);
    case Group(open, inner, rest) => GroupCommas(open, inner, rest, tail, depth);
    case Quoted(quote, body, rest) =>
      var behind := Print(rest) + tail;
      TextCommas(rest, tail, depth);
      hide Print;
      BodyCommas(quote, body, behind, depth);
      CharCommas(quote, PrintBody(body) + ([quote] + behind), depth);
      QuotedPrints(quote, body, rest, tail);
  }

  lemma QuotedPrints(quote: char, body: seq<QuotedChar>, rest: CText, tail: string)
    ensures Print(Quoted(quote, body, rest)) + tail ==
            [quote] + (PrintBody(body) + ([quote] + (Print(rest) + tail)))
  {
    hide PrintBody;
  }

  lemma {:induction false} GroupCommas(open: char, inner: CText, rest: CText, tail: string, depth: nat)
    requires var t := Group(open, inner, rest); Proper(t) && NoComments(t) && (depth == 0 ==> Flat(t))
    ensures Commas(Print(Group(open, inner, rest)) + tail, depth, '\0') == Commas(tail, depth, '\0')
    decreases Group(open, inner, rest), 0
  {
    hide Commas;
    var behind := [Closing(open)] + (Print(rest) + tail);
    TextCommas(rest, tail, depth);
    TextCommas(inner, behind, depth + 1);
    CharCommas(open, Print(inner) + behind, depth);
    CharCommas(Closing(open), Print(rest) + tail, depth + 1);
    assert Print(Group(open, inner, rest)) + tail == [open] + (Print(inner) + behind);
  }

  /** One comma fewer than declarations. */
  lemma {:induction false} ListCommas(ds: seq<CText>)
    requires Declarations(ds) && ds != []
    ensures Commas(PrintList(ds), 0, '\0') == |ds| - 1
  {
    hide Proper, Print, NoComments, Flat;
    if |ds| == 1 {
      TextCommas(ds[0], "", 0);
      assert Print(ds[0]) + "" == Print(ds[0]);
    } else {
      var tail := "," + PrintList(ds[1..]);
      TextCommas(ds[0], tail, 0);
      assert tail[1..] == PrintList(ds[1..]);
      ListCommas(ds[1..]);
    }
  }

  // ---- names ----

  lemma {:induction false} TrimmedEnd(s: string, e: nat)
    requires e <= |s| && AllSpace(s[e..]) && (e > 0 ==> !IsSpace(s[e - 1]))
    ensures TrimRight(s) == s[..e]
    decreases |s|
  {
    if e < |s| {
      assert IsSpace(s[|s| - 1]) by { assert s[e..][|s| - 1 - e] == s[|s| - 1]; }
      var t := s[..|s| - 1];
      assert t[e..] == s[e..][..|s| - 1 - e] && t[..e] == s[..e];
      TrimmedEnd(t, e);
    } else {
      assert s[..e] == s;
    }
  }

  lemma {:induction false} IdentRun(s: string, k: nat)
    requires k <= |s| && (forall i :: k <= i < |s| ==> IsIdentChar(s[i])) && (k > 0 ==> !IsIdentChar(s[k - 1]))
    ensures BeforeIdent(s) == k
    decreases |s|
  {
    if k < |s| {
      IdentRun(s[..|s| - 1], k);
    }
  }

  lemma {:induction false} BeforeIdentRun(s: string)
    ensures forall i :: BeforeIdent(s) <= i < |s| ==> IsIdentChar(s[i])
    decreases |s|
  {
    if s != [] && IsIdentChar(s[|s| - 1]) {
      BeforeIdentRun(s[..|s| - 1]);
    }
  }

  /** The name found in a single declaration is the one it ends in. */
  lemma NameExactly(params: string, name: string)
    ensures ParamName(params) == Some(name) <==> EndsInName(params, name)
  {
    if EndsInName(params, name) {
      var k, e :| 0 <= k < e <= |params| && params[k..e] == name && AllSpace(params[e..]) &&
        (forall i :: k <= i < e ==> IsIdentChar(params[i])) &&
        (k == 0 || IsSpace(params[k - 1]) || params[k - 1] == '*');
      NameFound(params, k, e);
    }
    if ParamName(params) == Some(name) {
      FoundName(params, name);
    }
  }

  lemma NameFound(params: string, k: nat, e: nat)
    requires k < e <= |params| && AllSpace(params[e..]) && (forall i :: k <= i < e ==> IsIdentChar(params[i]))
    requires k == 0 || IsSpace(params[k - 1]) || params[k - 1] == '*'
    ensures ParamName(params) == Some(params[k..e])
  {
    IdentIsNoSpace(params[e - 1]);
    TrimmedEnd(params, e);
    if k > 0 {
      SpaceIsNoIdent(params[k - 1]);
    }
    IdentRun(params[..e], k);
    assert params[..e][k..] == params[k..e];
    hide IsSpace, IsIdentChar;
  }

  lemma FoundName(params: string, name: string)
    requires ParamName(params) == Some(name)
    ensures EndsInName(params, name)
  {
    var s := TrimRight(params);
    RightTrimmed(params);
    BeforeIdentRun(s);
    hide IsSpace, IsIdentChar, AllSpace, TrimRight, BeforeIdent;
    var k := BeforeIdent(s);
    assert params[k..|s|] == name;
    assert EndsInName(params, name);
  }

  lemma IdentIsNoSpace(c: char)
    ensures IsIdentChar(c) ==> !IsSpace(c)
  {
  }

  lemma SpaceIsNoIdent(c: char)
    ensures IsSpace(c) || c == '*' ==> !IsIdentChar(c)
  {
  }

  // ---- how blocks are generated ----

  /** What is generated for a block: its functions, and the call that passes it. */
  ghost predicate Generates(block: Nodes, params: string, data: Option<string>, base: nat, defs: seq<Def>, fn: string,
                      pointer: DataExpr)
  {
    BlockDefs(block, params, data, base) == defs &&
    forall callee: string, args: string :: block.Cons? && !IsBuiltin(callee) ==>
      EmitNode(Call(callee, args, data, block), params, base) ==
      InvokeWith(ComponentName(callee), args, fn, pointer)
  }

  /**
   * For every parameter list: a block that is given data, or whose component has two declarations or
   * more, or one that does not end in a name, takes tpl_data and nothing else; without declarations
   * it takes nothing; with one declaration that ends in a name it takes that parameter, and the call
   * passes it. An adapter stands in front of the last two.
   */
  lemma CaptureExactly(ds: seq<CText>, data: Option<string>, block: Nodes, base: nat)
    requires Declarations(ds)
    ensures var params, id, code := PrintList(ds), base + Count(block) + 1, Code(EmitNodes(block, PrintList(ds), base));
            var fn, adapter := BlockName(id), AdapterName(id);
            && (data.Some? ==>
                  Generates(block, params, data, base, [Def(fn, DataPointer, code)], fn, PointerTo(data.value)))
            && (data.None? && (ds == [] || params == "void") ==>
                  Generates(block, params, data, base,
                            [Def(fn, Bare, code), Def(adapter, DataPointer, Forward(fn, false))], adapter, NullPointer))
            && (data.None? && |ds| == 1 && params != "void" ==>
                  forall name :: EndsInName(params, name) ==>
                    Generates(block, params, data, base,
                              [Def(fn, Params(params), code), Def(adapter, DataPointer, Forward(fn, true))], adapter,
                              Captured(name)))
            && (data.None? && ds != [] && params != "void" &&
                (|ds| >= 2 || forall name :: !EndsInName(params, name)) ==>
                  Generates(block, params, data, base, [Def(fn, DataPointer, code)], fn, NullPointer))
  {
    var params := PrintList(ds);
    ModeExactly(ds);
    if data.Some? {
      var e := data.value;
      assert ModeOf(params, Some(e)) == Untyped;
    }
    ModeGenerates(block, params, data, base);
    hide *;
    if data.None? && |ds| == 1 && params != "void" {
      forall name | EndsInName(params, name)
        ensures ModeOf(params, None) == One(name)
      {
      }
    }
  }

  /** What is generated in each of the three ways. */
  lemma ModeGenerates(block: Nodes, params: string, data: Option<string>, base: nat)
    ensures var id, code := base + Count(block) + 1, Code(EmitNodes(block, params, base));
            var fn, adapter, mode := BlockName(id), AdapterName(id), ModeOf(params, data);
            && (mode == Untyped ==>
                  Generates(block, params, data, base, [Def(fn, DataPointer, code)], fn,
                            if data.Some? then PointerTo(data.value) else NullPointer))
            && (mode == Void0 ==>
                  Generates(block, params, data, base,
                            [Def(fn, Bare, code), Def(adapter, DataPointer, Forward(fn, false))], adapter, NullPointer))
            && (forall name :: mode == One(name) ==>
                  Generates(block, params, data, base,
                            [Def(fn, Params(params), code), Def(adapter, DataPointer, Forward(fn, true))], adapter,
                            Captured(name)))
  {
    hide ModeOf, EmitNodes, Count, BlockName, AdapterName;
  }

  lemma ModeExactly(ds: seq<CText>)
    requires Declarations(ds)
    ensures var params := PrintList(ds);
            && (ds == [] || params == "void" <==> ModeOf(params, None) == Void0)
            && (forall name :: ModeOf(params, None) == One(name) <==>
                  |ds| == 1 && params != "void" && EndsInName(params, name))
    ensures forall e: string :: ModeOf(PrintList(ds), Some(e)) == Untyped
  {
    var params := PrintList(ds);
    if ds != [] {
      ListCommas(ds);
      ListNotEmpty(ds);
      forall name
        ensures ParamName(params) == Some(name) <==> EndsInName(params, name)
      {
        NameExactly(params, name);
      }
    }
    hide PrintList, Commas, ParamName, EndsInName, Declarations;
  }

  lemma ListNotEmpty(ds: seq<CText>)
    requires Declarations(ds) && ds != []
    ensures PrintList(ds) != ""
  {
    hide Proper, NoComments, Flat;
  }

  // ---- the adapters ----

  /** How many parameters besides `out` a function has. */
  ghost predicate Takes(sig: Signature, n: nat) {
    match sig
    case Bare => n == 0
    case DataPointer => n == 1
    case Params(params) => exists ds :: IsList(ds, params) && |ds| == n
  }

  predicate IsList(ds: seq<CText>, params: string) {
    Declarations(ds) && params == PrintList(ds)
  }

  /** A parameter list is made of one number of declarations only. */
  lemma OneLength(ds: seq<CText>, es: seq<CText>)
    requires Declarations(ds) && Declarations(es) && PrintList(ds) == PrintList(es)
    ensures |ds| == |es|
  {
    hide Proper, Print, NoComments, Flat;
    if ds != [] {
      ListCommas(ds);
      ListNotEmpty(ds);
    }
    if es != [] {
      ListCommas(es);
      ListNotEmpty(es);
    }
  }

  /** Where an adapter stands, its function stands before it and takes what the adapter passes. */
  ghost predicate ForwardsFit(defs: seq<Def>) {
    forall i :: 0 <= i < |defs| && defs[i].body.Forward? ==>
      0 < i && defs[i - 1].name == defs[i].body.fn && Takes(defs[i - 1].sig, if defs[i].body.passData then 1 else 0)
  }

  lemma FitJoined(a: seq<Def>, b: seq<Def>)
    requires ForwardsFit(a) && ForwardsFit(b)
    ensures ForwardsFit(a + b)
  {
    hide Takes;
    var c := a + b;
    forall i | 0 <= i < |c| && c[i].body.Forward?
      ensures 0 < i && c[i - 1].name == c[i].body.fn && Takes(c[i - 1].sig, if c[i].body.passData then 1 else 0)
    {
      if i >= |a| {
        assert c[i] == b[i - |a|];
        assert c[i - 1] == b[i - |a| - 1];
      }
    }
  }

  lemma BlockFits(block: Nodes, ds: seq<CText>, data: Option<string>, base: nat)
    requires Declarations(ds)
    ensures ForwardsFit(BlockDefs(block, PrintList(ds), data, base))
  {
    var params := PrintList(ds);
    ModeExactly(ds);
    assert |ds| == 1 ==> Takes(Params(params), 1) by {
      assert IsList(ds, params);
    }
    assert data.Some? ==> ModeOf(params, Some(data.value)) == Untyped;
    hide PrintList, Declarations, EndsInName, IsList, ModeOf, EmitNodes, BlockName, AdapterName, Count;
  }

  lemma {:induction false} NodesFit(ns: Nodes, ds: seq<CText>, base: nat)
    requires Declarations(ds)
    ensures ForwardsFit(NodesDefs(ns, PrintList(ds), base))
    decreases ns, 1
  {
    hide ForwardsFit, Declarations, PrintList, NodeDefs;
    match ns
    case Nil => NoneFit();
    case Cons(n, tail) =>
      NodeFits(n, ds, base);
      NodesFit(tail, ds, base + CountNode(n));
      FitJoined(NodeDefs(n, PrintList(ds), base), NodesDefs(tail, PrintList(ds), base + CountNode(n)));
  }

  lemma NoneFit()
    ensures ForwardsFit([])
  {
  }

  lemma {:induction false} NodeFits(n: Node, ds: seq<CText>, base: nat)
    requires Declarations(ds)
    ensures ForwardsFit(NodeDefs(n, PrintList(ds), base))
    decreases n, 0
  {
    hide ForwardsFit, Declarations, PrintList, BlockDefs;
    NoneFit();
    match n
    case Call(callee, _, data, block) =>
      NodesFit(block, ds, base);
      BlockFits(block, ds, data, base);
      FitJoined(NodesDefs(block, PrintList(ds), base),
        if block.Cons? && !IsBuiltin(callee) then BlockDefs(block, PrintList(ds), data, base) else []);
    case If(_, yes, no) =>
      NodesFit(no, ds, base);
      NodesFit(yes, ds, base + Count(no));
      FitJoined(NodesDefs(no, PrintList(ds), base), NodesDefs(yes, PrintList(ds), base + Count(no)));
    case For(_, body) => NodesFit(body, ds, base);
    case _ =>
  }

  /** Every component's parameter list is made of declarations. */
  ghost predicate Listed(prog: seq<Component>) {
    forall i :: 0 <= i < |prog| ==> exists ds :: IsList(ds, prog[i].params)
  }

  /** In every compiled file each adapter stands behind its function and passes as many arguments as that takes. */
  lemma AdaptersFit(prog: seq<Component>)
    requires Listed(prog)
    ensures ForwardsFit(Compile(prog))
  {
    hide BlocksUpTo, ComponentsUpTo, ForwardsFit;
    BlocksFit(prog, |prog|);
    ComponentsFit(prog, |prog|);
    FitJoined(BlocksUpTo(prog, |prog|), ComponentsUpTo(prog, |prog|));
  }

  lemma {:induction false} BlocksFit(prog: seq<Component>, n: nat)
    requires Listed(prog) && n <= |prog|
    ensures ForwardsFit(BlocksUpTo(prog, n))
  {
    hide ForwardsFit, BaseOf, NodesDefs;
    if n == 0 {
      NoneFit();
    } else {
      BlocksFit(prog, n - 1);
      var c := prog[n - 1];
      var ds :| IsList(ds, c.params);
      NodesFit(c.body, ds, BaseOf(prog, n - 1));
      FitJoined(BlocksUpTo(prog, n - 1), NodesDefs(c.body, c.params, BaseOf(prog, n - 1)));
    }
  }

  lemma {:induction false} ComponentsFit(prog: seq<Component>, n: nat)
    requires n <= |prog|
    ensures ForwardsFit(ComponentsUpTo(prog, n))
  {
    hide BaseOf, EmitNodes, Takes;
    if n > 0 {
      ComponentsFit(prog, n - 1);
      FitJoined(ComponentsUpTo(prog, n - 1), [ComponentDef(prog[n - 1], BaseOf(prog, n - 1))]);
    }
  }
}
