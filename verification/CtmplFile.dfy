/** The whole generated file: when it builds, and that it then writes what the templates mean. */
module CtmplFile {
  import opened Wrappers
  import opened Chars
  import opened TplRuntime
  import opened CtmplAst
  import opened CtmplScan
  import opened CtmplGrammar
  import opened CtmplMeaning
  import opened CtmplTarget
  import opened CtmplEmit
  import opened CtmplPreserve
  import opened CtmplNames
  import opened CtmplScopes

  /** No name clashes, every name stands for what it should, and every copied text is complete. */
  ghost predicate Builds(c: Names, prog: seq<Component>) {
    NoClash(c.handles, prog) && DefsStand(c, Compile(prog))
  }

  /** Calls a component of the generated file, if that builds. */
  ghost function RunFile<E, V>(w: World<E, V>, c: Names, prog: seq<Component>, fuel: nat, name: string, args: string,
                               env: E, st: St<Passed<V>>): Option<St<Passed<V>>> {
    if Builds(c, prog) then RunFunction(w, Compile(prog), fuel, ComponentName(name), args, None, env, st) else None
  }

  /** What the template of component i has to keep. */
  ghost predicate ComponentStands(c: Names, prog: seq<Component>, i: nat)
    requires i < |prog|
  {
    SignatureStands(c, Params(prog[i].params)) &&
    NodesStand(c, prog[i].body, prog[i].params, BaseOf(prog, i), ScopeOf(c, Params(prog[i].params)))
  }

  lemma {:induction false} StandUpTo(c: Names, prog: seq<Component>, n: nat)
    requires n <= |prog|
    ensures DefsStand(c, BlocksUpTo(prog, n)) && DefsStand(c, ComponentsUpTo(prog, n)) <==>
            forall i :: 0 <= i < n ==> ComponentStands(c, prog, i)
  {
    hide BaseOf, NodesDefs, DefsStand, ComponentStands;
    if n == 0 {
      NoDefs(c);
    } else {
      var i := n - 1;
      StandUpTo(c, prog, i);
      DefsParts(c, BlocksUpTo(prog, i), NodesDefs(prog[i].body, prog[i].params, BaseOf(prog, i)));
      DefsParts(c, ComponentsUpTo(prog, i), [ComponentDef(prog[i], BaseOf(prog, i))]);
      ComponentExactly(c, prog, i);
    }
  }

  lemma ComponentExactly(c: Names, prog: seq<Component>, i: nat)
    requires i < |prog|
    ensures ComponentStands(c, prog, i) <==>
            && DefsStand(c, NodesDefs(prog[i].body, prog[i].params, BaseOf(prog, i)))
            && DefsStand(c, [ComponentDef(prog[i], BaseOf(prog, i))])
  {
    var d := ComponentDef(prog[i], BaseOf(prog, i));
    hide BaseOf, NodesDefs, EmitNodes, SignatureStands, NodesStand, StmtsStand;
    assert DefsStand(c, [d]) <==> DefStands(c, d);
    if SignatureStands(c, Params(prog[i].params)) {
      NodesExactly(c, prog[i].body, prog[i].params, BaseOf(prog, i), ScopeOf(c, Params(prog[i].params)));
    }
  }

  /**
   * Exactly when a file whose names pass the compiler's checks builds: none of its names clash at
   * file scope, and every component stands in its scopes.
   */
  lemma BuildsExactly(c: Names, prog: seq<Component>)
    requires Checked(c.handles, prog)
    ensures Builds(c, prog) <==>
            && NamesDiffer(prog)
            && (forall i :: 0 <= i < |prog| ==> !Shadows(prog, prog[i].name) && prog[i].name !in RUNTIME_FUNCTIONS)
            && (forall h :: h in c.handles ==> !IsRuntimeName(h) && !Generated(prog, h))
            && (forall i :: 0 <= i < |prog| ==> ComponentStands(c, prog, i))
  {
    hide NamesDiffer, Shadows, IsRuntimeName, Generated, ComponentStands, Checked, NoClash, DefsStand, Compile;
    NoClashExactly(c.handles, prog);
    FileStands(c, prog);
  }

  lemma FileStands(c: Names, prog: seq<Component>)
    ensures DefsStand(c, Compile(prog)) <==> forall i :: 0 <= i < |prog| ==> ComponentStands(c, prog, i)
  {
    hide ComponentStands, BlocksUpTo, ComponentsUpTo, DefsStand;
    StandUpTo(c, prog, |prog|);
    DefsParts(c, BlocksUpTo(prog, |prog|), ComponentsUpTo(prog, |prog|));
  }

  /**
   * Compilation preserves meaning: under the condition of BuildsExactly, and without NUL in texts,
   * the generated file builds and writes what the templates mean, for every component.
   */
  lemma CompilationPreservesMeaning<E, V>(w: World<E, V>, c: Names, prog: seq<Component>, fuel: nat, name: string,
                                          args: string, env: E, out: Render)
    requires Checked(c.handles, prog)
    requires NamesDiffer(prog)
    requires forall i :: 0 <= i < |prog| ==> !Shadows(prog, prog[i].name) && prog[i].name !in RUNTIME_FUNCTIONS
    requires forall h :: h in c.handles ==> !IsRuntimeName(h) && !Generated(prog, h)
    requires forall i :: 0 <= i < |prog| ==> ComponentStands(c, prog, i) && Clean(prog[i].body)
    ensures Builds(c, prog)
    ensures var s := RunCall(w, prog, fuel + 1, "", name, args, None, Nil, env, St(out, []));
            var t := RunFile(w, c, prog, fuel, name, args, env, St(out, []));
            s.Some? ==> t.Some? && t.value.out == s.value.out
  {
    BuildsExactly(c, prog);
    hide ComponentStands, DefsStand, Generated, Shadows, IsReserved, IsRuntimeName, Named, Clean, RunCall, RunFunction,
         Compile;
    DistinctLinks(prog);
    CompiledWritesMeaning(w, prog, Compile(prog), fuel, name, args, env, out);
  }

  // ---- files that build, and files that pass every check and do not ----

  const WORD := Cons(Text("x"), Nil)

  const DATA_CALL := Cons(Call("data", "", None, Nil), Nil)

  const P_WRITTEN := Cons(Interp("p", InText), Nil)

  const CARD_CALL := Cons(Call("card", "", None, WORD), Nil)

  /** A page that passes a block with its own parameter to a card: the file builds. */
  lemma BuildsExample(c: Names)
    requires c.handles == []
    ensures var prog := [Component("card", "TplChildren *children", Cons(Children, Nil)),
                         Component("page", "Page *p", Cons(Call("card", "", None, P_WRITTEN), Nil))];
            Builds(c, prog)
  {
    var prog := [Component("card", "TplChildren *children", Cons(Children, Nil)),
                 Component("page", "Page *p", Cons(Call("card", "", None, P_WRITTEN), Nil))];
    PlainNames(prog);
    hide BaseOf, NodesStand, NoClash, NamesDiffer, ModeOf, SignatureStands, ScopeOf, DefsStand, Compile, Checked;
    CardStands(c, BaseOf(prog, 0));
    PageStands(c, BaseOf(prog, 1));
    FileStands(c, prog);
  }

  lemma CardStands(c: Names, base: nat)
    ensures SignatureStands(c, Params("TplChildren *children"))
    ensures NodesStand(c, Cons(Children, Nil), "TplChildren *children", base,
                       ScopeOf(c, Params("TplChildren *children")))
  {
    var params := "TplChildren *children";
    hide ModeOf, Complete, NodesStand;
    assert Declared(c, params) == {"children"} by {
      OneParameter(params, 13);
      assert params[13..] == "children";
    }
    hide Declared;
    OneComplete(params);
    OutDiffers();
    ChildrenStand(c, params, base, ScopeOf(c, Params(params)));
  }

  lemma OutDiffers()
    ensures "out" !in {"children"}
  {
    assert "children"[0] == 'c' && "out"[0] == 'o';
  }

  lemma ChildrenStand(c: Names, params: string, base: nat, sc: Scope)
    requires sc == Scope({"children"}, {})
    ensures NodesStand(c, Cons(Children, Nil), params, base, sc)
  {
  }

  lemma OneComplete(e: string)
    requires e != "" && e[0] != ' ' && forall i :: 0 <= i < |e| ==> IsIdentChar(e[i]) || e[i] == ' ' || e[i] == '*'
    ensures Complete(e)
  {
    PlainComplete(e, 1);
  }

  lemma {:induction false} PlainComplete(e: string, p: nat)
    requires p <= |e| && forall i :: 0 <= i < |e| ==> IsIdentChar(e[i]) || e[i] == ' ' || e[i] == '*'
    ensures CompleteFrom(e, p, true)
    decreases |e| - p
  {
    if p < |e| {
      PlainComplete(e, p + 1);
    }
  }

  lemma PageStands(c: Names, base: nat)
    ensures SignatureStands(c, Params("Page *p"))
    ensures NodesStand(c, Cons(Call("card", "", None, P_WRITTEN), Nil), "Page *p", base, ScopeOf(c, Params("Page *p")))
  {
    var sc := ScopeOf(c, Params("Page *p"));
    hide ModeOf, NodeStands;
    assert sc == Scope({"p"}, {}) && ModeOf("Page *p", None) == One("p") by {
      OneParameter("Page *p", 6);
      assert "Page *p"[6..] == "p";
    }
    OneComplete("Page *p");
    WriteStands(c, base, sc);
    CardCalled(c, P_WRITTEN, base, sc);
  }

  lemma WriteStands(c: Names, base: nat, sc: Scope)
    requires sc == Scope({"p"}, {})
    ensures NodeStands(c, Interp("p", InText), "Page *p", base, sc)
  {
    assert |"tpl_esc"| == 7 && |"p"| == 1;
    assert CompleteFrom("p", 1, true);
  }

  lemma CardCalled(c: Names, block: Nodes, base: nat, sc: Scope)
    requires sc == Scope({"p"}, {}) && ModeOf("Page *p", None) == One("p") && sc == ScopeOf(c, Params("Page *p"))
    requires block.Cons? && NodesStand(c, block, "Page *p", base, sc)
    ensures NodeStands(c, Call("card", "", None, block), "Page *p", base, sc)
  {
    hide ModeOf, NodesStand, Dec;
    assert |ComponentName("card")| == 8 && |AdapterName(base + Count(block) + 1)| > 8 && |"TplChildren"| == 11;
  }

  /** Plain names clash with nothing at file scope. */
  lemma PlainNames(prog: seq<Component>)
    requires NamesDiffer(prog)
    requires forall i :: 0 <= i < |prog| ==> prog[i].name in {"data", "children", "card", "page"}
    ensures Checked([], prog) && NoClash([], prog)
  {
    forall i | 0 <= i < |prog|
      ensures !IsReserved(prog[i].name) && !Shadows(prog, prog[i].name) && prog[i].name !in RUNTIME_FUNCTIONS
    {
      PlainName(prog, prog[i].name);
    }
    hide Shadows, IsReserved;
    NoClashExactly([], prog);
  }

  lemma PlainName(prog: seq<Component>, name: string)
    requires name in {"data", "children", "card", "page"}
    ensures !IsReserved(name) && !Shadows(prog, name) && name !in RUNTIME_FUNCTIONS
  {
    assert name[0] in {'d', 'c', 'p'};
    assert forall t :: ("_block_" + t)[0] == '_';
  }

  lemma NotBuilt(c: Names, prog: seq<Component>, i: nat)
    requires Checked(c.handles, prog) && i < |prog| && !ComponentStands(c, prog, i)
    ensures !Builds(c, prog)
  {
    BuildsExactly(c, prog);
  }

  /**
   * A component named "data" called in a block bound to data: the function of the block has a
   * parameter tpl_data, which hides the function of the component.
   */
  lemma LocalNameExample(c: Names)
    requires c.handles == []
    ensures var prog := [Component("data", "", WORD),
                         Component("page", "", Cons(Call("card", "", Some("d"), DATA_CALL), Nil))];
            Checked([], prog) && NoClash([], prog) && !Builds(c, prog)
  {
    var prog := [Component("data", "", WORD),
                 Component("page", "", Cons(Call("card", "", Some("d"), DATA_CALL), Nil))];
    PlainNames(prog);
    hide BaseOf, NodeStands, Builds, NoClash, Checked, NamesDiffer;
    DataHidden(c, BaseOf(prog, 1), ScopeOf(c, Params("")));
    assert !NodesStand(c, prog[1].body, "", BaseOf(prog, 1), ScopeOf(c, Params("")));
    NotBuilt(c, prog, 1);
  }

  lemma DataHidden(c: Names, base: nat, sc: Scope)
    ensures !NodeStands(c, Call("card", "", Some("d"), DATA_CALL), "", base, sc)
  {
    assert ComponentName("data") == "tpl_data";
    assert BlockSignature("", Some("d")) == DataPointer;
    assert !NodeStands(c, DATA_CALL.head, "", base, ScopeOf(c, DataPointer));
    hide NodeStands;
    CallFails(c, Call("card", "", Some("d"), DATA_CALL), "", base, sc);
  }

  /** A component named "children" called with a block: the children struct hides its function. */
  lemma ChildrenNameExample(c: Names)
    requires c.handles == []
    ensures var prog := [Component("children", "TplChildren *children", Cons(Children, Nil)),
                         Component("page", "", Cons(Call("children", "", None, WORD), Nil))];
            Checked([], prog) && NoClash([], prog) && !Builds(c, prog)
  {
    var prog := [Component("children", "TplChildren *children", Cons(Children, Nil)),
                 Component("page", "", Cons(Call("children", "", None, WORD), Nil))];
    PlainNames(prog);
    hide BaseOf;
    assert !NodeStands(c, prog[1].body.head, "", BaseOf(prog, 1), ScopeOf(c, Params("")));
    NotBuilt(c, prog, 1);
  }

  /** A captured parameter named tpl_children: the initializer of the children struct names the struct itself. */
  lemma ParameterNameExample(c: Names)
    requires c.handles == []
    ensures var prog := [Component("page", "void *tpl_children", CARD_CALL)];
            Checked([], prog) && NoClash([], prog) && !Builds(c, prog)
  {
    var prog := [Component("page", "void *tpl_children", CARD_CALL)];
    PlainNames(prog);
    hide BaseOf, NodeStands, Builds, NoClash, Checked, NamesDiffer;
    StructHidden(c, BaseOf(prog, 0), ScopeOf(c, Params(prog[0].params)));
    assert !NodesStand(c, prog[0].body, prog[0].params, BaseOf(prog, 0), ScopeOf(c, Params(prog[0].params)));
    NotBuilt(c, prog, 0);
  }

  lemma StructHidden(c: Names, base: nat, sc: Scope)
    ensures !NodeStands(c, CARD_CALL.head, "void *tpl_children", base, sc)
  {
    hide ModeOf, NodeStands;
    assert ModeOf("void *tpl_children", None) == One("tpl_children") by {
      OneParameter("void *tpl_children", 6);
      assert "void *tpl_children"[6..] == "tpl_children";
    }
    CallFails(c, CARD_CALL.head, "void *tpl_children", base, sc);
  }

  /**
   * A block that captures the parameter of its component, inside a block bound to data: the
   * function it stands in does not have that parameter.
   */
  lemma CaptureExample(c: Names)
    requires c.handles == []
    ensures var prog := [Component("page", "int *x", Cons(Call("card", "", Some("d"), CARD_CALL), Nil))];
            Checked([], prog) && NoClash([], prog) && !Builds(c, prog)
  {
    var prog := [Component("page", "int *x", Cons(Call("card", "", Some("d"), CARD_CALL), Nil))];
    PlainNames(prog);
    hide BaseOf, NodeStands, Builds, NoClash, Checked, NamesDiffer;
    CaptureHidden(c, BaseOf(prog, 0), ScopeOf(c, Params("int *x")));
    assert !NodesStand(c, prog[0].body, "int *x", BaseOf(prog, 0), ScopeOf(c, Params("int *x")));
    NotBuilt(c, prog, 0);
  }

  lemma CaptureHidden(c: Names, base: nat, sc: Scope)
    ensures !NodeStands(c, Call("card", "", Some("d"), CARD_CALL), "int *x", base, sc)
  {
    var inside := ScopeOf(c, DataPointer);
    assert BlockSignature("int *x", Some("d")) == DataPointer;
    hide ModeOf, NodesStand, NodeStands;
    assert ModeOf("int *x", None) == One("x") by {
      OneParameter("int *x", 5);
      assert "int *x"[5..] == "x";
    }
    CallFails(c, CARD_CALL.head, "int *x", base, inside);
    CallFails(c, Call("card", "", Some("d"), CARD_CALL), "int *x", base, sc);
  }

  /** A call fails by its binding, or by the first node of its block. */
  lemma CallFails(c: Names, n: Node, params: string, base: nat, sc: Scope)
    requires n.Call? && !IsBuiltin(n.callee) && n.block.Cons?
    requires !BindingStands(c, params, n.data, sc) ||
             !NodeStands(c, n.block.head, params, base, ScopeOf(c, BlockSignature(params, n.data)))
    ensures !NodeStands(c, n, params, base, sc)
  {
    hide BindingStands, ModeOf, BlockSignature, ScopeOf, PassedName, Complete, Used;
  }

  /** Words and stars, the last word the parameter's name. */
  lemma OneParameter(params: string, k: nat)
    requires 0 < k < |params| && (params[k - 1] == ' ' || params[k - 1] == '*')
    requires forall i :: 0 <= i < |params| ==> IsIdentChar(params[i]) || params[i] == ' ' || params[i] == '*'
    requires forall i :: k <= i < |params| ==> IsIdentChar(params[i])
    ensures ModeOf(params, None) == One(params[k..])
  {
    assert params != "void" by { assert forall i :: 0 <= i < 4 ==> IsIdentChar("void"[i]); }
    NoCommas(params);
    IdentBehind(params, k);
    assert TrimRight(params) == params;
  }

  lemma {:induction false} NoCommas(s: string)
    requires forall i :: 0 <= i < |s| ==> IsIdentChar(s[i]) || s[i] == ' ' || s[i] == '*'
    ensures Commas(s, 0, '\0') == 0
  {
    if s != [] {
      NoCommas(s[1..]);
    }
  }

  lemma {:induction false} IdentBehind(s: string, k: nat)
    requires 0 < k <= |s| && !IsIdentChar(s[k - 1]) && forall i :: k <= i < |s| ==> IsIdentChar(s[i])
    ensures BeforeIdent(s) == k
    decreases |s|
  {
    if k < |s| {
      IdentBehind(s[..|s| - 1], k);
    }
  }

  /** An expression that ends in a line comment is accepted, and swallows the rest of its line in the C file. */
  lemma CommentExample(c: Names)
    requires c.handles == []
    ensures InterpAt("{x // y\n}", 0, true) == Some(9) && Trim("x // y\n") == "x // y"
    ensures var prog := [Component("page", "", Cons(Interp("x // y", InText), Nil))];
            Checked([], prog) && NoClash([], prog) && !Builds(c, prog)
  {
    CommentAccepted();
    CommentOpen();
    var prog := [Component("page", "", Cons(Interp("x // y", InText), Nil))];
    PlainNames(prog);
    hide BaseOf, Complete;
    assert !NodeStands(c, prog[0].body.head, "", BaseOf(prog, 0), ScopeOf(c, Params("")));
    NotBuilt(c, prog, 0);
  }

  lemma CommentAccepted()
    ensures InterpAt("{x // y\n}", 0, true) == Some(9) && Trim("x // y\n") == "x // y"
  {
    var s := "{x // y\n}";
    assert LineEnd(s, 3) == 7;
    assert Scan(s, 7, 1, MatchBrace) == Found(8);
    assert Scan(s, 3, 1, MatchBrace) == Found(8);
    assert Scan(s, 1, 1, MatchBrace) == Found(8);
    assert s[1..8] == "x // y\n";
    assert "x // y\n"[..6] == "x // y";
    assert TrimRight("x // y\n") == TrimRight("x // y\n"[..6]);
  }

  lemma CommentOpen()
    ensures !Complete("x // y")
  {
    var e := "x // y";
    assert LineEnd(e, 2) == 6;
    assert !CompleteFrom(e, 2, true);
    assert !CompleteFrom(e, 1, true);
  }
}
