/** Sources the compiler accepts or refuses although their syntax promises otherwise. */
module CtmplLimits {
  import opened Wrappers
  import opened Chars
  import opened TplRuntime
  import opened CtmplAst
  import opened CtmplTag
  import opened CtmplScan
  import opened CtmplSyntax
  import opened CtmplGrammar
  import opened CtmplBuilt
  import opened CtmplLiteral
  import opened CtmplMeaning
  import opened CtmplTarget
  import opened CtmplEmit
  import opened CtmplFits
  import opened CtmplAccept

  // ---- a NUL in a tag ----

  /** An element whose open tag has a NUL behind its name. */
  const NUL_PIECE := Piece([Tag(OpenTag([], "<a\0", "")), Closing("</a>")], "")

  lemma OneChar(pl: Place, t: string, c: char)
    ensures AfterText(pl, t + [c]) == StepChar(AfterText(pl, t), c)
    ensures IsTagText(pl, t + [c]) <==> IsTagText(pl, t) && c != '{' && (AfterText(pl, t).quote == '\0' ==> c != '>')
  {
    assert (t + [c])[..|t + [c]| - 1] == t;
  }

  lemma NulTagText()
    ensures var pl := StartPlace("a"); IsTagText(pl, "<a\0") && AfterText(pl, "<a\0").quote == '\0'
  {
    var pl := StartPlace("a");
    assert "" + ['<'] == "<" && "<" + ['a'] == "<a" && "<a" + ['\0'] == "<a\0";
    assert IsTagText(pl, "") && AfterText(pl, "") == pl;
    hide IsTagText, AfterText;
    OneChar(pl, "", '<');
    OneChar(pl, "<", 'a');
    OneChar(pl, "<a", '\0');
  }

  lemma NulTag()
    ensures var tag := OpenTag([], "<a\0", "");
            ProperTag(tag) && TagSource(tag) == "<a\0>" && TagName(tag) == "a" && TagNodes(tag) == [Text("<a\0>")]
  {
    var tag := OpenTag([], "<a\0", "");
    assert PartsSource([]) == "" && PartsNodes([]) == [];
    assert "<a\0" + ">" == "<a\0>" && TagText(tag) == "<a\0>";
    assert TagNodes(tag) == [] + [Text("<a\0>")] + [];
    assert NameEnd("<a\0>", 1) == 2 && "<a\0>"[1..2] == "a" && "<a\0>"[0..1] == "<";
    NulTagText();
    NotVoid();
    hide IsTagText, AfterText, NameEnd, Lower;
    assert "<a\0>"[2..4] != "/>" by { assert "<a\0>"[2..4][0] == '\0'; }
  }

  lemma NotVoid()
    ensures !IsVoid("a") && !IsRaw("a")
  {
    assert |Lower("a")| == 1;
    hide Lower;
  }

  lemma NulClosing()
    ensures IsClosing("</a>") && ClosingName("</a>") == "a"
  {
    var t := "</a>";
    assert NameEnd(t, 2) == 3;
    assert t[2..3] == "a" && t[0..2] == "</" && t[3..4] == ">";
    assert t[2..3] != ">" by { assert t[2..3][0] == 'a'; }
    assert Lower("a") == "a";
  }

  /** The body is well formed, its tags nest, and its nodes are two texts. */
  lemma NulPiece()
    ensures ProperPiece(NUL_PIECE) && PieceSource(NUL_PIECE) == "<a\0></a>" &&
            OpenAfter(NUL_PIECE.items, []) == Some([])
    ensures PieceNodes(NUL_PIECE) == Cons(Text("<a\0>"), Cons(Text("</a>"), Nil))
  {
    var tag := OpenTag([], "<a\0", "");
    var a, b := Tag(tag), Closing("</a>");
    NulTag();
    NulClosing();
    NotVoid();
    TagBuilt(tag, []);
    ClosingBuilt("</a>", ["a"]);
    NulJoined(a, b);
    var ns := [Text("<a\0>")] + [Text("</a>")];
    assert ns[1..] == [Text("</a>")] && [Text("</a>")][1..] == [];
    assert ToNodes([]) == Nil;
  }

  lemma NulJoined(a: Item, b: Item)
    requires BuiltOne("<a\0>", a, [Text("<a\0>")], [], [] + ["a"])
    requires BuiltOne("</a>", b, TextNodes("</a>"), ["a"], ["a"][..0])
    ensures BuiltPiece("<a\0></a>", Piece([a, b], ""), [Text("<a\0>")] + [Text("</a>")], [], [])
  {
    hide BuiltOne, Built, BuiltPiece;
    var s := "<a\0></a>";
    assert s[0..0] == "" && s[0..4] == "<a\0>" && s[4..8] == "</a>" && s[8..8] == "" && s[0..8] == s;
    assert [] + [a] == [a] && [a] + [b] == [a, b] && [] + ["a"] == ["a"] && ["a"][..0] == [];
    assert [] + [Text("<a\0>")] == [Text("<a\0>")];
    assert Built("", [], [], [], []) by { NothingThere(); }
    BuiltAppend(s, 0, 0, 4, [], a, [], [Text("<a\0>")], [], [], ["a"]);
    BuiltAppend(s, 0, 4, 8, [a], b, [Text("<a\0>")], TextNodes("</a>"), [], ["a"], []);
    PieceBuilt(s, 0, 8, 8, [a, b], [Text("<a\0>")] + [Text("</a>")], [], []);
  }

  lemma NothingThere()
    ensures Built("", [], [], [], [])
  {
  }

  lemma TextAccepted(t: string, piece: Piece)
    requires PieceSource(piece) == t && ProperPiece(piece) && FitsAll(t + "}", 0, piece.items)
    requires OpenAfter(piece.items, []) == Some([])
    ensures ComponentAt(t + "}", 0) == Some(At(piece, |t| + 1, []))
  {
    hide PieceSource, ProperPiece, FitsAll, OpenAfter, ComponentAt;
    assert (t + "}")[0..|t| + 1] == t + "}";
    ParseUndoesPrint(t + "}", 0, piece);
  }

  /** The parser accepts the body in front of a closing brace. */
  lemma NulAccepted()
    ensures PieceSource(NUL_PIECE) == "<a\0></a>"
    ensures ComponentAt(PieceSource(NUL_PIECE) + "}", 0) == Some(At(NUL_PIECE, 9, []))
  {
    NulPiece();
    NulFits(PieceSource(NUL_PIECE) + "}");
    hide PieceSource, ProperPiece, FitsAll, OpenAfter, ComponentAt;
    TextAccepted(PieceSource(NUL_PIECE), NUL_PIECE);
  }

  lemma NulFits(s: string)
    ensures FitsAll(s, 0, NUL_PIECE.items)
  {
    var tag := OpenTag([], "<a\0", "");
    var a, b := Tag(tag), Closing("</a>");
    NulTag();
    NotVoid();
    assert TagFits(s, 0, tag);
    assert NUL_PIECE.items[..1] == [a] && [a][..0] == [];
    assert SourceAll([]) == "" && FitsAll(s, 0, []);
    assert Fits(s, 0, a) && FitsAll(s, 0, [a]);
  }

  /**
   * A component with a NUL in a tag is accepted, and its function writes only what stands before
   * the NUL, where the template means the whole element.
   */
  lemma NulExample<E, V>(w: World<E, V>, fuel: nat, args: string, env: E)
    ensures ProperPiece(NUL_PIECE) && OpenAfter(NUL_PIECE.items, []) == Some([])
    ensures var prog := [Component("page", "", PieceNodes(NUL_PIECE))];
            var s := RunCall(w, prog, fuel + 1, "", "page", args, None, Nil, env, St(EMPTY, []));
            var t := RunFunction(w, Compile(prog), fuel, "tpl_page", args, None, env, St(EMPTY, []));
            s.Some? && s.value.out.data == "<a\0></a>" && t.Some? && t.value.out.data == "<a"
  {
    NulPiece();
    hide ProperPiece, OpenAfter, PieceNodes, RunCall, RunFunction, Compile;
    NulCall(w, fuel, args, env);
    NulCompiled();
    NulFunction(w, fuel, args, env);
  }

  lemma NulCall<E, V>(w: World<E, V>, fuel: nat, args: string, env: E)
    ensures var prog := [Component("page", "", Cons(Text("<a\0>"), Cons(Text("</a>"), Nil)))];
            var s := RunCall(w, prog, fuel + 1, "", "page", args, None, Nil, env, St(EMPTY, []));
            s.Some? && s.value.out.data == "<a\0></a>"
  {
    var prog := [Component("page", "", Cons(Text("<a\0>"), Cons(Text("</a>"), Nil)))];
    assert Find(prog, "page") == Some(prog[0]);
    hide Find, RunNodes;
    NulMeaning(w, prog, fuel, w.enter("", args, env, None));
  }

  lemma NulFunction<E, V>(w: World<E, V>, fuel: nat, args: string, env: E)
    ensures var d := Def("tpl_page", Params(""), Code(Then(WriteLiteral(EmitText("<a\0></a>")), End)));
            var t := RunFunction(w, [d], fuel, "tpl_page", args, None, env, St(EMPTY, []));
            t.Some? && t.value.out.data == "<a"
  {
    hide EmitText, LiteralText;
    var d := Def("tpl_page", Params(""), Code(Then(WriteLiteral(EmitText("<a\0></a>")), End)));
    assert Lookup([d], "tpl_page") == Some(d);
    NulLiteral();
    var st: St<Passed<V>> := PutText(St(EMPTY, []), "<a");
    assert st.out.data == "" + "<a" == "<a";
    var env' := w.enter("", args, env, None);
    assert RunStmts(w, [d], fuel, End, env', st) == Some(st);
    assert RunStmt(w, [d], fuel, WriteLiteral(EmitText("<a\0></a>")), env', St(EMPTY, [])) == Some(st);
  }

  lemma NulMeaning<E, V>(w: World<E, V>, prog: seq<Component>, fuel: nat, env: E)
    ensures var s := RunNodes(w, prog, fuel, "", Cons(Text("<a\0>"), Cons(Text("</a>"), Nil)), env, St(EMPTY, []));
            s.Some? && s.value.out.data == "<a\0></a>"
  {
    var a: St<Closure<E>> := St(EMPTY, []);
    var b := PutText(a, "<a\0>");
    var c := PutText(b, "</a>");
    assert b.out.data == "" + "<a\0>" == "<a\0>";
    assert c.out.data == "<a\0>" + "</a>" == "<a\0></a>";
    var tail := Cons(Text("</a>"), Nil);
    assert RunNodes(w, prog, fuel, "", Nil, env, c) == Some(c);
    assert RunNode(w, prog, fuel, "", tail.head, env, b) == Some(c);
    assert RunNodes(w, prog, fuel, "", tail, env, b) == Some(c);
    assert RunNode(w, prog, fuel, "", Text("<a\0>"), env, a) == Some(b);
  }

  lemma NulCompiled()
    ensures var prog := [Component("page", "", Cons(Text("<a\0>"), Cons(Text("</a>"), Nil)))];
            Compile(prog) ==
            [Def("tpl_page", Params(""), Code(Then(WriteLiteral(EmitText("<a\0></a>")), End)))]
  {
    hide EmitText;
    var tail := Cons(Text("</a>"), Nil);
    var body := Cons(Text("<a\0>"), tail);
    var prog := [Component("page", "", body)];
    assert TakeText(tail, 4) == ("</a>", Nil);
    assert "<a\0>" + "</a>" == "<a\0></a>";
    assert TakeText(body, 0) == ("<a\0></a>", Nil);
    assert EmitNodes(Nil, "", 0) == End;
    assert NodesDefs(body, "", 0) == [] by {
      assert NodesDefs(tail, "", 0) == [] + [];
    }
    assert BaseOf(prog, 0) == 0;
    assert ComponentName("page") == "tpl_page";
    assert ComponentsUpTo(prog, 0) == [] && BlocksUpTo(prog, 0) == [];
    assert ComponentsUpTo(prog, 1) == [] + [ComponentDef(prog[0], 0)];
    assert BlocksUpTo(prog, 1) == [] + [];
  }

  lemma NulLiteral()
    ensures LiteralText(EmitText("<a\0></a>")) == "<a"
  {
    var t := "<a\0></a>";
    assert forall i :: 0 <= i < |t| ==> t[i] as int < 256;
    LiteralReadsBack(t);
    hide ReadLiteral, EmitText;
    var u := t[1..];
    var v := u[1..];
    assert t[0] == '<' && u[0] == 'a' && v[0] == '\0';
    assert UpToNul(v) == "";
    assert UpToNul(u) == ['a'] + "";
    assert ['<'] + (['a'] + "") == "<a";
  }

  // ---- a boolean attribute behind a value ----

  /** An attribute with a value in quotes, and a boolean attribute right behind its closing quote. */
  const FLAG_TAG := "<a x=\"{y}\"b?={c}>"

  lemma FlagTagScan()
    ensures Scan(FLAG_TAG, 7, 1, MatchBrace) == Found(8)
  {
    var s := FLAG_TAG;
    assert s[7] == 'y' && s[8] == '}';
    assert SkipAt(s, 7) == IsCode && SkipAt(s, 8) == IsCode;
    hide SkipAt;
    assert Scan(s, 8, 1, MatchBrace) == Found(8);
  }

  lemma PlainName()
    ensures AttrContext("x") == Some(InAttr)
  {
    assert |Lower("x")| == 1;
    assert forall i :: 0 <= i < |URLS| ==> |URLS[i]| > 1;
    hide Lower;
  }

  lemma FlagTagValue()
    ensures InterpAt(FLAG_TAG, 6, false) == Some(9) && ClassifyAt(FLAG_TAG, 3, 4) == Some(InAttr)
  {
    FlagTagScan();
    PlainName();
    hide Scan, AttrContext;
    assert FLAG_TAG[3..4] == "x" && FLAG_TAG[7..8] == "y";
    assert TrimLeft("y") == "y" && TrimRight("y") == "y";
  }

  lemma FlagAttributes(s: string)
    requires |s| == 17 && s[2] == ' ' && s[3] == 'x' && s[4] == '=' && s[5] == '"' && s[6] == '{'
    requires s[9] == '"' && s[10] == 'b' && s[11] == '?' && s[12] == '='
    requires WsEnd(s, 3) == 3 && InterpAt(s, 6, false) == Some(9) && ClassifyAt(s, 3, 4) == Some(InAttr)
    ensures AttrsAt(s, 0, [], 0, 2, '\0', 2, 2) == None
  {
    hide AttrsAt, InterpAt, ClassifyAt, WsEnd;
    AttrsChar(s, 0, [], 0, 2, '\0', 2, 2);
    AttrsChar(s, 0, [], 0, 3, '\0', 3, 2);
    AttrsChar(s, 0, [], 0, 4, '\0', 3, 2);
    AttrsChar(s, 0, [], 0, 5, '\0', 3, 4);
    AttrsValue(s, 0, [], 0, 6, '"', 3, 4, 9, InAttr);
    var parts := [] + [Plain(s[0..6]), Value(s[7..8], InAttr)];
    AttrsChar(s, 0, parts, 9, 9, '"', 3, 4);
    AttrsChar(s, 0, parts, 9, 10, '\0', 3, 4);
    AttrsFlagRefused(s, 0, parts, 9, 11, 3, 4);
  }

  /**
   * The parser refuses the tag, although every attribute in it is well formed: its pending text
   * begins behind the value, and the name of the boolean attribute is taken to begin before it.
   */
  lemma FlagRefused(open: seq<string>)
    ensures OpenTagAt(FLAG_TAG, 0, open) == None
  {
    var s := FLAG_TAG;
    hide AttrsAt, FinishAt, InterpAt, ClassifyAt;
    FlagTagValue();
    assert WsEnd(s, 3) == 3;
    assert NameEnd(s, 1) == 2;
    hide WsEnd, NameEnd;
    FlagAttributes(s);
  }
}
