/** The emitter: collects the child blocks and writes the lines of the generated file. */
module CtmplEmitter {
  import opened Wrappers
  import opened CtmplAst
  import opened CtmplLiteral
  import opened CtmplTarget
  import opened CtmplLines
  import E = CtmplEmit

  /** A collected call with a child block; its number is its position in the list, from 1. */
  datatype Entry = Entry(block: Nodes, params: string, data: Option<string>)

  /** The lines of a function. */
  datatype FileLine = Header(name: string, sig: Signature) | InBody(line: Line) |
    ForwardLine(fn: string, pass: bool) | Footer

  function BodyLines(ls: seq<Line>): (r: seq<FileLine>)
    ensures |r| == |ls|
  {
    seq(|ls|, i requires 0 <= i < |ls| => InBody(ls[i]))
  }

  function PrintDef(d: Def): seq<FileLine> {
    [Header(d.name, d.sig)]
    + (match d.body
       case Code(ss) => BodyLines(Print(ss))
       case Forward(fn, pass) => [ForwardLine(fn, pass)])
    + [Footer]
  }

  function PrintFile(ds: seq<Def>): seq<FileLine> {
    if ds == [] then [] else PrintFile(ds[..|ds| - 1]) + PrintDef(ds[|ds| - 1])
  }

  lemma {:induction false} PrintFileAppend(a: seq<Def>, b: seq<Def>)
    ensures PrintFile(a + b) == PrintFile(a) + PrintFile(b)
    decreases |b|
  {
    hide PrintDef;
    if b == [] {
      assert a + b == a;
    } else {
      var init, last := b[..|b| - 1], b[|b| - 1];
      PrintFileAppend(a, init);
      assert (a + b)[..|a + b| - 1] == a + init;
      assert PrintFile(b) == PrintFile(init) + PrintDef(last);
      assert PrintFile(a + b) == PrintFile(a + init) + PrintDef(last);
      hide *;
      assert (PrintFile(a) + PrintFile(init)) + PrintDef(last) == PrintFile(a) + (PrintFile(init) + PrintDef(last));
    }
  }

  // ---- collecting ----

  /** The child blocks of ns, innermost first. */
  function Entries(ns: Nodes, params: string): (es: seq<Entry>)
    ensures |es| == Count(ns)
    decreases ns
  {
    match ns
    case Nil => []
    case Cons(n, tail) => NodeEntries(n, params) + Entries(tail, params)
  }

  function NodeEntries(n: Node, params: string): (es: seq<Entry>)
    ensures |es| == CountNode(n)
    decreases n
  {
    match n
    case Call(callee, _, data, block) =>
      Entries(block, params) + (if block.Cons? && !IsBuiltin(callee) then [Entry(block, params, data)] else [])
    case If(_, yes, no) => Entries(no, params) + Entries(yes, params)
    case For(_, body) => Entries(body, params)
    case _ => []
  }

  /** The functions of the entry at position i. */
  function DefsAt(e: Entry, i: nat): seq<Def> {
    if Count(e.block) <= i then E.BlockDefs(e.block, e.params, e.data, i - Count(e.block)) else []
  }

  function EntryDefs(es: seq<Entry>, from: nat): seq<Def> {
    if es == [] then [] else EntryDefs(es[..|es| - 1], from) + DefsAt(es[|es| - 1], from + |es| - 1)
  }

  lemma {:induction false} EntryDefsAppend(a: seq<Entry>, b: seq<Entry>, from: nat)
    ensures EntryDefs(a + b, from) == EntryDefs(a, from) + EntryDefs(b, from + |a|)
    decreases |b|
  {
    hide DefsAt;
    if b == [] {
      assert a + b == a;
    } else {
      var init, last := b[..|b| - 1], b[|b| - 1];
      EntryDefsAppend(a, init, from);
      assert (a + b)[..|a + b| - 1] == a + init;
      var d := DefsAt(last, from + |a| + |b| - 1);
      assert EntryDefs(a + b, from) == EntryDefs(a + init, from) + d;
      assert EntryDefs(b, from + |a|) == EntryDefs(init, from + |a|) + d;
      hide *;
      assert (EntryDefs(a, from) + EntryDefs(init, from + |a|)) + d ==
             EntryDefs(a, from) + (EntryDefs(init, from + |a|) + d);
    }
  }

  /** The functions of the collected blocks are the child functions of the tree, in order. */
  lemma {:induction false} EntriesDefs(ns: Nodes, params: string, base: nat)
    ensures EntryDefs(Entries(ns, params), base) == E.NodesDefs(ns, params, base)
    decreases ns, 1
  {
    hide EntryDefs, NodeEntries;
    match ns
    case Nil => assert EntryDefs([], base) == [] by { NoEntries(base); }
    case Cons(n, tail) =>
      NodeEntriesDefs(n, params, base);
      EntriesDefs(tail, params, base + CountNode(n));
      EntryDefsAppend(NodeEntries(n, params), Entries(tail, params), base);
  }

  lemma NoEntries(base: nat)
    ensures EntryDefs([], base) == []
  {
  }

  lemma OneEntry(e: Entry, from: nat)
    ensures EntryDefs([e], from) == DefsAt(e, from)
  {
    assert [e][..0] == [];
    assert EntryDefs([], from) + DefsAt(e, from) == DefsAt(e, from);
  }

  lemma {:induction false} NodeEntriesDefs(n: Node, params: string, base: nat)
    ensures EntryDefs(NodeEntries(n, params), base) == E.NodeDefs(n, params, base)
    decreases n, 0
  {
    hide EntryDefs;
    NoEntries(base);
    match n
    case Call(callee, _, data, block) =>
      EntriesDefs(block, params, base);
      var inner := Entries(block, params);
      if block.Cons? && !IsBuiltin(callee) {
        EntryDefsAppend(inner, [Entry(block, params, data)], base);
        OneEntry(Entry(block, params, data), base + Count(block));
      } else {
        assert inner + [] == inner;
        assert E.NodesDefs(block, params, base) + [] == E.NodesDefs(block, params, base);
      }
    case If(_, yes, no) =>
      EntriesDefs(no, params, base);
      EntriesDefs(yes, params, base + Count(no));
      EntryDefsAppend(Entries(no, params), Entries(yes, params), base);
    case For(_, body) => EntriesDefs(body, params, base);
    case _ =>
  }

  // ---- emitting ----

  /** The literal for the text nodes at the front of ns, and the nodes after them. */
  method TakeLiteral(ns: Nodes) returns (content: string, rest: Nodes)
    requires ns.Cons? && ns.head.Text?
    ensures content == EmitText(E.TakeText(ns, 0).0) && rest == E.TakeText(ns, 0).1
  {
    var sb, t := "", ns;
    var total: nat := 0;
    var more := true;
    ghost var all := E.TakeText(ns, 0);
    ghost var done := "";
    assert "" + all.0 == all.0;
    hide E.TakeText, EmitText;
    while more
      invariant more ==> t.Cons? && t.head.Text?
      invariant sb == EmitText(done)
      invariant more ==> all.0 == done + E.TakeText(t, total).0 && all.1 == E.TakeText(t, total).1
      invariant !more ==> all == (done, t)
      decreases more, t
    {
      var text := t.head.text;
      TakeStep(t, total, done);
      sb := AppendText(sb, done, text);
      done := done + text;
      total := total + |text|;
      t := t.tail;
      more := t.Cons? && t.head.Text? && total <= E.LITERAL_MAX;
    }
    content := sb;
    rest := t;
  }

  /** One more text node joins the literal. */
  lemma TakeStep(t: Nodes, total: nat, done: string)
    requires t.Cons? && t.head.Text?
    ensures var sum := total + |t.head.text|;
            var (taken, rest) := E.TakeText(t, total);
            if t.tail.Cons? && t.tail.head.Text? && sum <= E.LITERAL_MAX then
              done + taken == (done + t.head.text) + E.TakeText(t.tail, sum).0 && rest == E.TakeText(t.tail, sum).1
            else done + taken == done + t.head.text && rest == t.tail
  {
    var sum := total + |t.head.text|;
    if t.tail.Cons? && t.tail.head.Text? && sum <= E.LITERAL_MAX {
      var taken := E.TakeText(t.tail, sum).0;
      assert done + (t.head.text + taken) == (done + t.head.text) + taken;
    }
  }

  /** Appends the escaped characters of a text to the literal. */
  method AppendText(sb: string, ghost done: string, text: string) returns (r: string)
    requires sb == EmitText(done)
    ensures r == EmitText(done + text)
  {
    hide EmitChar;
    r := sb;
    assert done + text[..0] == done;
    for i := 0 to |text|
      invariant r == EmitText(done + text[..i])
    {
      assert (done + text[..i + 1])[..|done| + i] == done + text[..i];
      r := r + EmitChar(text[i]);
    }
    assert text[..|text|] == text;
  }

  class Emitter {
    var out: seq<Line>           // the body being written
    var file: seq<FileLine>      // the functions written
    var lambdas: seq<Entry>

    constructor ()
      ensures out == [] && file == [] && lambdas == []
    {
      out, file, lambdas := [], [], [];
    }

    /** Collects the calls with a child block in post-order; each gets the next number. */
    method CollectLambdas(ns: Nodes, params: string)
      modifies this`lambdas
      ensures lambdas == old(lambdas) + Entries(ns, params)
      decreases ns, 1
    {
      var n := ns;
      while n.Cons?
        invariant n == ns || n < ns
        invariant lambdas + Entries(n, params) == old(lambdas) + Entries(ns, params)
        decreases n
      {
        ghost var before, head, tail := lambdas, NodeEntries(n.head, params), Entries(n.tail, params);
        CollectNode(n.head, params);
        hide Entries, NodeEntries;
        assert (before + head) + tail == before + (head + tail);
        n := n.tail;
      }
      assert lambdas + [] == lambdas;
    }

    method CollectNode(n: Node, params: string)
      modifies this`lambdas
      ensures lambdas == old(lambdas) + NodeEntries(n, params)
      decreases n, 0
    {
      hide Entries;
      match n
      case If(_, yes, no) =>
        CollectLambdas(no, params);
        CollectLambdas(yes, params);
      case For(_, body) =>
        CollectLambdas(body, params);
      case Call(callee, _, data, block) =>
        CollectLambdas(block, params);
        if block.Cons? && !IsBuiltin(callee) {
          lambdas := lambdas + [Entry(block, params, data)];
        }
      case _ =>
    }

    /** Writes the statements for ns. */
    method EmitNodes(ns: Nodes, params: string, base: nat)
      modifies this`out
      ensures out == old(out) + Print(E.EmitNodes(ns, params, base))
      decreases ns, 2
    {
      hide PrintOne, E.EmitNode, E.TakeText, EmitText;
      var n := ns;
      var b: nat := base;
      while n.Cons?
        invariant n == ns || n < ns
        invariant out + Print(E.EmitNodes(n, params, b)) == old(out) + Print(E.EmitNodes(ns, params, base))
        decreases n
      {
        ghost var before, all := out, E.EmitNodes(n, params, b);
        if n.head.Text? {
          var content, rest := TakeLiteral(n);
          out := out + [LitLine(content)];
          assert PrintOne(WriteLiteral(content)) == [LitLine(content)] by { PrintLiteral(content); }
          assert all == Then(WriteLiteral(content), E.EmitNodes(rest, params, b));
          n := rest;
        } else {
          EmitNode(n.head, params, b);
          assert all == Then(E.EmitNode(n.head, params, b), E.EmitNodes(n.tail, params, b + CountNode(n.head)));
          b := b + CountNode(n.head);
          n := n.tail;
        }
        assert out == before + PrintOne(all.first) &&
               Print(all) == PrintOne(all.first) + Print(E.EmitNodes(n, params, b));
        hide E.EmitNodes, Print;
        assert (before + PrintOne(all.first)) + Print(all.next) == before + (PrintOne(all.first) + Print(all.next));
      }
      assert out + [] == out;
    }

    /** Writes one statement that is not a literal. */
    method EmitNode(n: Node, params: string, base: nat)
      requires !n.Text?
      modifies this`out
      ensures out == old(out) + PrintOne(E.EmitNode(n, params, base))
      decreases n, 1
    {
      hide E.EmitNodes, Print, E.EmitElse, PrintMore;
      match n
      case Interp(e, ctx) => out := out + [PutLine(E.WriterOf(ctx), e)];
      case Children => out := out + [ChildrenTestLine, ChildrenCallLine, Close];
      case For(h, body) =>
        out := out + [ForLine(h)];
        EmitNodes(body, params, base);
        out := out + [Close];
      case If(c, yes, no) => EmitIfChain(n, params, base);
      case Call(_, _, _, _) => EmitCall(n, params, base);
    }

    /** Writes a whole if chain, going on with "else if" while the else branch is a single if. */
    method EmitIfChain(n: Node, params: string, base: nat)
      requires n.If?
      modifies this`out
      ensures out == old(out) + PrintOne(E.EmitNode(n, params, base))
      decreases n, 0
    {
      hide E.EmitNodes, Print, Count;
      var If(c, yes, no) := n;
      out := out + [IfLine(c)];
      EmitNodes(yes, params, base + Count(no));
      ghost var first := [IfLine(c)] + Print(E.EmitNodes(yes, params, base + Count(no)));
      ghost var rest := PrintMore(E.EmitElse(no, params, base));
      assert old(out) + (first + rest) == (old(out) + first) + rest;
      while no.Cons? && no.head.If? && no.tail.Nil?
        invariant no < n
        invariant out + PrintMore(E.EmitElse(no, params, base)) == (old(out) + first) + rest
        decreases no
      {
        ghost var before := out;
        var If(c', yes', no') := no.head;
        out := out + [ElseIfLine(c')];
        EmitNodes(yes', params, base + Count(no'));
        ghost var step := [ElseIfLine(c')] + Print(E.EmitNodes(yes', params, base + Count(no')));
        assert PrintMore(E.EmitElse(no, params, base)) == step + PrintMore(E.EmitElse(no', params, base));
        assert out == before + step;
        assert (before + step) + PrintMore(E.EmitElse(no', params, base)) ==
               before + (step + PrintMore(E.EmitElse(no', params, base)));
        no := no';
      }
      EmitLast(no, params, base);
    }

    /** Writes the else branch of a chain, if there is one, and the closing brace. */
    method EmitLast(no: Nodes, params: string, base: nat)
      requires !(no.Cons? && no.head.If? && no.tail.Nil?)
      modifies this`out
      ensures out == old(out) + PrintMore(E.EmitElse(no, params, base))
      decreases no, 3
    {
      EmptyOnlyForNil(no, params, base);
      hide E.EmitNodes, Print;
      if no.Nil? {
        out := out + [Close];
      } else {
        out := out + [ElseLine];
        EmitNodes(no, params, base);
        out := out + [Close];
      }
    }

    /** Writes a call: a builtin in place, or a component call with its children struct. */
    method EmitCall(n: Node, params: string, base: nat)
      requires n.Call?
      modifies this`out
      ensures out == old(out) + PrintOne(E.EmitNode(n, params, base))
      decreases n, 0
    {
      hide E.EmitNodes, Print, E.PassedName, E.PassedData, ModeOf, Count;
      var Call(callee, args, data, block) := n;
      if callee == "raw" {
        out := out + [RawLine(args)];
      } else if callee == "fragment" {
        out := out + [Open, FragBeginLine(args)];
        EmitNodes(block, params, base);
        out := out + [FragEndLine, Close];
      } else if callee == "once" {
        out := out + [OnceLine(args)];
        EmitNodes(block, params, base);
        out := out + [Close];
      } else if block.Nil? {
        out := out + [CallLine(E.ComponentName(callee), args)];
      } else {
        var mode := ModeOf(params, data);
        var fn := E.PassedName(mode, base + Count(block) + 1);
        out := out + [Open, StructLine(fn, E.PassedData(mode, data)), CallWithLine(E.ComponentName(callee), args),
          Close];
      }
    }

    /** Writes a function whose body is the statements for ns. */
    method EmitFunction(name: string, sig: Signature, ns: Nodes, params: string, base: nat)
      modifies this`out, this`file
      ensures file == old(file) + PrintDef(Def(name, sig, Code(E.EmitNodes(ns, params, base))))
    {
      hide E.EmitNodes, Print;
      out := [];
      EmitNodes(ns, params, base);
      assert [] + Print(E.EmitNodes(ns, params, base)) == Print(E.EmitNodes(ns, params, base));
      file := file + ([Header(name, sig)] + BodyLines(out) + [Footer]);
    }

    /** Writes the function of the i-th child block and, where needed, its adapter. */
    method EmitLambda(i: nat)
      requires i < |lambdas| && Count(lambdas[i].block) <= i
      modifies this`out, this`file
      ensures file == old(file) + PrintFile(DefsAt(lambdas[i], i))
    {
      hide E.EmitNodes, Print, PrintDef, BodyLines, ModeOf, E.BlockName, E.AdapterName;
      var Entry(block, params, data) := lambdas[i];
      var name := E.BlockName(i + 1);
      var mode := ModeOf(params, data);
      var sig := match mode case Untyped => DataPointer case Void0 => Bare case One(_) => Params(params);
      var base: nat := i - Count(block);
      EmitFunction(name, sig, block, params, base);
      ghost var first := Def(name, sig, Code(E.EmitNodes(block, params, base)));
      if mode.Untyped? {
        OneDef(first);
      } else {
        var adapter := Def(E.AdapterName(i + 1), DataPointer, Forward(name, mode.One?));
        TwoDefs(first, adapter);
        EmitAdapter(adapter.name, name, mode.One?);
        assert DefsAt(lambdas[i], i) == [first, adapter];
      }
    }

    method EmitAdapter(name: string, fn: string, pass: bool)
      modifies this`file
      ensures file == old(file) + PrintDef(Def(name, DataPointer, Forward(fn, pass)))
    {
      file := file + [Header(name, DataPointer), ForwardLine(fn, pass), Footer];
      assert [Header(name, DataPointer), ForwardLine(fn, pass), Footer] ==
             PrintDef(Def(name, DataPointer, Forward(fn, pass)));
    }

    /** Writes the generated file for the components: child functions first, in collected order. */
    method CompileFile(prog: seq<Component>)
      requires lambdas == [] && file == []
      modifies this
      ensures file == PrintFile(E.Compile(prog))
    {
      hide E.EmitNodes, PrintDef, PrintFile, DefsAt, EntryDefs, Entries;
      for i := 0 to |prog|
        invariant lambdas == AllEntries(prog, i) && file == []
      {
        CollectLambdas(prog[i].body, prog[i].params);
      }
      AllEntriesDefs(prog, |prog|);
      ghost var blocks := E.BlocksUpTo(prog, |prog|);
      NothingPrinted();
      for i := 0 to |lambdas|
        invariant lambdas == AllEntries(prog, |prog|)
        invariant file == PrintFile(EntryDefs(lambdas[..i], 0))
      {
        EntryFits(prog, |prog|, i);
        EmitLambda(i);
        NextEntry(lambdas, i);
        PrintFileAppend(EntryDefs(lambdas[..i], 0), DefsAt(lambdas[i], i));
      }
      assert lambdas[..|lambdas|] == lambdas;
      PrintFileAppend(blocks, []);
      assert blocks + [] == blocks;
      var base: nat := 0;
      for i := 0 to |prog|
        invariant base == E.BaseOf(prog, i)
        invariant file == PrintFile(blocks + E.ComponentsUpTo(prog, i))
      {
        var c := prog[i];
        EmitFunction(E.ComponentName(c.name), Params(c.params), c.body, c.params, base);
        OneDef(E.ComponentDef(c, base));
        PrintFileAppend(blocks + E.ComponentsUpTo(prog, i), [E.ComponentDef(c, base)]);
        assert blocks + E.ComponentsUpTo(prog, i + 1) ==
               (blocks + E.ComponentsUpTo(prog, i)) + [E.ComponentDef(c, base)];
        base := base + Count(c.body);
      }
    }
  }

  /** The entries of the first i components. */
  function AllEntries(prog: seq<Component>, i: nat): seq<Entry>
    requires i <= |prog|
  {
    if i == 0 then [] else AllEntries(prog, i - 1) + Entries(prog[i - 1].body, prog[i - 1].params)
  }

  lemma {:induction false} AllEntriesDefs(prog: seq<Component>, i: nat)
    requires i <= |prog|
    ensures |AllEntries(prog, i)| == E.BaseOf(prog, i)
    ensures EntryDefs(AllEntries(prog, i), 0) == E.BlocksUpTo(prog, i)
  {
    hide EntryDefs, Entries;
    if i == 0 {
      NoEntries(0);
    } else {
      AllEntriesDefs(prog, i - 1);
      var c := prog[i - 1];
      EntriesDefs(c.body, c.params, E.BaseOf(prog, i - 1));
      EntryDefsAppend(AllEntries(prog, i - 1), Entries(c.body, c.params), 0);
    }
  }

  /** Every collected block comes after the blocks inside it. */
  ghost predicate Fits(es: seq<Entry>, from: nat) {
    forall i :: 0 <= i < |es| ==> Count(es[i].block) <= from + i
  }

  lemma {:induction false} EntriesFit(ns: Nodes, params: string, from: nat)
    ensures Fits(Entries(ns, params), from)
    decreases ns, 1
  {
    hide NodeEntries;
    match ns
    case Nil =>
    case Cons(n, tail) =>
      NodeEntriesFit(n, params, from);
      EntriesFit(tail, params, from + CountNode(n));
  }

  lemma {:induction false} NodeEntriesFit(n: Node, params: string, from: nat)
    ensures Fits(NodeEntries(n, params), from)
    decreases n, 0
  {
    hide Entries;
    match n
    case Call(callee, _, data, block) => EntriesFit(block, params, from);
    case If(_, yes, no) =>
      EntriesFit(no, params, from);
      EntriesFit(yes, params, from + Count(no));
    case For(_, body) => EntriesFit(body, params, from);
    case _ =>
  }

  lemma {:induction false} AllFit(prog: seq<Component>, i: nat)
    requires i <= |prog|
    ensures Fits(AllEntries(prog, i), 0)
  {
    hide Entries;
    if i > 0 {
      AllFit(prog, i - 1);
      EntriesFit(prog[i - 1].body, prog[i - 1].params, |AllEntries(prog, i - 1)|);
    }
  }

  lemma EntryFits(prog: seq<Component>, n: nat, i: nat)
    requires n <= |prog| && i < |AllEntries(prog, n)|
    ensures Count(AllEntries(prog, n)[i].block) <= i
  {
    AllFit(prog, n);
    hide AllEntries;
  }

  lemma NextEntry(es: seq<Entry>, i: nat)
    requires i < |es|
    ensures EntryDefs(es[..i + 1], 0) == EntryDefs(es[..i], 0) + DefsAt(es[i], i)
  {
    hide DefsAt;
    assert es[..i + 1][..i] == es[..i];
  }

  lemma NothingPrinted()
    ensures PrintFile([]) == [] && EntryDefs([], 0) == []
  {
  }

  lemma OneDef(d: Def)
    ensures PrintFile([d]) == PrintDef(d)
  {
    hide PrintDef;
    assert [d][..0] == [];
    assert PrintFile([]) + PrintDef(d) == PrintDef(d);
  }

  lemma TwoDefs(a: Def, b: Def)
    ensures PrintFile([a, b]) == PrintDef(a) + PrintDef(b)
  {
    OneDef(a);
    hide PrintDef;
    assert [a, b][..1] == [a];
  }

  // ---- reading back ----

  lemma {:induction false} NodesChained(ns: Nodes, params: string, base: nat)
    ensures Chained(E.EmitNodes(ns, params, base))
    decreases ns, 1
  {
    hide E.TakeText, E.EmitNode;
    match ns
    case Nil =>
    case Cons(Text(_), _) => NodesChained(E.TakeText(ns, 0).1, params, base);
    case Cons(n, tail) =>
      NodeChained(n, params, base);
      NodesChained(tail, params, base + CountNode(n));
  }

  lemma {:induction false} NodeChained(n: Node, params: string, base: nat)
    ensures ChainedOne(E.EmitNode(n, params, base))
    decreases n, 0
  {
    hide E.EmitNodes;
    match n
    case For(_, body) => NodesChained(body, params, base);
    case If(_, yes, no) =>
      NodesChained(yes, params, base + Count(no));
      ElseChained(no, params, base);
    case Call(_, _, _, block) => NodesChained(block, params, base);
    case _ =>
  }

  lemma {:induction false} ElseChained(no: Nodes, params: string, base: nat)
    ensures ChainedMore(E.EmitElse(no, params, base))
    decreases no, 2
  {
    hide E.EmitNodes;
    match no
    case Cons(If(c, yes, no'), Nil) =>
      NodesChained(yes, params, base + Count(no'));
      ElseChained(no', params, base);
    case _ => NodesChained(no, params, base);
  }

  /** The lines written for a body read back as exactly the statements meant. */
  lemma LinesReadBack(ns: Nodes, params: string, base: nat)
    ensures Read(Print(E.EmitNodes(ns, params, base))) == Ok(E.EmitNodes(ns, params, base), [])
  {
    NodesChained(ns, params, base);
    var ss := E.EmitNodes(ns, params, base);
    ReadUndoesPrint(ss, []);
    assert Print(ss) + [] == Print(ss);
  }

  lemma PrintLiteral(content: string)
    ensures PrintOne(WriteLiteral(content)) == [LitLine(content)]
  {
  }

  lemma EmptyOnlyForNil(ns: Nodes, params: string, base: nat)
    ensures E.EmitNodes(ns, params, base).End? <==> ns.Nil?
  {
    hide E.TakeText, E.EmitNode;
  }
}
