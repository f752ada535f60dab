/**
 * The names of generated functions: child functions are named apart from each other and refer
 * only to earlier ones; the whole file is free of duplicates exactly when the component names are
 * distinct and none of them spells the name of a child function.
 */
module CtmplNames {
  import opened Wrappers
  import opened Chars
  import opened CtmplAst
  import opened CtmplTarget
  import opened CtmplEmit
  import opened CtmplPreserve

  // ---- decimal numbers ----

  lemma {:induction false} DecDigits(n: nat)
    ensures Dec(n) != [] && IsDigit(Dec(n)[|Dec(n)| - 1])
  {
  }

  lemma {:induction false} DecInjective(a: nat, b: nat)
    requires Dec(a) == Dec(b)
    ensures a == b
  {
    var s, t := Dec(a), Dec(b);
    if a >= 10 && b >= 10 {
      DecDigits(a / 10);
      assert s[..|s| - 1] == Dec(a / 10) && t[..|t| - 1] == Dec(b / 10);
      DecInjective(a / 10, b / 10);
      assert s[|s| - 1] == t[|t| - 1];
    } else {
      DecDigits(a / 10);
      DecDigits(b / 10);
    }
  }

  lemma BlockNamesApart(i: nat, j: nat)
    ensures BlockName(i) == BlockName(j) ==> i == j
    ensures AdapterName(i) == AdapterName(j) ==> i == j
    ensures BlockName(i) != AdapterName(j)
  {
    var p := "tpl__block_";
    assert BlockName(i) == p + Dec(i) && BlockName(j) == p + Dec(j);
    assert BlockName(i)[|p|..] == Dec(i) && BlockName(j)[|p|..] == Dec(j);
    if BlockName(i) == BlockName(j) {
      DecInjective(i, j);
    }
    var n := |BlockName(j)|;
    if AdapterName(i) == AdapterName(j) {
      assert |BlockName(i)| == n;
      assert AdapterName(i)[..n] == BlockName(i) && AdapterName(j)[..n] == BlockName(j);
      DecInjective(i, j);
    }
    DecDigits(i);
    var b, a := BlockName(i), AdapterName(j);
    assert b[|b| - 1] == Dec(i)[|Dec(i)| - 1];
    assert a[|a| - 1] == "_adapter"[7] == 'r';
    assert !IsDigit('r');
  }

  // ---- which names occur ----

  ghost predicate Named(ds: seq<Def>, name: string) {
    exists i :: 0 <= i < |ds| && ds[i].name == name
  }

  lemma NamedParts(a: seq<Def>, b: seq<Def>, name: string)
    ensures Named(a + b, name) <==> Named(a, name) || Named(b, name)
  {
    if Named(a, name) {
      var i :| 0 <= i < |a| && a[i].name == name;
      assert (a + b)[i].name == name;
    }
    if Named(b, name) {
      var i :| 0 <= i < |b| && b[i].name == name;
      assert (a + b)[|a| + i].name == name;
    }
  }

  /** The numbers of the child functions that get an adapter. */
  function Adapted(ns: Nodes, params: string, base: nat): set<nat>
    decreases ns
  {
    match ns
    case Nil => {}
    case Cons(n, tail) => AdaptedNode(n, params, base) + Adapted(tail, params, base + CountNode(n))
  }

  function AdaptedNode(n: Node, params: string, base: nat): set<nat>
    decreases n
  {
    match n
    case Call(callee, _, data, block) =>
      Adapted(block, params, base) +
      (if block.Cons? && !IsBuiltin(callee) && !ModeOf(params, data).Untyped? then {base + Count(block) + 1} else {})
    case If(_, yes, no) => Adapted(no, params, base) + Adapted(yes, params, base + Count(no))
    case For(_, body) => Adapted(body, params, base)
    case _ => {}
  }

  ghost predicate ChildName(name: string, lo: nat, hi: nat, adapted: set<nat>) {
    || (exists k :: lo < k <= hi && name == BlockName(k))
    || (exists k :: k in adapted && name == AdapterName(k))
  }

  lemma ChildNameParts(name: string, lo: nat, mid: nat, hi: nat, a: set<nat>, b: set<nat>)
    requires lo <= mid <= hi
    ensures ChildName(name, lo, hi, a + b) <==> ChildName(name, lo, mid, a) || ChildName(name, mid, hi, b)
  {
  }

  /** Exactly one function per number, and one adapter per block that needs it. */
  lemma {:induction false} NodesNamed(ns: Nodes, params: string, base: nat, name: string)
    ensures Named(NodesDefs(ns, params, base), name) <==>
              ChildName(name, base, base + Count(ns), Adapted(ns, params, base))
    decreases ns, 1
  {
    hide ChildName, Named, NodeDefs, AdaptedNode, BlockName, AdapterName;
    match ns
    case Nil => NothingNamed(name, base);
    case Cons(n, tail) =>
      var mid := base + CountNode(n);
      NodeNamed(n, params, base, name);
      NodesNamed(tail, params, mid, name);
      NamedParts(NodeDefs(n, params, base), NodesDefs(tail, params, mid), name);
      ChildNameParts(name, base, mid, mid + Count(tail), AdaptedNode(n, params, base), Adapted(tail, params, mid));
  }

  lemma NothingNamed(name: string, base: nat)
    ensures !Named([], name) && !ChildName(name, base, base, {})
  {
  }

  lemma BlockNamed(block: Nodes, params: string, data: Option<string>, base: nat, name: string)
    ensures var id := base + Count(block) + 1;
            Named(BlockDefs(block, params, data, base), name) <==>
            ChildName(name, id - 1, id, if ModeOf(params, data).Untyped? then {} else {id})
  {
    hide Count, ModeOf, EmitNodes, BlockName, AdapterName;
    var ds := BlockDefs(block, params, data, base);
    var id := base + Count(block) + 1;
    var adapted: set<nat> := if ModeOf(params, data).Untyped? then {} else {id};
    assert ds[0].name == BlockName(id);
    if ModeOf(params, data).Untyped? {
      assert |ds| == 1;
    } else {
      assert |ds| == 2 && ds[1].name == AdapterName(id);
    }
    if ChildName(name, id - 1, id, adapted) {
      if exists k :: id - 1 < k <= id && name == BlockName(k) {
        assert ds[0].name == name;
      } else {
        assert ds[1].name == name;
      }
    }
    if Named(ds, name) {
      assert id - 1 < id <= id;
      assert name == BlockName(id) || (id in adapted && name == AdapterName(id));
    }
  }

  lemma {:induction false} NodeNamed(n: Node, params: string, base: nat, name: string)
    ensures Named(NodeDefs(n, params, base), name) <==>
            ChildName(name, base, base + CountNode(n), AdaptedNode(n, params, base))
    decreases n, 0
  {
    hide ChildName, Named, BlockDefs, BlockName, AdapterName, ModeOf;
    NothingNamed(name, base);
    match n
    case Call(callee, _, data, block) =>
      NodesNamed(block, params, base, name);
      var inner, mid := NodesDefs(block, params, base), base + Count(block);
      if block.Cons? && !IsBuiltin(callee) {
        BlockNamed(block, params, data, base, name);
        NamedParts(inner, BlockDefs(block, params, data, base), name);
        ChildNameParts(name, base, mid, mid + 1, Adapted(block, params, base),
                       if ModeOf(params, data).Untyped? then {} else {mid + 1});
      } else {
        assert inner + [] == inner;
        assert Adapted(block, params, base) + {} == Adapted(block, params, base);
      }
    case If(_, yes, no) =>
      var mid := base + Count(no);
      NodesNamed(no, params, base, name);
      NodesNamed(yes, params, mid, name);
      NamedParts(NodesDefs(no, params, base), NodesDefs(yes, params, mid), name);
      ChildNameParts(name, base, mid, mid + Count(yes), Adapted(no, params, base), Adapted(yes, params, mid));
    case For(_, body) => NodesNamed(body, params, base, name);
    case _ =>
  }

  lemma NodesNames(ns: Nodes, params: string, base: nat)
    ensures forall name :: Named(NodesDefs(ns, params, base), name) <==>
                           ChildName(name, base, base + Count(ns), Adapted(ns, params, base))
  {
    forall name
      ensures Named(NodesDefs(ns, params, base), name) <==>
              ChildName(name, base, base + Count(ns), Adapted(ns, params, base))
    {
      NodesNamed(ns, params, base, name);
    }
  }

  lemma NodeNames(n: Node, params: string, base: nat)
    ensures forall name :: Named(NodeDefs(n, params, base), name) <==>
                           ChildName(name, base, base + CountNode(n), AdaptedNode(n, params, base))
  {
    forall name
      ensures Named(NodeDefs(n, params, base), name) <==>
              ChildName(name, base, base + CountNode(n), AdaptedNode(n, params, base))
    {
      NodeNamed(n, params, base, name);
    }
  }

  lemma BlockNames(block: Nodes, params: string, data: Option<string>, base: nat)
    ensures var id := base + Count(block) + 1;
            var adapted: set<nat> := if ModeOf(params, data).Untyped? then {} else {id};
            forall name :: Named(BlockDefs(block, params, data, base), name) <==> ChildName(name, id - 1, id, adapted)
  {
    var id := base + Count(block) + 1;
    var adapted: set<nat> := if ModeOf(params, data).Untyped? then {} else {id};
    forall name
      ensures Named(BlockDefs(block, params, data, base), name) <==> ChildName(name, id - 1, id, adapted)
    {
      BlockNamed(block, params, data, base, name);
    }
  }

  // ---- no name twice ----

  ghost predicate Distinct(ds: seq<Def>) {
    forall i, j :: 0 <= i < j < |ds| ==> ds[i].name != ds[j].name
  }

  lemma DistinctParts(a: seq<Def>, b: seq<Def>)
    ensures Distinct(a + b) <==>
            Distinct(a) && Distinct(b) && forall i :: 0 <= i < |a| ==> !Named(b, a[i].name)
  {
    var s := a + b;
    if Distinct(s) {
      forall i, j | 0 <= i < j < |b|
        ensures b[i].name != b[j].name
      {
        assert s[|a| + i] == b[i] && s[|a| + j] == b[j];
      }
      forall i, j | 0 <= i < j < |a|
        ensures a[i].name != a[j].name
      {
        assert s[i] == a[i] && s[j] == a[j];
      }
      forall i | 0 <= i < |a|
        ensures !Named(b, a[i].name)
      {
        forall j | 0 <= j < |b|
          ensures b[j].name != a[i].name
        {
          assert s[i] == a[i] && s[|a| + j] == b[j];
        }
      }
    }
    if Distinct(a) && Distinct(b) && forall i :: 0 <= i < |a| ==> !Named(b, a[i].name) {
      forall i, j | 0 <= i < j < |s|
        ensures s[i].name != s[j].name
      {
        if i < |a| && |a| <= j {
          assert !Named(b, a[i].name);
          assert b[j - |a|].name == s[j].name;
        }
      }
    }
  }

  lemma {:induction false} AdaptedInRange(ns: Nodes, params: string, base: nat)
    ensures forall k :: k in Adapted(ns, params, base) ==> base < k <= base + Count(ns)
    decreases ns, 1
  {
    hide ModeOf;
    match ns
    case Nil =>
    case Cons(n, tail) =>
      AdaptedNodeInRange(n, params, base);
      AdaptedInRange(tail, params, base + CountNode(n));
  }

  lemma {:induction false} AdaptedNodeInRange(n: Node, params: string, base: nat)
    ensures forall k :: k in AdaptedNode(n, params, base) ==> base < k <= base + CountNode(n)
    decreases n, 0
  {
    hide ModeOf;
    match n
    case Call(callee, _, data, block) => AdaptedInRange(block, params, base);
    case If(_, yes, no) =>
      AdaptedInRange(no, params, base);
      AdaptedInRange(yes, params, base + Count(no));
    case For(_, body) => AdaptedInRange(body, params, base);
    case _ =>
  }

  /** Child names from disjoint number ranges differ. */
  lemma RangesApart(a: string, b: string, lo: nat, mid: nat, hi: nat, s: set<nat>, t: set<nat>)
    requires ChildName(a, lo, mid, s) && ChildName(b, mid, hi, t)
    requires forall k :: k in s ==> lo < k <= mid
    requires forall k :: k in t ==> mid < k <= hi
    ensures a != b
  {
    forall i: nat, j: nat | lo < i <= mid && mid < j <= hi
      ensures BlockName(i) != BlockName(j) && AdapterName(i) != AdapterName(j)
      ensures BlockName(i) != AdapterName(j) && AdapterName(i) != BlockName(j)
    {
      BlockNamesApart(i, j);
      BlockNamesApart(j, i);
    }
  }

  /** Definitions with child names from disjoint ranges do not clash. */
  lemma JoinDistinct(a: seq<Def>, b: seq<Def>, lo: nat, mid: nat, hi: nat, s: set<nat>, t: set<nat>)
    requires Distinct(a) && Distinct(b)
    requires forall d :: Named(a, d) ==> ChildName(d, lo, mid, s)
    requires forall d :: Named(b, d) ==> ChildName(d, mid, hi, t)
    requires forall k :: k in s ==> lo < k <= mid
    requires forall k :: k in t ==> mid < k <= hi
    ensures Distinct(a + b)
  {
    hide ChildName;
    forall i | 0 <= i < |a|
      ensures !Named(b, a[i].name)
    {
      assert Named(a, a[i].name);
      if Named(b, a[i].name) {
        RangesApart(a[i].name, a[i].name, lo, mid, hi, s, t);
      }
    }
    DistinctParts(a, b);
  }

  lemma {:induction false} NodesDistinct(ns: Nodes, params: string, base: nat)
    ensures Distinct(NodesDefs(ns, params, base))
    decreases ns, 1
  {
    hide Distinct, ChildName, Named, NodeDefs;
    match ns
    case Nil => EmptyDistinct();
    case Cons(n, tail) =>
      var mid := base + CountNode(n);
      NodeDistinct(n, params, base);
      NodesDistinct(tail, params, mid);
      NodeNames(n, params, base);
      NodesNames(tail, params, mid);
      AdaptedNodeInRange(n, params, base);
      AdaptedInRange(tail, params, mid);
      JoinDistinct(NodeDefs(n, params, base), NodesDefs(tail, params, mid), base, mid, mid + Count(tail),
                   AdaptedNode(n, params, base), Adapted(tail, params, mid));
  }

  lemma EmptyDistinct()
    ensures Distinct([])
  {
  }

  lemma BlockDistinct(block: Nodes, params: string, data: Option<string>, base: nat)
    ensures Distinct(BlockDefs(block, params, data, base))
  {
    hide EmitNodes, Count, ModeOf, BlockName, AdapterName;
    BlockNamesApart(base + Count(block) + 1, base + Count(block) + 1);
  }

  lemma {:induction false} NodeDistinct(n: Node, params: string, base: nat)
    ensures Distinct(NodeDefs(n, params, base))
    decreases n, 0
  {
    hide Distinct, ChildName, Named, BlockDefs, ModeOf;
    EmptyDistinct();
    match n
    case Call(callee, _, data, block) =>
      NodesDistinct(block, params, base);
      var mid := base + Count(block);
      if block.Cons? && !IsBuiltin(callee) {
        BlockDistinct(block, params, data, base);
        var adapted: set<nat> := if ModeOf(params, data).Untyped? then {} else {mid + 1};
        NodesNames(block, params, base);
        BlockNames(block, params, data, base);
        AdaptedInRange(block, params, base);
        JoinDistinct(NodesDefs(block, params, base), BlockDefs(block, params, data, base), base, mid, mid + 1,
                     Adapted(block, params, base), adapted);
      } else {
        assert NodesDefs(block, params, base) + [] == NodesDefs(block, params, base);
      }
    case If(_, yes, no) =>
      var mid := base + Count(no);
      NodesDistinct(no, params, base);
      NodesDistinct(yes, params, mid);
      NodesNames(no, params, base);
      NodesNames(yes, params, mid);
      AdaptedInRange(no, params, base);
      AdaptedInRange(yes, params, mid);
      JoinDistinct(NodesDefs(no, params, base), NodesDefs(yes, params, mid), base, mid, mid + Count(yes),
                   Adapted(no, params, base), Adapted(yes, params, mid));
    case For(_, body) => NodesDistinct(body, params, base);
    case _ =>
  }

  // ---- whole programs ----

  /** The adapters of the first i components. */
  function AdaptedUpTo(prog: seq<Component>, i: nat): set<nat>
    requires i <= |prog|
  {
    if i == 0 then {}
    else AdaptedUpTo(prog, i - 1) + Adapted(prog[i - 1].body, prog[i - 1].params, BaseOf(prog, i - 1))
  }

  /** All child functions have names of their own, and these names are exactly the numbered ones. */
  lemma {:induction false} BlocksDistinct(prog: seq<Component>, i: nat)
    requires i <= |prog|
    ensures Distinct(BlocksUpTo(prog, i))
    ensures forall name :: Named(BlocksUpTo(prog, i), name) <==>
            ChildName(name, 0, BaseOf(prog, i), AdaptedUpTo(prog, i))
    ensures forall k :: k in AdaptedUpTo(prog, i) ==> 0 < k <= BaseOf(prog, i)
  {
    hide Distinct, ChildName, Named, NodesDefs, Adapted, Count;
    if i == 0 {
      EmptyDistinct();
      forall name
        ensures !Named([], name) && !ChildName(name, 0, 0, {})
      {
        NothingNamed(name, 0);
      }
    } else {
      BlocksDistinct(prog, i - 1);
      var c, lo := prog[i - 1], BaseOf(prog, i - 1);
      var hi := lo + Count(c.body);
      NodesDistinct(c.body, c.params, lo);
      AdaptedInRange(c.body, c.params, lo);
      NodesNames(c.body, c.params, lo);
      forall name
        ensures Named(BlocksUpTo(prog, i), name) <==> ChildName(name, 0, hi, AdaptedUpTo(prog, i))
      {
        NamedParts(BlocksUpTo(prog, i - 1), NodesDefs(c.body, c.params, lo), name);
        ChildNameParts(name, 0, lo, hi, AdaptedUpTo(prog, i - 1), Adapted(c.body, c.params, lo));
      }
      JoinDistinct(BlocksUpTo(prog, i - 1), NodesDefs(c.body, c.params, lo), 0, lo, hi,
                   AdaptedUpTo(prog, i - 1), Adapted(c.body, c.params, lo));
    }
  }

  lemma {:induction false} ComponentsAt(prog: seq<Component>, i: nat)
    requires i <= |prog|
    ensures |ComponentsUpTo(prog, i)| == i
    ensures forall j :: 0 <= j < i ==> ComponentsUpTo(prog, i)[j] == ComponentDef(prog[j], BaseOf(prog, j))
  {
    hide ComponentDef, BaseOf;
    if i > 0 {
      ComponentsAt(prog, i - 1);
    }
  }

  ghost predicate NamesDiffer(prog: seq<Component>) {
    forall i, j :: 0 <= i < j < |prog| ==> prog[i].name != prog[j].name
  }

  /** A component name that spells the rest of a child function's name. */
  ghost predicate Shadows(prog: seq<Component>, name: string) {
    || (exists k: nat :: 0 < k <= BaseOf(prog, |prog|) && name == "_block_" + Dec(k))
    || (exists k :: k in AdaptedUpTo(prog, |prog|) && name == "_block_" + Dec(k) + "_adapter")
  }

  lemma ComponentNamesApart(a: string, b: string)
    ensures ComponentName(a) == ComponentName(b) <==> a == b
  {
    assert ComponentName(a)[4..] == a && ComponentName(b)[4..] == b;
  }

  lemma ShadowsIsChildName(prog: seq<Component>, name: string)
    ensures Shadows(prog, name) <==>
            ChildName(ComponentName(name), 0, BaseOf(prog, |prog|), AdaptedUpTo(prog, |prog|))
  {
    hide BaseOf, AdaptedUpTo, Dec;
    var full, last, adapted := ComponentName(name), BaseOf(prog, |prog|), AdaptedUpTo(prog, |prog|);
    forall k: nat
      ensures full == BlockName(k) <==> name == "_block_" + Dec(k)
      ensures full == AdapterName(k) <==> name == "_block_" + Dec(k) + "_adapter"
    {
      ShadowedNumber(name, k);
    }
  }

  lemma ShadowedNumber(name: string, k: nat)
    ensures ComponentName(name) == BlockName(k) <==> name == "_block_" + Dec(k)
    ensures ComponentName(name) == AdapterName(k) <==> name == "_block_" + Dec(k) + "_adapter"
  {
    hide Dec;
    ComponentNamesApart(name, "_block_" + Dec(k));
    ComponentNamesApart(name, "_block_" + Dec(k) + "_adapter");
    assert AdapterName(k) == "tpl_" + ("_block_" + Dec(k) + "_adapter");
  }

  /**
   * Exactly when the generated file defines no name twice: the component names differ, and none
   * is "_block_k" or "_block_k_adapter" for a child function k of the file.
   */
  lemma NamesDistinctExactly(prog: seq<Component>)
    ensures Distinct(Compile(prog)) <==>
            NamesDiffer(prog) && forall i :: 0 <= i < |prog| ==> !Shadows(prog, prog[i].name)
  {
    var n := |prog|;
    var blocks, comps := BlocksUpTo(prog, n), ComponentsUpTo(prog, n);
    BlocksDistinct(prog, n);
    ComponentsAt(prog, n);
    DistinctParts(blocks, comps);
    hide BlocksUpTo, ComponentsUpTo, BaseOf, AdaptedUpTo, ChildName, Shadows;
    forall i | 0 <= i < n
      ensures Shadows(prog, prog[i].name) <==> Named(blocks, comps[i].name)
    {
      ShadowsIsChildName(prog, prog[i].name);
    }
    assert Distinct(comps) <==> NamesDiffer(prog) by {
      forall i, j | 0 <= i < j < n
        ensures comps[i].name != comps[j].name <==> prog[i].name != prog[j].name
      {
        ComponentNamesApart(prog[i].name, prog[j].name);
      }
    }
    CrossNames(blocks, comps);
  }

  lemma CrossNames(a: seq<Def>, b: seq<Def>)
    ensures (forall i :: 0 <= i < |a| ==> !Named(b, a[i].name)) <==> (forall i :: 0 <= i < |b| ==> !Named(a, b[i].name))
  {
  }

  // ---- from names to linking ----

  lemma {:induction false} LookupFinds(ds: seq<Def>, i: nat)
    requires Distinct(ds) && i < |ds|
    ensures Lookup(ds, ds[i].name) == Some(ds[i])
  {
    if i > 0 {
      assert forall j, k :: 0 <= j < k < |ds[1..]| ==> ds[1..][j] == ds[j + 1] && ds[1..][k] == ds[k + 1];
      LookupFinds(ds[1..], i - 1);
    }
  }

  lemma {:induction false} BlocksContain(prog: seq<Component>, i: nat, j: nat, d: Def)
    requires j < i <= |prog| && d in NodesDefs(prog[j].body, prog[j].params, BaseOf(prog, j))
    ensures d in BlocksUpTo(prog, i)
  {
    hide NodesDefs, BaseOf;
    if j < i - 1 {
      BlocksContain(prog, i - 1, j, d);
    }
  }

  /** A file without duplicate names links: every function is found under its name. */
  lemma DistinctLinks(prog: seq<Component>)
    requires Distinct(Compile(prog)) && forall i :: 0 <= i < |prog| ==> Clean(prog[i].body)
    ensures Linked(prog, Compile(prog))
  {
    hide Distinct, NodesDefs, Lookup, Clean, BaseOf;
    var n, defs := |prog|, Compile(prog);
    ComponentsAt(prog, n);
    forall j | 0 <= j < n
      ensures IsLinked(defs, prog[j])
    {
      var base := BaseOf(prog, j);
      assert defs[|BlocksUpTo(prog, n)| + j] == ComponentDef(prog[j], base);
      LookupFinds(defs, |BlocksUpTo(prog, n)| + j);
      forall d | d in NodesDefs(prog[j].body, prog[j].params, base)
        ensures Lookup(defs, d.name) == Some(d)
      {
        BlocksContain(prog, n, j, d);
        assert d in BlocksUpTo(prog, n) + ComponentsUpTo(prog, n);
        var i :| 0 <= i < |defs| && defs[i] == d;
        LookupFinds(defs, i);
      }
      assert LinkedAt(defs, prog[j], base);
    }
  }

  // ---- the other names of a generated file ----

  /** The functions the runtime header declares, without their prefix. */
  const RUNTIME_FUNCTIONS := {
    "lit", "lit_n", "raw", "raw_n", "esc", "attr", "int", "fmt", "url", "safe_url", "attr_url", "css", "css_safe",
    "attr_css", "ok", "str", "len", "out_free", "frag_select", "frag_begin", "frag_end", "once_begin"
  }

  /** What else the runtime header declares: its types, and one function without the prefix. */
  const RUNTIME_OTHERS := {"TplUrl", "TplCss", "TplOnce", "TplOut", "TplChildren", "http_res_html"}

  /** The list a component name is compared with. */
  const RESERVED := {
    "lit", "lit_n", "raw", "raw_n", "esc", "attr", "int", "fmt", "url", "ok", "str", "len", "fragment", "once"
  }

  predicate HasPrefix(name: string) {
    |name| >= 4 && name[..4] == "tpl_"
  }

  predicate IsRuntimeName(name: string) {
    name in RUNTIME_OTHERS || (HasPrefix(name) && name[4..] in RUNTIME_FUNCTIONS)
  }

  /** The compiler's test of a component name. */
  predicate IsReserved(name: string) {
    HasPrefix(name) || name in RESERVED
  }

  /** What the compiler checks about the names of a file: no handle twice, no reserved component name. */
  ghost predicate Checked(handles: seq<string>, prog: seq<Component>) {
    && (forall i, j :: 0 <= i < j < |handles| ==> handles[i] != handles[j])
    && (forall i :: 0 <= i < |prog| ==> !IsReserved(prog[i].name))
  }

  /** No name stands for two things at the file scope of the generated C file. */
  ghost predicate NoClash(handles: seq<string>, prog: seq<Component>) {
    && (forall i, j :: 0 <= i < j < |handles| ==> handles[i] != handles[j])
    && Distinct(Compile(prog))
    && (forall h :: h in handles ==> !IsRuntimeName(h) && !Named(Compile(prog), h))
    && (forall name :: Named(Compile(prog), name) ==> !IsRuntimeName(name))
  }

  lemma PrefixedName(name: string)
    ensures HasPrefix(ComponentName(name)) && ComponentName(name)[4..] == name
    ensures ComponentName(name) !in RUNTIME_OTHERS
    ensures IsRuntimeName(ComponentName(name)) <==> name in RUNTIME_FUNCTIONS
  {
    var full := ComponentName(name);
    assert full[..4] == "tpl_" && full[4..] == name;
    assert full[0] == 't';
  }

  /** What the runtime header declares, with and without the prefix, and what the compiler refuses. */
  lemma RuntimeNamesExactly(name: string)
    ensures IsRuntimeName(ComponentName(name)) <==>
            name in {"lit", "lit_n", "raw", "raw_n", "esc", "attr", "int", "fmt", "url", "safe_url", "attr_url", "css",
                     "css_safe", "attr_css", "ok", "str", "len", "out_free", "frag_select", "frag_begin", "frag_end",
                     "once_begin"}
    ensures !HasPrefix(name) ==>
              (IsRuntimeName(name) <==>
               name in {"TplUrl", "TplCss", "TplOnce", "TplOut", "TplChildren", "http_res_html"})
    ensures IsReserved(name) <==>
            HasPrefix(name) ||
            name in {"lit", "lit_n", "raw", "raw_n", "esc", "attr", "int", "fmt", "url", "ok", "str", "len",
                     "fragment", "once"}
  {
    PrefixedName(name);
  }

  /** The names the compiler lets through although the runtime header declares their function. */
  lemma UnguardedExactly(name: string)
    ensures !IsReserved(name) && IsRuntimeName(ComponentName(name)) <==>
            name in {"safe_url", "attr_url", "css", "css_safe", "attr_css", "out_free",
                     "frag_select", "frag_begin", "frag_end", "once_begin"}
  {
    PrefixedName(name);
    if name in RUNTIME_FUNCTIONS && name !in RESERVED {
      assert name[0] != 't';
    }
  }

  /** Child functions never have a name of the runtime. */
  lemma ChildNotRuntime(name: string, hi: nat, adapted: set<nat>)
    requires ChildName(name, 0, hi, adapted)
    ensures !IsRuntimeName(name)
  {
    hide Dec;
    if k: nat :| 0 < k <= hi && name == BlockName(k) {
      BlockNotRuntime(name, Dec(k));
    } else {
      var k :| k in adapted && name == AdapterName(k);
      assert name == "tpl_" + ("_block_" + (Dec(k) + "_adapter"));
      BlockNotRuntime(name, Dec(k) + "_adapter");
    }
  }

  lemma BlockNotRuntime(name: string, rest: string)
    requires name == "tpl_" + ("_block_" + rest)
    ensures !IsRuntimeName(name)
  {
    PrefixedName("_block_" + rest);
    assert ("_block_" + rest)[0] == '_';
  }

  /** The functions of a file: the child functions, and one function for every component. */
  ghost predicate Generated(prog: seq<Component>, name: string) {
    || ChildName(name, 0, BaseOf(prog, |prog|), AdaptedUpTo(prog, |prog|))
    || (exists i :: 0 <= i < |prog| && name == ComponentName(prog[i].name))
  }

  lemma NamedExactly(prog: seq<Component>, name: string)
    ensures Named(Compile(prog), name) <==> Generated(prog, name)
  {
    var n := |prog|;
    BlocksDistinct(prog, n);
    ComponentsAt(prog, n);
    NamedParts(BlocksUpTo(prog, n), ComponentsUpTo(prog, n), name);
    hide BlocksUpTo, ComponentsUpTo, BaseOf, AdaptedUpTo, ChildName;
    assert Named(ComponentsUpTo(prog, n), name) <==>
           (exists i :: 0 <= i < n && name == ComponentName(prog[i].name)) by {
      if i :| 0 <= i < n && name == ComponentName(prog[i].name) {
        assert ComponentsUpTo(prog, n)[i].name == name;
      }
    }
  }

  /**
   * Exactly when a file whose names pass the compiler's checks has no clash: the component names
   * differ, none spells the name of a child function, none is a function of the runtime, and no
   * handle is a name of the runtime or of a generated function.
   */
  lemma NoClashExactly(handles: seq<string>, prog: seq<Component>)
    requires Checked(handles, prog)
    ensures NoClash(handles, prog) <==>
            && NamesDiffer(prog)
            && (forall i :: 0 <= i < |prog| ==> !Shadows(prog, prog[i].name) && prog[i].name !in RUNTIME_FUNCTIONS)
            && (forall h :: h in handles ==> !IsRuntimeName(h) && !Generated(prog, h))
  {
    NamesDistinctExactly(prog);
    forall name
      ensures Named(Compile(prog), name) <==> Generated(prog, name)
    {
      NamedExactly(prog, name);
    }
    assert (forall name :: Named(Compile(prog), name) ==> !IsRuntimeName(name)) <==>
           (forall i :: 0 <= i < |prog| ==> prog[i].name !in RUNTIME_FUNCTIONS) by {
      GeneratedNotRuntime(prog);
    }
  }

  lemma GeneratedNotRuntime(prog: seq<Component>)
    ensures (forall name :: Generated(prog, name) ==> !IsRuntimeName(name)) <==>
            (forall i :: 0 <= i < |prog| ==> prog[i].name !in RUNTIME_FUNCTIONS)
  {
    hide IsRuntimeName, BaseOf, AdaptedUpTo, ChildName, ComponentName;
    forall i | 0 <= i < |prog|
      ensures Generated(prog, ComponentName(prog[i].name))
      ensures IsRuntimeName(ComponentName(prog[i].name)) <==> prog[i].name in RUNTIME_FUNCTIONS
    {
      PrefixedName(prog[i].name);
    }
    forall name | ChildName(name, 0, BaseOf(prog, |prog|), AdaptedUpTo(prog, |prog|))
      ensures !IsRuntimeName(name)
    {
      ChildNotRuntime(name, BaseOf(prog, |prog|), AdaptedUpTo(prog, |prog|));
    }
  }

  /** A component named "_block_1" beside a call with a child block: the file defines tpl__block_1 twice. */
  lemma ShadowExample()
    ensures !Distinct(Compile([Component("_block_1", "", Nil),
                               Component("page", "", Cons(Call("card", "", None, Cons(Text("x"), Nil)), Nil))]))
  {
    var block := Cons(Text("x"), Nil);
    var page := Component("page", "", Cons(Call("card", "", None, block), Nil));
    var prog := [Component("_block_1", "", Nil), page];
    assert Dec(1) == "1";
    assert Count(page.body) == 1 by {
      assert Count(block) == 0;
      assert CountNode(page.body.head) == 1;
      assert Count(page.body.tail) == 0;
    }
    assert BaseOf(prog, 2) == BaseOf(prog, 1) + 1;
    assert prog[0].name == "_block_" + Dec(1);
    assert Shadows(prog, prog[0].name);
    NamesDistinctExactly(prog);
  }

  /** A component named "css" passes the checks, but the runtime header declares tpl_css. */
  lemma RuntimeNameExample()
    ensures var prog := [Component("css", "", Cons(Text("x"), Nil))];
            Checked([], prog) && !NoClash([], prog)
  {
    UnguardedExactly("css");
    NoClashExactly([], [Component("css", "", Cons(Text("x"), Nil))]);
  }

  /** A handle named like the function of a component passes the checks too. */
  lemma HandleExample()
    ensures var prog := [Component("page", "", Cons(Text("x"), Nil))];
            Checked(["tpl_page"], prog) && !NoClash(["tpl_page"], prog)
  {
    var prog := [Component("page", "", Cons(Text("x"), Nil))];
    assert "page"[..4][0] == 'p';
    assert ComponentName(prog[0].name) == "tpl_page";
    assert Generated(prog, "tpl_page");
    NoClashExactly(["tpl_page"], prog);
  }
}
