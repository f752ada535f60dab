/**
 * The template runtime on values: what each runtime call does to one render, and the meaning of
 * the fragment selection and of the render-once registry for whole templates.
 */
module TplRuntime {
  import opened Wrappers

  type Handle = nat

  /**
   * One render: the output, the selected fragment (if any), the number of open fragment blocks,
   * the depth of the block that matched (0 while discarding), and the handles already fired.
   */
  datatype Render = Render(data: string, sel: Option<string>, depth: int, matched: int, fired: seq<Handle>)

  function Lit(r: Render, s: string): Render {
    if r.sel.Some? && r.matched <= 0 then r else r.(data := r.data + s)
  }

  function FragSelect(r: Render, name: Option<string>): Render {
    r.(sel := name, depth := 0, matched := 0)
  }

  function FragBegin(r: Render, name: Option<string>): Render {
    if r.sel.None? then r else
    var r' := r.(depth := r.depth + 1);
    if r'.matched > 0 then r'
    else if name.Some? && r.sel.value == name.value then r'.(matched := r'.depth)
    else r'
  }

  function FragEnd(r: Render): Render {
    if r.sel.None? then r else
    var r' := r.(depth := r.depth - 1);
    if r'.matched > r'.depth then r'.(matched := 0) else r'
  }

  /** Whether this is the handle's first time, and the render afterwards. */
  function OnceBegin(r: Render, h: Handle): (bool, Render) {
    if h in r.fired then (false, r) else (true, r.(fired := r.fired + [h]))
  }

  /** A fresh render; all output is kept unless a fragment gets selected. */
  const EMPTY := Render("", None, 0, 0, [])

  // ---- fragments and once blocks as a tree ----

  datatype Tree =
    | Leaf(text: string)
    | Fragment(name: Option<string>, children: Trees)
    | Once(handle: Handle, children: Trees)

  datatype Trees = Stop | More(head: Tree, tail: Trees)

  /** The runtime calls that generated code makes for the trees, in order. */
  function Execute(ts: Trees, r: Render): Render
    decreases ts
  {
    match ts
    case Stop => r
    case More(t, tail) => Execute(tail, ExecuteOne(t, r))
  }

  function ExecuteOne(t: Tree, r: Render): Render
    decreases t
  {
    match t
    case Leaf(text) => Lit(r, text)
    case Fragment(name, children) => FragEnd(Execute(children, FragBegin(r, name)))
    case Once(h, children) =>
      var (first, r') := OnceBegin(r, h);
      if first then Execute(children, r') else r'
  }

  /** Which handles have fired after the trees: the selection plays no part in it. */
  function FiredAfter(ts: Trees, fired: seq<Handle>): seq<Handle>
    decreases ts
  {
    match ts
    case Stop => fired
    case More(Leaf(_), tail) => FiredAfter(tail, fired)
    case More(Fragment(_, children), tail) => FiredAfter(tail, FiredAfter(children, fired))
    case More(Once(h, children), tail) =>
      FiredAfter(tail, if h in fired then fired else FiredAfter(children, fired + [h]))
  }

  /** The text under an ancestor with the selected name; `inside` says there is one already. */
  function Selected(ts: Trees, sel: Option<string>, inside: bool, fired: seq<Handle>): string
    decreases ts
  {
    match ts
    case Stop => ""
    case More(Leaf(text), tail) => (if inside then text else "") + Selected(tail, sel, inside, fired)
    case More(Fragment(name, children), tail) =>
      Selected(children, sel, inside || (sel.Some? && name == sel), fired)
      + Selected(tail, sel, inside, FiredAfter(children, fired))
    case More(Once(h, children), tail) =>
      if h in fired then Selected(tail, sel, inside, fired)
      else Selected(children, sel, inside, fired + [h])
           + Selected(tail, sel, inside, FiredAfter(children, fired + [h]))
  }

  /** Between blocks: the matching block, if there is one, is open. */
  predicate Consistent(r: Render) {
    0 <= r.matched <= r.depth
  }

  predicate Keeps(r: Render) {
    r.sel.None? || r.matched > 0
  }

  /**
   * The depth and match automaton refines the tree filter: it appends exactly the selected text,
   * leaves its counters as they were, and fires the once blocks that the tree alone determines.
   */
  lemma {:induction false} ExecuteIsFilter(ts: Trees, r: Render)
    requires Consistent(r)
    ensures Execute(ts, r) ==
            r.(data := r.data + Selected(ts, r.sel, Keeps(r), r.fired), fired := FiredAfter(ts, r.fired))
    decreases ts
  {
    match ts
    case Stop =>
    case More(Leaf(text), tail) =>
      ExecuteIsFilter(tail, Lit(r, text));
    case More(Fragment(name, children), tail) =>
      var r1 := FragBegin(r, name);
      ExecuteIsFilter(children, r1);
      var r2 := FragEnd(Execute(children, r1));
      assert Keeps(r1) == (Keeps(r) || (r.sel.Some? && name == r.sel));
      assert r2 == r.(data := r2.data, fired := r2.fired);
      ExecuteIsFilter(tail, r2);
    case More(Once(h, children), tail) =>
      if h in r.fired {
        ExecuteIsFilter(tail, r);
      } else {
        var r1 := r.(fired := r.fired + [h]);
        ExecuteIsFilter(children, r1);
        ExecuteIsFilter(tail, Execute(children, r1));
      }
  }

  /** Selecting a fragment keeps the text under it, and never changes which once blocks fire. */
  lemma SelectionFilters(ts: Trees, name: string)
    ensures var all, part := Execute(ts, EMPTY), Execute(ts, FragSelect(EMPTY, Some(name)));
            && part.data == Selected(ts, Some(name), false, [])
            && all.data == Selected(ts, None, true, [])
            && part.fired == all.fired == FiredAfter(ts, [])
            && part.depth == 0 && part.matched == 0
  {
    ExecuteIsFilter(ts, EMPTY);
    ExecuteIsFilter(ts, FragSelect(EMPTY, Some(name)));
  }

  /** No handle fires twice in one render. */
  lemma {:induction false} FiresOnce(ts: Trees, fired: seq<Handle>)
    requires forall i, j :: 0 <= i < j < |fired| ==> fired[i] != fired[j]
    ensures var after := FiredAfter(ts, fired);
            fired <= after && forall i, j :: 0 <= i < j < |after| ==> after[i] != after[j]
    decreases ts
  {
    match ts
    case Stop =>
    case More(Leaf(_), tail) => FiresOnce(tail, fired);
    case More(Fragment(_, children), tail) =>
      FiresOnce(children, fired);
      FiresOnce(tail, FiredAfter(children, fired));
    case More(Once(h, children), tail) =>
      if h in fired {
        FiresOnce(tail, fired);
      } else {
        FiresOnce(children, fired + [h]);
        FiresOnce(tail, FiredAfter(children, fired + [h]));
      }
  }
}
