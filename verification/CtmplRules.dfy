/** Limits and names of the template compiler, written out. */
module CtmplRules {
  import opened Wrappers
  import opened Chars
  import opened CtmplAst
  import opened CtmplTag
  import opened CtmplGrammar
  import opened CtmplEmit

  /**
   * What is refused behind the attributes of an open tag: a slash before the '>' of a tag that is not
   * void, a 33rd open tag, and raw content without its closing tag; all else is accepted, and a tag that
   * is not void is open from then on.
   */
  lemma FinishExactly(s: string, name: string, a: Attrs, open: seq<string>)
    requires 2 <= a.end <= |s| && |open| <= 32
    ensures FinishAt(s, name, a, open).Some? <==>
            && (IsVoid(name) || !(s[a.end - 2] == '/' && s[a.end - 1] == '>'))
            && (IsVoid(name) || |open| < 32)
            && (IsRaw(name) ==> RawEnd(s, a.end, name) < |s|)
    ensures FinishAt(s, name, a, open).Some? ==>
              FinishAt(s, name, a, open).value.open == if IsVoid(name) then open else open + [name]
  {
  }

  /** Tag names have 31 characters at most. */
  lemma LongNameRefused(s: string, p: nat, open: seq<string>)
    requires p < |s|
    ensures OpenTagAt(s, p, open).Some? ==> 1 <= NameEnd(s, p + 1) - (p + 1) <= 31
    ensures p + 1 < |s| && NameEnd(s, p + 1) - (p + 1) == 31 && IsIdentStart(s[p + 1]) ==>
              OpenTagAt(s, p, open) ==
              match AttrsAt(s, p, [], p, p + 32, '\0', p + 32, p + 32)
              case None => None
              case Some(a) => FinishAt(s, s[p + 1..p + 32], a, open)
  {
  }

  // ---- numbers in names ----

  function DecValue(s: string): nat {
    if s == "" then 0
    else 10 * DecValue(s[..|s| - 1]) + (if IsDigit(s[|s| - 1]) then s[|s| - 1] as int - '0' as int else 0)
  }

  /** The number of a child function is written in decimal digits, the first of them not 0. */
  lemma {:induction false} DecReadsBack(n: nat)
    ensures DecValue(Dec(n)) == n && Dec(n) != "" && (forall i :: 0 <= i < |Dec(n)| ==> IsDigit(Dec(n)[i]))
    ensures n > 0 ==> Dec(n)[0] != '0'
  {
    if n >= 10 {
      DecReadsBack(n / 10);
      assert Dec(n)[..|Dec(n)| - 1] == Dec(n / 10);
    } else {
      assert Dec(n)[..0] == "";
    }
  }

  /** The names of child functions, their adapters and component functions. */
  lemma NamesWritten(id: nat, name: string)
    ensures BlockName(id) == "tpl__block_" + Dec(id) && AdapterName(id) == "tpl__block_" + Dec(id) + "_adapter"
    ensures ComponentName(name) == "tpl_" + name
  {
  }

  // ---- literals ----

  function TextLength(ns: Nodes, n: nat): nat {
    if n == 0 || ns.Nil? || !ns.head.Text? then 0 else |ns.head.text| + TextLength(ns.tail, n - 1)
  }

  /** Text nodes go into one literal until its length is above 4000; `n` of them do. */
  lemma {:induction false} TextTaken(ns: Nodes, total: nat) returns (n: nat)
    requires ns.Cons? && ns.head.Text?
    ensures n > 0 && |TakeText(ns, total).0| == TextLength(ns, n)
    ensures n > 1 ==> total + TextLength(ns, n - 1) <= 4000
    ensures var rest := TakeText(ns, total).1; rest.Cons? && rest.head.Text? ==> total + TextLength(ns, n) > 4000
    decreases ns
  {
    var sum := total + |ns.head.text|;
    n := 1;
    if sum <= LITERAL_MAX && ns.tail.Cons? && ns.tail.head.Text? {
      var m := TextTaken(ns.tail, sum);
      n := m + 1;
    }
  }
}
