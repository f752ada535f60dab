/** The output object of a render: a growable buffer, the fragment filter and the once registry. */
module TplOut {
  import opened Wrappers
  import opened TplRuntime
  import opened TplEscape

  const FIRST_CAP := 256

  lemma LitTwice(r: Render, a: string, b: string)
    ensures Lit(Lit(r, a), b) == Lit(r, a + b)
  {
    assert (r.data + a) + b == r.data + (a + b);
  }

  /** Escaping goes on through a run of plain characters. */
  lemma EscapeRun(r: Render, s: string, p: nat, hit: nat)
    requires p <= hit <= |s| && forall i :: p <= i < hit ==> !Special(s[i])
    ensures Lit(Lit(r, Escape(s[..p])), s[p..hit]) == Lit(r, Escape(s[..hit]))
  {
    EscapePlain(s[p..hit]);
    EscapeAppend(s[..p], s[p..hit]);
    assert s[..p] + s[p..hit] == s[..hit];
    LitTwice(r, Escape(s[..p]), s[p..hit]);
  }

  /** Escaping goes on over a special character. */
  lemma EscapeSpecial(r: Render, s: string, hit: nat)
    requires hit < |s| && Special(s[hit])
    ensures Lit(Lit(r, Escape(s[..hit])), Entity(s[hit])) == Lit(r, Escape(s[..hit + 1]))
  {
    EscapeAppend(s[..hit], [s[hit]]);
    assert Escape([s[hit]]) == Entity(s[hit]) + [] == Entity(s[hit]);
    assert s[..hit] + [s[hit]] == s[..hit + 1];
    LitTwice(r, Escape(s[..hit]), Entity(s[hit]));
  }

  class Output {
    var data: array<char>
    var len: nat
    var fragSel: Option<string>
    var fragDepth: int
    var fragMatch: int
    var onceFired: seq<Handle>

    ghost predicate Valid()
      reads this`data, this`len
    {
      len <= data.Length
    }

    /** The render this object stands for. */
    ghost function View(): Render
      requires Valid()
      reads this, data
    {
      Render(data[..len], fragSel, fragDepth, fragMatch, onceFired)
    }

    constructor ()
      ensures Valid() && fresh(data) && View() == EMPTY
    {
      data := new char[0];
      len, fragDepth, fragMatch := 0, 0, 0;
      fragSel, onceFired := None, [];
    }

    /** Makes room for n more characters, doubling the buffer. */
    method BufReserve(n: nat)
      requires Valid()
      modifies this`data
      ensures Valid() && len + n <= data.Length && (data == old(data) || fresh(data))
      ensures data[..len] == old(data[..len])
    {
      var need := len + n;
      if need <= data.Length {
        return;
      }
      var newCap := if data.Length == 0 then FIRST_CAP else data.Length;
      while newCap < need
        invariant newCap > 0 && newCap >= data.Length
        decreases need - newCap
      {
        newCap := newCap * 2;
      }
      var tmp := new char[newCap](i requires 0 <= i < newCap reads this, data => if i < data.Length then data[i]
        else '\0');
      data := tmp;
    }

    method LitN(s: string)
      requires Valid()
      modifies this`data, this`len, data
      ensures Valid() && (data == old(data) || fresh(data))
      ensures View() == Lit(old(View()), s)
    {
      if |s| == 0 {
        assert View().data + s == View().data;
        return;
      }
      if fragSel.Some? && fragMatch <= 0 {
        return;
      }
      BufReserve(|s|);
      ghost var before := data[..len];
      assert before + s[..0] == before;
      for i := 0 to |s|
        invariant Valid() && len == old(len) && len + |s| <= data.Length && (data == old(data) || fresh(data))
        invariant data[..len + i] == before + s[..i]
      {
        data[len + i] := s[i];
        assert data[..len + i + 1] == data[..len + i] + [s[i]];
        assert before + s[..i + 1] == before + s[..i] + [s[i]];
      }
      assert s[..|s|] == s;
      len := len + |s|;
    }

    /** Escapes s by copying runs of plain characters and replacing the special ones between them. */
    method WriteEscaped(s: string)
      requires Valid()
      modifies this`data, this`len, data
      ensures Valid() && (data == old(data) || fresh(data))
      ensures View() == Lit(old(View()), Escape(s))
    {
      hide Escape, Lit;
      var p := 0;
      LitNothing(View());
      while true
        invariant p <= |s| && Valid() && (data == old(data) || fresh(data))
        invariant View() == Lit(old(View()), Escape(s[..p]))
        decreases |s| - p
      {
        var hit := p;
        while hit < |s| && !Special(s[hit])
          invariant p <= hit <= |s|
          invariant forall i :: p <= i < hit ==> !Special(s[i])
        {
          hit := hit + 1;
        }
        LitN(s[p..hit]);
        EscapeRun(old(View()), s, p, hit);
        if hit == |s| {
          assert s[..hit] == s;
          return;
        }
        LitN(Entity(s[hit]));
        EscapeSpecial(old(View()), s, hit);
        p := hit + 1;
      }
    }

    method Select(name: Option<string>)
      requires Valid()
      modifies this`fragSel, this`fragDepth, this`fragMatch
      ensures View() == FragSelect(old(View()), name)
    {
      fragSel := name;
      fragDepth := 0;
      fragMatch := 0;
    }

    method BeginFragment(name: Option<string>)
      requires Valid()
      modifies this`fragDepth, this`fragMatch
      ensures View() == FragBegin(old(View()), name)
    {
      if fragSel.None? {
        return;
      }
      fragDepth := fragDepth + 1;
      if fragMatch > 0 {
        return;
      }
      if name.Some? && fragSel.value == name.value {
        fragMatch := fragDepth;
      }
    }

    method EndFragment()
      requires Valid()
      modifies this`fragDepth, this`fragMatch
      ensures View() == FragEnd(old(View()))
    {
      if fragSel.None? {
        return;
      }
      fragDepth := fragDepth - 1;
      if fragMatch > fragDepth {
        fragMatch := 0;
      }
    }

    /** True exactly the first time for each handle in a render. */
    method BeginOnce(handle: Handle) returns (first: bool)
      requires Valid()
      modifies this`onceFired
      ensures (first, View()) == OnceBegin(old(View()), handle)
    {
      for i := 0 to |onceFired|
        invariant forall j :: 0 <= j < i ==> onceFired[j] != handle
        invariant onceFired == old(onceFired)
      {
        if onceFired[i] == handle {
          return false;
        }
      }
      onceFired := onceFired + [handle];
      first := true;
    }
  }

  lemma LitNothing(r: Render)
    ensures Lit(r, Escape("")) == r
  {
    assert r.data + "" == r.data;
  }
}
