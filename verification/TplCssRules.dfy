/** What the style sanitizer calls unsafe, with the words and characters written out. */
module TplCssRules {
  import opened Chars
  import opened TplCss

  /** The lower-case word w stands somewhere in v, in any letter case. */
  ghost predicate Has(v: string, w: string) {
    exists p: nat :: SpellsAt(v, p, w)
  }

  lemma ContainsIsHas(v: string, w: string)
    requires IsLower(w)
    ensures ContainsNoCase(v, w) <==> Has(v, w)
  {
    forall p: nat
      ensures StartsNoCase(v, p, w) <==> SpellsAt(v, p, w)
      ensures StartsNoCase(v, p, w) ==> p <= |v|
    {
      StartsSpells(v, p, w);
    }
    hide StartsNoCase, SpellsAt;
  }

  /** A control character or an angle bracket, one of five words, or an unsafe url. */
  lemma UnsafeExactly(v: string)
    ensures ValueUnsafe(v) <==>
            || (exists i :: 0 <= i < |v| && (v[i] as int < 32 || v[i] as int == 127 || v[i] as int == 60 ||
                                             v[i] as int == 62))
            || Has(v, "javascript:") || Has(v, "vbscript:") || Has(v, "expression(") || Has(v, "behavior:")
            || Has(v, "@import")
            || UrlUnsafe(v, 0)
  {
    Words(v);
    forall i | 0 <= i < |v|
      ensures ControlChar(v[i]) <==>
              v[i] as int < 32 || v[i] as int == 127 || v[i] as int == 60 || v[i] as int == 62
    {
      ControlExactly(v[i]);
    }
    hide ControlChar, ContainsNoCase, Has, UrlUnsafe;
  }

  lemma ControlExactly(c: char)
    ensures ControlChar(c) <==> c as int < 32 || c as int == 127 || c as int == 60 || c as int == 62
  {
  }

  lemma Words(v: string)
    ensures (exists k :: 0 <= k < |SCRIPTS| && ContainsNoCase(v, SCRIPTS[k])) <==>
            Has(v, "javascript:") || Has(v, "vbscript:") || Has(v, "expression(") || Has(v, "behavior:") ||
            Has(v, "@import")
  {
    ContainsIsHas(v, "javascript:");
    ContainsIsHas(v, "vbscript:");
    ContainsIsHas(v, "expression(");
    ContainsIsHas(v, "behavior:");
    ContainsIsHas(v, "@import");
    hide ContainsNoCase, Has;
    assert SCRIPTS[0] == "javascript:" && SCRIPTS[1] == "vbscript:" && SCRIPTS[2] == "expression(";
    assert SCRIPTS[3] == "behavior:" && SCRIPTS[4] == "@import" && |SCRIPTS| == 5;
  }

  /** A property name: letters, digits and dashes, and no digit first. */
  lemma PropExactly(p: string)
    ensures PropValid(p) <==>
            && p != ""
            && !(48 <= p[0] as int <= 57)
            && forall i :: 0 <= i < |p| ==> 65 <= p[i] as int <= 90 || 97 <= p[i] as int <= 122 ||
                                            48 <= p[i] as int <= 57 || p[i] as int == 45
  {
  }

  lemma {:induction false} ColonAt(prop: string, rest: string)
    requires ':' !in prop
    ensures Colon(prop + (":" + rest)) == |prop|
  {
    if prop == "" {
      assert prop + (":" + rest) == ":" + rest;
    } else {
      assert (prop + (":" + rest))[1..] == prop[1..] + (":" + rest);
      ColonAt(prop[1..], rest);
    }
  }

  /** What a declaration becomes. */
  lemma FixExactly(prop: string, value: string)
    requires ':' !in prop
    ensures Fix(prop + (":" + value)) ==
            if !PropValid(prop) then "zctmplUnsafeCSS"
            else if ValueUnsafe(value) then prop + ":zctmplUnsafeCSS"
            else prop + (":" + value)
    ensures Fix(prop) == "zctmplUnsafeCSS"
  {
    hide PropValid, ValueUnsafe;
    var d := prop + (":" + value);
    ColonAt(prop, value);
    assert d[..|prop|] == prop && d[|prop| + 1..] == value;
    assert prop + ":" + "zctmplUnsafeCSS" == prop + ":zctmplUnsafeCSS";
    NoColon(prop);
  }

  lemma {:induction false} NoColon(d: string)
    requires ':' !in d
    ensures Colon(d) == |d|
  {
    if d != "" {
      NoColon(d[1..]);
    }
  }

  // ---- urls ----

  /** Text without "url(", then "url(" in some letter case, and what stands between the brackets. */
  datatype Url = Url(text: string, head: string, inner: string)

  function PrintUrl(u: Url, rest: string): string {
    (u.text + u.head) + (u.inner + (")" + rest))
  }

  function PrintUrls(us: seq<Url>, tail: string): string {
    if us == [] then tail else PrintUrl(us[0], PrintUrls(us[1..], tail))
  }

  /** "url(" stands nowhere in s before n. */
  predicate NoUrl(s: string, n: nat) {
    forall k :: 0 <= k < n ==> !SpellsAt(s, k, "url(")
  }

  predicate IsHead(head: string) {
    Spells(head, "url(")
  }

  predicate ProperUrl(u: Url) {
    IsHead(u.head) && NoUrl(u.text + u.head, |u.text|) && ')' !in u.inner
  }

  /** No scheme, or one of three. */
  predicate SafeUrl(inner: string) {
    || ':' !in inner
    || SpellsAt(inner, 0, "http://") || SpellsAt(inner, 0, "https://") || SpellsAt(inner, 0, "data:image")
  }

  lemma SafeExactly(inner: string)
    ensures UrlAllowed(inner) <==> SafeUrl(inner)
  {
    StartsSpells(inner, 0, "http://");
    StartsSpells(inner, 0, "https://");
    StartsSpells(inner, 0, "data:image");
    hide StartsNoCase, Spells;
  }

  lemma {:induction false} NextUrlAt(s: string, p: nat, u: nat)
    requires p <= u <= |s| && (u == |s| || StartsNoCase(s, u, "url("))
    requires forall k :: p <= k < u ==> !StartsNoCase(s, k, "url(")
    ensures NextUrl(s, p) == u
    decreases u - p
  {
    hide StartsNoCase;
    if p < u {
      NextUrlAt(s, p + 1, u);
    }
  }

  lemma {:induction false} NextCloseAt(s: string, p: nat, e: nat)
    requires p <= e <= |s| && (e == |s| || s[e] == ')') && forall k :: p <= k < e ==> s[k] != ')'
    ensures NextClose(s, p) == e
    decreases e - p
  {
    if p < e {
      NextCloseAt(s, p + 1, e);
    }
  }

  lemma SameSpelling(s: string, i: nat, t: string, j: nat, w: string)
    requires i + |w| <= |s| && j + |w| <= |t| && s[i..i + |w|] == t[j..j + |w|]
    ensures SpellsAt(s, i, w) <==> SpellsAt(t, j, w)
  {
  }

  /** Where the next "url(" stands, behind text that has none. */
  lemma NextUrlBehind(s: string, p: nat, text: string, head: string)
    requires StartsAt(s, p, text + head) && IsHead(head) && NoUrl(text + head, |text|)
    ensures |head| == 4 && NextUrl(s, p) == p + |text|
  {
    var t, k := text + head, p + |text|;
    assert |head| == 4;
    forall i | p <= i < k
      ensures !StartsNoCase(s, i, "url(")
    {
      StartsSpells(s, i, "url(");
      Inner(s, p, k + 4, i - p, i - p + 4);
      SameSpelling(s, i, t, i - p, "url(");
    }
    Inner(s, p, k + 4, |text|, |text| + 4);
    assert t[|text|..|text| + 4] == head;
    StartsSpells(s, k, "url(");
    hide StartsNoCase, Spells;
    NextUrlAt(s, p, k);
  }

  /** A url at the front of what is left of s. */
  lemma FrontUrl(s: string, p: nat, u: Url, rest: string)
    requires ProperUrl(u) && StartsAt(s, p, PrintUrl(u, rest))
    ensures |u.head| == 4
    ensures var k, e := p + |u.text|, p + |u.text| + 4 + |u.inner|;
            k + 4 <= e < |s| && NextUrl(s, p) == k && NextClose(s, k + 4) == e && s[k + 4..e] == u.inner &&
            StartsAt(s, e + 1, rest)
  {
    hide SpellsAt, NoUrl, IsHead, NextUrl, StartsAt, NextClose;
    StartsBoth(s, p, u.text + u.head, u.inner + (")" + rest));
    NextUrlBehind(s, p, u.text, u.head);
    CloseBehind(s, p + |u.text| + 4, u.inner, rest);
  }

  lemma CloseBehind(s: string, v: nat, inner: string, rest: string)
    requires StartsAt(s, v, inner + (")" + rest)) && ')' !in inner
    ensures var e := v + |inner|; v <= e < |s| && NextClose(s, v) == e && s[v..e] == inner && StartsAt(s, e + 1, rest)
  {
    StartsBoth(s, v, inner, ")" + rest);
    StartsBoth(s, v + |inner|, ")", rest);
    CharHere(s, v + |inner|, ')');
    forall i | v <= i < v + |inner|
      ensures s[i] != ')'
    {
      assert s[i] == s[v..v + |inner|][i - v];
    }
    NextCloseAt(s, v, v + |inner|);
  }

  /** The text t is all of s from p on. */
  predicate Leaves(s: string, p: nat, t: string) {
    p <= |s| && s[p..] == t
  }

  ghost predicate AnyUnsafe(us: seq<Url>) {
    exists i :: 0 <= i < |us| && !SafeUrl(us[i].inner)
  }

  predicate AllUrls(us: seq<Url>) {
    forall i :: 0 <= i < |us| ==> ProperUrl(us[i])
  }

  /** For every value made of urls and other text: it has an unsafe url exactly when one of them is unsafe. */
  lemma {:induction false} UrlsExactly(s: string, p: nat, us: seq<Url>, tail: string)
    requires Leaves(s, p, PrintUrls(us, tail)) && AllUrls(us) && NoUrl(tail, |tail|)
    ensures p <= |s| && (UrlUnsafe(s, p) <==> AnyUnsafe(us))
    decreases |us|
  {
    hide *;
    FirstUrl(us, tail);
    if us == [] {
      TailSafe(s, p, tail);
    } else {
      OneUrl(s, p, us[0], PrintUrls(us[1..], tail));
      UrlsExactly(s, p + |us[0].text| + 5 + |us[0].inner|, us[1..], tail);
    }
  }

  lemma FirstUrl(us: seq<Url>, tail: string)
    requires AllUrls(us)
    ensures us == [] ==> PrintUrls(us, tail) == tail && !AnyUnsafe(us)
    ensures us != [] ==>
              var u := us[0];
              && PrintUrls(us, tail) == PrintUrl(u, PrintUrls(us[1..], tail))
              && ProperUrl(u) && AllUrls(us[1..])
              && (AnyUnsafe(us) <==> !SafeUrl(u.inner) || AnyUnsafe(us[1..]))
  {
    hide ProperUrl, SafeUrl;
    if us != [] {
      assert forall i :: 0 <= i < |us| ==> us[i] == if i == 0 then us[0] else us[1..][i - 1];
    }
  }

  lemma OneUrl(s: string, p: nat, u: Url, rest: string)
    requires ProperUrl(u) && Leaves(s, p, PrintUrl(u, rest))
    ensures var e := p + |u.text| + 4 + |u.inner|;
            p <= |s| && e < |s| && Leaves(s, e + 1, rest) &&
            (UrlUnsafe(s, p) <==> !SafeUrl(u.inner) || UrlUnsafe(s, e + 1))
  {
    hide *;
    WholeStarts(s, p, PrintUrl(u, rest));
    FrontUrl(s, p, u, rest);
    SafeExactly(u.inner);
    Lengths(s, p, p + |u.text| + 5 + |u.inner|, u, rest);
    UrlStep(s, p);
  }

  lemma WholeStarts(s: string, p: nat, t: string)
    requires Leaves(s, p, t)
    ensures p <= |s| && StartsAt(s, p, t)
  {
  }

  lemma Lengths(s: string, p: nat, q: nat, u: Url, rest: string)
    requires Leaves(s, p, PrintUrl(u, rest)) && StartsAt(s, q, rest)
    requires q == p + |u.text| + |u.head| + |u.inner| + 1
    ensures Leaves(s, q, rest)
  {
  }

  lemma TailSafe(s: string, p: nat, tail: string)
    requires Leaves(s, p, tail) && NoUrl(tail, |tail|)
    ensures p <= |s| && !UrlUnsafe(s, p)
  {
    forall i | p <= i < |s|
      ensures !StartsNoCase(s, i, "url(")
    {
      StartsSpells(s, i, "url(");
      if i + 4 <= |s| {
        assert s[i..i + 4] == s[p..][i - p..i - p + 4];
        SameSpelling(s, i, tail, i - p, "url(");
      }
    }
    hide StartsNoCase, SpellsAt;
    NextUrlAt(s, p, |s|);
  }

  /** A url that is not closed is unsafe. */
  lemma OpenUrl(s: string, p: nat, text: string, head: string, rest: string)
    requires Leaves(s, p, (text + head) + rest) && ')' !in rest
    requires IsHead(head) && NoUrl(text + head, |text|)
    ensures p <= |s| && UrlUnsafe(s, p)
  {
    var k := p + |text|;
    WholeStarts(s, p, (text + head) + rest);
    StartsBoth(s, p, text + head, rest);
    NextUrlBehind(s, p, text, head);
    hide IsHead, NoUrl;
    assert s[k + 4..] == rest;
    NextCloseAt(s, k + 4, |s|);
  }
}
