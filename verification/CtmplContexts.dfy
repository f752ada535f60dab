/** Which escaping context, and so which writer, a value in a tag gets from the name of its attribute. */
module CtmplContexts {
  import opened Wrappers
  import opened Chars
  import opened CtmplAst
  import opened CtmplTag

  predicate IsUrlName(name: string) {
    Spells(name, "href") || Spells(name, "src") || Spells(name, "action") || Spells(name, "formaction") ||
    Spells(name, "poster") || Spells(name, "cite") || Spells(name, "background")
  }

  /** Three letters or more that begin with "on", or six that are or begin with "hx-on:". */
  predicate IsScriptName(name: string) {
    (|name| >= 3 && Spells(name[..2], "on")) || (|name| >= 6 && Spells(name[..6], "hx-on:"))
  }

  lemma InWords(name: string, words: seq<string>)
    requires forall i :: 0 <= i < |words| ==> IsLower(words[i])
    ensures Lower(name) in words <==> exists i :: 0 <= i < |words| && Spells(name, words[i])
  {
    forall i | 0 <= i < |words|
      ensures Lower(name) == words[i] <==> Spells(name, words[i])
    {
      LowerSpells(name, words[i]);
    }
    hide Lower, Spells;
  }

  lemma UrlsAreLower()
    ensures forall i :: 0 <= i < |URLS| ==> IsLower(URLS[i])
  {
    assert IsLower("href") && IsLower("src") && IsLower("action") && IsLower("formaction");
    assert IsLower("poster") && IsLower("cite") && IsLower("background");
    hide IsLower;
  }

  lemma UrlNames(name: string)
    ensures Lower(name) in URLS <==> IsUrlName(name)
  {
    UrlsAreLower();
    InWords(name, URLS);
    hide Lower, Spells, IsLower;
    assert URLS == ["href", "src", "action", "formaction", "poster", "cite", "background"];
    assert IsUrlName(name) <==>
           Spells(name, URLS[0]) || Spells(name, URLS[1]) || Spells(name, URLS[2]) || Spells(name, URLS[3]) ||
           Spells(name, URLS[4]) || Spells(name, URLS[5]) || Spells(name, URLS[6]);
  }

  lemma NotBoth(name: string)
    ensures IsUrlName(name) ==> !IsScriptName(name)
    ensures Spells(name, "style") ==> !IsScriptName(name) && !IsUrlName(name)
  {
    if name != "" {
      assert IsScriptName(name) ==> name[0] in {'o', 'O', 'h', 'H'};
      if |name| >= 6 && Spells(name[..6], "hx-on:") {
        assert name[..6][1] == name[1];
      }
    }
  }

  /** The context of every attribute name, with the names written out. */
  lemma AttrContextExactly(name: string)
    ensures AttrContext(name) == None <==> IsScriptName(name)
    ensures AttrContext(name) == Some(InUrl) <==> IsUrlName(name)
    ensures AttrContext(name) == Some(InCss) <==> Spells(name, "style")
    ensures AttrContext(name) == Some(InAttr) <==> !IsScriptName(name) && !IsUrlName(name) && !Spells(name, "style")
  {
    UrlNames(name);
    NotBoth(name);
    LowerSpells(name, "style");
    if |name| >= 3 {
      LowerSpells(name[..2], "on");
    }
    if |name| >= 6 {
      LowerSpells(name[..6], "hx-on:");
    }
    hide Lower, Spells, IsUrlName, URLS;
  }

  /** The tags that have no closing tag (the void elements of HTML), and the two with raw content. */
  lemma TagNamesExactly(name: string)
    ensures IsVoid(name) <==>
            Spells(name, "area") || Spells(name, "base") || Spells(name, "br") || Spells(name, "col") ||
            Spells(name, "embed") || Spells(name, "hr") || Spells(name, "img") || Spells(name, "input") ||
            Spells(name, "link") || Spells(name, "meta") || Spells(name, "param") || Spells(name, "source") ||
            Spells(name, "track") || Spells(name, "wbr")
    ensures IsRaw(name) <==> Spells(name, "script") || Spells(name, "style")
  {
    VoidsAreLower();
    InWords(name, VOIDS);
    LowerSpells(name, "script");
    LowerSpells(name, "style");
    hide Lower, Spells, IsLower;
    VoidWords(name);
  }

  lemma VoidsAreLower()
    ensures forall i :: 0 <= i < |VOIDS| ==> IsLower(VOIDS[i])
  {
    assert IsLower("area") && IsLower("base") && IsLower("br") && IsLower("col") && IsLower("embed");
    assert IsLower("hr") && IsLower("img") && IsLower("input") && IsLower("link") && IsLower("meta");
    assert IsLower("param") && IsLower("source") && IsLower("track") && IsLower("wbr");
    hide IsLower;
  }

  lemma VoidWords(name: string)
    ensures (exists i :: 0 <= i < |VOIDS| && Spells(name, VOIDS[i])) <==>
            Spells(name, "area") || Spells(name, "base") || Spells(name, "br") || Spells(name, "col") ||
            Spells(name, "embed") || Spells(name, "hr") || Spells(name, "img") || Spells(name, "input") ||
            Spells(name, "link") || Spells(name, "meta") || Spells(name, "param") || Spells(name, "source") ||
            Spells(name, "track") || Spells(name, "wbr")
  {
    hide Spells;
    assert |VOIDS| == 14 && VOIDS[0] == "area" && VOIDS[1] == "base" && VOIDS[2] == "br" && VOIDS[3] == "col";
    assert VOIDS[4] == "embed" && VOIDS[5] == "hr" && VOIDS[6] == "img" && VOIDS[7] == "input" && VOIDS[8] == "link";
    assert VOIDS[9] == "meta" && VOIDS[10] == "param" && VOIDS[11] == "source" && VOIDS[12] == "track";
    assert VOIDS[13] == "wbr";
  }

  /** Names of tags: a letter or underscore, then letters, digits, underscores and dashes. */
  lemma NameCharsExactly(c: char)
    ensures IsIdentStart(c) <==> 65 <= c as int <= 90 || 97 <= c as int <= 122 || c as int == 95
    ensures IsIdentChar(c) <==> IsIdentStart(c) || 48 <= c as int <= 57
    ensures IsNameChar(c) <==> IsIdentChar(c) || c as int == 45
  {
  }

  // ---- inside a tag ----

  predicate IsAttrName(name: string) {
    name != "" &&
    forall i :: 0 <= i < |name| ==> !IsSpace(name[i]) && name[i] != '=' && name[i] != '"' && name[i] != '\''
  }

  lemma {:induction false} NameRead(pl: Place, name: string)
    requires pl.quote == '\0' && forall i :: 0 <= i < |name| ==>
               !IsSpace(name[i]) && name[i] != '=' && name[i] != '"' && name[i] != '\''
    ensures AfterText(pl, name) == pl.(at := pl.at + |name|)
    decreases |name|
  {
    if name != [] {
      NameRead(pl, name[..|name| - 1]);
    }
  }

  lemma OneRead(pl: Place, c: char)
    ensures AfterText(pl, [c]) == StepChar(pl, c)
  {
    assert [c][..0] == [];
    hide StepChar;
  }

  /** Where the name of an attribute is found that stands outside quotes, with its quote if it has one. */
  lemma AttrRead(pl: Place, space: char, name: string, q: string)
    requires pl.quote == '\0' && IsSpace(space) && IsAttrName(name) && q in {"", "\"", "'"}
    ensures var r := AfterText(pl, [space] + (name + ("=" + q)));
            r.from == pl.at + 1 && r.to == pl.at + 1 + |name| && r.quote == (if q == "" then '\0' else q[0])
  {
    hide AfterText, IsTagText, StepChar, IsAttrName, IsSpace;
    TextAppend(pl, [space], name + ("=" + q));
    SpaceRead(pl, space);
    var a := pl.(at := pl.at + 1, from := pl.at + 1);
    TextAppend(a, name, "=" + q);
    AttrNameRead(a, name);
    var b := a.(at := a.at + |name|);
    TextAppend(b, "=", q);
    EqualsRead(b);
    QuoteRead(b.(at := b.at + 1, to := b.at), q);
  }

  lemma AttrNameRead(pl: Place, name: string)
    requires pl.quote == '\0' && IsAttrName(name)
    ensures AfterText(pl, name) == pl.(at := pl.at + |name|)
  {
    NameRead(pl, name);
  }

  lemma SpaceRead(pl: Place, space: char)
    requires pl.quote == '\0' && IsSpace(space)
    ensures AfterText(pl, [space]) == pl.(at := pl.at + 1, from := pl.at + 1)
  {
    OneRead(pl, space);
    hide AfterText;
  }

  lemma EqualsRead(pl: Place)
    requires pl.quote == '\0'
    ensures AfterText(pl, "=") == pl.(at := pl.at + 1, to := pl.at)
  {
    OneRead(pl, '=');
    hide AfterText;
  }

  /** Either quote opens a value. */
  lemma QuoteRead(pl: Place, q: string)
    requires pl.quote == '\0' && q in {"", "\"", "'"}
    ensures AfterText(pl, q) == pl.(at := pl.at + |q|, quote := if q == "" then '\0' else q[0])
  {
    if q != "" {
      assert q == [q[0]];
      OneRead(pl, q[0]);
    }
  }

  lemma {:induction false} PlacesCount(start: Place, ps: seq<Part>)
    requires start.at == 0
    ensures AfterParts(start, ps).at == |PartsSource(ps)|
  {
  }

  /**
   * The value behind an attribute name in an accepted tag: a URL for the seven URL attributes, a style
   * declaration for "style", a plain attribute value for every other name; never a script attribute.
   */
  lemma ValueContext(tag: OpenTag, i: nat, u: string, space: char, name: string, q: string)
    requires ProperTag(tag) && 0 < i < |tag.parts| && tag.parts[i - 1] == Plain(u + ([space] + (name + ("=" + q))))
    requires AfterText(AfterParts(StartPlace(TagName(tag)), tag.parts[..i - 1]), u).quote == '\0'
    requires IsSpace(space) && IsAttrName(name) && q in {"", "\"", "'"}
    requires tag.parts[i].Value? || tag.parts[i].Unquoted?
    ensures !IsScriptName(name)
    ensures tag.parts[i].ctx == if IsUrlName(name) then InUrl else if Spells(name, "style") then InCss else InAttr
    ensures Interp(Trim(tag.parts[i].inner), tag.parts[i].ctx) in PartNodes(tag.parts[i])
  {
    hide ProperParts, ProperPart, AfterText, IsAttrName, PartNodes, IsUrlName, IsScriptName, Spells, TagName;
    var start, ps := StartPlace(TagName(tag)), tag.parts;
    PartProper(start, ps, i);
    PlaceOf(start, ps, i, u, space, name, q);
    ContextOf(PartsSource(ps[..i]), AfterParts(start, ps[..i]), ps[i]);
    hide ProperTag, AfterParts, PartsSource, AttrContext;
    AttrContextExactly(name);
  }

  lemma PlaceOf(start: Place, ps: seq<Part>, i: nat, u: string, space: char, name: string, q: string)
    requires start.at == 0 && 0 < i <= |ps| && ps[i - 1] == Plain(u + ([space] + (name + ("=" + q))))
    requires AfterText(AfterParts(start, ps[..i - 1]), u).quote == '\0'
    requires IsSpace(space) && IsAttrName(name) && q in {"", "\"", "'"}
    ensures var s, pl := PartsSource(ps[..i]), AfterParts(start, ps[..i]);
            pl.from <= pl.to <= |s| && s[pl.from..pl.to] == name
  {
    hide AfterParts, PartsSource, AfterText, IsTagText, ProperParts, ProperPart, IsSpace, IsAttrName, PartsNodes;
    var before, text := PartsSource(ps[..i - 1]), u + ([space] + (name + ("=" + q)));
    var mid := AfterParts(start, ps[..i - 1]);
    PlacesCount(start, ps[..i - 1]);
    assert ps[..i] == ps[..i - 1] + [Plain(text)];
    PartAppend(start, ps[..i - 1], Plain(text));
    TextAppend(mid, u, [space] + (name + ("=" + q)));
    AttrRead(AfterText(mid, u), space, name, q);
    NameInside(before, u, space, name, q);
  }

  lemma NameInside(before: string, u: string, space: char, name: string, q: string)
    ensures var s, from := before + (u + ([space] + (name + ("=" + q)))), |before| + |u| + 1;
            from + |name| <= |s| && s[from..from + |name|] == name
  {
  }

  /** The context a part got is that of the name at its place. */
  lemma ContextOf(s: string, pl: Place, p: Part)
    requires ProperPart(s, pl, p) && (p.Value? || p.Unquoted?) && pl.from <= pl.to <= |s|
    ensures AttrContext(s[pl.from..pl.to]) == Some(p.ctx)
    ensures Interp(Trim(p.inner), p.ctx) in PartNodes(p)
  {
    hide AttrContext, IsExpr;
  }

  lemma {:induction false} PartProper(start: Place, ps: seq<Part>, i: nat)
    requires ProperParts(start, ps) && i < |ps|
    ensures ProperPart(PartsSource(ps[..i]), AfterParts(start, ps[..i]), ps[i])
    decreases |ps|
  {
    hide ProperPart;
    if i < |ps| - 1 {
      PartProper(start, ps[..|ps| - 1], i);
      assert ps[..|ps| - 1][..i] == ps[..i];
    } else {
      assert ps[..i] == ps[..|ps| - 1];
    }
  }
}
