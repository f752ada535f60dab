/** Looking up a string member of a top-level JSON object, and its correctness on printed objects. */
module JsonLookup {
  import opened Wrappers
  import opened Chars
  import opened JsonScan
  import opened JsonString

  // ---- JSON values with their white space ----

  datatype Value =
    | Str(units: seq<Unit>)
    | Num(text: string)
    | Word(text: string)
    | NoItems(gap: string)
    | Items(items: Slots)
    | NoMembers(gap: string)
    | Members(members: Fields)

  /** The elements of an array that is not empty, each between white space. */
  datatype Slots =
    | LastItem(before: string, value: Value, after: string)
    | MoreItems(before: string, value: Value, after: string, rest: Slots)

  datatype Fields =
    | LastField(field: Field)
    | MoreFields(field: Field, rest: Fields)

  datatype Field = Field(before: string, key: seq<Unit>, gap: string, gap2: string, value: Value, after: string)

  function Quoted(us: seq<Unit>): string {
    "\"" + (SourceOf(us) + "\"")
  }

  function Print(v: Value): string
    decreases v, 0
  {
    match v
    case Str(us) => Quoted(us)
    case Num(t) => t
    case Word(t) => t
    case NoItems(gap) => "[" + (gap + "]")
    case Items(items) => "[" + PrintItems(items)
    case NoMembers(gap) => "{" + (gap + "}")
    case Members(fields) => "{" + PrintFields(fields)
  }

  /** Up to and including the closing bracket. */
  function PrintItems(items: Slots): string
    decreases items, 0
  {
    match items
    case LastItem(before, v, after) => before + (Print(v) + (after + "]"))
    case MoreItems(before, v, after, rest) => before + (Print(v) + (after + ("," + PrintItems(rest))))
  }

  function PrintFields(fields: Fields): string
    decreases fields, 0
  {
    match fields
    case LastField(f) => PrintField(f, "}")
    case MoreFields(f, rest) => PrintField(f, "," + PrintFields(rest))
  }

  function PrintField(f: Field, next: string): string
    decreases f, 0
  {
    f.before + (Quoted(f.key) + (f.gap + (":" + (f.gap2 + (Print(f.value) + (f.after + next))))))
  }

  predicate AllWs(s: string) {
    forall i :: 0 <= i < |s| ==> IsWs(s[i])
  }

  /** Covers the numbers of RFC 8259, and more. */
  predicate IsNumber(t: string) {
    var d := if t != "" && t[0] == '-' then 1 else 0;
    d < |t| && IsDigit(t[d]) && forall i :: d <= i < |t| ==> IsNumChar(t[i])
  }

  predicate Proper(v: Value)
    decreases v, 0
  {
    match v
    case Str(us) => AllProper(us)
    case Num(t) => IsNumber(t)
    case Word(t) => t == "true" || t == "false" || t == "null"
    case NoItems(gap) => AllWs(gap)
    case Items(items) => ProperItems(items)
    case NoMembers(gap) => AllWs(gap)
    case Members(fields) => ProperFields(fields)
  }

  predicate ProperItems(items: Slots)
    decreases items, 0
  {
    AllWs(items.before) && Proper(items.value) && AllWs(items.after) && (items.MoreItems? ==> ProperItems(items.rest))
  }

  predicate ProperFields(fields: Fields)
    decreases fields, 0
  {
    ProperField(fields.field) && (fields.MoreFields? ==> ProperFields(fields.rest))
  }

  predicate ProperField(f: Field)
    decreases f, 0
  {
    AllWs(f.before) && AllProper(f.key) && AllWs(f.gap) && AllWs(f.gap2) && Proper(f.value) && AllWs(f.after)
  }

  /** How deep arrays and objects with something in them are nested; a key counts as nested in its object. */
  function Nest(v: Value): nat
    decreases v, 0
  {
    match v
    case Items(items) => 1 + NestItems(items)
    case Members(fields) => 1 + NestFields(fields)
    case _ => 0
  }

  function NestItems(items: Slots): nat
    decreases items, 0
  {
    match items
    case LastItem(_, v, _) => Nest(v)
    case MoreItems(_, v, _, rest) => if Nest(v) > NestItems(rest) then Nest(v) else NestItems(rest)
  }

  function NestFields(fields: Fields): nat
    decreases fields, 0
  {
    match fields
    case LastField(f) => Nest(f.value)
    case MoreFields(f, rest) => if Nest(f.value) > NestFields(rest) then Nest(f.value) else NestFields(rest)
  }

  // ---- skipping printed values ----

  lemma {:induction false} WsSkips(s: string, p: nat, gap: string)
    requires StartsAt(s, p, gap) && AllWs(gap) && !IsWs(At(s, p + |gap|))
    ensures Ws(s, p) == p + |gap|
    decreases |gap|
  {
    if gap != "" {
      assert s[p] == s[p..p + |gap|][0] == gap[0];
      assert s[p + 1..p + |gap|] == s[p..p + |gap|][1..];
      WsSkips(s, p + 1, gap[1..]);
    }
  }

  /** The first character of a value tells it from white space and closing brackets. */
  lemma FirstOf(s: string, p: nat, v: Value)
    requires Proper(v) && StartsAt(s, p, Print(v))
    ensures p < |s| && !IsWs(s[p]) && s[p] != ']' && s[p] != '}'
    ensures s[p] == '"' <==> v.Str?
    ensures s[p] == '[' <==> v.NoItems? || v.Items?
    ensures s[p] == '{' <==> v.NoMembers? || v.Members?
  {
    hide SourceOf, PrintItems, PrintFields, ProperItems, ProperFields, AllProper;
    var t := Print(v);
    assert t != "" && s[p..p + |t|][0] == s[p];
  }

  lemma {:induction false} NumberSkips(s: string, p: nat, t: string)
    requires StartsAt(s, p, t) && (forall i :: 0 <= i < |t| ==> IsNumChar(t[i])) && !IsNumChar(At(s, p + |t|))
    ensures NumEnd(s, p) == p + |t|
    decreases |t|
  {
    if t != "" {
      assert s[p] == s[p..p + |t|][0];
      assert s[p + 1..p + |t|] == s[p..p + |t|][1..];
      NumberSkips(s, p + 1, t[1..]);
    }
  }

  lemma NotWord(s: string, p: nat, w: string)
    requires p < |s| && w != "" && s[p] != w[0]
    ensures !StartsAt(s, p, w)
  {
    assert p + |w| <= |s| ==> s[p..p + |w|][0] == s[p];
  }

  lemma WordSkips(s: string, p: nat, t: string)
    requires (t == "true" || t == "false" || t == "null") && StartsAt(s, p, t)
    ensures p < |s| && ScalarEnd(s, p) == Some(p + |t|)
  {
    hide NumEnd;
    FirstChar(s, p, t);
    if t[0] != 't' {
      NotWord(s, p, "true");
    }
    if t[0] != 'f' {
      NotWord(s, p, "false");
    }
  }

  lemma NumSkips(s: string, p: nat, t: string)
    requires IsNumber(t) && StartsAt(s, p, t) && !IsNumChar(At(s, p + |t|))
    ensures p < |s| && ScalarEnd(s, p) == Some(p + |t|)
  {
    hide NumEnd;
    var d := if t[0] == '-' then 1 else 0;
    FirstChar(s, p, t);
    NotWord(s, p, "true");
    NotWord(s, p, "false");
    NotWord(s, p, "null");
    assert t == t[..d] + t[d..];
    StartsBoth(s, p, t[..d], t[d..]);
    FirstChar(s, p + d, t[d..]);
    NumberSkips(s, p + d, t[d..]);
    NumStep(s, p + d);
  }

  lemma NumStep(s: string, p: nat)
    requires p < |s| && IsDigit(s[p])
    ensures NumEnd(s, p) == NumEnd(s, p + 1)
  {
  }

  lemma ScalarSkips(s: string, p: nat, v: Value, depth: int)
    requires (v.Num? || v.Word?) && Proper(v) && StartsAt(s, p, Print(v)) && !IsNumChar(At(s, p + |Print(v)|)) &&
             depth >= 0
    ensures Skip(s, p, depth) == Some(p + |Print(v)|)
  {
    hide ScalarEnd, IsNumber, StartsAt, StringEnd, SkipItems, SkipMembers;
    FirstOf(s, p, v);
    if v.Num? {
      NumSkips(s, p, v.text);
    } else {
      WordSkips(s, p, v.text);
    }
  }

  /**
   * Skipping a printed value lands behind it exactly when it is not nested too deep. What follows
   * must not continue a number.
   */
  lemma {:induction false} SkipPrinted(s: string, p: nat, v: Value, depth: int)
    requires Proper(v) && StartsAt(s, p, Print(v)) && !IsNumChar(At(s, p + |Print(v)|))
    ensures Skip(s, p, depth) == if Nest(v) <= depth then Some(p + |Print(v)|) else None
    decreases v, 0
  {
    hide Skip, StartsAt, Quoted, PrintItems, PrintFields, NestItems, NestFields, AllProper, AllWs, IsNumber,
         ProperItems, ProperFields;
    if depth < 0 {
      SkipTooDeep(s, p, v, depth);
    } else {
      match v
      case Str(us) => StringSkipped(s, p, us, depth);
      case NoItems(gap) => EmptySkips(s, p, gap, '[', ']', depth);
      case NoMembers(gap) => EmptySkips(s, p, gap, '{', '}', depth);
      case Items(items) => ArraySkips(s, p, items, depth);
      case Members(fields) => ObjectSkips(s, p, fields, depth);
      case _ => ScalarSkips(s, p, v, depth);
    }
  }

  lemma {:induction false} ArraySkips(s: string, p: nat, items: Slots, depth: int)
    requires ProperItems(items) && StartsAt(s, p, "[" + PrintItems(items)) && depth >= 0
    ensures p < |s| && Skip(s, p, depth) == if NestItems(items) < depth then Some(p + 1 + |PrintItems(items)|) else None
    decreases items, 1
  {
    hide Skip, StartsAt, PrintItems, NestItems, ProperItems, Ws, SkipItems;
    StartsBoth(s, p, "[", PrintItems(items));
    CharHere(s, p, '[');
    ItemsSkip(s, p + 1, items, depth);
    ArrayUnfolds(s, p, depth);
  }

  lemma {:induction false} ObjectSkips(s: string, p: nat, fields: Fields, depth: int)
    requires ProperFields(fields) && StartsAt(s, p, "{" + PrintFields(fields)) && depth >= 0
    ensures p < |s| && Skip(s, p, depth) == if NestFields(fields) < depth then Some(p + 1 + |PrintFields(fields)|)
            else None
    decreases fields, 1
  {
    hide Skip, StartsAt, PrintFields, NestFields, ProperFields, Ws, SkipMembers;
    StartsBoth(s, p, "{", PrintFields(fields));
    CharHere(s, p, '{');
    FieldsSkip(s, p + 1, fields, depth);
    ObjectUnfolds(s, p, depth);
  }

  lemma SkipTooDeep(s: string, p: nat, v: Value, depth: int)
    requires Proper(v) && StartsAt(s, p, Print(v)) && depth < 0
    ensures p < |s| && Skip(s, p, depth) == None
  {
    hide Proper, Print;
    FirstOf(s, p, v);
  }

  lemma StringHere(s: string, p: nat, us: seq<Unit>)
    requires AllProper(us) && StartsAt(s, p, Quoted(us))
    ensures p < |s| && s[p] == '"' && StringEnd(s, p + 1) == Some(p + |Quoted(us)|)
    ensures StartsAt(s, p + 1, SourceOf(us) + "\"")
  {
    hide SourceOf, StringEnd, AllProper;
    StartsBoth(s, p, "\"", SourceOf(us) + "\"");
    CharHere(s, p, '"');
    StringSkips(s, p + 1, us);
  }

  lemma StringSkipped(s: string, p: nat, us: seq<Unit>, depth: int)
    requires AllProper(us) && StartsAt(s, p, Quoted(us))
    ensures p < |s| && s[p] == '"' && Skip(s, p, depth) == if 0 <= depth then Some(p + |Quoted(us)|) else None
  {
    hide SourceOf, StringEnd, AllProper;
    StringHere(s, p, us);
  }

  lemma EmptySkips(s: string, p: nat, gap: string, open: char, close: char, depth: int)
    requires StartsAt(s, p, [open] + (gap + [close])) && AllWs(gap) && depth >= 0
    requires (open == '[' && close == ']') || (open == '{' && close == '}')
    ensures p < |s| && Skip(s, p, depth) == Some(p + 1 + |gap| + 1)
  {
    StartsBoth(s, p, [open], gap + [close]);
    StartsBoth(s, p + 1, gap, [close]);
    CharHere(s, p, open);
    CharHere(s, p + 1 + |gap|, close);
    WsSkips(s, p + 1, gap);
    hide Ws, SkipItems, SkipMembers, StartsAt;
  }

  lemma {:induction false} ItemsSkip(s: string, p: nat, items: Slots, depth: int)
    requires ProperItems(items) && StartsAt(s, p, PrintItems(items)) && depth >= 0
    ensures p <= |s| && At(s, Ws(s, p)) != ']'
    ensures SkipItems(s, Ws(s, p), depth) == if NestItems(items) < depth then Some(p + |PrintItems(items)|) else None
    decreases items, 0
  {
    hide Print, Proper, Skip, SkipItems, AllWs, Nest, Ws, StartsAt;
    var t := Print(items.value);
    var next := if items.LastItem? then "]" else "," + PrintItems(items.rest);
    SlotHere(s, p, items.before, items.value, items.after, next);
    var v := p + |items.before|;
    var e := v + |t|;
    var q := e + |items.after|;
    FirstOf(s, v, items.value);
    SkipPrinted(s, v, items.value, depth - 1);
    ItemsUnfold(s, v, depth);
    if items.MoreItems? {
      StartsBoth(s, q, ",", PrintItems(items.rest));
      ItemsSkip(s, q + 1, items.rest, depth);
    }
  }

  /** A value between white space and a separator, and where the scans end. */
  lemma SlotHere(s: string, p: nat, before: string, value: Value, after: string, next: string)
    requires AllWs(before) && Proper(value) && AllWs(after)
    requires StartsAt(s, p, before + (Print(value) + (after + next)))
    requires next != "" && (next[0] == ',' || next[0] == ']' || next[0] == '}')
    ensures var v := p + |before|;
            var e := v + |Print(value)|;
            var q := e + |after|;
            p <= |s| && Ws(s, p) == v && StartsAt(s, v, Print(value)) && !IsNumChar(At(s, e)) && e <= |s| &&
            Ws(s, e) == q && StartsAt(s, q, next) && At(s, q) == next[0]
  {
    hide Print, Proper, StartsAt, AllWs, Ws, IsNumChar, IsWs;
    var v := p + |before|;
    var e := v + |Print(value)|;
    StartsBoth(s, p, before, Print(value) + (after + next));
    StartsBoth(s, v, Print(value), after + next);
    SeparatorFirst(next);
    GapHere(s, e, after, next);
    FirstOf(s, v, value);
    WsSkips(s, p, before);
  }

  lemma SeparatorFirst(next: string)
    requires next != "" && (next[0] == ',' || next[0] == ']' || next[0] == '}' || next[0] == ':' || next[0] == '"')
    ensures !IsWs(next[0]) && !IsNumChar(next[0])
  {
  }

  /** White space and then a separator: no number goes on here. */
  lemma GapHere(s: string, p: nat, gap: string, next: string)
    requires AllWs(gap) && StartsAt(s, p, gap + next) && next != "" && !IsWs(next[0]) && !IsNumChar(next[0])
    ensures p < |s| && Ws(s, p) == p + |gap| && StartsAt(s, p + |gap|, next) && At(s, p + |gap|) == next[0]
    ensures !IsNumChar(At(s, p))
  {
    StartsBoth(s, p, gap, next);
    var q := p + |gap|;
    assert s[q] == s[q..q + |next|][0];
    WsSkips(s, p, gap);
    if gap != "" {
      assert s[p] == s[p..p + |gap|][0];
    }
  }

  lemma {:induction false} FieldsSkip(s: string, p: nat, fields: Fields, depth: int)
    requires ProperFields(fields) && StartsAt(s, p, PrintFields(fields)) && depth >= 0
    ensures p <= |s| && At(s, Ws(s, p)) != '}'
    ensures SkipMembers(s, Ws(s, p), depth) == if NestFields(fields) < depth then Some(p + |PrintFields(fields)|)
            else None
    decreases fields, 0
  {
    hide Print, Proper, Skip, SkipMembers, AllWs, Nest, Ws, StartsAt, StringEnd, AllProper, Quoted;
    var f := fields.field;
    var next := if fields.LastField? then "}" else "," + PrintFields(fields.rest);
    FieldHere(s, p, f, next);
    var at := PlacesOf(p, f);
    FieldSkips(s, p, f, next, depth);
    if fields.MoreFields? {
      StartsBoth(s, at.next, ",", PrintFields(fields.rest));
      FieldsSkip(s, at.next + 1, fields.rest, depth);
    }
  }

  lemma {:induction false} FieldSkips(s: string, p: nat, f: Field, next: string, depth: int)
    requires ProperField(f) && StartsAt(s, p, PrintField(f, next)) && depth >= 0
    requires next != "" && (next[0] == ',' || next[0] == '}')
    ensures var at := PlacesOf(p, f);
            p <= |s| && Ws(s, p) == at.key && at.next < |s| && at.key < |s| && s[at.key] == '"' &&
            SkipMembers(s, at.key, depth) ==
            if Nest(f.value) >= depth then None
            else if next[0] == ',' then SkipMembers(s, Ws(s, at.next + 1), depth)
            else Some(at.next + 1)
    decreases f, 1
  {
    hide Print, Proper, Skip, SkipMembers, AllWs, Nest, Ws, StartsAt, StringEnd, AllProper, Quoted, IsNumChar;
    FieldHere(s, p, f, next);
    var at := PlacesOf(p, f);
    StringSkipped(s, at.key, f.key, depth - 1);
    SkipPrinted(s, at.value, f.value, depth - 1);
    MembersUnfold(s, at.key, depth);
  }

  /** Where the parts of a member stand. */
  datatype Places = Places(key: nat, colon: nat, value: nat, next: nat)

  function PlacesOf(p: nat, f: Field): Places {
    var key := p + |f.before|;
    var colon := key + |Quoted(f.key)| + |f.gap|;
    var value := colon + 1 + |f.gap2|;
    Places(key, colon, value, value + |Print(f.value)| + |f.after|)
  }

  lemma FieldHere(s: string, p: nat, f: Field, next: string)
    requires ProperField(f) && StartsAt(s, p, PrintField(f, next))
    requires next != "" && (next[0] == ',' || next[0] == '}')
    ensures var at := PlacesOf(p, f);
            Ws(s, p) == at.key && StartsAt(s, at.key, Quoted(f.key)) && at.key < |s| && s[at.key] == '"' &&
            Ws(s, at.key + |Quoted(f.key)|) == at.colon && at.colon < |s| && s[at.colon] == ':' &&
            Ws(s, at.colon + 1) == at.value && StartsAt(s, at.value, Print(f.value)) &&
            at.value + |Print(f.value)| <= |s| && !IsNumChar(At(s, at.value + |Print(f.value)|)) &&
            Ws(s, at.value + |Print(f.value)|) == at.next && StartsAt(s, at.next, next) && At(s, at.next) == next[0]
    ensures |PrintField(f, next)| == PlacesOf(p, f).next - p + |next|
  {
    hide Print, Proper, AllWs, AllProper, Quoted, StartsAt, Ws, IsNumChar, IsWs, At;
    KeyPart(s, p, f.before, f.key, f.gap, f.gap2 + (Print(f.value) + (f.after + next)));
    SlotHere(s, PlacesOf(p, f).colon + 1, f.gap2, f.value, f.after, next);
  }

  /** A key with its colon. */
  lemma KeyPart(s: string, p: nat, before: string, key: seq<Unit>, gap: string, tail: string)
    requires AllWs(before) && AllWs(gap) && StartsAt(s, p, before + (Quoted(key) + (gap + (":" + tail))))
    ensures var k := p + |before|;
            var e := k + |Quoted(key)|;
            var c := e + |gap|;
            p <= |s| && Ws(s, p) == k && StartsAt(s, k, Quoted(key)) && k < |s| && s[k] == '"' && e <= |s| &&
            Ws(s, e) == c && c < |s| && s[c] == ':' && StartsAt(s, c + 1, tail)
  {
    hide AllWs, Quoted, StartsAt, Ws, IsWs, IsNumChar;
    var k := p + |before|;
    var e := k + |Quoted(key)|;
    StartsBoth(s, p, before, Quoted(key) + (gap + (":" + tail)));
    StartsBoth(s, k, Quoted(key), gap + (":" + tail));
    KeyHere(s, k, key);
    SeparatorFirst("\"");
    WsSkips(s, p, before);
    SeparatorFirst(":" + tail);
    GapHere(s, e, gap, ":" + tail);
    StartsBoth(s, e + |gap|, ":", tail);
    CharHere(s, e + |gap|, ':');
  }

  lemma KeyHere(s: string, p: nat, us: seq<Unit>)
    requires StartsAt(s, p, Quoted(us))
    ensures p < |s| && s[p] == '"'
  {
    StartsBoth(s, p, "\"", SourceOf(us) + "\"");
    CharHere(s, p, '"');
  }

  // ---- the lookup ----

  /** The end of a key: its closing quote; a backslash or the end of the body stops the search. */
  function KeyEnd(s: string, p: nat): (r: nat)
    requires p <= |s|
    ensures p <= r <= |s|
    decreases |s| - p
  {
    if At(s, p) == '"' || At(s, p) == '\\' || At(s, p) == '\0' then p else KeyEnd(s, p + 1)
  }

  /** The quote where the wanted string value starts, searching the members from p. */
  function FindMember(s: string, p: nat, key: string): (r: Option<nat>)
    requires p <= |s|
    ensures r.Some? ==> r.value < |s| && s[r.value] == '"'
    decreases |s| - p
  {
    if At(s, p) != '"' then None else
    var k := KeyEnd(s, p + 1);
    if At(s, k) != '"' then None else
    var colon := Ws(s, k + 1);
    if At(s, colon) != ':' then None else
    var v := Ws(s, colon + 1);
    if s[p + 1..k] == key then (if At(s, v) == '"' then Some(v) else None) else
    match Skip(s, v, 32)
    case None => None
    case Some(e) =>
      var q := Ws(s, e);
      if At(s, q) == ',' then FindMember(s, Ws(s, q + 1), key) else None
  }

  function FindString(s: string, key: string): (r: Option<nat>)
    ensures r.Some? ==> r.value < |s| && s[r.value] == '"'
  {
    var p := Ws(s, 0);
    if At(s, p) != '{' then None else
    var q := Ws(s, p + 1);
    if At(s, q) == '}' then None else FindMember(s, q, key)
  }

  method FindKeyEnd(s: string, p: nat) returns (k: nat)
    requires p <= |s|
    ensures k == KeyEnd(s, p)
  {
    k := p;
    while At(s, k) != '"' && At(s, k) != '\\' && At(s, k) != '\0'
      invariant k <= |s| && KeyEnd(s, k) == KeyEnd(s, p)
      decreases |s| - k
    {
      k := k + 1;
    }
  }

  /** The request accessor: the length of the decoded value, or -1. */
  method RequestString(s: string, key: string, out: array<char>) returns (r: int, lost: bool)
    modifies out
    ensures FindString(s, key).None? || out.Length == 0 ==> r == -1 && !lost
    ensures FindString(s, key).Some? && out.Length > 0 ==> r == Decoded(s, FindString(s, key).value, out.Length)
    ensures r >= 0 ==> FindString(s, key).Some? && r <= out.Length &&
                       Units(s, FindString(s, key).value + 1).Content? &&
                       out[..r] == Text(Units(s, FindString(s, key).value + 1).units)
    ensures r >= 0 ==> lost == (r == out.Length) && (!lost ==> out[r] == '\0')
  {
    hide Ws, KeyEnd, Skip, FindMember, Decoded, Units, Text;
    r, lost := -1, false;
    if out.Length == 0 || |s| == 0 {
      NothingFound(s, key);
      return;
    }
    var p := SkipWs(s, 0);
    if At(s, p) != '{' {
      return;
    }
    p := SkipWs(s, p + 1);
    if At(s, p) == '}' {
      return;
    }
    while true
      invariant p <= |s| && FindMember(s, p, key) == FindString(s, key)
      decreases |s| - p
    {
      FindUnfolds(s, p, key);
      if At(s, p) != '"' {
        return;
      }
      var k := FindKeyEnd(s, p + 1);
      if At(s, k) != '"' {
        return;
      }
      var found := s[p + 1..k] == key;
      var colon := SkipWs(s, k + 1);
      if At(s, colon) != ':' {
        return;
      }
      var v := SkipWs(s, colon + 1);
      if found {
        if At(s, v) != '"' {
          return;
        }
        r, lost := DecodeString(s, v, out);
        return;
      }
      var e := SkipValue(s, v, 32);
      if e.None? {
        return;
      }
      var q := SkipWs(s, e.value);
      if At(s, q) != ',' {
        return;
      }
      p := SkipWs(s, q + 1);
    }
  }

  lemma NothingFound(s: string, key: string)
    ensures s == "" ==> FindString(s, key) == None
  {
  }

  lemma FindUnfolds(s: string, p: nat, key: string)
    requires p <= |s|
    ensures FindMember(s, p, key) ==
            if At(s, p) != '"' then None else
            var k := KeyEnd(s, p + 1);
            if At(s, k) != '"' then None else
            var colon := Ws(s, k + 1);
            if At(s, colon) != ':' then None else
            var v := Ws(s, colon + 1);
            if s[p + 1..k] == key then (if At(s, v) == '"' then Some(v) else None) else
            match Skip(s, v, 32)
            case None => None
            case Some(e) =>
              var q := Ws(s, e);
              if At(s, q) == ',' then FindMember(s, Ws(s, q + 1), key) else None
  {
    hide KeyEnd, Ws, Skip;
  }

  // ---- printed objects ----

  /** Keys without escapes. */
  predicate PlainKey(us: seq<Unit>) {
    forall i :: 0 <= i < |us| ==> us[i].Plain? && us[i].c >= ' ' && us[i].c != '"' && us[i].c != '\\'
  }

  function KeyText(us: seq<Unit>): string
    requires PlainKey(us)
  {
    if us == [] then "" else [us[0].c] + KeyText(us[1..])
  }

  predicate PlainKeys(fields: Fields) {
    PlainKey(fields.field.key) && (fields.MoreFields? ==> PlainKeys(fields.rest))
  }

  /** The value of the first member with the key. */
  function FirstWith(fields: Fields, key: string): Option<Value>
    requires PlainKeys(fields)
  {
    if KeyText(fields.field.key) == key then Some(fields.field.value)
    else if fields.LastField? then None
    else FirstWith(fields.rest, key)
  }

  /** No value before that member is nested more than 32 deep. */
  predicate ShallowBefore(fields: Fields, key: string)
    requires PlainKeys(fields)
  {
    KeyText(fields.field.key) == key ||
    (Nest(fields.field.value) <= 32 && (fields.MoreFields? ==> ShallowBefore(fields.rest, key)))
  }

  lemma {:induction false} KeySource(us: seq<Unit>)
    requires PlainKey(us)
    ensures SourceOf(us) == KeyText(us) && AllProper(us) && PlainText(KeyText(us))
    decreases |us|
  {
    if us != [] {
      KeySource(us[1..]);
    }
  }

  predicate PlainText(t: string) {
    forall i :: 0 <= i < |t| ==> t[i] >= ' ' && t[i] != '"' && t[i] != '\\'
  }

  lemma {:induction false} KeyEndsAt(s: string, p: nat, t: string)
    requires StartsAt(s, p, t + "\"") && PlainText(t)
    ensures KeyEnd(s, p) == p + |t| && At(s, p + |t|) == '"' && s[p..p + |t|] == t
    decreases |t|
  {
    StartsBoth(s, p, t, "\"");
    CharHere(s, p + |t|, '"');
    if t != "" {
      assert s[p] == s[p..p + |t|][0];
      assert t + "\"" == [t[0]] + (t[1..] + "\"");
      StartsBoth(s, p, [t[0]], t[1..] + "\"");
      KeyEndsAt(s, p + 1, t[1..]);
    }
  }

  /** Where the search ends in printed members: at the first string value with the key, or nowhere. */
  lemma {:induction false} FindPrinted(s: string, p: nat, fields: Fields, key: string)
    requires ProperFields(fields) && PlainKeys(fields) && StartsAt(s, p, PrintFields(fields))
    ensures p <= |s|
    ensures FindMember(s, Ws(s, p), key).Some? <==>
              FirstWith(fields, key).Some? && FirstWith(fields, key).value.Str? && ShallowBefore(fields, key)
    ensures FindMember(s, Ws(s, p), key).Some? ==>
              StartsAt(s, FindMember(s, Ws(s, p), key).value, Quoted(FirstWith(fields, key).value.units))
    decreases fields
  {
    hide Print, Proper, Skip, AllWs, Nest, Ws, StartsAt, AllProper, Quoted, KeyEnd, FindMember, KeyText, PlainKey, At;
    var f := fields.field;
    var next := if fields.LastField? then "}" else "," + PrintFields(fields.rest);
    FieldHere(s, p, f, next);
    var at := PlacesOf(p, f);
    FindStep(s, p, f, next, key);
    if KeyText(f.key) == key {
      FirstOf(s, at.value, f.value);
      if f.value.Str? {
        PrintStr(f.value);
      }
    } else if fields.MoreFields? {
      StartsBoth(s, at.next, ",", PrintFields(fields.rest));
      FindPrinted(s, at.next + 1, fields.rest, key);
    }
  }

  /** One member of the search. */
  lemma FindStep(s: string, p: nat, f: Field, next: string, key: string)
    requires ProperField(f) && PlainKey(f.key) && StartsAt(s, p, PrintField(f, next))
    requires next != "" && (next[0] == ',' || next[0] == '}')
    ensures var at := PlacesOf(p, f);
            p <= |s| && Ws(s, p) == at.key && at.value < |s| && at.next < |s| &&
            FindMember(s, at.key, key) ==
            if KeyText(f.key) == key then (if s[at.value] == '"' then Some(at.value) else None)
            else if Nest(f.value) <= 32 && next[0] == ',' then FindMember(s, Ws(s, at.next + 1), key)
            else None
  {
    hide Print, Proper, Skip, AllWs, Nest, Ws, StartsAt, AllProper, Quoted, KeyEnd, FindMember, KeyText, PlainKey,
         IsNumChar;
    FieldHere(s, p, f, next);
    var at := PlacesOf(p, f);
    KeyFound(s, at.key, f.key);
    FindUnfolds(s, at.key, key);
    FirstOf(s, at.value, f.value);
    SkipPrinted(s, at.value, f.value, 32);
  }

  lemma PrintStr(v: Value)
    requires v.Str?
    ensures Print(v) == Quoted(v.units)
  {
  }

  lemma KeyFound(s: string, p: nat, us: seq<Unit>)
    requires PlainKey(us) && StartsAt(s, p, Quoted(us))
    ensures p < |s| && p + |Quoted(us)| <= |s| && KeyEnd(s, p + 1) == p + |Quoted(us)| - 1
    ensures At(s, p + |Quoted(us)| - 1) == '"' && s[p + 1..p + |Quoted(us)| - 1] == KeyText(us)
  {
    hide SourceOf, KeyText, KeyEnd, PlainKey;
    KeySource(us);
    StartsBoth(s, p, "\"", SourceOf(us) + "\"");
    KeyEndsAt(s, p + 1, KeyText(us));
  }

  lemma MembersLookup(s: string, lead: string, fields: Fields, key: string, size: nat)
    requires StartsAt(s, 0, lead + Print(Members(fields))) && AllWs(lead) && ProperFields(fields) && PlainKeys(fields)
    requires size > 0
    ensures FindString(s, key).Some? <==>
              FirstWith(fields, key).Some? && FirstWith(fields, key).value.Str? && ShallowBefore(fields, key)
    ensures FindString(s, key).Some? ==>
              var us := FirstWith(fields, key).value.units;
              Decoded(s, FindString(s, key).value, size) ==
              if AllGood(us) && Fits(us, size) then |Text(us)| else -1
    ensures FindString(s, key).Some? && AllGood(FirstWith(fields, key).value.units) ==>
              Units(s, FindString(s, key).value + 1).Content? &&
              Units(s, FindString(s, key).value + 1).units == FirstWith(fields, key).value.units
  {
    hide PrintFields, FindMember, FirstWith, ShallowBefore, Units, AllGood, Quoted, Ws, AllWs, ProperFields,
         PlainKeys, Fits;
    var p := |lead|;
    StartsBoth(s, 0, lead, "{" + PrintFields(fields));
    StartsBoth(s, p, "{", PrintFields(fields));
    CharHere(s, p, '{');
    WsSkips(s, 0, lead);
    NotEmptyObject(s, p + 1, fields);
    FindPrinted(s, p + 1, fields, key);
    if FindString(s, key).Some? {
      FirstIsProper(fields, key);
      StringReads(s, FindString(s, key).value, FirstWith(fields, key).value.units);
    }
  }

  lemma NotEmptyObject(s: string, p: nat, fields: Fields)
    requires ProperFields(fields) && StartsAt(s, p, PrintFields(fields))
    ensures p <= |s| && At(s, Ws(s, p)) == '"'
  {
    hide Print, Proper, AllWs, Ws, StartsAt, AllProper, Quoted;
    FieldHere(s, p, fields.field, if fields.LastField? then "}" else "," + PrintFields(fields.rest));
  }

  lemma {:induction false} FirstIsProper(fields: Fields, key: string)
    requires ProperFields(fields) && PlainKeys(fields) && FirstWith(fields, key).Some?
    ensures Proper(FirstWith(fields, key).value)
    decreases fields
  {
    hide Proper, KeyText, PlainKey;
    if KeyText(fields.field.key) != key {
      FirstIsProper(fields.rest, key);
    }
  }

  lemma StringReads(s: string, p: nat, us: seq<Unit>)
    requires AllProper(us) && StartsAt(s, p, Quoted(us))
    ensures p < |s| && Units(s, p + 1) == if AllGood(us) then Content(us, p + |Quoted(us)|) else Bad
  {
    hide SourceOf, AllProper, AllGood, Units;
    StartsBoth(s, p, "\"", SourceOf(us) + "\"");
    UnitsReadBack(s, p + 1, us);
  }

  lemma EmptyLookup(s: string, lead: string, gap: string, key: string)
    requires StartsAt(s, 0, lead + Print(NoMembers(gap))) && AllWs(lead) && AllWs(gap)
    ensures FindString(s, key).None?
  {
    hide FindMember, Ws, AllWs, StartsAt;
    var p := |lead|;
    StartsBoth(s, 0, lead, "{" + (gap + "}"));
    StartsBoth(s, p, "{", gap + "}");
    StartsBoth(s, p + 1, gap, "}");
    CharHere(s, p, '{');
    CharHere(s, p + 1 + |gap|, '}');
    WsSkips(s, 0, lead);
    WsSkips(s, p + 1, gap);
  }

  /**
   * The lookup is right on every printed object: behind any white space, for a top-level object,
   * empty or with escape-free keys, the result is the text of the first member with the key, when
   * it is a string that decodes and fits and no value before it is nested too deep; otherwise -1.
   * Members of nested objects play no part.
   */
  lemma LookupPrinted(s: string, lead: string, top: Value, key: string, size: nat)
    requires StartsAt(s, 0, lead + Print(top)) && AllWs(lead) && Proper(top) && size > 0
    requires top.NoMembers? || (top.Members? && PlainKeys(top.members))
    ensures FindString(s, key).Some? <==>
              top.Members? && FirstWith(top.members, key).Some? && FirstWith(top.members, key).value.Str? &&
              ShallowBefore(top.members, key)
    ensures FindString(s, key).Some? ==>
              var us := FirstWith(top.members, key).value.units;
              Decoded(s, FindString(s, key).value, size) ==
              if AllGood(us) && Fits(us, size) then |Text(us)| else -1
    ensures FindString(s, key).Some? && AllGood(FirstWith(top.members, key).value.units) ==>
              Units(s, FindString(s, key).value + 1).Content? &&
              Units(s, FindString(s, key).value + 1).units == FirstWith(top.members, key).value.units
  {
    hide FindString, PrintFields, FirstWith, ShallowBefore, Units, AllGood, AllWs, ProperFields, PlainKeys, Fits,
         StartsAt, Decoded;
    match top
    case NoMembers(gap) => EmptyLookup(s, lead, gap, key);
    case Members(fields) => MembersLookup(s, lead, fields, key, size);
  }
}
