/** Decoding one JSON string into a caller's buffer, and exactly when its terminator does not fit. */
module JsonString {
  import opened Sequences
  import opened Wrappers
  import opened Chars
  import opened JsonScan

  /** One element of a string: a byte as it is, a simple escape, or four hex digits. */
  datatype Unit = Plain(c: char) | Simple(letter: char) | Unicode(hex: string)

  datatype Content = Bad | Content(units: seq<Unit>, end: nat)

  function HexVal(c: char): (v: int)
    ensures -1 <= v < 16
  {
    if '0' <= c <= '9' then c as int - '0' as int
    else if 'a' <= c <= 'f' then c as int - 'a' as int + 10
    else if 'A' <= c <= 'F' then c as int - 'A' as int + 10
    else -1
  }

  predicate AllHex(h: string) {
    forall i :: 0 <= i < |h| ==> HexVal(h[i]) >= 0
  }

  predicate IsHex4(h: string) {
    |h| == 4 && AllHex(h)
  }

  function HexValue(h: string): (v: nat)
    requires AllHex(h)
  {
    if h == [] then 0 else HexValue(h[..|h| - 1]) * 16 + HexVal(h[|h| - 1])
  }

  function SimpleChar(letter: char): Option<char> {
    match letter
    case '"' => Some('"')
    case '\\' => Some('\\')
    case '/' => Some('/')
    case 'b' => Some(8 as char)
    case 'f' => Some(12 as char)
    case 'n' => Some('\n')
    case 'r' => Some('\r')
    case 't' => Some('\t')
    case _ => None
  }

  /** Surrogates and NUL are refused. */
  predicate Encodable(cp: nat) {
    0 < cp < 0x10000 && !(0xD800 <= cp <= 0xDFFF)
  }

  function Utf8(cp: nat): (r: string)
    requires Encodable(cp)
    ensures 1 <= |r| <= 3
  {
    if cp < 0x80 then [cp as char]
    else if cp < 0x800 then [(0xC0 + cp / 64) as char, (0x80 + cp % 64) as char]
    else [(0xE0 + cp / 4096) as char, (0x80 + cp / 64 % 64) as char, (0x80 + cp % 64) as char]
  }

  predicate ProperUnit(u: Unit) {
    match u
    case Plain(c) => c >= ' ' && c != '"' && c != '\\'
    case Simple(l) => SimpleChar(l).Some?
    case Unicode(h) => IsHex4(h)
  }

  /** A unit that has a value; the others make the string malformed. */
  predicate Decodable(u: Unit) {
    ProperUnit(u) && (u.Unicode? ==> Encodable(HexValue(u.hex)))
  }

  predicate AllGood(us: seq<Unit>) {
    forall i :: 0 <= i < |us| ==> Decodable(us[i])
  }

  predicate AllProper(us: seq<Unit>) {
    forall i :: 0 <= i < |us| ==> ProperUnit(us[i])
  }

  lemma GoodFront(u: Unit, us: seq<Unit>)
    ensures AllGood([u] + us) <==> Decodable(u) && AllGood(us)
  {
    hide Decodable;
    var all := [u] + us;
    assert all[0] == u;
    assert forall i :: 0 <= i < |us| ==> all[i + 1] == us[i];
  }

  function UnitText(u: Unit): (r: string)
    requires Decodable(u)
    ensures |r| >= 1
  {
    match u
    case Plain(c) => [c]
    case Simple(l) => [SimpleChar(l).value]
    case Unicode(h) => Utf8(HexValue(h))
  }

  function Text(us: seq<Unit>): string
    requires AllGood(us)
  {
    if us == [] then "" else Text(us[..|us| - 1]) + UnitText(us[|us| - 1])
  }

  // ---- the source of a string ----

  function UnitSource(u: Unit): (r: string)
    ensures |r| >= 1
  {
    match u
    case Plain(c) => [c]
    case Simple(l) => ['\\', l]
    case Unicode(h) => "\\u" + h
  }

  function SourceOf(us: seq<Unit>): string {
    if us == [] then "" else UnitSource(us[0]) + SourceOf(us[1..])
  }

  /** The unit at p, if it is well formed. */
  function UnitAt(s: string, p: nat): Option<Unit>
    requires p < |s|
  {
    if s[p] < ' ' || s[p] == '"' then None
    else if s[p] != '\\' then Some(Plain(s[p]))
    else if At(s, p + 1) == 'u' then
      if p + 6 <= |s| && IsHex4(s[p + 2..p + 6]) then Some(Unicode(s[p + 2..p + 6])) else None
    else if SimpleChar(At(s, p + 1)).Some? then Some(Simple(At(s, p + 1)))
    else None
  }

  /** The units from p to the closing quote; Bad when one is malformed or has no value. */
  function Units(s: string, p: nat): (r: Content)
    requires p <= |s|
    ensures r.Content? ==> AllGood(r.units)
    ensures r.Content? ==> p < r.end <= |s|
    decreases |s| - p
  {
    if At(s, p) == '"' then Content([], p + 1)
    else if p == |s| || UnitAt(s, p).None? || !Decodable(UnitAt(s, p).value) then Bad
    else
      var u := UnitAt(s, p).value;
      match Units(s, p + |UnitSource(u)|)
      case Bad => Bad
      case Content(us, end) => Content([u] + us, end)
  }

  // ---- room in the buffer ----

  /** The checks made on the way: a byte needs room for itself and the NUL, a \u escape only for itself. */
  predicate Fits(us: seq<Unit>, size: nat)
    requires AllGood(us)
  {
    us == [] ||
    (Fits(us[..|us| - 1], size) &&
     if us[|us| - 1].Unicode? then |Text(us)| <= size else |Text(us)| < size)
  }

  /**
   * A string is accepted exactly when it fits with its NUL, or fills the buffer completely and ends
   * in a \u escape: in that case the NUL has no room.
   */
  lemma {:induction false} FitsExactly(us: seq<Unit>, size: nat)
    requires size > 0 && AllGood(us)
    ensures Fits(us, size) <==>
            |Text(us)| < size || (us != [] && us[|us| - 1].Unicode? && |Text(us)| == size)
    decreases |us|
  {
    hide Decodable, UnitText;
    if us != [] {
      var init := us[..|us| - 1];
      FitsExactly(init, size);
      assert |Text(us)| == |Text(init)| + |UnitText(us[|us| - 1])|;
    }
  }

  /** "\u0041" into one byte: accepted, although there is no room for the NUL. */
  lemma FitsExample()
    ensures Units("\"\\u0041\"", 1) == Content([Unicode("0041")], 8)
    ensures Fits([Unicode("0041")], 1) && |Text([Unicode("0041")])| == 1
  {
    var s := "\"\\u0041\"";
    var h := "0041";
    assert s[3..7] == h;
    assert h[..3] == "004" && h[..3][..2] == "00" && h[..3][..2][..1] == "0" && h[..3][..2][..1][..0] == "";
    assert HexValue("0") == 0 && HexValue("00") == 0 && HexValue("004") == 4;
    assert HexValue(h) == 65;
    assert UnitAt(s, 1) == Some(Unicode(h));
    assert Units(s, 7) == Content([], 8);
    var us := [Unicode(h)];
    assert us[..0] == [];
    assert Text(us) == Text([]) + UnitText(us[0]);
  }

  // ---- UTF-8 ----

  function Utf8Value(b: string): Option<nat> {
    if |b| == 1 && b[0] as int < 0x80 then Some(b[0] as int)
    else if |b| == 2 && 0xC0 <= b[0] as int < 0xE0 && 0x80 <= b[1] as int < 0xC0 then
      Some((b[0] as int - 0xC0) * 64 + (b[1] as int - 0x80))
    else if |b| == 3 && 0xE0 <= b[0] as int < 0xF0 && 0x80 <= b[1] as int < 0xC0 && 0x80 <= b[2] as int < 0xC0 then
      Some((b[0] as int - 0xE0) * 4096 + (b[1] as int - 0x80) * 64 + (b[2] as int - 0x80))
    else None
  }

  /** The bytes decode to the code point, and no shorter form would. */
  lemma Utf8ReadsBack(cp: nat)
    requires Encodable(cp)
    ensures Utf8Value(Utf8(cp)) == Some(cp)
    ensures |Utf8(cp)| == 1 <==> cp < 0x80
    ensures |Utf8(cp)| == 2 <==> 0x80 <= cp < 0x800
    ensures '\0' !in Utf8(cp)
  {
    if cp >= 0x800 {
      assert cp == (cp / 4096) * 4096 + (cp / 64 % 64) * 64 + cp % 64;
    }
  }

  // ---- decoding ----

  lemma NoHex()
    ensures HexValue("") == 0 && HexVal('\0') < 0
  {
  }

  method Hex4(s: string, p: nat) returns (v: int)
    requires p <= |s|
    ensures if p + 4 <= |s| && IsHex4(s[p..p + 4]) then v == HexValue(s[p..p + 4]) else v == -1
  {
    hide HexVal, HexValue;
    v := 0;
    var i := 0;
    NoHex();
    assert s[p..p] == "";
    while i < 4
      invariant 0 <= i <= 4 && p + i <= |s| && AllHex(s[p..p + i]) && v == HexValue(s[p..p + i])
    {
      var h := HexVal(At(s, p + i));
      if h < 0 {
        assert p + 4 <= |s| ==> s[p..p + 4][i] == s[p + i];
        return -1;
      }
      HexGrows(s[p..p + i], s[p + i]);
      assert s[p..p + i + 1] == s[p..p + i] + [s[p + i]];
      v := v * 16 + h;
      i := i + 1;
    }
  }

  lemma HexGrows(h: string, c: char)
    requires AllHex(h) && HexVal(c) >= 0
    ensures AllHex(h + [c]) && HexValue(h + [c]) == HexValue(h) * 16 + HexVal(c)
  {
    assert (h + [c])[..|h|] == h;
  }

  /** Writes the encoding of cp at o; -1 when it has none or does not fit. */
  method PutUtf8(cp: nat, out: array<char>, o: nat) returns (n: int)
    requires cp < 0x10000 && o <= out.Length
    modifies out
    ensures n == -1 || (Encodable(cp) && n == |Utf8(cp)|)
    ensures n == -1 <==> !Encodable(cp) || o + |Utf8(cp)| > out.Length
    ensures n != -1 ==> out[..o + n] == old(out[..o]) + Utf8(cp)
  {
    if 0xD800 <= cp <= 0xDFFF || cp == 0 {
      return -1;
    }
    var size := out.Length - o;
    if cp < 0x80 {
      if size < 1 {
        return -1;
      }
      out[o] := cp as char;
      n := 1;
    } else if cp < 0x800 {
      if size < 2 {
        return -1;
      }
      out[o] := (0xC0 + cp / 64) as char;
      out[o + 1] := (0x80 + cp % 64) as char;
      n := 2;
    } else {
      if size < 3 {
        return -1;
      }
      out[o] := (0xE0 + cp / 4096) as char;
      out[o + 1] := (0x80 + cp / 64 % 64) as char;
      out[o + 2] := (0x80 + cp % 64) as char;
      n := 3;
    }
    assert out[..o + n] == out[..o] + out[o..o + n];
  }

  /** The decoder's progress: some units are written, the rest of the string starts at p. */
  predicate Written(s: string, start: nat, us: seq<Unit>, p: nat, text: string, size: nat)
    requires start <= |s|
  {
    p <= |s| && AllGood(us) && text == Text(us) && |text| <= size && Fits(us, size) &&
    Units(s, start) == (match Units(s, p) case Bad => Bad case Content(more, end) => Content(us + more, end))
  }

  lemma WrittenFirst(s: string, start: nat, size: nat)
    requires start <= |s|
    ensures Written(s, start, [], start, "", size)
  {
    if Units(s, start).Content? {
      var us := Units(s, start).units;
      assert [] + us == us;
    }
  }

  predicate HasUnit(s: string, p: nat)
    requires p < |s|
  {
    UnitAt(s, p).Some? && Decodable(UnitAt(s, p).value)
  }

  lemma UnitsStep(s: string, p: nat)
    requires p < |s| && s[p] != '"'
    ensures !HasUnit(s, p) ==> Units(s, p).Bad?
    ensures HasUnit(s, p) ==>
              var u := UnitAt(s, p).value;
              p + |UnitSource(u)| <= |s| &&
              Units(s, p) == (match Units(s, p + |UnitSource(u)|)
                              case Bad => Bad
                              case Content(us, end) => Content([u] + us, end))
  {
    if HasUnit(s, p) {
      UnitWithin(s, p);
    }
    hide UnitAt, UnitSource, Decodable;
  }

  /** One more unit, if it fits; otherwise the whole string does not. */
  lemma WrittenNext(s: string, start: nat, us: seq<Unit>, p: nat, text: string, size: nat)
    requires start <= |s| && Written(s, start, us, p, text, size) && p < |s| && s[p] != '"'
    ensures !HasUnit(s, p) ==> Units(s, start).Bad?
    ensures HasUnit(s, p) ==>
              var u := UnitAt(s, p).value;
              var t := text + UnitText(u);
              (if |t| < size || (u.Unicode? && |t| == size) then
                 Written(s, start, us + [u], p + |UnitSource(u)|, t, size)
               else Units(s, start).Content? ==> !Fits(Units(s, start).units, size))
  {
    hide UnitAt, UnitText, UnitSource, Decodable, Units, AllGood, Fits, Text;
    UnitsStep(s, p);
    if HasUnit(s, p) {
      var u := UnitAt(s, p).value;
      OneMoreFits(us, u, size);
      var rest := Units(s, p + |UnitSource(u)|);
      if rest.Content? {
        Regroup(us, [u], rest.units);
        if !Fits(us + [u], size) {
          NeverFits(us + [u], rest.units, size);
        }
      }
    }
  }

  lemma OneMoreFits(us: seq<Unit>, u: Unit, size: nat)
    requires Decodable(u) && AllGood(us) && Fits(us, size)
    ensures AllGood(us + [u])
    ensures Text(us + [u]) == Text(us) + UnitText(u)
    ensures var t := Text(us) + UnitText(u); Fits(us + [u], size) <==> |t| < size || (u.Unicode? && |t| == size)
  {
    hide UnitText, Decodable;
    assert (us + [u])[..|us|] == us;
  }

  lemma NeverFits(a: seq<Unit>, b: seq<Unit>, size: nat)
    requires AllGood(a + b)
    requires AllGood(a) && !Fits(a, size)
    ensures !Fits(a + b, size)
  {
    hide Decodable;
    if Fits(a + b, size) {
      PrefixFits(a, b, size);
    }
  }

  lemma UnitWithin(s: string, p: nat)
    requires p < |s| && UnitAt(s, p).Some? && ProperUnit(UnitAt(s, p).value)
    ensures p + |UnitSource(UnitAt(s, p).value)| <= |s|
  {
  }

  lemma {:induction false} PrefixFits(a: seq<Unit>, b: seq<Unit>, size: nat)
    requires AllGood(a + b)
    requires AllGood(a)
    requires Fits(a + b, size)
    ensures Fits(a, size)
    decreases |b|
  {
    if b == [] {
      assert a + b == a;
    } else {
      assert (a + b)[..|a + b| - 1] == a + b[..|b| - 1];
      PrefixFits(a, b[..|b| - 1], size);
    }
  }

  /** What decoding gives: the length, or -1. */
  function Decoded(s: string, p: nat, size: nat): int
    requires p < |s|
  {
    match Units(s, p + 1)
    case Bad => -1
    case Content(us, _) => if Fits(us, size) then |Text(us)| else -1
  }

  /**
   * Decodes the string at the opening quote p into out. Nothing is truncated. `lost` tells that the
   * NUL had no room: json_decode_string then writes it behind the buffer.
   */
  method DecodeString(s: string, p: nat, out: array<char>) returns (r: int, lost: bool)
    requires p < |s|
    modifies out
    ensures r == if out.Length == 0 then -1 else Decoded(s, p, out.Length)
    ensures r >= 0 ==> r <= out.Length && Units(s, p + 1).Content? && out[..r] == Text(Units(s, p + 1).units)
    ensures r >= 0 ==> lost == (r == out.Length) && (!lost ==> out[r] == '\0')
    ensures r < 0 ==> !lost
  {
    hide Written, Fits, Units, UnitText, UnitSource, Text;
    r, lost := -1, false;
    if out.Length == 0 {
      return;
    }
    var start := p + 1;
    var q: nat, o: nat := start, 0;
    ghost var us: seq<Unit> := [];
    WrittenFirst(s, start, out.Length);
    assert out[..0] == "";
    while At(s, q) != '"'
      invariant start <= q <= |s| && o <= out.Length && Written(s, start, us, q, out[..o], out.Length)
      decreases |s| - q
    {
      var good, q', o' := DecodeUnit(s, start, us, q, out, o);
      if !good {
        return;
      }
      us := us + [UnitAt(s, q).value];
      q, o := q', o';
    }
    WrittenLast(s, start, us, q, out[..o], out.Length);
    if o < out.Length {
      out[o] := '\0';
    } else {
      lost := true;
    }
    r := o;
  }

  lemma WrittenLast(s: string, start: nat, us: seq<Unit>, p: nat, text: string, size: nat)
    requires start <= |s| && Written(s, start, us, p, text, size) && At(s, p) == '"'
    ensures Units(s, start) == Content(us, p + 1) && text == Text(us) && Fits(us, size)
  {
    assert us + [] == us;
  }

  /** One step of the decoder. */
  method DecodeUnit(s: string, ghost start: nat, ghost us: seq<Unit>, q: nat, out: array<char>, o: nat)
    returns (good: bool, q': nat, o': nat)
    requires start <= |s| && q <= |s| && At(s, q) != '"' && o <= out.Length && out.Length > 0
    requires Written(s, start, us, q, out[..o], out.Length)
    modifies out
    ensures good ==> q < q' <= |s| && o' <= out.Length && q < |s| && UnitAt(s, q).Some?
    ensures good ==> Written(s, start, us + [UnitAt(s, q).value], q', out[..o'], out.Length)
    ensures !good ==> Units(s, start).Bad? || !Fits(Units(s, start).units, out.Length)
  {
    hide Written, Fits, Units, Utf8, HexValue, IsHex4;
    good, q', o' := false, q, o;
    var c := At(s, q);
    if q == |s| {
      NothingLeft(s, start, us, q, out[..o], out.Length);
      return;
    }
    WrittenNext(s, start, us, q, out[..o], out.Length);
    if c < ' ' {
      return;
    }
    if c == '\\' && At(s, q + 1) == 'u' {
      var cp := Hex4(s, q + 2);
      if cp < 0 {
        return;
      }
      HexBound(s[q + 2..q + 6]);
      var n := PutUtf8(cp, out, o);
      if n < 0 {
        return;
      }
      good, q', o' := true, q + 6, o + n;
      return;
    }
    var byte, width := c, 1;
    if c == '\\' {
      var simple := SimpleChar(At(s, q + 1));
      if simple.None? {
        return;
      }
      byte, width := simple.value, 2;
    }
    if o + 1 >= out.Length {
      return;
    }
    out[o] := byte;
    assert out[..o + 1] == out[..o] + [byte];
    good, q', o' := true, q + width, o + 1;
  }

  lemma NothingLeft(s: string, start: nat, us: seq<Unit>, p: nat, text: string, size: nat)
    requires start <= |s| && Written(s, start, us, p, text, size) && p == |s|
    ensures Units(s, start).Bad?
  {
  }

  lemma HexBound(h: string)
    requires IsHex4(h)
    ensures HexValue(h) < 0x10000
  {
    assert h[..3][..2][..1][..0] == "";
    assert HexValue(h[..3][..2][..1]) < 16;
    assert HexValue(h[..3][..2]) < 256;
    assert HexValue(h[..3]) < 4096;
  }

  // ---- reading back what was printed ----

  /** A printed string is read back unit by unit, and its text is what the units stand for. */
  lemma {:induction false} UnitsReadBack(s: string, p: nat, us: seq<Unit>)
    requires StartsAt(s, p, SourceOf(us) + "\"") && AllProper(us)
    ensures Units(s, p) == if AllGood(us) then Content(us, p + |SourceOf(us)| + 1) else Bad
    decreases |us|
  {
    hide Decodable, ProperUnit, SourceOf, UnitAt, UnitSource, Units, StartsAt, AllGood;
    if us == [] {
      QuoteReads(s, p);
    } else {
      var u, rest := us[0], us[1..];
      FrontSource(s, p, us);
      UnitReadsBack(s, p, u);
      UnitsStep(s, p);
      GoodFront(u, rest);
      UnitsReadBack(s, p + |UnitSource(u)|, rest);
      assert us == [u] + rest;
    }
  }

  lemma QuoteReads(s: string, p: nat)
    requires StartsAt(s, p, SourceOf([]) + "\"")
    ensures Units(s, p) == Content([], p + 1) && SourceOf([]) == "" && AllGood([])
  {
    QuoteAt(s, p);
  }

  lemma QuoteAt(s: string, p: nat)
    requires StartsAt(s, p, "" + "\"")
    ensures p < |s| && s[p] == '"'
  {
    assert s[p] == s[p..p + 1][0];
  }

  lemma FrontSource(s: string, p: nat, us: seq<Unit>)
    requires us != [] && StartsAt(s, p, SourceOf(us) + "\"")
    ensures StartsAt(s, p, UnitSource(us[0])) && StartsAt(s, p + |UnitSource(us[0])|, SourceOf(us[1..]) + "\"")
    ensures |SourceOf(us)| == |UnitSource(us[0])| + |SourceOf(us[1..])|
  {
    hide UnitSource, StartsAt;
    var u, rest := us[0], us[1..];
    assert SourceOf(us) + "\"" == UnitSource(u) + (SourceOf(rest) + "\"");
    StartsBoth(s, p, UnitSource(u), SourceOf(rest) + "\"");
  }

  lemma UnitReadsBack(s: string, p: nat, u: Unit)
    requires StartsAt(s, p, UnitSource(u)) && ProperUnit(u)
    ensures p < |s| && s[p] != '"' && UnitAt(s, p) == Some(u)
  {
    var t := UnitSource(u);
    assert s[p] == s[p..p + |t|][0];
    if |t| > 1 {
      assert s[p + 1] == s[p..p + |t|][1];
    }
    if u.Unicode? {
      assert s[p + 2..p + 6] == s[p..p + 6][2..];
    }
  }

  /** Skipping a printed string lands behind its closing quote. */
  lemma {:induction false} StringSkips(s: string, p: nat, us: seq<Unit>)
    requires StartsAt(s, p, SourceOf(us) + "\"") && AllProper(us)
    ensures StringEnd(s, p) == Some(p + |SourceOf(us)| + 1)
    decreases |us|
  {
    hide UnitSource, ProperUnit, StartsAt, StringEnd, SourceOf;
    if us == [] {
      QuoteSkips(s, p);
    } else {
      FrontSource(s, p, us);
      UnitSkips(s, p, us[0]);
      StringSkips(s, p + |UnitSource(us[0])|, us[1..]);
    }
  }

  lemma QuoteSkips(s: string, p: nat)
    requires StartsAt(s, p, SourceOf([]) + "\"")
    ensures StringEnd(s, p) == Some(p + 1) && SourceOf([]) == ""
  {
    QuoteAt(s, p);
  }

  lemma HexCharAt(s: string, p: nat, h: string, i: nat)
    requires IsHex4(h) && StartsAt(s, p, "\\u" + h) && i < 4
    ensures p + 6 <= |s| && HexVal(s[p + 2 + i]) >= 0
  {
    var t := "\\u" + h;
    assert s[p..p + 6][2 + i] == t[2 + i] == h[i];
  }

  lemma HexSkips(s: string, p: nat)
    requires p < |s| && HexVal(s[p]) >= 0
    ensures StringEnd(s, p) == StringEnd(s, p + 1)
  {
  }

  lemma UnitSkips(s: string, p: nat, u: Unit)
    requires StartsAt(s, p, UnitSource(u)) && ProperUnit(u)
    ensures StringEnd(s, p) == StringEnd(s, p + |UnitSource(u)|)
  {
    match u
    case Plain(c) =>
      assert s[p] == s[p..p + 1][0];
    case Simple(l) =>
      assert s[p] == s[p..p + 2][0] && s[p + 1] == s[p..p + 2][1];
      assert l != '\0';
    case Unicode(h) =>
      assert s[p] == s[p..p + 6][0] && s[p + 1] == s[p..p + 6][1];
      assert StringEnd(s, p) == StringEnd(s, p + 2);
      hide StringEnd;
      HexCharAt(s, p, h, 0);
      HexCharAt(s, p, h, 1);
      HexCharAt(s, p, h, 2);
      HexCharAt(s, p, h, 3);
      HexSkips(s, p + 2);
      HexSkips(s, p + 3);
      HexSkips(s, p + 4);
      HexSkips(s, p + 5);
  }
}
