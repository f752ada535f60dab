/**
 * JSON strings from the writer's side: a text is printed character by character with the escapes of
 * section 7 of RFC 8259, chosen by code point, and the accessor gives the text back.
 */
module JsonText {
  import opened Wrappers
  import opened Chars
  import opened JsonScan
  import opened JsonString
  import opened JsonLookup

  // ---- printing ----

  function Hex(d: nat, upper: bool): char
    requires d < 16
  {
    if upper then "0123456789ABCDEF"[d] else "0123456789abcdef"[d]
  }

  function HexDigits(cp: nat, upper: bool): (h: string)
    requires cp < 0x1_0000
    ensures |h| == 4
  {
    [Hex(cp / 0x1000, upper), Hex(cp / 0x100 % 0x10, upper), Hex(cp / 0x10 % 0x10, upper), Hex(cp % 0x10, upper)]
  }

  /** A character as it stands in a JSON string; the slash is escaped too. */
  function Shown(c: char): string {
    var n := c as int;
    if n == 8 then "\\b"
    else if n == 9 then "\\t"
    else if n == 10 then "\\n"
    else if n == 12 then "\\f"
    else if n == 13 then "\\r"
    else if n == 34 || n == 47 || n == 92 then ['\\', c]
    else if n < 32 then "\\u" + HexDigits(n, false)
    else [c]
  }

  function PrintText(t: string): string {
    if t == "" then "" else Shown(t[0]) + PrintText(t[1..])
  }

  // ---- reading back ----

  lemma HexReads(d: nat, upper: bool)
    requires d < 16
    ensures HexVal(Hex(d, upper)) == d
  {
    var lower, large := "0123456789abcdef", "0123456789ABCDEF";
    assert forall i :: 0 <= i < 10 ==> lower[i] as int == large[i] as int == '0' as int + i;
    assert forall i :: 10 <= i < 16 ==>
      lower[i] as int == 'a' as int + (i - 10) && large[i] as int == 'A' as int + (i - 10);
  }

  lemma FourHex(x: char, y: char, z: char, w: char)
    requires HexVal(x) >= 0 && HexVal(y) >= 0 && HexVal(z) >= 0 && HexVal(w) >= 0
    ensures IsHex4([x, y, z, w])
    ensures HexValue([x, y, z, w]) == ((HexVal(x) * 16 + HexVal(y)) * 16 + HexVal(z)) * 16 + HexVal(w)
  {
    NoHex();
    hide HexVal, HexValue;
    HexGrows("", x);
    HexGrows("" + [x], y);
    HexGrows("" + [x] + [y], z);
    HexGrows("" + [x] + [y] + [z], w);
    assert "" + [x] + [y] + [z] + [w] == [x, y, z, w];
  }

  /** Four hex digits, of either case, are read back. */
  lemma HexDigitsRead(cp: nat, upper: bool)
    requires cp < 0x1_0000
    ensures IsHex4(HexDigits(cp, upper)) && HexValue(HexDigits(cp, upper)) == cp
  {
    var a, b, c, d := cp / 0x1000, cp / 0x100 % 0x10, cp / 0x10 % 0x10, cp % 0x10;
    HexReads(a, upper);
    HexReads(b, upper);
    HexReads(c, upper);
    HexReads(d, upper);
    assert cp == ((a * 16 + b) * 16 + c) * 16 + d by { SixteenTimes(cp); }
    hide Hex, HexVal, HexValue, IsHex4;
    FourHex(Hex(a, upper), Hex(b, upper), Hex(c, upper), Hex(d, upper));
  }

  lemma SixteenTimes(cp: nat)
    ensures cp / 0x10 / 0x10 == cp / 0x100 && cp / 0x100 / 0x10 == cp / 0x1000
    ensures cp == ((cp / 0x1000 * 16 + cp / 0x100 % 0x10) * 16 + cp / 0x10 % 0x10) * 16 + cp % 0x10
  {
  }

  /** A \u escape stands for its code point in UTF-8; NUL and surrogates have no value. */
  lemma UnicodeReads(s: string, p: nat, cp: nat, upper: bool)
    requires cp < 0x1_0000 && StartsAt(s, p, "\\u" + HexDigits(cp, upper))
    ensures p < |s|
    ensures HasUnit(s, p) <==> cp != 0 && !(0xD800 <= cp <= 0xDFFF)
    ensures HasUnit(s, p) ==> UnitText(UnitAt(s, p).value) == Utf8(cp)
  {
    HexDigitsRead(cp, upper);
    hide HexValue, HexDigits, IsHex4;
    UnitReadsBack(s, p, Unicode(HexDigits(cp, upper)));
    hide StartsAt, UnitAt;
  }

  predicate IsHexDigit(c: char) {
    48 <= c as int <= 57 || 65 <= c as int <= 70 || 97 <= c as int <= 102
  }

  /**
   * What may stand in a string: any byte from 32 on but a backslash, a backslash with one of eight
   * letters, or \u with four hex digits that are neither 0 nor a surrogate. All else is malformed.
   */
  lemma UnitExactly(s: string, p: nat)
    requires p < |s| && s[p] != '"'
    ensures HasUnit(s, p) <==>
            || (s[p] as int >= 32 && s[p] != '\\')
            || (s[p] == '\\' && p + 1 < |s| && s[p + 1] in {'"', '\\', '/', 'b', 'f', 'n', 'r', 't'})
            || (s[p] == '\\' && p + 6 <= |s| && s[p + 1] == 'u' && IsHex4(s[p + 2..p + 6]) &&
                HexValue(s[p + 2..p + 6]) != 0 && !(0xD800 <= HexValue(s[p + 2..p + 6]) <= 0xDFFF))
    ensures !HasUnit(s, p) ==> Units(s, p).Bad?
  {
    UnitsStep(s, p);
    hide Units;
    if p + 6 <= |s| && IsHex4(s[p + 2..p + 6]) {
      HexBound(s[p + 2..p + 6]);
    }
    hide HexValue, IsHex4;
  }

  lemma HexDigitExactly(c: char)
    ensures HexVal(c) >= 0 <==> IsHexDigit(c)
  {
  }

  /** The unit a character is shown as. */
  ghost function ShownUnit(c: char): Unit {
    var n := c as int;
    if n == 8 then Simple('b')
    else if n == 9 then Simple('t')
    else if n == 10 then Simple('n')
    else if n == 12 then Simple('f')
    else if n == 13 then Simple('r')
    else if n == 34 || n == 47 || n == 92 then Simple(c)
    else if n < 32 then Unicode(HexDigits(n, false))
    else Plain(c)
  }

  lemma ShownReads(c: char)
    requires c != '\0'
    ensures UnitSource(ShownUnit(c)) == Shown(c) && Decodable(ShownUnit(c)) && UnitText(ShownUnit(c)) == [c]
  {
    if ShownUnit(c).Unicode? {
      ControlReads(c);
    } else {
      hide HexDigits, HexValue, Utf8;
    }
  }

  lemma ControlReads(c: char)
    requires 0 < c as int < 32
    ensures var u := Unicode(HexDigits(c as int, false)); Decodable(u) && UnitText(u) == [c]
  {
    HexDigitsRead(c as int, false);
    hide HexValue, HexDigits, IsHex4;
  }

  ghost function UnitsOf(t: string): seq<Unit> {
    if t == "" then [] else [ShownUnit(t[0])] + UnitsOf(t[1..])
  }

  lemma {:induction false} TextFront(u: Unit, us: seq<Unit>)
    requires Decodable(u) && AllGood(us)
    ensures AllGood([u] + us) && Text([u] + us) == UnitText(u) + Text(us)
    decreases |us|
  {
    GoodFront(u, us);
    hide Decodable, UnitText;
    var all := [u] + us;
    if us == [] {
      assert all[..0] == [] && Text([]) == "";
    } else {
      var init := us[..|us| - 1];
      assert all[..|all| - 1] == [u] + init;
      TextFront(u, init);
    }
  }

  lemma {:induction false} UnitsOfText(t: string)
    requires '\0' !in t
    ensures SourceOf(UnitsOf(t)) == PrintText(t) && AllGood(UnitsOf(t)) && Text(UnitsOf(t)) == t
  {
    hide UnitSource, Decodable, UnitText, ShownUnit, Shown, Text;
    if t == "" {
      NoText();
    } else {
      ShownReads(t[0]);
      UnitsOfText(t[1..]);
      TextFront(ShownUnit(t[0]), UnitsOf(t[1..]));
      assert UnitsOf(t)[1..] == UnitsOf(t[1..]);
      assert [t[0]] + t[1..] == t;
    }
  }

  lemma NoText()
    ensures AllGood([]) && Text([]) == ""
  {
  }

  /** For every text without NUL, decoding the printed string gives the text. */
  lemma TextReadsBack(s: string, p: nat, t: string)
    requires StartsAt(s, p, PrintText(t) + "\"") && '\0' !in t
    ensures p <= |s| && Units(s, p).Content? && Text(Units(s, p).units) == t
    ensures Units(s, p).end == p + |PrintText(t)| + 1
  {
    UnitsOfText(t);
    hide StartsAt, PrintText, UnitsOf, Units, Decodable, ProperUnit, UnitText, Text;
    GoodIsProper(UnitsOf(t));
    UnitsReadBack(s, p, UnitsOf(t));
  }

  lemma GoodIsProper(us: seq<Unit>)
    ensures AllGood(us) ==> AllProper(us)
  {
  }

  /** And it fits every buffer that has room for the text and a NUL. */
  lemma TextDecodes(s: string, p: nat, t: string, size: nat)
    requires StartsAt(s, p, "\"" + (PrintText(t) + "\"")) && '\0' !in t && |t| < size
    ensures p < |s| && Decoded(s, p, size) == |t| && Text(Units(s, p + 1).units) == t
  {
    StartsBoth(s, p, "\"", PrintText(t) + "\"");
    TextReadsBack(s, p + 1, t);
    FitsExactly(Units(s, p + 1).units, size);
    hide PrintText, Units;
  }

  /**
   * The lookup is right on every object whose value for the key is a printed text: the accessor finds
   * it and decodes it to that text, whatever else the object holds.
   */
  lemma LookupText(s: string, lead: string, fields: Fields, key: string, us: seq<Unit>, t: string, size: nat)
    requires StartsAt(s, 0, lead + Print(Members(fields))) && AllWs(lead) && Proper(Members(fields)) && |t| < size
    requires PlainKeys(fields) && ShallowBefore(fields, key)
    requires FirstWith(fields, key) == Some(Str(us)) && SourceOf(us) == PrintText(t) && '\0' !in t
    ensures FindString(s, key).Some?
    ensures Decoded(s, FindString(s, key).value, size) == |t|
    ensures Units(s, FindString(s, key).value + 1).Content?
    ensures Text(Units(s, FindString(s, key).value + 1).units) == t
  {
    FirstIsProper(fields, key);
    SameText(us, t);
    FitsExactly(us, size);
    hide FindString, PrintFields, FirstWith, ShallowBefore, Units, AllGood, AllWs, ProperFields, PlainKeys, Fits,
         StartsAt, Decoded, PrintText, SourceOf, Text;
    LookupPrinted(s, lead, Members(fields), key, size);
  }

  /** Units that print a text stand for it. */
  lemma SameText(us: seq<Unit>, t: string)
    requires AllProper(us) && SourceOf(us) == PrintText(t) && '\0' !in t
    ensures AllGood(us) && Text(us) == t
  {
    var s := PrintText(t) + "\"";
    assert s[0..|s|] == s;
    hide PrintText, SourceOf, Units, AllGood, AllProper, Text;
    UnitsReadBack(s, 0, us);
    TextReadsBack(s, 0, t);
  }

  // ---- numbers ----

  /** A number of section 6 of RFC 8259: sign, digits, fraction and exponent. */
  datatype Number = Number(minus: bool, digits: string, fraction: Option<string>, exponent: Option<Exponent>)

  datatype Exponent = Exponent(mark: char, sign: string, digits: string)

  predicate AllDigits(t: string) {
    t != "" && forall i :: 0 <= i < |t| ==> 48 <= t[i] as int <= 57
  }

  predicate IsRfcNumber(n: Number) {
    && AllDigits(n.digits)
    && (n.fraction.Some? ==> AllDigits(n.fraction.value))
    && (n.exponent.Some? ==>
          n.exponent.value.mark in {'e', 'E'} && n.exponent.value.sign in {"", "+", "-"} &&
          AllDigits(n.exponent.value.digits))
  }

  function PrintNumber(n: Number): string {
    (if n.minus then "-" else "") + (n.digits + ((if n.fraction.Some? then "." + n.fraction.value else "") +
      if n.exponent.Some? then [n.exponent.value.mark] + (n.exponent.value.sign + n.exponent.value.digits) else ""))
  }

  predicate NumChars(t: string) {
    forall i :: 0 <= i < |t| ==> IsNumChar(t[i])
  }

  lemma JoinNumChars(a: string, b: string)
    requires NumChars(a) && NumChars(b)
    ensures NumChars(a + b)
  {
  }

  /** Every number of the RFC is one that the accessor skips. */
  lemma NumbersAreSkipped(n: Number)
    requires IsRfcNumber(n)
    ensures Proper(Num(PrintNumber(n)))
  {
    var frac := if n.fraction.Some? then "." + n.fraction.value else "";
    var exp := if n.exponent.Some? then [n.exponent.value.mark] + (n.exponent.value.sign + n.exponent.value.digits)
               else "";
    assert NumChars(frac) && NumChars(n.digits);
    if n.exponent.Some? {
      ExponentChars(n);
    }
    assert NumChars(exp);
    hide IsNumChar;
    JoinNumChars(frac, exp);
    JoinNumChars(n.digits, frac + exp);
    assert PrintNumber(n) == (if n.minus then "-" else "") + (n.digits + (frac + exp));
  }

  lemma ExponentChars(n: Number)
    requires IsRfcNumber(n) && n.exponent.Some?
    ensures NumChars([n.exponent.value.mark] + (n.exponent.value.sign + n.exponent.value.digits))
  {
    var e := n.exponent.value;
    assert NumChars([e.mark]) && NumChars(e.sign) && NumChars(e.digits);
    JoinNumChars(e.sign, e.digits);
    JoinNumChars([e.mark], e.sign + e.digits);
  }
}
