/** Printed forms: fields with header lines of every kind, and what the splitter reads of them. */
module MultipartForms {
  import opened Wrappers
  import opened Chars
  import opened Multipart

  const FORM_DATA := " form-data; "

  /** A header line: the disposition, the media type with its parameters, or another one. */
  datatype Line =
    | Disposition(header: string, name: string, file: Option<string>)
    | Media(header: string, media: string, params: string)
    | Other(text: string)

  datatype Field = Field(lines: seq<Line>, data: string)

  // ---- printing ----

  function NameLine(header: string, name: string, tail: string): string {
    header + FORM_DATA + ("name=\"" + (name + ("\"" + tail)))
  }

  function FileTail(file: Option<string>): string {
    if file.None? then "" else "; filename=\"" + (file.value + "\"")
  }

  function PrintLine(l: Line): string {
    match l
    case Disposition(header, name, file) => NameLine(header, name, FileTail(file))
    case Media(header, media, params) => header + " " + (media + params)
    case Other(text) => text
  }

  function Block(lines: seq<Line>): string {
    if lines == [] then "" else PrintLine(lines[0]) + ("\r\n" + Block(lines[1..]))
  }

  /** What follows a delimiter: the remaining fields, or the mark of the last delimiter. */
  function PrintFrom(fields: seq<Field>, boundary: string, epilogue: string): string {
    if fields == [] then "--" + epilogue
    else "\r\n" + (Block(fields[0].lines) + ("\r\n" + (fields[0].data + (
         ("\r\n" + ("--" + boundary)) + PrintFrom(fields[1..], boundary, epilogue)))))
  }

  // ---- well-formed lines ----

  /** The name of the header in any letter case. */
  predicate IsDisposition(header: string) {
    Lower(header) == "content-disposition:"
  }

  predicate IsMedia(header: string) {
    Lower(header) == "content-type:"
  }

  /** What may stand in quotes. */
  predicate Quotable(s: string, size: nat) {
    |s| < size && forall i :: 0 <= i < |s| ==> ' ' <= s[i] <= '~' && s[i] != '"'
  }

  /** Inside the name a word "filename=" begins at i. */
  predicate FileWord(name: string, i: nat) {
    0 < i < |name| && Breaks(name[i - 1]) && StartsNoCase(name, i, "filename=")
  }

  predicate ProperLine(l: Line) {
    match l
    case Disposition(header, name, file) =>
      IsDisposition(header) && name != "" && Quotable(name, 32) &&
        (forall i :: 0 <= i < |name| ==> !FileWord(name, i)) &&
      (file.Some? ==> Quotable(file.value, 64))
    case Media(header, media, params) =>
      IsMedia(header) && |media| < 64 &&
      (forall i :: 0 <= i < |media| ==> media[i] != ' ' && media[i] != '\t' && media[i] != ';' && media[i] != '\r') &&
      (params == "" || params[0] == ';') && '\r' !in params
    case Other(text) =>
      text != "" && '\r' !in text && !(|text| > 20 && StartsNoCase(text, 0, "content-disposition:")) &&
      !(|text| > 13 && StartsNoCase(text, 0, "content-type:"))
  }

  predicate Lacks(s: string, needle: string) {
    forall k :: 0 <= k <= |s| ==> !StartsAt(s, k, needle)
  }

  predicate ProperField(f: Field, boundary: string) {
    f.lines != [] && (forall i :: 0 <= i < |f.lines| ==> ProperLine(f.lines[i])) &&
      Lacks(f.data, "\r\n" + ("--" + boundary))
  }

  predicate IsForm(fields: seq<Field>, boundary: string) {
    forall i :: 0 <= i < |fields| ==> ProperField(fields[i], boundary)
  }

  // ---- what the lines say ----

  /** Each line sets what it names; the last one of a kind wins. */
  function Apply(l: Line, h: Headers): Headers {
    match l
    case Disposition(_, name, file) => h.(name := name, filename := if file.Some? then file.value else "")
    case Media(_, media, _) => h.(contentType := media)
    case Other(_) => h
  }

  function Said(lines: seq<Line>, h: Headers): Headers {
    if lines == [] then h else Said(lines[1..], Apply(lines[0], h))
  }

  /** The fields that have a name. */
  function Named(fields: seq<Field>): seq<Field> {
    if fields == [] then []
    else (if Said(fields[0].lines, NO_HEADERS).name != "" then [fields[0]] else []) + Named(fields[1..])
  }

  // ---- finding delimiters ----

  /**
   * A text that begins with a character it does not repeat cannot overlap itself: behind data that
   * lacks it, its first occurrence is where it was written.
   */
  lemma NoOverlap(s: string, p: nat, data: string, needle: string, k: nat)
    requires needle != "" && forall i :: 1 <= i < |needle| ==> needle[i] != needle[0]
    requires StartsAt(s, p, data + needle) && Lacks(data, needle) && p <= k < p + |data|
    ensures !StartsAt(s, k, needle)
  {
    StartsBoth(s, p, data, needle);
    if k + |needle| <= p + |data| {
      Inner(s, p, p + |data|, k - p, k - p + |needle|);
      assert !StartsAt(data, k - p, needle);
    } else {
      FirstChar(s, p + |data|, needle);
      var i := p + |data| - k;
      assert k + |needle| <= |s| ==> s[k..k + |needle|][i] == s[p + |data|];
    }
  }

  lemma {:induction false} FindIs(s: string, p: nat, needle: string, k: nat)
    requires needle != "" && p <= k && StartsAt(s, k, needle)
    requires forall i :: p <= i < k ==> !StartsAt(s, i, needle)
    ensures FindFrom(s, p, needle) == Some(k)
    decreases k - p
  {
    if p < k {
      FindIs(s, p + 1, needle, k);
    }
  }

  lemma FindBehind(s: string, p: nat, data: string, needle: string)
    requires needle != "" && forall i :: 1 <= i < |needle| ==> needle[i] != needle[0]
    requires StartsAt(s, p, data + needle) && Lacks(data, needle)
    ensures FindFrom(s, p, needle) == Some(p + |data|)
  {
    hide FindFrom;
    StartsBoth(s, p, data, needle);
    forall k | p <= k < p + |data| ensures !StartsAt(s, k, needle) {
      NoOverlap(s, p, data, needle, k);
    }
    hide StartsAt;
    FindIs(s, p, needle, p + |data|);
  }

  lemma NotAtOther(s: string, k: nat, needle: string)
    requires k < |s| && needle != "" && s[k] != needle[0]
    ensures !StartsAt(s, k, needle)
  {
    assert k + |needle| <= |s| ==> s[k..k + |needle|][0] == s[k];
  }

  /** Nothing is found before q. */
  lemma {:induction false} FindSkips(s: string, p: nat, q: nat, needle: string)
    requires needle != "" && p <= q && forall k :: p <= k < q ==> !StartsAt(s, k, needle)
    ensures FindFrom(s, p, needle) == FindFrom(s, q, needle)
    decreases q - p
  {
    hide StartsAt;
    if p < q {
      FindSkips(s, p + 1, q, needle);
    }
  }

  // ---- attributes ----

  lemma {:induction false} AttrFromSkips(line: string, attr: string, i: nat, j: nat)
    requires i <= j && j + |attr| < |line| && AttrAt(line, attr, j)
    requires forall k :: i <= k < j ==> !AttrAt(line, attr, k)
    ensures AttrFrom(line, attr, i) == Some(j)
    decreases j - i
  {
    hide AttrAt;
    if i < j {
      AttrFromSkips(line, attr, i + 1, j);
    }
  }

  lemma {:induction false} QuotedEnd(line: string, v: nat, name: string, room: nat)
    requires StartsAt(line, v, name + "\"") && |name| <= room
    requires forall i :: 0 <= i < |name| ==> ' ' <= name[i] <= '~' && name[i] != '"'
    ensures ValueEnd(line, v, true, room) == Some(v + |name|) && line[v..v + |name|] == name
    decreases |name|
  {
    StartsBoth(line, v, name, "\"");
    CharHere(line, v + |name|, '"');
    if name != "" {
      FirstChar(line, v, name);
      assert name + "\"" == [name[0]] + (name[1..] + "\"");
      StartsBoth(line, v, [name[0]], name[1..] + "\"");
      QuotedEnd(line, v + 1, name[1..], room - 1);
    }
  }

  lemma {:induction false} AttrFromNone(line: string, attr: string, i: nat)
    requires forall k :: i <= k < |line| ==> !AttrAt(line, attr, k)
    ensures AttrFrom(line, attr, i) == None
    decreases |line| - i
  {
    hide AttrAt;
    if i + |attr| < |line| {
      AttrFromNone(line, attr, i + 1);
    }
  }

  predicate Breaks(c: char) {
    c == ';' || c == ' ' || c == '\t'
  }

  /** Where a word of s begins with n, when `start` tells that s begins a word. */
  predicate WordAt(s: string, k: nat, start: bool)
    requires k < |s|
  {
    (if k == 0 then start else Breaks(s[k - 1])) && LowerChar(s[k]) == 'n'
  }

  lemma TargetWords(k: nat)
    requires k < 20
    ensures var t := "content-disposition:"; |t| == 20 && t[k] != '\r' && !Breaks(t[k]) && t[0] == 'c'
  {
  }

  lemma HeaderWords(header: string, k: nat)
    requires IsDisposition(header)
    ensures |header| == 20 && (k < 20 ==> header[k] != '\r' && !Breaks(header[k]) && !WordAt(header, k, true))
  {
    TargetWords(0);
    var l := Lower(header);
    assert l[0] == LowerChar(header[0]);
    if k < 20 {
      TargetWords(k);
      TargetWords(if k > 0 then k - 1 else 0);
      assert l[k] == LowerChar(header[k]) && (k > 0 ==> l[k - 1] == LowerChar(header[k - 1]));
    }
  }

  lemma FormWords(k: nat)
    requires k < |FORM_DATA|
    ensures |FORM_DATA| == 12 && FORM_DATA[11] == ' ' && FORM_DATA[k] != '\r' && !WordAt(FORM_DATA, k, false)
  {
  }

  /** Before the name attribute no word of the header begins with n. */
  lemma DispositionWords(header: string, k: nat)
    requires IsDisposition(header) && k < 32
    ensures var d := header + FORM_DATA;
            |d| == 32 && d[31] == ' ' && d[..20] == header && d[k] != '\r' && !WordAt(d, k, true)
  {
    FormWords(0);
    HeaderWords(header, k);
    HeaderWords(header, 19);
    var d := header + FORM_DATA;
    if k >= 20 {
      FormWords(k - 20);
      assert d[k] == FORM_DATA[k - 20] && d[k - 1] == (if k == 20 then header[19] else FORM_DATA[k - 21]);
    }
  }

  /** The attribute cannot begin at a character that is not an n, or inside a word. */
  lemma NotNameAt(line: string, k: nat)
    requires k < |line|
    requires !WordAt(line, k, true)
    ensures !AttrAt(line, "name=", k)
  {
    assert k + 5 <= |line| ==> Lower(line[k..k + 5])[0] == LowerChar(line[k]);
  }

  lemma NameIsLower()
    ensures Lower("name=") == "name="
  {
    var l := Lower("name=");
    assert l[0] == 'n' && l[1] == 'a' && l[2] == 'm' && l[3] == 'e' && l[4] == '=';
  }

  /** What follows the header name of a disposition line, from its place on. */
  lemma LineParts(header: string, name: string, tail: string)
    requires IsDisposition(header)
    ensures var line := NameLine(header, name, tail);
            line[..20] == header && line[..32] == header + FORM_DATA && |line| == 39 + |name| + |tail| &&
            line[32..38] == "name=\"" && StartsAt(line, 38, name + "\"") && StartsAt(line, 39 + |name|, tail)
  {
    DispositionWords(header, 0);
    var line := NameLine(header, name, tail);
    assert |"name=\""| == 6;
    assert StartsAt(line, 32, "name=\"" + (name + ("\"" + tail)));
    StartsBoth(line, 32, "name=\"", name + ("\"" + tail));
    assert name + ("\"" + tail) == (name + "\"") + tail;
    StartsBoth(line, 38, name + "\"", tail);
  }

  lemma NamePlace(header: string, name: string, tail: string)
    requires IsDisposition(header)
    ensures var line := NameLine(header, name, tail);
            AttrFrom(line, "name=", 0) == Some(32) && 38 < |line| && line[37] == '"'
  {
    hide AttrFrom, AttrAt, NameLine, StartsAt;
    var line := NameLine(header, name, tail);
    LineParts(header, name, tail);
    var value := line[32..38];
    assert line[32..37] == value[..5] && line[37] == value[5] && value[..5] == "name=";
    NameIsLower();
    DispositionWords(header, 0);
    var d := header + FORM_DATA;
    assert line[31] == line[..32][31] == d[31];
    AttrHere(line);
    forall k | 0 <= k < 32
      ensures !AttrAt(line, "name=", k)
    {
      DispositionWords(header, k);
      assert line[k] == line[..32][k] && (k > 0 ==> line[k - 1] == line[..32][k - 1]);
      NotNameAt(line, k);
    }
    AttrFromSkips(line, "name=", 0, 32);
  }

  lemma AttrHere(line: string)
    requires 37 < |line| && Lower(line[32..37]) == "name=" && line[31] == ' '
    ensures AttrAt(line, "name=", 32)
  {
  }

  lemma CloseQuote(line: string, v: nat, name: string)
    requires StartsAt(line, v, name + "\"")
    ensures v + |name| < |line|
  {
  }

  // ---- the file name ----

  /** A character of the line other than f, or behind a character that ends no word, begins no "filename=". */
  lemma NotFileAt(line: string, k: nat)
    requires k < |line|
    requires LowerChar(line[k]) != 'f' || (k > 0 && !Breaks(line[k - 1])) || k + 1 >= |line| ||
             LowerChar(line[k + 1]) != 'i'
    ensures !AttrAt(line, "filename=", k)
  {
    if k + 9 <= |line| {
      var l := Lower(line[k..k + 9]);
      assert l[0] == LowerChar(line[k]) && l[1] == LowerChar(line[k + 1]);
      assert "filename="[0] == 'f' && "filename="[1] == 'i';
    }
  }

  lemma HeaderNotFile(header: string, k: nat)
    requires IsDisposition(header) && k < 32
    ensures var d := header + FORM_DATA;
            |d| == 32 && (LowerChar(d[k]) != 'f' || (k > 0 && !Breaks(d[k - 1])) ||
              (k + 1 < 32 && LowerChar(d[k + 1]) != 'i'))
  {
    var d := header + FORM_DATA;
    HeaderWords(header, 0);
    FormWords(0);
    if k == 0 {
      TargetWords(0);
      assert Lower(header)[0] == LowerChar(header[0]);
    } else if k < 20 {
      HeaderWords(header, k - 1);
      assert d[k - 1] == header[k - 1];
    } else {
      assert d[k] == FORM_DATA[k - 20];
      assert k + 1 < 32 ==> d[k + 1] == FORM_DATA[k + 1 - 20];
    }
  }

  /** Inside the name attribute a file name is found exactly where the name has a word "filename=". */
  lemma FileInName(header: string, name: string, tail: string, i: nat)
    requires IsDisposition(header) && Quotable(name, 32) && i < |name|
    ensures AttrAt(NameLine(header, name, tail), "filename=", 38 + i) <==> FileWord(name, i)
  {
    hide NameLine;
    var line := NameLine(header, name, tail);
    LineParts(header, name, tail);
    StartsBoth(line, 38, name, "\"");
    CharHere(line, 38 + |name|, '"');
    assert line[38..38 + |name|] == name;
    assert line[38 + i] == line[38..38 + |name|][i];
    if i == 0 {
      assert line[37] == line[32..38][5] == '"';
    } else {
      assert line[38 + i - 1] == line[38..38 + |name|][i - 1] == name[i - 1];
      if i + 9 <= |name| {
        Inner(line, 38, 38 + |name|, i, i + 9);
      } else if 38 + i + 9 <= |line| {
        QuoteInside(line, 38 + i, 38 + |name|);
      }
    }
  }

  lemma QuoteInside(line: string, k: nat, q: nat)
    requires k <= q < k + 9 <= |line| && line[q] == '"'
    ensures !StartsNoCase(line, k, "filename=")
  {
    var l := Lower(line[k..k + 9]);
    assert l[q - k] == LowerChar(line[q]) == '"';
    assert forall j :: 0 <= j < 9 ==> "filename="[j] != '"';
  }

  /** Up to the end of the name no file name is found, when the name has no word "filename=". */
  lemma NoFileBefore(header: string, name: string, tail: string, k: nat)
    requires IsDisposition(header) && Quotable(name, 32) && (forall i :: 0 <= i < |name| ==> !FileWord(name, i))
    requires k < 39 + |name|
    ensures !AttrAt(NameLine(header, name, tail), "filename=", k)
  {
    NoFileUpTo(header, name, tail, k, |name|);
  }

  lemma NoFileUpTo(header: string, name: string, tail: string, k: nat, n: nat)
    requires IsDisposition(header) && Quotable(name, 32)
    requires n <= |name| && forall i :: 0 <= i < n ==> !FileWord(name, i)
    requires k < 38 + n || (k < 39 + n && n == |name|)
    ensures !AttrAt(NameLine(header, name, tail), "filename=", k)
  {
    hide NameLine, AttrAt, FileWord, StartsAt, Quotable;
    var line := NameLine(header, name, tail);
    LineParts(header, name, tail);
    if k < 32 {
      HeaderNotFile(header, k);
      assert line[k] == line[..32][k] && (k > 0 ==> line[k - 1] == line[..32][k - 1]);
      assert k + 1 < 32 ==> line[k + 1] == line[..32][k + 1];
      NotFileAt(line, k);
    } else if k < 38 {
      assert line[k] == line[32..38][k - 32] == "name=\""[k - 32];
      NotFileAt(line, k);
    } else if k < 38 + n {
      FileInName(header, name, tail, k - 38);
    } else {
      StartsBoth(line, 38, name, "\"");
      CharHere(line, k, '"');
      NotFileAt(line, k);
    }
  }

  predicate FirstWord(name: string, i: nat) {
    FileWord(name, i) && forall j :: 0 <= j < i ==> !FileWord(name, j)
  }

  function UpToSemicolon(t: string): string {
    if t == "" || t[0] == ';' then "" else [t[0]] + UpToSemicolon(t[1..])
  }

  /** What is taken for the file name when the first word "filename=" of the name ends at p. */
  function Taken(name: string, p: nat): string
    requires p <= |name|
  {
    if p == |name| then "" else UpToSemicolon(name[p..] + "\"")
  }

  /**
   * The file name read from a line without one: empty unless the first word "filename=" inside the
   * quoted name is followed by a character of the name other than a semicolon. Then it is what
   * follows, up to a semicolon, or to the end with the closing quote.
   */
  lemma FileNameExactly(header: string, name: string)
    requires IsDisposition(header) && Quotable(name, 32)
    ensures var r := Attr(NameLine(header, name, ""), "filename=", 64);
            && ((forall i :: 0 <= i < |name| ==> !FileWord(name, i)) ==> r == "")
            && (forall i :: 0 <= i < |name| && FirstWord(name, i) ==> i + 9 <= |name| && r == Taken(name, i + 9))
            && (r != "" <==>
                exists i :: 0 <= i < |name| && FirstWord(name, i) && i + 9 < |name| && name[i + 9] != ';')
  {
    var line := NameLine(header, name, "");
    var r := Attr(line, "filename=", 64);
    hide NameLine, StartsAt, AttrFrom, Attr, FirstWord;
    if forall i :: 0 <= i < |name| ==> !FileWord(name, i) {
      NoWordTaken(header, name);
      forall i | 0 <= i < |name|
        ensures !FirstWord(name, i)
      {
        OnlyFirst(name, i, i);
      }
    } else {
      var k :| 0 <= k < |name| && FileWord(name, k);
      var i := LeastWord(name, k);
      WordTaken(header, name, i);
      forall j | 0 <= j < |name| && FirstWord(name, j)
        ensures j == i
      {
        OnlyFirst(name, i, j);
      }
      assert r != "" <==> i + 9 < |name| && name[i + 9] != ';' by { TakenExactly(name, i + 9); }
    }
  }

  lemma OnlyFirst(name: string, i: nat, j: nat)
    ensures FirstWord(name, i) ==> FileWord(name, i)
    ensures FirstWord(name, i) && FirstWord(name, j) ==> i == j
  {
    hide FileWord;
  }

  lemma {:induction false} LeastWord(name: string, k: nat) returns (i: nat)
    requires FileWord(name, k)
    ensures FirstWord(name, i) && i <= k
  {
    hide FileWord;
    if j :| 0 <= j < k && FileWord(name, j) {
      i := LeastWord(name, j);
    } else {
      i := k;
    }
  }

  lemma TakenExactly(name: string, p: nat)
    requires p <= |name|
    ensures Taken(name, p) != "" <==> p < |name| && name[p] != ';'
  {
  }

  lemma NoWordTaken(header: string, name: string)
    requires IsDisposition(header) && Quotable(name, 32) && forall i :: 0 <= i < |name| ==> !FileWord(name, i)
    ensures Attr(NameLine(header, name, ""), "filename=", 64) == ""
  {
    var line := NameLine(header, name, "");
    LineParts(header, name, "");
    hide NameLine, AttrAt, StartsAt, Quotable, AttrFrom;
    forall k | 0 <= k < |line|
      ensures !AttrAt(line, "filename=", k)
    {
      NoFileBefore(header, name, "", k);
    }
    AttrFromNone(line, "filename=", 0);
    NoAttr(line, "filename=", 64);
  }

  /** The first word inside the name is the first in the line, and its value ends in the name or with the line. */
  lemma WordTaken(header: string, name: string, i: nat)
    requires IsDisposition(header) && Quotable(name, 32) && FirstWord(name, i)
    ensures i + 9 <= |name| && Attr(NameLine(header, name, ""), "filename=", 64) == Taken(name, i + 9)
  {
    var line := NameLine(header, name, "");
    WordFits(name, i);
    LineParts(header, name, "");
    hide NameLine, AttrAt, AttrFrom, Attr, Taken, Quotable, IsDisposition;
    assert line[38..] == name + "\"";
    hide FileWord, StartsAt;
    FileInName(header, name, "", i);
    forall k | 0 <= k < 38 + i
      ensures !AttrAt(line, "filename=", k)
    {
      NoFileUpTo(header, name, "", k, i);
    }
    AttrFromSkips(line, "filename=", 0, 38 + i);
    ValueOfWord(line, name, 38 + i, i + 9);
  }

  lemma WordFits(name: string, i: nat)
    requires FirstWord(name, i)
    ensures 0 < i && i + 9 <= |name|
  {
  }

  lemma ValueOfWord(line: string, name: string, k: nat, p: nat)
    requires Quotable(name, 32) && p <= |name| && 38 + p == k + 9 && |line| == 39 + |name|
    requires line[38..] == name + "\"" && AttrFrom(line, "filename=", 0) == Some(k)
    ensures Attr(line, "filename=", 64) == Taken(name, p)
  {
    hide AttrFrom, UpToSemicolon;
    assert line[k + 9] == (name + "\"")[p];
    if p == |name| {
      assert ValueEnd(line, k + 10, true, 63) == Some(|line|);
    } else {
      assert line[k + 9..] == line[38..][p..] == name[p..] + "\"";
      UnquotedEnd(line, k + 9, 63);
      assert UpToSemicolon(name[p..] + "\"") == "" <==> name[p] == ';' by { TakenExactly(name, p); }
    }
  }

  /** A value without quotes goes to the next semicolon or to the end of the line. */
  lemma {:induction false} UnquotedEnd(line: string, v: nat, room: nat)
    requires v <= |line| && |line| - v <= room && forall k :: v <= k < |line| ==> ' ' <= line[k] <= '~'
    ensures ValueEnd(line, v, false, room).Some?
    ensures var e := ValueEnd(line, v, false, room).value; v <= e <= |line| && line[v..e] == UpToSemicolon(line[v..])
    decreases |line| - v
  {
    if v < |line| && line[v] != ';' {
      assert line[v] != '\r';
      UnquotedEnd(line, v + 1, room - 1);
      var e := ValueEnd(line, v + 1, false, room - 1).value;
      assert line[v..][1..] == line[v + 1..];
      assert line[v..e] == [line[v]] + line[v + 1..e];
    }
  }

  /** A field named `a filename=b` comes back with the file name `b"`. */
  lemma FileNameExample()
    ensures Attr(NameLine("Content-Disposition:", "a filename=b", ""), "filename=", 64) == "b\""
  {
    var name := "a filename=b";
    LowerWords();
    ExampleWord();
    assert Quotable(name, 32);
    hide Attr, NameLine, FileWord, Quotable, Lower;
    FileNameExactly("Content-Disposition:", name);
    assert name[11..] + "\"" == ['b'] + "\"";
    assert UpToSemicolon("\"") == ['"'] + "";
  }

  lemma LowerWords()
    ensures Lower("filename=") == "filename=" && Lower("Content-Disposition:") == "content-disposition:"
  {
    forall i | 0 <= i < 9 ensures LowerChar("filename="[i]) == "filename="[i] {
    }
    forall i | 0 <= i < 20 ensures LowerChar("Content-Disposition:"[i]) == "content-disposition:"[i] {
    }
  }

  lemma ExampleWord()
    ensures FirstWord("a filename=b", 2)
  {
    var name := "a filename=b";
    LowerWords();
    hide Lower;
    assert name[2..11] == "filename=";
    assert name[0] == 'a' && name[1] == ' ';
  }

  lemma FilePlace(header: string, name: string, file: string)
    requires IsDisposition(header) && Quotable(name, 32) && forall i :: 0 <= i < |name| ==> !FileWord(name, i)
    ensures var line := NameLine(header, name, FileTail(Some(file)));
            var k := 41 + |name|;
            AttrFrom(line, "filename=", 0) == Some(k) && k + 9 < |line| && line[k + 9] == '"' &&
            StartsAt(line, k + 10, file + "\"")
  {
    hide AttrFrom, AttrAt, NameLine, StartsAt, Quotable, FileWord;
    var tail := FileTail(Some(file));
    var line := NameLine(header, name, tail);
    var k := 41 + |name|;
    LineParts(header, name, tail);
    assert tail == "; " + ("filename=" + ("\"" + (file + "\"")));
    StartsBoth(line, 39 + |name|, "; ", "filename=" + ("\"" + (file + "\"")));
    StartsBoth(line, k, "filename=", "\"" + (file + "\""));
    StartsBoth(line, k + 9, "\"", file + "\"");
    CharHere(line, k + 9, '"');
    Separators(line, 39 + |name|);
    FileHere(line, k);
    forall j | 0 <= j < k
      ensures !AttrAt(line, "filename=", j)
    {
      if j < 39 + |name| {
        NoFileBefore(header, name, tail, j);
      } else {
        NotFileAt(line, j);
      }
    }
    AttrFromSkips(line, "filename=", 0, k);
  }

  lemma Separators(line: string, p: nat)
    requires StartsAt(line, p, "; ")
    ensures p + 2 <= |line| && line[p] == ';' && line[p + 1] == ' '
  {
    assert line[p] == line[p..p + 2][0] && line[p + 1] == line[p..p + 2][1];
  }

  lemma FileHere(line: string, k: nat)
    requires StartsAt(line, k, "filename=") && k > 0 && line[k - 1] == ' '
    ensures AttrAt(line, "filename=", k)
  {
    LowerWords();
  }

  // ---- single lines ----

  /** A quoted value is read back. */
  lemma QuotedAttr(line: string, attr: string, size: nat, k: nat, value: string)
    requires AttrFrom(line, attr, 0) == Some(k) && k + |attr| < |line| && line[k + |attr|] == '"' &&
             Quotable(value, size)
    requires StartsAt(line, k + |attr| + 1, value + "\"")
    ensures size > 0 && Attr(line, attr, size) == value
  {
    hide AttrFrom, ValueEnd, StartsAt, Attr;
    QuotedEnd(line, k + |attr| + 1, value, size - 1);
    CloseQuote(line, k + |attr| + 1, value);
    QuotedIs(line, attr, size, k, k + |attr| + 1 + |value|);
  }

  lemma QuotedIs(line: string, attr: string, size: nat, k: nat, e: nat)
    requires size > 0 && AttrFrom(line, attr, 0) == Some(k) && line[k + |attr|] == '"'
    requires ValueEnd(line, k + |attr| + 1, true, size - 1) == Some(e) && e < |line|
    ensures Attr(line, attr, size) == line[k + |attr| + 1..e]
  {
    hide AttrFrom, ValueEnd;
  }

  lemma NoAttr(line: string, attr: string, size: nat)
    requires AttrFrom(line, attr, 0) == None && size > 0
    ensures Attr(line, attr, size) == ""
  {
  }

  lemma DispositionReads(header: string, name: string, file: Option<string>)
    requires ProperLine(Disposition(header, name, file))
    ensures var line := NameLine(header, name, FileTail(file));
            Attr(line, "name=", 32) == name &&
            Attr(line, "filename=", 64) == if file.Some? then file.value else ""
  {
    hide AttrFrom, Attr, StartsAt, Lower, FileWord, NameLine;
    var line := NameLine(header, name, FileTail(file));
    LineParts(header, name, FileTail(file));
    NamePlace(header, name, FileTail(file));
    QuotedAttr(line, "name=", 32, 32, name);
    if file.Some? {
      FilePlace(header, name, file.value);
      QuotedAttr(line, "filename=", 64, 41 + |name|, file.value);
    } else {
      NoWordTaken(header, name);
    }
  }

  lemma DispositionApplies(header: string, name: string, file: Option<string>, h: Headers)
    requires ProperLine(Disposition(header, name, file))
    ensures var l := Disposition(header, name, file);
            HeaderLine(PrintLine(l), h) == Apply(l, h) && '\r' !in PrintLine(l)
  {
    hide Attr, FileWord, NameLine, FileTail, Lower;
    LineParts(header, name, FileTail(file));
    assert NameLine(header, name, FileTail(file))[0..20] == header;
    DispositionReads(header, name, file);
    NoReturn(header, name, file);
  }

  lemma NoReturn(header: string, name: string, file: Option<string>)
    requires ProperLine(Disposition(header, name, file))
    ensures '\r' !in NameLine(header, name, FileTail(file))
  {
    hide FileWord, Lower;
    var line, tail := NameLine(header, name, FileTail(file)), FileTail(file);
    DispositionWords(header, 0);
    assert '\r' !in header + FORM_DATA by {
      forall k | 0 <= k < 32
        ensures (header + FORM_DATA)[k] != '\r'
      {
        DispositionWords(header, k);
      }
    }
    assert '\r' !in name && '\r' !in "name=\"";
    assert '\r' !in tail by {
      if file.Some? {
        assert '\r' !in "; filename=\"" && '\r' !in file.value + "\"";
      }
    }
  }

  lemma {:induction false} MediaReads(line: string, v: nat, media: string, room: nat)
    requires v + |media| <= |line| && line[v..v + |media|] == media && |media| <= room
    requires forall i :: 0 <= i < |media| ==> media[i] != ' ' && media[i] != '\t' && media[i] != ';'
    requires v + |media| < |line| ==> line[v + |media|] == ';'
    ensures MediaType(line, v, room) == media
    decreases |media|
  {
    if media != "" {
      assert line[v] == line[v..v + |media|][0];
      Inner(line, v, v + |media|, 1, |media|);
      MediaReads(line, v + 1, media[1..], room - 1);
    }
  }

  lemma MediaApplies(header: string, media: string, params: string, h: Headers)
    requires ProperLine(Media(header, media, params))
    ensures var l := Media(header, media, params); HeaderLine(PrintLine(l), h) == Apply(l, h) && '\r' !in PrintLine(l)
  {
    var line := header + " " + (media + params);
    var l := Lower(header);
    assert |l| == 13 && |"content-type:"| == 13;
    assert line[0..13] == header && line[13] == ' ' && line[14..14 + |media|] == media;
    assert params != "" ==> line[14 + |media|] == params[0];
    MediaKind(line);
    hide Lower;
    MediaReads(line, 14, media, 63);
    assert '\r' !in header by { MediaHeader(header); }
  }

  lemma MediaKind(line: string)
    requires |line| >= 13 && Lower(line[0..13]) == "content-type:"
    ensures !StartsNoCase(line, 0, "content-disposition:")
  {
    assert Lower(line[0..13])[8] == LowerChar(line[8]) == "content-type:"[8] == 't';
    if |line| >= 20 {
      assert Lower(line[0..20])[8] == LowerChar(line[8]);
      assert "content-disposition:"[8] == 'd';
    }
  }

  lemma MediaHeader(header: string)
    requires IsMedia(header)
    ensures '\r' !in header
  {
    forall i | 0 <= i < |header|
      ensures header[i] != '\r'
    {
      assert Lower(header)[i] == LowerChar(header[i]);
      assert forall j :: 0 <= j < 13 ==> "content-type:"[j] != '\r';
    }
  }

  /** Every well-formed line says what it was printed for. */
  lemma LineApplies(l: Line, h: Headers)
    requires ProperLine(l)
    ensures HeaderLine(PrintLine(l), h) == Apply(l, h) && '\r' !in PrintLine(l) && PrintLine(l) != ""
  {
    hide HeaderLine, Lower, Attr, MediaType;
    match l
    case Disposition(header, name, file) =>
      DispositionApplies(header, name, file, h);
      LineParts(header, name, FileTail(file));
    case Media(header, media, params) => MediaApplies(header, media, params, h);
    case Other(text) => OtherApplies(text, h);
  }

  lemma OtherApplies(text: string, h: Headers)
    requires ProperLine(Other(text))
    ensures HeaderLine(text, h) == h
  {
  }

  // ---- header blocks ----

  /** The lines of a block are read one after the other. */
  lemma {:induction false} BlockReads(region: string, pos: nat, lines: seq<Line>, h: Headers)
    requires StartsAt(region, pos, Block(lines)) && pos + |Block(lines)| == |region|
    requires forall i :: 0 <= i < |lines| ==> ProperLine(lines[i])
    ensures HeadersFrom(region, pos, h) == Said(lines, h)
    decreases |lines|
  {
    hide HeaderLine, PrintLine, FindFrom, StartsAt, ProperLine, Apply;
    if lines != [] {
      var line, rest := PrintLine(lines[0]), Block(lines[1..]);
      LineApplies(lines[0], h);
      StartsBoth(region, pos, line, "\r\n" + rest);
      StartsBoth(region, pos + |line|, "\r\n", rest);
      FirstLine(region, pos, line);
      BlockReads(region, pos + |line| + 2, lines[1..], Apply(lines[0], h));
    }
  }

  lemma FirstLine(region: string, pos: nat, line: string)
    requires StartsAt(region, pos, line) && StartsAt(region, pos + |line|, "\r\n") && '\r' !in line
    ensures pos + |line| <= |region| && LineEndAt(region, pos) == pos + |line| && region[pos..pos + |line|] == line
  {
    hide FindFrom;
    NoneInLine(region, pos, line, "\r\n");
    hide StartsAt;
    FindIs(region, pos, "\r\n", pos + |line|);
  }

  /** A text that begins with CR stands nowhere in a line. */
  lemma NoneInLine(s: string, p: nat, line: string, needle: string)
    requires StartsAt(s, p, line) && '\r' !in line && needle != "" && needle[0] == '\r'
    ensures forall k :: p <= k < p + |line| ==> !StartsAt(s, k, needle)
  {
    forall k | p <= k < p + |line|
      ensures !StartsAt(s, k, needle)
    {
      assert s[k] == s[p..p + |line|][k - p];
      assert s[k] in line;
      NotAtOther(s, k, needle);
    }
  }

  /** The empty line behind a block is the first one. */
  lemma {:induction false} BlockEnds(s: string, p: nat, lines: seq<Line>)
    requires lines != [] && StartsAt(s, p, Block(lines) + "\r\n") &&
             forall i :: 0 <= i < |lines| ==> ProperLine(lines[i])
    ensures |Block(lines)| >= 2 && FindFrom(s, p, "\r\n\r\n") == Some(p + |Block(lines)| - 2)
    decreases |lines|
  {
    hide PrintLine, FindFrom, StartsAt, ProperLine;
    var line, rest := PrintLine(lines[0]), Block(lines[1..]);
    LineApplies(lines[0], NO_HEADERS);
    assert Block(lines) + "\r\n" == line + ("\r\n" + (rest + "\r\n"));
    StartsBoth(s, p, line, "\r\n" + (rest + "\r\n"));
    StartsBoth(s, p + |line|, "\r\n", rest + "\r\n");
    NoneInLine(s, p, line, "\r\n\r\n");
    if lines[1..] == [] {
      assert rest == "" && rest + "\r\n" == "\r\n";
      assert "\r\n" + "\r\n" == "\r\n\r\n";
      FindIs(s, p, "\r\n\r\n", p + |line|);
    } else {
      BlockEnds(s, p + |line| + 2, lines[1..]);
      NextLine(s, p + |line|, lines[1..]);
      FindSkips(s, p, p + |line| + 2, "\r\n\r\n");
    }
  }

  /** The next line is not empty. */
  lemma NextLine(s: string, q: nat, lines: seq<Line>)
    requires StartsAt(s, q, "\r\n") && lines != [] && StartsAt(s, q + 2, Block(lines) + "\r\n") && ProperLine(lines[0])
    ensures !StartsAt(s, q, "\r\n\r\n") && !StartsAt(s, q + 1, "\r\n\r\n")
  {
    hide ProperLine, PrintLine;
    var line := PrintLine(lines[0]);
    LineApplies(lines[0], NO_HEADERS);
    FirstChar(s, q + 2, Block(lines) + "\r\n");
    assert line[0] in line && s[q + 2] == line[0] != '\r';
    assert s[q + 1] == s[q..q + 2][1] == '\n';
    NotAtOther(s, q + 1, "\r\n\r\n");
    assert q + 4 <= |s| ==> s[q..q + 4][2] == s[q + 2];
  }

  // ---- a printed form comes back ----

  /** Part by part: the names and the media type, and the exact data bytes as a slice of the body. */
  predicate Reads(body: string, parts: seq<Part>, fields: seq<Field>) {
    |parts| <= |fields| &&
    forall i :: 0 <= i < |parts| ==>
      var h := Said(fields[i].lines, NO_HEADERS);
      parts[i] == Part(h.name, h.filename, h.contentType, parts[i].start, |fields[i].data|) &&
      StartsAt(body, parts[i].start, fields[i].data)
  }

  lemma DataFound(body: string, start: nat, data: string, boundary: string, rest: string)
    requires IsBoundary(boundary) && Lacks(data, "\r\n" + ("--" + boundary))
    requires StartsAt(body, start, data + (("\r\n" + ("--" + boundary)) + rest))
    ensures StartsAt(body, start, data) && StartsAt(body, start + |data| + 4 + |boundary|, rest) &&
            FindFrom(body, start, "\r\n" + ("--" + boundary)) == Some(start + |data|)
  {
    hide StartsAt, FindFrom, Lacks;
    var delim := "\r\n" + ("--" + boundary);
    StartsBoth(body, start, data, delim + rest);
    StartsBoth(body, start + |data|, delim, rest);
    Joined(body, start, data, delim, rest);
    DelimiterHead(boundary);
    FindBehind(body, start, data, delim);
  }

  lemma Joined(s: string, p: nat, a: string, b: string, c: string)
    requires StartsAt(s, p, a + (b + c))
    ensures StartsAt(s, p, a + b)
  {
    assert a + (b + c) == (a + b) + c;
    StartsBoth(s, p, a + b, c);
  }

  lemma DelimiterHead(boundary: string)
    requires IsBoundary(boundary)
    ensures var d := "\r\n" + ("--" + boundary);
            d != "" && d[0] == '\r' && forall i :: 1 <= i < |d| ==> d[i] != d[0]
  {
    var d := "\r\n" + ("--" + boundary);
    forall i | 1 <= i < |d| ensures d[i] != '\r' {
      if i >= 4 {
        assert d[i] == boundary[i - 4];
      }
    }
  }

  lemma NotDashes(body: string, pos: nat)
    requires StartsAt(body, pos, "\r\n")
    ensures pos < |body| && !StartsAt(body, pos, "--")
  {
    FirstChar(body, pos, "\r\n");
    NotAtOther(body, pos, "--");
  }

  lemma StepUnfolds(body: string, delim: string, pos: nat, h: nat, e: nat, acc: seq<Part>)
    requires delim != "" && pos < |body| && |acc| < 16 && !StartsAt(body, pos, "--") &&
             StartsAt(body, pos, "\r\n")
    requires FindFrom(body, pos + 2, "\r\n\r\n") == Some(h) && FindFrom(body, h + 4, "\r\n" + delim) == Some(e)
    requires pos + 2 <= h && h + 2 <= |body| && h + 4 <= e
    ensures var hd := HeadersFrom(body[pos + 2..h + 2], 0, NO_HEADERS);
            PartsFrom(body, delim, pos, acc) ==
            PartsFrom(body, delim, e + 2 + |delim|,
                      if hd.name == "" then acc
                      else acc + [Part(hd.name, hd.filename, hd.contentType, h + 4, e - (h + 4))])
  {
    hide StartsAt, FindFrom, HeadersFrom, PartsFrom;
    PartsUnfold(body, delim, pos, acc);
  }

  /** What one printed part turns into; a part without a name is passed over. */
  lemma StepPrinted(body: string, boundary: string, pos: nat, f: Field, rest: string, acc: seq<Part>)
    requires ProperField(f, boundary) && IsBoundary(boundary) && |acc| < 16
    requires StartsAt(body, pos, "\r\n" + (Block(f.lines) + ("\r\n" +
             (f.data + (("\r\n" + ("--" + boundary)) + rest)))))
    ensures var start := pos + 2 + |Block(f.lines)| + 2;
            var next := start + |f.data| + 4 + |boundary|;
            var h := Said(f.lines, NO_HEADERS);
            StartsAt(body, start, f.data) && StartsAt(body, next, rest) &&
            PartsFrom(body, "--" + boundary, pos, acc) ==
            PartsFrom(body, "--" + boundary, next,
                      if h.name == "" then acc else acc + [Part(h.name, h.filename, h.contentType, start, |f.data|)])
  {
    hide StartsAt, FindFrom, HeadersFrom, PartsFrom, Lacks, IsBoundary, Block, Said, ProperLine;
    var delim, block := "\r\n" + ("--" + boundary), Block(f.lines);
    var p := pos + 2;
    StartsBoth(body, pos, "\r\n", block + ("\r\n" + (f.data + (delim + rest))));
    Joined(body, p, block, "\r\n", f.data + (delim + rest));
    StartsBoth(body, p, block, "\r\n" + (f.data + (delim + rest)));
    StartsBoth(body, p + |block|, "\r\n", f.data + (delim + rest));
    BlockEnds(body, p, f.lines);
    BlockSlice(body, p, f.lines);
    DataFound(body, p + |block| + 2, f.data, boundary, rest);
    NotDashes(body, pos);
    StepUnfolds(body, "--" + boundary, pos, p + |block| - 2, p + |block| + 2 + |f.data|, acc);
  }

  lemma BlockSlice(body: string, p: nat, lines: seq<Line>)
    requires StartsAt(body, p, Block(lines)) && forall i :: 0 <= i < |lines| ==> ProperLine(lines[i])
    ensures p + |Block(lines)| <= |body| && HeadersFrom(body[p..p + |Block(lines)|], 0, NO_HEADERS) ==
            Said(lines, NO_HEADERS)
  {
    hide Block, Said, HeadersFrom, ProperLine;
    var region := body[p..p + |Block(lines)|];
    assert region[0..|region|] == region;
    BlockReads(region, 0, lines, NO_HEADERS);
  }

  /** r is acc and the parts of the fields, as many as there is room for. */
  ghost predicate ComesBack(body: string, r: seq<Part>, acc: seq<Part>, fields: seq<Field>) {
    |r| == (if |acc| + |fields| <= 16 then |acc| + |fields| else 16) && |acc| <= |r| &&
    r[..|acc|] == acc && Reads(body, r[|acc|..], fields)
  }

  lemma {:induction false} PrintedComesBack(body: string, boundary: string, pos: nat, fields: seq<Field>,
                                            epilogue: string, acc: seq<Part>)
    requires IsBoundary(boundary) && IsForm(fields, boundary) && |acc| <= 16
    requires StartsAt(body, pos, PrintFrom(fields, boundary, epilogue))
    ensures ComesBack(body, PartsFrom(body, "--" + boundary, pos, acc), acc, Named(fields))
    decreases |fields|
  {
    hide StartsAt, FindFrom, HeadersFrom, Lacks, Block, Said, ProperField, ComesBack, IsForm;
    if |acc| == 16 {
      FullStops(body, "--" + boundary, pos, acc);
      NoneComeBack(body, acc, Named(fields));
    } else if fields == [] {
      DashesStop(body, "--" + boundary, pos, epilogue, acc);
      NoneComeBack(body, acc, []);
    } else {
      var f, rest := fields[0], fields[1..];
      FormParts(fields, boundary);
      StepPrinted(body, boundary, pos, f, PrintFrom(rest, boundary, epilogue), acc);
      hide PartsFrom, PrintFrom;
      var start, h := pos + 2 + |Block(f.lines)| + 2, Said(f.lines, NO_HEADERS);
      var next, part := start + |f.data| + 4 + |boundary|, Part(h.name, h.filename, h.contentType, start, |f.data|);
      if h.name == "" {
        assert [] + Named(rest) == Named(rest);
        PrintedComesBack(body, boundary, next, rest, epilogue, acc);
      } else {
        PrintedComesBack(body, boundary, next, rest, epilogue, acc + [part]);
        Shift(body, PartsFrom(body, "--" + boundary, pos, acc), acc, part, f, Named(rest));
      }
    }
  }

  lemma FormParts(fields: seq<Field>, boundary: string)
    requires IsForm(fields, boundary) && fields != []
    ensures ProperField(fields[0], boundary) && IsForm(fields[1..], boundary)
  {
    hide ProperField;
  }

  lemma NoneComeBack(body: string, acc: seq<Part>, fields: seq<Field>)
    requires |acc| == 16 || (fields == [] && |acc| <= 16)
    ensures ComesBack(body, acc, acc, fields)
  {
  }

  lemma FullStops(body: string, delim: string, pos: nat, acc: seq<Part>)
    requires delim != "" && |acc| == 16
    ensures PartsFrom(body, delim, pos, acc) == acc
  {
  }

  lemma DashesStop(body: string, delim: string, pos: nat, epilogue: string, acc: seq<Part>)
    requires delim != "" && StartsAt(body, pos, "--" + epilogue)
    ensures PartsFrom(body, delim, pos, acc) == acc
  {
    StartsBoth(body, pos, "--", epilogue);
  }

  lemma Shift(body: string, r: seq<Part>, acc: seq<Part>, part: Part, f: Field, rest: seq<Field>)
    requires |acc| < 16 && ComesBack(body, r, acc + [part], rest)
    requires var h := Said(f.lines, NO_HEADERS);
             part == Part(h.name, h.filename, h.contentType, part.start, |f.data|) && StartsAt(body, part.start, f.data)
    ensures ComesBack(body, r, acc, [f] + rest)
  {
    hide StartsAt, Said;
    assert r[|acc|] == r[..|acc| + 1][|acc|] == part;
    assert r[..|acc|] == r[..|acc| + 1][..|acc|];
    var now, later, fields := r[|acc|..], r[|acc| + 1..], [f] + rest;
    forall i | 0 <= i < |now|
      ensures var h := Said(fields[i].lines, NO_HEADERS);
              now[i] == Part(h.name, h.filename, h.contentType, now[i].start, |fields[i].data|) &&
              StartsAt(body, now[i].start, fields[i].data)
    {
      if i > 0 {
        assert now[i] == later[i - 1] && fields[i] == rest[i - 1];
      }
    }
  }

  /**
   * Parsing undoes printing: the named fields of a form come back in order, sixteen of them at
   * most, with their names, file names, media types and exact data. Text may precede the first
   * delimiter, and each field may have further header lines.
   */
  lemma ParseUndoesPrint(body: string, preamble: string, fields: seq<Field>, boundary: string, epilogue: string)
    requires IsBoundary(boundary) && IsForm(fields, boundary)
    requires StartsAt(body, 0, preamble + (("--" + boundary) + PrintFrom(fields, boundary, epilogue)))
    requires forall k :: 0 <= k < |preamble| ==> !StartsAt(body, k, "--" + boundary)
    ensures |Parts(body, boundary)| == if |Named(fields)| <= 16 then |Named(fields)| else 16
    ensures Reads(body, Parts(body, boundary), Named(fields))
  {
    hide StartsAt, FindFrom, PrintFrom, PartsFrom, IsForm, Named, Reads;
    var delim := "--" + boundary;
    StartsBoth(body, 0, preamble, delim + PrintFrom(fields, boundary, epilogue));
    StartsBoth(body, |preamble|, delim, PrintFrom(fields, boundary, epilogue));
    FindIs(body, 0, delim, |preamble|);
    PrintedComesBack(body, boundary, |preamble| + |delim|, fields, epilogue, []);
    var r := Parts(body, boundary);
    assert r[0..] == r;
  }
}
