/** Splitting a multipart/form-data body into parts: offsets into the body, not copies. */
module Multipart {
  import opened Wrappers
  import opened Chars

  const MAX_PARTS := 16
  const NAME_SIZE := 32
  const FILE_SIZE := 64

  datatype Part = Part(name: string, filename: string, contentType: string, start: nat, len: nat)

  // ---- searching ----

  /** The first occurrence of `needle` from p on. */
  function FindFrom(s: string, p: nat, needle: string): (r: Option<nat>)
    requires needle != ""
    ensures r.Some? ==> p <= r.value && StartsAt(s, r.value, needle)
    ensures r.Some? ==> forall k :: p <= k < r.value ==> !StartsAt(s, k, needle)
    ensures r.None? ==> forall k :: p <= k ==> !StartsAt(s, k, needle)
    decreases |s| - p
  {
    if p + |needle| > |s| then None
    else if StartsAt(s, p, needle) then Some(p)
    else FindFrom(s, p + 1, needle)
  }

  method Find(s: string, from: nat, needle: string) returns (r: Option<nat>)
    requires needle != "" && from <= |s|
    ensures r == FindFrom(s, from, needle)
  {
    var i := from;
    while i + |needle| <= |s|
      invariant from <= i && FindFrom(s, i, needle) == FindFrom(s, from, needle)
    {
      if StartsAt(s, i, needle) {
        return Some(i);
      }
      i := i + 1;
    }
    return None;
  }

  // ---- header attributes ----

  predicate AttrAt(line: string, attr: string, i: nat) {
    StartsNoCase(line, i, attr) && (i == 0 || line[i - 1] == ';' || line[i - 1] == ' ' || line[i - 1] == '\t')
  }

  /** The first place of the attribute that is not inside another word; a value must follow. */
  function AttrFrom(line: string, attr: string, i: nat): (r: Option<nat>)
    ensures r.Some? ==> r.value + |attr| < |line|
    decreases |line| - i
  {
    if i + |attr| >= |line| then None
    else if AttrAt(line, attr, i) then Some(i)
    else AttrFrom(line, attr, i + 1)
  }

  predicate EndsValue(c: char, quoted: bool) {
    if quoted then c == '"' else c == ';' || c == '\r'
  }

  /** Where the value that has room for `room` more characters ends; None when it is refused. */
  function ValueEnd(line: string, v: nat, quoted: bool, room: nat): (r: Option<nat>)
    requires v <= |line|
    ensures r.Some? ==> v <= r.value <= |line| && r.value <= v + room
    ensures r.Some? && r.value < |line| ==> EndsValue(line[r.value], quoted)
    decreases |line| - v
  {
    if v == |line| || EndsValue(line[v], quoted) then Some(v)
    else if !(' ' <= line[v] <= '~') || room == 0 then None
    else ValueEnd(line, v + 1, quoted, room - 1)
  }

  /** The value of an attribute for a buffer of `size` bytes; empty when absent, refused or too long. */
  function Attr(line: string, attr: string, size: nat): (r: string)
    requires size > 0
    ensures |r| < size
  {
    match AttrFrom(line, attr, 0)
    case None => ""
    case Some(i) =>
      var quoted := line[i + |attr|] == '"';
      var v := if quoted then i + |attr| + 1 else i + |attr|;
      match ValueEnd(line, v, quoted, size - 1)
      case None => ""
      case Some(e) => if (if quoted then e < |line| else e > v) then line[v..e] else ""
  }

  /** Reads to the end of a value that has room for `room` characters. */
  method ReadValue(line: string, start: nat, quoted: bool, room: nat) returns (r: Option<nat>)
    requires start <= |line|
    ensures r == ValueEnd(line, start, quoted, room)
  {
    var v := start;
    while v < |line| && !EndsValue(line[v], quoted)
      invariant start <= v <= |line| && v - start <= room
      invariant ValueEnd(line, v, quoted, room - (v - start)) == ValueEnd(line, start, quoted, room)
    {
      if !(' ' <= line[v] <= '~') || v - start == room {
        return None;
      }
      v := v + 1;
    }
    return Some(v);
  }

  method DispositionAttr(line: string, attr: string, size: nat) returns (r: string)
    requires size > 0
    ensures r == Attr(line, attr, size)
  {
    hide StartsNoCase, ValueEnd;
    r := "";
    var i := 0;
    while i + |attr| < |line|
      invariant AttrFrom(line, attr, i) == AttrFrom(line, attr, 0)
    {
      if AttrAt(line, attr, i) {
        var quoted := line[i + |attr|] == '"';
        var start := if quoted then i + |attr| + 1 else i + |attr|;
        var e := ReadValue(line, start, quoted, size - 1);
        if e.Some? && ((quoted && e.value < |line|) || (!quoted && e.value > start)) {
          r := line[start..e.value];
        }
        return;
      }
      i := i + 1;
    }
  }

  /** An attribute begins the line or a word of it, in any letter case. */
  lemma AttrAtExactly(line: string, attr: string, i: nat)
    requires IsLower(attr)
    ensures AttrAt(line, attr, i) <==> SpellsAt(line, i, attr) && (i == 0 || line[i - 1] in {';', ' ', '\t'})
  {
    StartsSpells(line, i, attr);
    hide Lower, Spells;
  }

  /** A quoted value ends at the next quote, any other at a semicolon, a carriage return or the end. */
  lemma {:induction false} ValueEndExactly(line: string, v: nat, e: nat, quoted: bool, room: nat)
    requires v <= e <= |line|
    requires forall k :: v <= k < e ==> if quoted then line[k] != '"' else line[k] != ';' && line[k] != '\r'
    requires e < |line| ==> if quoted then line[e] == '"' else line[e] == ';' || line[e] == '\r'
    ensures ValueEnd(line, v, quoted, room) ==
            if e - v <= room && forall k :: v <= k < e ==> 32 <= line[k] as int <= 126 then Some(e) else None
    decreases e - v
  {
    if v < e && room > 0 {
      ValueEndExactly(line, v + 1, e, quoted, room - 1);
    }
  }

  // ---- part headers ----

  datatype Headers = Headers(name: string, filename: string, contentType: string)

  /** The media type without blanks, up to a semicolon. */
  function MediaType(line: string, v: nat, room: nat): string
    decreases |line| - v
  {
    if v >= |line| || line[v] == ';' || room == 0 then ""
    else if line[v] == ' ' || line[v] == '\t' then MediaType(line, v + 1, room)
    else [line[v]] + MediaType(line, v + 1, room - 1)
  }

  function HeaderLine(line: string, h: Headers): Headers {
    if |line| > 20 && StartsNoCase(line, 0, "content-disposition:") then
      h.(name := Attr(line, "name=", NAME_SIZE), filename := Attr(line, "filename=", FILE_SIZE))
    else if |line| > 13 && StartsNoCase(line, 0, "content-type:") then
      h.(contentType := MediaType(line, 13, FILE_SIZE - 1))
    else h
  }

  function LineEndAt(region: string, pos: nat): (e: nat)
    requires pos <= |region|
    ensures pos <= e <= |region|
  {
    match FindFrom(region, pos, "\r\n") case None => |region| case Some(k) => k
  }

  function HeadersFrom(region: string, pos: nat, h: Headers): Headers
    decreases |region| - pos
  {
    if pos >= |region| then h else
    var e := LineEndAt(region, pos);
    HeadersFrom(region, e + 2, HeaderLine(region[pos..e], h))
  }

  const NO_HEADERS := Headers("", "", "")

  method PartHeaders(region: string) returns (h: Headers)
    ensures h == HeadersFrom(region, 0, NO_HEADERS)
  {
    hide StartsNoCase, Attr, MediaType, FindFrom;
    h := NO_HEADERS;
    var pos := 0;
    while pos < |region|
      invariant 0 <= pos && HeadersFrom(region, pos, h) == HeadersFrom(region, 0, NO_HEADERS)
      decreases |region| - pos
    {
      var eol := Find(region, pos, "\r\n");
      var e := if eol.Some? then eol.value else |region|;
      var line := region[pos..e];
      if |line| > 20 && StartsNoCase(line, 0, "content-disposition:") {
        var name := DispositionAttr(line, "name=", NAME_SIZE);
        var filename := DispositionAttr(line, "filename=", FILE_SIZE);
        h := h.(name := name, filename := filename);
      } else if |line| > 13 && StartsNoCase(line, 0, "content-type:") {
        var media := ReadMediaType(line);
        h := h.(contentType := media);
      }
      pos := e + 2;
    }
  }

  method ReadMediaType(line: string) returns (r: string)
    requires |line| > 13
    ensures r == MediaType(line, 13, FILE_SIZE - 1)
  {
    hide MediaType;
    r := "";
    var v: nat := 13;
    assert "" + MediaType(line, 13, FILE_SIZE - 1) == MediaType(line, 13, FILE_SIZE - 1);
    while v < |line| && line[v] != ';' && |r| + 1 < FILE_SIZE
      invariant 13 <= v <= |line| && |r| <= FILE_SIZE - 1
      invariant r + MediaType(line, v, FILE_SIZE - 1 - |r|) == MediaType(line, 13, FILE_SIZE - 1)
    {
      MediaStep(line, v, FILE_SIZE - 1 - |r|, r);
      if line[v] != ' ' && line[v] != '\t' {
        r := r + [line[v]];
      }
      v := v + 1;
    }
    MediaEnds(line, v, FILE_SIZE - 1 - |r|);
    assert r + "" == r;
  }

  lemma MediaEnds(line: string, v: nat, room: nat)
    requires v >= |line| || line[v] == ';' || room == 0
    ensures MediaType(line, v, room) == ""
  {
  }

  lemma MediaStep(line: string, v: nat, room: nat, r: string)
    requires v < |line| && line[v] != ';' && room > 0
    ensures r + MediaType(line, v, room) ==
            if line[v] == ' ' || line[v] == '\t' then r + MediaType(line, v + 1, room)
            else (r + [line[v]]) + MediaType(line, v + 1, room - 1)
  {
    if line[v] != ' ' && line[v] != '\t' {
      var rest := MediaType(line, v + 1, room - 1);
      assert r + ([line[v]] + rest) == (r + [line[v]]) + rest;
    }
  }

  // ---- the splitter ----

  /** What the boundary parameter of the content type is allowed to be. */
  predicate IsBoundary(b: string) {
    1 <= |b| <= 70 && forall i :: 0 <= i < |b| ==> ' ' <= b[i] <= '~' && b[i] != '"' && b[i] != ';'
  }

  /** The parts from a position right behind a delimiter, added to those already found. */
  function PartsFrom(body: string, delim: string, pos: nat, acc: seq<Part>): seq<Part>
    requires delim != ""
    decreases |body| - pos
  {
    if pos >= |body| || |acc| >= MAX_PARTS || StartsAt(body, pos, "--") || !StartsAt(body, pos, "\r\n") then acc else
    match FindFrom(body, pos + 2, "\r\n\r\n")
    case None => acc
    case Some(h) =>
      match FindFrom(body, h + 4, "\r\n" + delim)
      case None => acc
      case Some(e) =>
        var hd := HeadersFrom(body[pos + 2..h + 2], 0, NO_HEADERS);
        var acc' := if hd.name == "" then acc
                    else acc + [Part(hd.name, hd.filename, hd.contentType, h + 4, e - (h + 4))];
        PartsFrom(body, delim, e + 2 + |delim|, acc')
  }

  function Parts(body: string, boundary: string): seq<Part> {
    var delim := "--" + boundary;
    match FindFrom(body, 0, delim)
    case None => []
    case Some(k) => PartsFrom(body, delim, k + |delim|, [])
  }

  method ParseMultipart(body: string, boundary: string) returns (parts: seq<Part>)
    requires IsBoundary(boundary)
    ensures parts == Parts(body, boundary)
  {
    hide StartsAt, FindFrom, HeadersFrom, PartsFrom;
    parts := [];
    var delim := "--" + boundary;
    var first := Find(body, 0, delim);
    if first.None? {
      return;
    }
    FoundFits(body, 0, delim);
    var pos := first.value + |delim|;
    while pos < |body| && |parts| < MAX_PARTS
      invariant 0 <= pos <= |body| && PartsFrom(body, delim, pos, parts) == Parts(body, boundary)
      decreases |body| - pos
    {
      PartsUnfold(body, delim, pos, parts);
      if StartsAt(body, pos, "--") || !StartsAt(body, pos, "\r\n") {
        return;
      }
      TwoFit(body, pos);
      var h := Find(body, pos + 2, "\r\n\r\n");
      if h.None? {
        return;
      }
      FoundFits(body, pos + 2, "\r\n\r\n");
      var hd := PartHeaders(body[pos + 2..h.value + 2]);
      var start := h.value + 4;
      var e := Find(body, start, "\r\n" + delim);
      if e.None? {
        return;
      }
      FoundFits(body, start, "\r\n" + delim);
      if hd.name != "" {
        parts := parts + [Part(hd.name, hd.filename, hd.contentType, start, e.value - start)];
      }
      pos := e.value + 2 + |delim|;
    }
    NoMoreParts(body, delim, pos, parts);
  }

  lemma PartsUnfold(body: string, delim: string, pos: nat, acc: seq<Part>)
    requires delim != "" && pos < |body| && |acc| < MAX_PARTS
    ensures PartsFrom(body, delim, pos, acc) ==
            if StartsAt(body, pos, "--") || !StartsAt(body, pos, "\r\n") then acc else
            match FindFrom(body, pos + 2, "\r\n\r\n")
            case None => acc
            case Some(h) =>
              match FindFrom(body, h + 4, "\r\n" + delim)
              case None => acc
              case Some(e) =>
                var hd := HeadersFrom(body[pos + 2..h + 2], 0, NO_HEADERS);
                PartsFrom(body, delim, e + 2 + |delim|,
                          if hd.name == "" then acc
                          else acc + [Part(hd.name, hd.filename, hd.contentType, h + 4, e - (h + 4))])
  {
    hide StartsAt, FindFrom, HeadersFrom;
  }

  lemma NoMoreParts(body: string, delim: string, pos: nat, acc: seq<Part>)
    requires delim != "" && (pos >= |body| || |acc| >= MAX_PARTS)
    ensures PartsFrom(body, delim, pos, acc) == acc
  {
  }

  lemma FoundFits(s: string, p: nat, needle: string)
    requires needle != ""
    ensures FindFrom(s, p, needle).Some? ==> p <= FindFrom(s, p, needle).value <= |s| - |needle|
  {
  }

  lemma TwoFit(s: string, p: nat)
    requires StartsAt(s, p, "\r\n")
    ensures p + 2 <= |s|
  {
  }

  // ---- every result ----

  /** A part lies in the body, its data ends at the first delimiter after its start. */
  predicate WellPlaced(body: string, delim: string, p: Part) {
    p.start + p.len + 2 + |delim| <= |body| && StartsAt(body, p.start + p.len, "\r\n" + delim) &&
    (forall k :: p.start <= k < p.start + p.len ==> !StartsAt(body, k, "\r\n" + delim)) &&
    0 < |p.name| < 32 && |p.filename| < 64 && |p.contentType| < 64
  }

  predicate AllPlaced(body: string, delim: string, parts: seq<Part>) {
    |parts| <= 16 && (forall i :: 0 <= i < |parts| ==> WellPlaced(body, delim, parts[i])) &&
    forall i, j :: 0 <= i < j < |parts| ==> parts[i].start + parts[i].len + 2 + |delim| <= parts[j].start
  }

  lemma {:induction false} HeaderNames(region: string, pos: nat, h: Headers)
    requires |h.name| < 32 && |h.filename| < 64 && |h.contentType| < 64
    ensures var r := HeadersFrom(region, pos, h); |r.name| < 32 && |r.filename| < 64 && |r.contentType| < 64
    decreases |region| - pos
  {
    hide StartsNoCase, Attr, MediaType, LineEndAt;
    if pos < |region| {
      var e := LineEndAt(region, pos);
      MediaFits(region[pos..e], 13, 63);
      HeaderNames(region, e + 2, HeaderLine(region[pos..e], h));
    }
  }

  lemma {:induction false} MediaFits(line: string, v: nat, room: nat)
    ensures |MediaType(line, v, room)| <= room
    decreases |line| - v
  {
    if v < |line| && room > 0 {
      MediaFits(line, v + 1, room);
      MediaFits(line, v + 1, room - 1);
    }
  }

  lemma OneMorePlaced(body: string, delim: string, acc: seq<Part>, part: Part, pos: nat)
    requires AllPlaced(body, delim, acc) && |acc| < MAX_PARTS && WellPlaced(body, delim, part) && pos <= part.start
    requires forall i :: 0 <= i < |acc| ==> acc[i].start + acc[i].len + 2 + |delim| <= pos
    ensures AllPlaced(body, delim, acc + [part])
  {
    hide WellPlaced;
  }

  lemma {:induction false} PartsFromPlaced(body: string, delim: string, pos: nat, acc: seq<Part>)
    requires delim != "" && AllPlaced(body, delim, acc)
    requires forall i :: 0 <= i < |acc| ==> acc[i].start + acc[i].len + 2 + |delim| <= pos
    ensures AllPlaced(body, delim, PartsFrom(body, delim, pos, acc))
    decreases |body| - pos
  {
    hide FindFrom, HeadersFrom, StartsAt, AllPlaced;
    if pos < |body| && |acc| < MAX_PARTS && !StartsAt(body, pos, "--") && StartsAt(body, pos, "\r\n") {
      var h := FindFrom(body, pos + 2, "\r\n\r\n");
      if h.Some? {
        FoundFits(body, pos + 2, "\r\n\r\n");
        var e := FindFrom(body, h.value + 4, "\r\n" + delim);
        if e.Some? {
          FoundFits(body, h.value + 4, "\r\n" + delim);
          var hd := HeadersFrom(body[pos + 2..h.value + 2], 0, NO_HEADERS);
          HeaderNames(body[pos + 2..h.value + 2], 0, NO_HEADERS);
          var part := Part(hd.name, hd.filename, hd.contentType, h.value + 4, e.value - (h.value + 4));
          if hd.name != "" {
            OneMorePlaced(body, delim, acc, part, pos);
            PartsFromPlaced(body, delim, e.value + 2 + |delim|, acc + [part]);
          } else {
            PartsFromPlaced(body, delim, e.value + 2 + |delim|, acc);
          }
        }
      }
    }
  }

  /** On every body: at most 16 parts, inside the body, disjoint and in order, none containing a delimiter. */
  lemma PartsArePlaced(body: string, boundary: string)
    ensures AllPlaced(body, "--" + boundary, Parts(body, boundary))
  {
    hide FindFrom, PartsFrom, WellPlaced;
    var k := FindFrom(body, 0, "--" + boundary);
    if k.Some? {
      PartsFromPlaced(body, "--" + boundary, k.value + 2 + |boundary|, []);
    }
  }
}
