/** Route patterns: parsing into segments, matching, binding parameters, registration. */
module Routes {
  import opened Wrappers

  const TEXT_SIZE := 64
  const PATH_MAX := 512
  const MAX_PARAMS := 16
  const KEY_SIZE := 32
  const VALUE_SIZE := 64

  datatype Method = GET | POST | PUT | PATCH | DELETE | HEAD | OPTIONS | CONNECT | TRACE

  datatype Segment = Segment(text: string, isParam: bool)

  datatype Param = Param(key: string, value: string)

  // ---- parsing a path ----

  function NextSlash(s: string, p: nat): (r: nat)
    requires p <= |s|
    ensures p <= r <= |s|
    ensures r < |s| ==> s[r] == '/'
    ensures forall k :: p <= k < r ==> s[k] != '/'
    decreases |s| - p
  {
    if p == |s| || s[p] == '/' then p else NextSlash(s, p + 1)
  }

  /** The segments behind the next slash; None for a bare colon and for an oversized segment. */
  function ParseFrom(s: string, p: nat): (r: Option<seq<Segment>>)
    requires p <= |s|
    ensures r.Some? ==> forall i :: 0 <= i < |r.value| ==> 0 < |r.value[i].text| < TEXT_SIZE && '/' !in r.value[i].text
    decreases |s| - p
  {
    var slash := NextSlash(s, p);
    if slash == |s| then Some([]) else
    var param := slash + 1 < |s| && s[slash + 1] == ':';
    var t := if param then slash + 2 else slash + 1;
    var e := NextSlash(s, t);
    if t == e && !param then ParseFrom(s, t)
    else if t == e || e - t >= TEXT_SIZE then None
    else
      match ParseFrom(s, e)
      case None => None
      case Some(rest) => Some([Segment(s[t..e], param)] + rest)
  }

  function ParsePath(s: string): Option<seq<Segment>> {
    ParseFrom(s, 0)
  }

  method FindSlash(s: string, p: nat) returns (r: nat)
    requires p <= |s|
    ensures r == NextSlash(s, p)
  {
    r := p;
    while r < |s| && s[r] != '/'
      invariant p <= r <= |s| && NextSlash(s, r) == NextSlash(s, p)
    {
      r := r + 1;
    }
  }

  method ParseSegments(pattern: string) returns (r: Option<seq<Segment>>)
    ensures r == ParsePath(pattern)
  {
    hide NextSlash, ParseFrom;
    var segments: seq<Segment> := [];
    var p := FindSlash(pattern, 0);
    FromSlash(pattern, 0);
    while p < |pattern|
      invariant 0 <= p <= |pattern| && p == NextSlash(pattern, p)
      invariant ParsePath(pattern) == Prefixed(segments, ParseFrom(pattern, p))
      decreases |pattern| - p
    {
      ParseUnfolds(pattern, p);
      p := p + 1;
      var isParam := false;
      if p < |pattern| && pattern[p] == ':' {
        isParam := true;
        p := p + 1;
      }
      var end := FindSlash(pattern, p);
      var len := end - p;
      if len == 0 && !isParam {
        FromSlash(pattern, p);
        p := end;
        continue;
      }
      if len == 0 || len >= TEXT_SIZE {
        return None;
      }
      Joined(segments, Segment(pattern[p..end], isParam), ParseFrom(pattern, end));
      segments := segments + [Segment(pattern[p..end], isParam)];
      SlashStays(pattern, p);
      p := end;
    }
    EndsHere(pattern, p);
    assert segments + [] == segments;
    return Some(segments);
  }

  lemma ParseUnfolds(s: string, p: nat)
    requires p < |s| && NextSlash(s, p) == p
    ensures var param := p + 1 < |s| && s[p + 1] == ':';
            var t := if param then p + 2 else p + 1;
            var e := NextSlash(s, t);
            ParseFrom(s, p) ==
            if t == e && !param then ParseFrom(s, t)
            else if t == e || e - t >= TEXT_SIZE then None
            else Prefixed([Segment(s[t..e], param)], ParseFrom(s, e))
  {
    hide NextSlash;
  }

  function Prefixed(front: seq<Segment>, rest: Option<seq<Segment>>): Option<seq<Segment>> {
    match rest case None => None case Some(r) => Some(front + r)
  }

  lemma Joined(front: seq<Segment>, one: Segment, rest: Option<seq<Segment>>)
    ensures Prefixed(front, Prefixed([one], rest)) == Prefixed(front + [one], rest)
  {
    if rest.Some? {
      assert front + ([one] + rest.value) == front + [one] + rest.value;
    }
  }

  lemma FromSlash(s: string, p: nat)
    requires p <= |s|
    ensures ParseFrom(s, p) == ParseFrom(s, NextSlash(s, p)) && NextSlash(s, NextSlash(s, p)) == NextSlash(s, p)
    ensures Prefixed([], ParseFrom(s, p)) == ParseFrom(s, p)
  {
    hide ParseFrom;
    SameParse(s, p);
    if ParseFrom(s, p).Some? {
      assert [] + ParseFrom(s, p).value == ParseFrom(s, p).value;
    }
  }

  lemma SameParse(s: string, p: nat)
    requires p <= |s|
    ensures ParseFrom(s, p) == ParseFrom(s, NextSlash(s, p)) && NextSlash(s, NextSlash(s, p)) == NextSlash(s, p)
  {
    SlashStays(s, p);
    hide NextSlash;
  }

  lemma SlashStays(s: string, p: nat)
    requires p <= |s|
    ensures NextSlash(s, NextSlash(s, p)) == NextSlash(s, p)
  {
  }

  // ---- printing segments and reading them back ----

  predicate ProperSegment(g: Segment) {
    0 < |g.text| < 64 && '/' !in g.text && (!g.isParam ==> g.text[0] != ':')
  }

  function PrintPath(gs: seq<Segment>): string {
    if gs == [] then "" else "/" + ((if gs[0].isParam then ":" else "") + gs[0].text) + PrintPath(gs[1..])
  }

  lemma {:induction false} NextSlashAt(s: string, p: nat, e: nat)
    requires p <= e <= |s| && (e < |s| ==> s[e] == '/') && forall k :: p <= k < e ==> s[k] != '/'
    ensures NextSlash(s, p) == e
    decreases e - p
  {
    if p < e {
      NextSlashAt(s, p + 1, e);
    }
  }

  /** A path is read back as the segments it was printed from. */
  lemma {:induction false} ParseUndoesPrint(s: string, p: nat, gs: seq<Segment>)
    requires p <= |s| && s[p..] == PrintPath(gs) && forall i :: 0 <= i < |gs| ==> ProperSegment(gs[i])
    ensures ParseFrom(s, p) == Some(gs)
    decreases |gs|
  {
    hide ParseFrom, NextSlash;
    if gs == [] {
      NextSlashAt(s, p, p);
      EndsHere(s, p);
    } else {
      var g, rest := gs[0], gs[1..];
      var t := if g.isParam then p + 2 else p + 1;
      var e := t + |g.text|;
      PrintedHere(s, p, g, PrintPath(rest));
      FirstIsSlash(rest);
      assert e < |s| ==> s[e] == s[e..][0];
      NextSlashAt(s, p, p);
      NextSlashAt(s, t, e);
      ParseUndoesPrint(s, e, rest);
      ParseUnfolds(s, p);
      assert gs == [g] + rest;
    }
  }

  lemma PrintedHere(s: string, p: nat, g: Segment, tail: string)
    requires ProperSegment(g) && p <= |s| && s[p..] == "/" + ((if g.isParam then ":" else "") + g.text) + tail
    ensures var t := if g.isParam then p + 2 else p + 1;
            var e := t + |g.text|;
            e <= |s| && s[p] == '/' && (s[p + 1] == ':' <==> g.isParam) && s[t..e] == g.text && s[e..] == tail &&
            forall k :: t <= k < e ==> s[k] != '/'
  {
    if g.isParam {
      assert "/" + (":" + g.text) == "/:" + g.text;
      AfterPrefix(s, p, "/:", g.text, tail);
    } else {
      assert "/" + ("" + g.text) == "/" + g.text;
      AfterPrefix(s, p, "/", g.text, tail);
    }
  }

  lemma AfterPrefix(s: string, p: nat, q: string, text: string, tail: string)
    requires p <= |s| && s[p..] == q + text + tail
    ensures var t := p + |q|;
            var e := t + |text|;
            e <= |s| && s[t..e] == text && s[e..] == tail &&
            (forall k :: 0 <= k < |q| ==> s[p + k] == q[k]) && forall k :: 0 <= k < |text| ==> s[t + k] == text[k]
    ensures forall k :: p + |q| <= k < p + |q| + |text| ==> s[k] == text[k - p - |q|]
  {
    var all := s[p..];
    forall k | 0 <= k < |q| + |text| ensures s[p + k] == (q + text)[k] {
      assert s[p + k] == all[k];
    }
    assert all[|q|..|q| + |text|] == text && all[|q| + |text|..] == tail;
    assert s[p + |q|..p + |q| + |text|] == all[|q|..|q| + |text|];
    assert s[p + |q| + |text|..] == all[|q| + |text|..];
  }

  lemma FirstIsSlash(gs: seq<Segment>)
    ensures PrintPath(gs) != "" ==> PrintPath(gs)[0] == '/'
  {
  }

  lemma EndsHere(s: string, p: nat)
    requires p == |s|
    ensures ParseFrom(s, p) == Some([])
  {
  }

  // ---- matching ----

  /** Segment by segment from `offset` on: a parameter takes any segment, text must be equal. */
  predicate Matches(pattern: seq<Segment>, request: seq<Segment>, offset: nat) {
    offset <= |request| && |pattern| == |request| - offset &&
    forall i :: 0 <= i < |pattern| ==> pattern[i].isParam || pattern[i].text == request[offset + i].text
  }

  /** The first n segments of the pattern, with the values they bind. */
  function BoundUpTo(pattern: seq<Segment>, request: seq<Segment>, offset: nat, n: nat): seq<Param>
    requires n <= |pattern| && offset + n <= |request|
  {
    if n == 0 then []
    else
      BoundUpTo(pattern, request, offset, n - 1) +
      (if pattern[n - 1].isParam then [Param(pattern[n - 1].text, request[offset + n - 1].text)] else [])
  }

  /** The parameters a match binds, in pattern order. */
  function Bound(pattern: seq<Segment>, request: seq<Segment>, offset: nat): seq<Param>
    requires Matches(pattern, request, offset)
  {
    BoundUpTo(pattern, request, offset, |pattern|)
  }

  predicate FitsSlots(ps: seq<Param>) {
    |ps| <= 16 && forall i :: 0 <= i < |ps| ==> |ps[i].key| < 32 && |ps[i].value| < 64
  }

  /** The parameter slots of a request. */
  class Params {
    const slots: array<Param>
    var count: nat

    ghost predicate Valid()
      reads this
    {
      slots.Length == MAX_PARAMS && count <= MAX_PARAMS
    }

    ghost function Contents(): seq<Param>
      reads this, slots
      requires Valid()
    {
      slots[..count]
    }

    constructor ()
      ensures Valid() && Contents() == [] && fresh(slots)
    {
      slots := new Param[MAX_PARAMS](_ => Param("", ""));
      count := 0;
    }
  }

  /** The test without binding. */
  method MatchAt(pattern: seq<Segment>, request: seq<Segment>, offset: nat) returns (ok: bool)
    ensures ok == Matches(pattern, request, offset)
  {
    if offset > |request| || |pattern| != |request| - offset {
      return false;
    }
    for i := 0 to |pattern|
      invariant forall k :: 0 <= k < i ==> pattern[k].isParam || pattern[k].text == request[offset + k].text
    {
      if !pattern[i].isParam && pattern[i].text != request[offset + i].text {
        return false;
      }
    }
    return true;
  }

  /** The test with binding: the slots are committed only on a full match that fits them. */
  method MatchAndBind(pattern: seq<Segment>, request: seq<Segment>, offset: nat, params: Params) returns (ok: bool)
    requires params.Valid()
    modifies params, params.slots
    ensures params.Valid()
    ensures ok <==> Matches(pattern, request, offset) && FitsSlots(Bound(pattern, request, offset))
    ensures ok ==> params.Contents() == Bound(pattern, request, offset)
    ensures !ok ==> params.count == old(params.count)
  {
    if offset > |request| || |pattern| != |request| - offset {
      return false;
    }
    var n := 0;
    for i := 0 to |pattern|
      invariant params.Valid() && params.count == old(params.count) && n <= MAX_PARAMS
      invariant forall k :: 0 <= k < i ==> pattern[k].isParam || pattern[k].text == request[offset + k].text
      invariant params.slots[..n] == BoundUpTo(pattern, request, offset, i)
      invariant FitsSlots(BoundUpTo(pattern, request, offset, i))
    {
      if pattern[i].isParam {
        ghost var bound := BoundUpTo(pattern, request, offset, i);
        var p := Param(pattern[i].text, request[offset + i].text);
        if n >= MAX_PARAMS || |p.key| >= KEY_SIZE || |p.value| >= VALUE_SIZE {
          assert BoundUpTo(pattern, request, offset, i + 1) == bound + [p] && (bound + [p])[n] == p;
          NeverFits(pattern, request, offset, i + 1);
          return false;
        }
        params.slots[n] := p;
        assert params.slots[..n + 1] == params.slots[..n] + [p];
        n := n + 1;
      } else if pattern[i].text != request[offset + i].text {
        return false;
      }
    }
    params.count := n;
    return true;
  }

  /** A prefix of the bindings that does not fit never fits. */
  lemma {:induction false} PrefixOfBound(pattern: seq<Segment>, request: seq<Segment>, offset: nat, n: nat, m: nat)
    requires n <= m <= |pattern| && offset + m <= |request|
    ensures |BoundUpTo(pattern, request, offset, n)| <= |BoundUpTo(pattern, request, offset, m)|
    ensures BoundUpTo(pattern, request, offset, m)[..|BoundUpTo(pattern, request, offset, n)|] ==
            BoundUpTo(pattern, request, offset, n)
    decreases m - n
  {
    if n < m {
      PrefixOfBound(pattern, request, offset, n, m - 1);
    }
  }

  lemma NeverFits(pattern: seq<Segment>, request: seq<Segment>, offset: nat, n: nat)
    requires n <= |pattern| && offset + |pattern| == |request| && !FitsSlots(BoundUpTo(pattern, request, offset, n))
    ensures !FitsSlots(BoundUpTo(pattern, request, offset, |pattern|))
  {
    PrefixOfBound(pattern, request, offset, n, |pattern|);
    var all, part := BoundUpTo(pattern, request, offset, |pattern|), BoundUpTo(pattern, request, offset, n);
    assert forall i :: 0 <= i < |part| ==> part[i] == all[i];
  }

  // ---- registration ----

  type Handler = nat

  datatype Route = Route(path: string, verb: Method, handler: Handler, segments: seq<Segment>)

  /** Not more parameters than slots, names that fit, no name twice. */
  predicate ParamsOk(segments: seq<Segment>) {
    CountParams(segments, |segments|) <= MAX_PARAMS &&
    (forall i :: 0 <= i < |segments| && segments[i].isParam ==> |segments[i].text| < KEY_SIZE) &&
    forall i, j :: 0 <= j < i < |segments| && segments[i].isParam && segments[j].isParam ==>
      segments[j].text != segments[i].text
  }

  function CountParams(segments: seq<Segment>, n: nat): nat
    requires n <= |segments|
  {
    if n == 0 then 0 else CountParams(segments, n - 1) + (if segments[n - 1].isParam then 1 else 0)
  }

  lemma {:induction false} CountGrows(segments: seq<Segment>, n: nat, m: nat)
    requires n <= m <= |segments|
    ensures CountParams(segments, n) <= CountParams(segments, m)
    decreases m - n
  {
    if n < m {
      CountGrows(segments, n, m - 1);
    }
  }

  predicate Registered(r: Route) {
    ParsePath(r.path) == Some(r.segments) && ParamsOk(r.segments) &&
    0 < |r.path| < PATH_MAX && r.path[0] == '/' && '?' !in r.path
  }

  datatype AddResult = AddOk | AddConflict | AddError

  method CheckParams(segments: seq<Segment>) returns (ok: bool)
    ensures ok == ParamsOk(segments)
    ensures ok <==> CountParams(segments, |segments|) <= 16 &&
                    (forall i :: 0 <= i < |segments| && segments[i].isParam ==> |segments[i].text| < 32) &&
                    forall i, j :: 0 <= j < i < |segments| && segments[i].isParam && segments[j].isParam ==>
                      segments[j].text != segments[i].text
  {
    var count := 0;
    for i := 0 to |segments|
      invariant count == CountParams(segments, i) <= MAX_PARAMS
      invariant forall k :: 0 <= k < i && segments[k].isParam ==> |segments[k].text| < KEY_SIZE
      invariant forall k, j :: 0 <= j < k < i && segments[k].isParam && segments[j].isParam ==>
                  segments[j].text != segments[k].text
    {
      if segments[i].isParam {
        count := count + 1;
        if count > MAX_PARAMS || |segments[i].text| >= KEY_SIZE {
          CountGrows(segments, i + 1, |segments|);
          return false;
        }
        for j := 0 to i
          invariant forall k :: 0 <= k < j && segments[k].isParam ==> segments[k].text != segments[i].text
        {
          if segments[j].isParam && segments[j].text == segments[i].text {
            return false;
          }
        }
      }
    }
    return true;
  }

  predicate Taken(routes: seq<Route>, path: string, verb: Method) {
    exists i :: 0 <= i < |routes| && routes[i].verb == verb && routes[i].path == path
  }

  /** What registering a path gives, in the order of the checks. */
  function Registration(routes: seq<Route>, path: string, verb: Method): AddResult {
    if path == "" || path[0] != '/' || |path| >= PATH_MAX || '?' in path then AddError
    else if Taken(routes, path, verb) then AddConflict
    else
      match ParsePath(path)
      case None => AddError
      case Some(segments) => if ParamsOk(segments) then AddOk else AddError
  }

  /** The routes of a server or of a router. */
  class RouteTable {
    var routes: seq<Route>

    ghost predicate Valid()
      reads this
    {
      (forall i :: 0 <= i < |routes| ==> Registered(routes[i])) &&
      forall i, j :: 0 <= i < j < |routes| ==> routes[i].verb != routes[j].verb || routes[i].path != routes[j].path
    }

    constructor ()
      ensures Valid() && routes == []
    {
      routes := [];
    }

    method Add(path: string, handler: Handler, verb: Method) returns (r: AddResult)
      requires Valid()
      modifies this
      ensures Valid()
      ensures r == Registration(old(routes), path, verb)
      ensures r.AddOk? <==> path != "" && path[0] == '/' && |path| < 512 && '?' !in path &&
                            !Taken(old(routes), path, verb) &&
                            ParsePath(path).Some? && ParamsOk(ParsePath(path).value)
      ensures r.AddOk? ==> ParsePath(path).Some? &&
                           routes == old(routes) + [Route(path, verb, handler, ParsePath(path).value)]
      ensures !r.AddOk? ==> routes == old(routes)
    {
      hide ParseFrom, ParamsOk;
      if path == "" || path[0] != '/' {
        return AddError;
      }
      if |path| >= PATH_MAX || '?' in path {
        return AddError;
      }
      for i := 0 to |routes|
        invariant routes == old(routes) && Valid()
        invariant forall k :: 0 <= k < i ==> routes[k].verb != verb || routes[k].path != path
      {
        if routes[i].verb == verb && routes[i].path == path {
          return AddConflict;
        }
      }
      var segments := ParseSegments(path);
      if segments.None? {
        return AddError;
      }
      var ok := CheckParams(segments.value);
      if !ok {
        return AddError;
      }
      routes := routes + [Route(path, verb, handler, segments.value)];
      return AddOk;
    }
  }

  // ---- a match of a registered route always binds ----

  lemma {:induction false} BoundFits(pattern: seq<Segment>, request: seq<Segment>, offset: nat, n: nat)
    requires n <= |pattern| && offset + n <= |request| && ParamsOk(pattern)
    requires forall i :: 0 <= i < |request| ==> |request[i].text| < TEXT_SIZE
    ensures |BoundUpTo(pattern, request, offset, n)| == CountParams(pattern, n)
    ensures forall i :: 0 <= i < |BoundUpTo(pattern, request, offset, n)| ==>
              var p := BoundUpTo(pattern, request, offset, n)[i]; |p.key| < KEY_SIZE && |p.value| < VALUE_SIZE
    decreases n
  {
    if n > 0 {
      BoundFits(pattern, request, offset, n - 1);
    }
  }

  /**
   * For every registered route and every parsed request, a match without binding implies that
   * binding succeeds: registration and the segment size cover all three buffer limits.
   */
  lemma MatchBinds(route: Route, request: seq<Segment>, path: string, offset: nat)
    requires Registered(route) && ParsePath(path) == Some(request) && Matches(route.segments, request, offset)
    ensures FitsSlots(Bound(route.segments, request, offset))
  {
    hide ParseFrom;
    BoundFits(route.segments, request, offset, |route.segments|);
    CountGrows(route.segments, |route.segments|, |route.segments|);
  }

  // ---- what a match reads of the request ----

  function Bare(gs: seq<Segment>): seq<Segment> {
    seq(|gs|, i requires 0 <= i < |gs| => Segment(gs[i].text, false))
  }

  /** A match and the values it binds depend on the texts of the request and on nothing else. */
  lemma MatchReadsTexts(pattern: seq<Segment>, request: seq<Segment>, offset: nat)
    ensures Matches(pattern, Bare(request), offset) <==> Matches(pattern, request, offset)
    ensures Matches(pattern, request, offset) ==>
              Bound(pattern, Bare(request), offset) == Bound(pattern, request, offset)
  {
    if Matches(pattern, request, offset) {
      BoundReadsTexts(pattern, request, offset, |pattern|);
    }
  }

  lemma {:induction false} BoundReadsTexts(pattern: seq<Segment>, request: seq<Segment>, offset: nat, n: nat)
    requires n <= |pattern| && offset + n <= |request|
    ensures BoundUpTo(pattern, Bare(request), offset, n) == BoundUpTo(pattern, request, offset, n)
  {
    if n > 0 {
      BoundReadsTexts(pattern, request, offset, n - 1);
    }
  }

  predicate AllProper(gs: seq<Segment>) {
    forall i :: 0 <= i < |gs| ==> ProperSegment(gs[i])
  }

  /** Whatever a path parses to could have been printed. */
  lemma {:induction false} ParsedIsProper(s: string, p: nat)
    requires p <= |s|
    ensures ParseFrom(s, p).Some? ==> AllProper(ParseFrom(s, p).value)
    decreases |s| - p
  {
    hide NextSlash, ParseFrom, ProperSegment;
    var slash := NextSlash(s, p);
    SameParse(s, p);
    if slash == |s| {
      EndsHere(s, slash);
    } else {
      ParseUnfolds(s, slash);
      var param := slash + 1 < |s| && s[slash + 1] == ':';
      var t := if param then slash + 2 else slash + 1;
      var e := NextSlash(s, t);
      ParsedIsProper(s, t);
      ParsedIsProper(s, e);
      if t < e < t + TEXT_SIZE {
        CutIsProper(s, t, e, param);
      }
    }
  }

  lemma CutIsProper(s: string, t: nat, e: nat, param: bool)
    requires t < e <= |s| && e - t < TEXT_SIZE && (forall k :: t <= k < e ==> s[k] != '/')
    requires param || s[t] != ':'
    ensures ProperSegment(Segment(s[t..e], param))
  {
  }

  lemma PrintedParses(gs: seq<Segment>)
    requires AllProper(gs)
    ensures ParsePath(PrintPath(gs)) == Some(gs)
  {
    assert PrintPath(gs)[0..] == PrintPath(gs);
    ParseUndoesPrint(PrintPath(gs), 0, gs);
  }

  /** A path a request can have: its query is cut off and its length checked before it is routed. */
  predicate IsRequestPath(path: string) {
    0 < |path| < 512 && '?' !in path
  }

  /** No route that can be registered tells the two requests apart. */
  ghost predicate SameMatches(a: seq<Segment>, b: seq<Segment>) {
    forall r: Route :: Registered(r) ==> (Matches(r.segments, a, 0) <==> Matches(r.segments, b, 0))
  }

  /** Equal texts, or two texts that no literal segment of a pattern can equal. */
  predicate Alike(s: string, t: string) {
    s == t || (s != "" && t != "" && s[0] == ':' && t[0] == ':')
  }

  /** How many of the first n texts start with a colon: only parameters match them. */
  function Colons(gs: seq<Segment>, n: nat): nat
    requires n <= |gs| && AllProper(gs)
  {
    if n == 0 then 0
    else assert ProperSegment(gs[n - 1]); Colons(gs, n - 1) + (if gs[n - 1].text[0] == ':' then 1 else 0)
  }

  /** Some pattern has parameters enough for the texts that start with a colon. */
  predicate Reachable(gs: seq<Segment>)
    requires AllProper(gs)
  {
    Colons(gs, |gs|) <= 16
  }

  // ---- the pattern that spells a request ----

  function ParamName(k: nat): string {
    if k < MAX_PARAMS then ["abcdefghijklmnop"[k]] else "q"
  }

  /** Every text is a literal segment, but those that start with a colon are parameters. */
  function Mirror(gs: seq<Segment>): seq<Segment>
    requires AllProper(gs)
  {
    seq(|gs|, i requires 0 <= i < |gs| => MirrorAt(gs, i))
  }

  function MirrorAt(gs: seq<Segment>, i: nat): Segment
    requires i < |gs| && AllProper(gs)
  {
    assert ProperSegment(gs[i]);
    if gs[i].text[0] == ':' then Segment(ParamName(Colons(gs, i)), true) else Segment(gs[i].text, false)
  }

  lemma ColonsGrow(gs: seq<Segment>, n: nat, m: nat)
    requires n <= m <= |gs| && AllProper(gs)
    ensures Colons(gs, n) <= Colons(gs, m)
    decreases m - n
  {
    if n < m {
      ColonsGrow(gs, n, m - 1);
    }
  }

  lemma {:induction false} MirrorCounts(gs: seq<Segment>, n: nat)
    requires n <= |gs| && AllProper(gs)
    ensures CountParams(Mirror(gs), n) == Colons(gs, n)
  {
    if n > 0 {
      MirrorCounts(gs, n - 1);
    }
  }

  lemma MirrorIsProper(gs: seq<Segment>)
    requires AllProper(gs)
    ensures AllProper(Mirror(gs))
    ensures Reachable(gs) ==> ParamsOk(Mirror(gs))
  {
    forall i | 0 <= i < |gs|
      ensures ProperSegment(MirrorAt(gs, i)) && (MirrorAt(gs, i).isParam ==> |MirrorAt(gs, i).text| < KEY_SIZE)
    {
      assert ProperSegment(gs[i]);
    }
    MirrorCounts(gs, |gs|);
    if Reachable(gs) {
      forall i, j | 0 <= j < i < |gs| && MirrorAt(gs, i).isParam && MirrorAt(gs, j).isParam
        ensures MirrorAt(gs, j).text != MirrorAt(gs, i).text
      {
        ColonsGrow(gs, j + 1, i);
        ColonsGrow(gs, i + 1, |gs|);
        NamesDiffer(Colons(gs, j), Colons(gs, i));
      }
    }
  }

  lemma NamesDiffer(j: nat, i: nat)
    requires j < i < MAX_PARAMS
    ensures ParamName(j) != ParamName(i)
  {
    var names := "abcdefghijklmnop";
    assert forall k :: 0 <= k < MAX_PARAMS ==> names[k] as int == 'a' as int + k;
  }

  lemma MirrorMatches(a: seq<Segment>, b: seq<Segment>)
    requires AllProper(a)
    ensures forall i :: 0 <= i < |a| ==> a[i].text != ""
    ensures Matches(Mirror(a), b, 0) <==>
            |a| == |b| && forall i :: 0 <= i < |a| ==> a[i].text[0] == ':' || a[i].text == b[i].text
  {
    forall i | 0 <= i < |a|
      ensures a[i].text != "" && (MirrorAt(a, i).isParam <==> a[i].text[0] == ':')
      ensures !MirrorAt(a, i).isParam ==> MirrorAt(a, i).text == a[i].text
    {
      assert ProperSegment(a[i]);
    }
    hide MirrorAt, AllProper;
    var m := Mirror(a);
    assert forall i :: 0 <= i < |a| ==> m[i] == MirrorAt(a, i);
    assert |a| == |b| ==> forall i :: 0 <= i < |a| ==>
      (m[i].isParam || m[i].text == b[i].text <==> a[i].text[0] == ':' || a[i].text == b[i].text);
  }

  /** Segment by segment shorter, printed shorter. */
  lemma {:induction false} PrintedShorter(a: seq<Segment>, b: seq<Segment>)
    requires |a| == |b|
    requires forall i :: 0 <= i < |a| ==> |a[i].text| <= |b[i].text| && (a[i].isParam ==> b[i].isParam)
    ensures |PrintPath(a)| <= |PrintPath(b)|
  {
    if a != [] {
      PrintedShorter(a[1..], b[1..]);
    }
  }

  lemma {:induction false} PrintedChars(gs: seq<Segment>, c: char)
    requires c in PrintPath(gs)
    ensures c == '/' || c == ':' || exists i :: 0 <= i < |gs| && c in gs[i].text
  {
    if gs != [] && c in PrintPath(gs[1..]) {
      PrintedChars(gs[1..], c);
      if i :| 0 <= i < |gs[1..]| && c in gs[1..][i].text {
        assert gs[i + 1] == gs[1..][i];
      }
    }
  }

  /** A path is no shorter than what its segments print, and has all their characters. */
  lemma {:induction false} ParsedShorter(s: string, p: nat)
    requires p <= |s|
    ensures ParseFrom(s, p).Some? ==>
              var gs := ParseFrom(s, p).value;
              |PrintPath(gs)| <= |s| - p && forall i, c :: 0 <= i < |gs| && c in gs[i].text ==> c in s
    decreases |s| - p
  {
    hide NextSlash, ParseFrom;
    var slash := NextSlash(s, p);
    SameParse(s, p);
    if slash == |s| {
      EndsHere(s, slash);
    } else {
      ParseUnfolds(s, slash);
      var param := slash + 1 < |s| && s[slash + 1] == ':';
      var t := if param then slash + 2 else slash + 1;
      var e := NextSlash(s, t);
      ParsedShorter(s, t);
      ParsedShorter(s, e);
      if t < e < t + TEXT_SIZE && ParseFrom(s, e).Some? {
        var g, rest := Segment(s[t..e], param), ParseFrom(s, e).value;
        assert ([g] + rest)[1..] == rest;
      }
    }
  }

  /** Segments that are no longer than those of a request path can be registered. */
  lemma PrintedRegisters(path: string, a: seq<Segment>, pattern: seq<Segment>)
    requires IsRequestPath(path) && ParsePath(path) == Some(a) && AllProper(pattern)
    requires |pattern| == |a| && forall i :: 0 <= i < |a| ==>
               |pattern[i].text| <= |a[i].text| && (pattern[i].isParam ==> a[i].isParam) &&
               forall c :: c in pattern[i].text ==> c in a[i].text || 'a' <= c <= 'z'
    ensures var s := if pattern == [] then "/" else PrintPath(pattern);
            s != "" && s[0] == '/' && IsRequestPath(s) && ParsePath(s) == Some(pattern)
  {
    hide ParseFrom, ProperSegment;
    if pattern == [] {
      SlashIsEmpty();
    } else {
      PrintedParses(pattern);
      PrintedShorter(pattern, a);
      ParsedShorter(path, 0);
      if '?' in PrintPath(pattern) {
        PrintedChars(pattern, '?');
      }
    }
  }

  lemma SlashIsEmpty()
    ensures ParsePath("/") == Some([])
  {
    assert ParseFrom("/", 1) == Some([]);
  }

  /** Which routes can be registered for the request: the one that spells it, if any matches. */
  lemma MirrorRegisters(path: string, a: seq<Segment>) returns (r: Route)
    requires IsRequestPath(path) && ParsePath(path) == Some(a) && AllProper(a) && Reachable(a)
    ensures Registered(r) && r.segments == Mirror(a)
  {
    hide ParseFrom, ParamsOk;
    MirrorIsProper(a);
    var pattern := Mirror(a);
    forall i | 0 <= i < |a|
      ensures |pattern[i].text| <= |a[i].text| && (pattern[i].isParam ==> a[i].isParam)
      ensures forall c :: c in pattern[i].text ==> c in a[i].text || 'a' <= c <= 'z'
    {
      assert ProperSegment(a[i]);
    }
    PrintedRegisters(path, a, pattern);
    r := Route(if pattern == [] then "/" else PrintPath(pattern), GET, 0, pattern);
  }

  /** A request with more texts behind colons than a pattern has parameters matches no route. */
  lemma NoRouteMatches(r: Route, a: seq<Segment>)
    requires Registered(r) && AllProper(a) && !Reachable(a)
    ensures !Matches(r.segments, a, 0)
  {
    ParsedIsProper(r.path, 0);
    hide ParseFrom;
    if Matches(r.segments, a, 0) {
      ColonsAreParams(r.segments, a, |a|);
    }
  }

  lemma {:induction false} ColonsAreParams(pattern: seq<Segment>, a: seq<Segment>, n: nat)
    requires AllProper(pattern) && AllProper(a) && Matches(pattern, a, 0) && n <= |a|
    ensures Colons(a, n) <= CountParams(pattern, n)
  {
    if n > 0 {
      ColonsAreParams(pattern, a, n - 1);
      assert ProperSegment(pattern[n - 1]);
    }
  }

  /**
   * Two request paths match the same routes, of all that can be registered, exactly when they have
   * the same number of segments and the same texts, except where both texts start with a colon of
   * their own, or when either has more such texts than a pattern has parameters: then no route
   * matches them.
   */
  lemma SameMatchesExactly(p: string, q: string, a: seq<Segment>, b: seq<Segment>)
    requires IsRequestPath(p) && IsRequestPath(q) && ParsePath(p) == Some(a) && ParsePath(q) == Some(b)
    ensures AllProper(a) && AllProper(b)
    ensures SameMatches(a, b) <==>
            || (!Reachable(a) && !Reachable(b))
            || (|a| == |b| && forall i :: 0 <= i < |a| ==> Alike(a[i].text, b[i].text))
  {
    ParsedIsProper(p, 0);
    ParsedIsProper(q, 0);
    hide ParseFrom, Registered, SameMatches, AllProper, Reachable;
    if !Reachable(a) && !Reachable(b) {
      NothingTellsApart(a, b);
    } else if |a| == |b| && forall i :: 0 <= i < |a| ==> Alike(a[i].text, b[i].text) {
      AlikeRoutes(a, b);
    } else if Reachable(a) && Reachable(b) {
      MirrorsTellApart(p, q, a, b);
    } else if Reachable(a) {
      OneReachable(p, a, b);
    } else {
      OneReachable(q, b, a);
      SwapMatches(a, b);
    }
  }

  lemma SwapMatches(a: seq<Segment>, b: seq<Segment>)
    ensures SameMatches(a, b) <==> SameMatches(b, a)
  {
  }

  lemma NothingTellsApart(a: seq<Segment>, b: seq<Segment>)
    requires AllProper(a) && AllProper(b) && !Reachable(a) && !Reachable(b)
    ensures SameMatches(a, b)
  {
    forall r: Route | Registered(r)
      ensures Matches(r.segments, a, 0) <==> Matches(r.segments, b, 0)
    {
      NoRouteMatches(r, a);
      NoRouteMatches(r, b);
    }
  }

  lemma AlikeRoutes(a: seq<Segment>, b: seq<Segment>)
    requires AllProper(a) && AllProper(b) && |a| == |b|
    requires forall i :: 0 <= i < |a| ==> Alike(a[i].text, b[i].text)
    ensures SameMatches(a, b)
  {
    forall r: Route | Registered(r)
      ensures Matches(r.segments, a, 0) <==> Matches(r.segments, b, 0)
    {
      ParsedIsProper(r.path, 0);
      AlikeMatch(r.segments, a, b);
    }
  }

  lemma OneReachable(p: string, a: seq<Segment>, b: seq<Segment>)
    requires IsRequestPath(p) && ParsePath(p) == Some(a)
    requires AllProper(a) && AllProper(b) && Reachable(a) && !Reachable(b)
    ensures !SameMatches(a, b)
  {
    hide ParseFrom, Reachable, AllProper;
    var r := MirrorRegisters(p, a);
    MirrorMatches(a, a);
    NoRouteMatches(r, b);
  }

  /** One of the two patterns that spell the requests matches its own alone. */
  lemma MirrorsTellApart(p: string, q: string, a: seq<Segment>, b: seq<Segment>)
    requires IsRequestPath(p) && IsRequestPath(q) && ParsePath(p) == Some(a) && ParsePath(q) == Some(b)
    requires AllProper(a) && AllProper(b) && Reachable(a) && Reachable(b)
    requires |a| == |b| ==> exists i :: 0 <= i < |a| && !Alike(a[i].text, b[i].text)
    ensures !SameMatches(a, b)
  {
    hide ParseFrom, Reachable, AllProper, Registered, Mirror;
    var r := MirrorRegisters(p, a);
    var r' := MirrorRegisters(q, b);
    MirrorMatches(a, a);
    MirrorMatches(a, b);
    MirrorMatches(b, a);
    MirrorMatches(b, b);
  }

  lemma AlikeMatch(pattern: seq<Segment>, a: seq<Segment>, b: seq<Segment>)
    requires AllProper(pattern) && AllProper(a) && AllProper(b)
    requires |a| == |b| && forall i :: 0 <= i < |a| ==> Alike(a[i].text, b[i].text)
    ensures Matches(pattern, a, 0) <==> Matches(pattern, b, 0)
  {
    if |pattern| == |a| {
      forall i | 0 <= i < |a| && !pattern[i].isParam
        ensures pattern[i].text == a[i].text <==> pattern[i].text == b[i].text
      {
        assert ProperSegment(pattern[i]) && Alike(a[i].text, b[i].text);
      }
    }
  }

  /** A path without a colon in front of a segment. */
  predicate IsPlain(path: string) {
    ParsePath(path).Some? && forall i :: 0 <= i < |ParsePath(path).value| ==> !ParsePath(path).value[i].isParam
  }

  /** `other` is a plain path with different segments that matches what a request for a matches. */
  ghost predicate StandsFor(other: string, a: seq<Segment>) {
    IsRequestPath(other) && IsPlain(other) && ParsePath(other).value != a && SameMatches(a, ParsePath(other).value)
  }

  lemma {:induction false} PlainReachable(gs: seq<Segment>, n: nat)
    requires n <= |gs| && AllProper(gs) && forall i :: 0 <= i < |gs| ==> !gs[i].isParam
    ensures Colons(gs, n) == 0
  {
    if n > 0 {
      PlainReachable(gs, n - 1);
      assert ProperSegment(gs[n - 1]);
    }
  }

  lemma StandsForColons(path: string, a: seq<Segment>, other: string)
    requires IsRequestPath(path) && ParsePath(path) == Some(a) && StandsFor(other, a)
    ensures (exists i :: 0 <= i < |a| && a[i].isParam) && forall i :: 0 <= i < |a| ==> a[i].text[0] != ':'
  {
    var b := ParsePath(other).value;
    ParsedIsProper(path, 0);
    ParsedIsProper(other, 0);
    PlainReachable(b, |b|);
    SameMatchesExactly(path, other, a, b);
    hide ParseFrom, SameMatches;
    forall i | 0 <= i < |a|
      ensures a[i].text[0] != ':' && a[i].text == b[i].text
    {
      assert ProperSegment(a[i]) && ProperSegment(b[i]) && Alike(a[i].text, b[i].text);
    }
    var i :| 0 <= i < |a| && a[i] != b[i];
    assert a[i].isParam;
  }

  lemma BareStandsFor(path: string, a: seq<Segment>)
    requires IsRequestPath(path) && ParsePath(path) == Some(a)
    requires (exists i :: 0 <= i < |a| && a[i].isParam) && forall i :: 0 <= i < |a| ==> a[i].text[0] != ':'
    ensures StandsFor(PrintPath(Bare(a)), a)
  {
    var b := Bare(a);
    ParsedIsProper(path, 0);
    hide ParseFrom, SameMatches;
    forall i | 0 <= i < |a|
      ensures b[i].text == a[i].text && !b[i].isParam && ProperSegment(b[i])
    {
      assert ProperSegment(a[i]);
    }
    hide ProperSegment;
    PrintedRegisters(path, a, b);
    var i :| 0 <= i < |a| && a[i].isParam;
    assert a[i] != b[i];
    SameMatchesExactly(path, PrintPath(b), a, b);
  }

  /**
   * A request for a path matches the routes of another path, one written without colons, exactly
   * when some segment of it is written with a colon and none with two.
   */
  lemma ReachesPlainPathExactly(path: string, a: seq<Segment>)
    requires IsRequestPath(path) && ParsePath(path) == Some(a)
    ensures (forall i :: 0 <= i < |a| ==> a[i].text != "")
    ensures (exists other :: StandsFor(other, a)) <==>
            (exists i :: 0 <= i < |a| && a[i].isParam) && forall i :: 0 <= i < |a| ==> a[i].text[0] != ':'
  {
    hide StandsFor, ProperSegment;
    if other :| StandsFor(other, a) {
      StandsForColons(path, a, other);
    }
    if (exists i :: 0 <= i < |a| && a[i].isParam) && forall i :: 0 <= i < |a| ==> a[i].text[0] != ':' {
      BareStandsFor(path, a);
    }
  }

  /** A request for "/:users" matches what one for "/users" matches. */
  lemma ColonExample()
    ensures ParsePath("/:users") == Some([Segment("users", true)]) &&
            ParsePath("/users") == Some([Segment("users", false)])
    ensures SameMatches(ParsePath("/:users").value, ParsePath("/users").value)
    ensures Matches(ParsePath("/users").value, ParsePath("/:users").value, 0)
  {
    UsersParse();
    hide ParsePath, SameMatches, Reachable, AllProper;
    SameMatchesExactly("/:users", "/users", [Segment("users", true)], [Segment("users", false)]);
  }

  lemma UsersParse()
    ensures ParsePath("/:users") == Some([Segment("users", true)])
    ensures ParsePath("/users") == Some([Segment("users", false)])
  {
    var a, b := Segment("users", true), Segment("users", false);
    hide ParsePath;
    assert PrintPath([]) == "";
    assert "/:users" == PrintPath([a]) by { assert [a][1..] == []; }
    assert "/users" == PrintPath([b]) by { assert [b][1..] == []; }
    PrintedParses([a]);
    PrintedParses([b]);
  }
}
