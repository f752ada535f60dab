/** Dispatching a request: server routes, then mounted routers in order, then static mounts. */
module Dispatch {
  import opened Wrappers
  import opened Routes

  /** A mounted router as a value. */
  datatype Mounted = Mounted(prefix: seq<Segment>, routes: seq<Route>)

  // ---- the specification ----

  predicate Hit(r: Route, request: seq<Segment>, offset: nat, verb: Method) {
    Matches(r.segments, request, offset) && r.verb == verb
  }

  /** The first route with the verb that matches, or the number of routes. */
  function FirstHit(routes: seq<Route>, request: seq<Segment>, offset: nat, verb: Method, from: nat): (r: nat)
    requires from <= |routes|
    ensures from <= r <= |routes|
    ensures r < |routes| ==> Hit(routes[r], request, offset, verb)
    ensures forall k :: from <= k < r ==> !Hit(routes[k], request, offset, verb)
    decreases |routes| - from
  {
    if from == |routes| || Hit(routes[from], request, offset, verb) then from
    else FirstHit(routes, request, offset, verb, from + 1)
  }

  /** In one table: the first route with the verb; for HEAD otherwise the first GET route. */
  function Pick(routes: seq<Route>, request: seq<Segment>, offset: nat, verb: Method): (r: Option<nat>)
    ensures r.Some? ==> r.value < |routes| && Matches(routes[r.value].segments, request, offset)
  {
    var i := FirstHit(routes, request, offset, verb, 0);
    if i < |routes| then Some(i)
    else if verb == HEAD then
      var j := FirstHit(routes, request, offset, GET, 0);
      if j < |routes| then Some(j) else None
    else None
  }

  predicate PrefixMatches(prefix: seq<Segment>, request: seq<Segment>) {
    |prefix| <= |request| && forall i :: 0 <= i < |prefix| ==> prefix[i].text == request[i].text
  }

  function PickMounted(m: Mounted, request: seq<Segment>, verb: Method): (r: Option<nat>)
    ensures r.Some? ==> r.value < |m.routes| && Matches(m.routes[r.value].segments, request, |m.prefix|)
  {
    if PrefixMatches(m.prefix, request) then Pick(m.routes, request, |m.prefix|, verb) else None
  }

  /** The route that wins, with the offset of its segments. */
  datatype Winner = Winner(route: Route, offset: nat)

  function FirstMounted(ms: seq<Mounted>, request: seq<Segment>, verb: Method, from: nat): (r: Option<Winner>)
    requires from <= |ms|
    ensures r.Some? ==> Matches(r.value.route.segments, request, r.value.offset)
    decreases |ms| - from
  {
    if from == |ms| then None else
    match PickMounted(ms[from], request, verb)
    case Some(i) => Some(Winner(ms[from].routes[i], |ms[from].prefix|))
    case None => FirstMounted(ms, request, verb, from + 1)
  }

  function WinnerOf(routes: seq<Route>, ms: seq<Mounted>, request: seq<Segment>, verb: Method): (r: Option<Winner>)
    ensures r.Some? ==> Matches(r.value.route.segments, request, r.value.offset)
  {
    match Pick(routes, request, 0, verb)
    case Some(i) => Some(Winner(routes[i], 0))
    case None => FirstMounted(ms, request, verb, 0)
  }

  predicate AnyMatch(routes: seq<Route>, request: seq<Segment>, offset: nat) {
    exists i :: 0 <= i < |routes| && Matches(routes[i].segments, request, offset)
  }

  predicate MountMatches(m: Mounted, request: seq<Segment>) {
    PrefixMatches(m.prefix, request) && AnyMatch(m.routes, request, |m.prefix|)
  }

  /** Some route, with whatever verb, matches the path. */
  predicate PathExists(routes: seq<Route>, ms: seq<Mounted>, request: seq<Segment>) {
    AnyMatch(routes, request, 0) || exists k :: 0 <= k < |ms| && MountMatches(ms[k], request)
  }

  /** A table offers a route for the verb. */
  predicate Offers(routes: seq<Route>, request: seq<Segment>, offset: nat, verb: Method) {
    exists i :: 0 <= i < |routes| && (Hit(routes[i], request, offset, verb) ||
      (verb == HEAD && Hit(routes[i], request, offset, GET)))
  }

  /** The choice within a table, said without the search. */
  lemma PickIsFirst(routes: seq<Route>, request: seq<Segment>, offset: nat, verb: Method)
    ensures Pick(routes, request, offset, verb).Some? <==> Offers(routes, request, offset, verb)
    ensures forall i :: Pick(routes, request, offset, verb) == Some(i) ==>
              if routes[i].verb == verb then forall k :: 0 <= k < i ==> !Hit(routes[k], request, offset, verb)
              else verb == HEAD && routes[i].verb == GET &&
                   (forall k :: 0 <= k < |routes| ==> !Hit(routes[k], request, offset, HEAD)) &&
                   forall k :: 0 <= k < i ==> !Hit(routes[k], request, offset, GET)
  {
    hide Matches;
  }

  lemma {:induction false} FirstMountedIsFirst(ms: seq<Mounted>, request: seq<Segment>, verb: Method, from: nat)
    requires from <= |ms|
    ensures var w := FirstMounted(ms, request, verb, from);
            (w.None? ==> forall k :: from <= k < |ms| ==> PickMounted(ms[k], request, verb).None?) &&
            (w.Some? ==> exists m :: from <= m < |ms| && IsMountWinner(ms, request, verb, from, m, w.value))
    decreases |ms| - from
  {
    hide PickMounted;
    if from < |ms| {
      var i := PickMounted(ms[from], request, verb);
      if i.Some? {
        assert IsMountWinner(ms, request, verb, from, from, Winner(ms[from].routes[i.value], |ms[from].prefix|));
      } else {
        FirstMountedIsFirst(ms, request, verb, from + 1);
        var w := FirstMounted(ms, request, verb, from + 1);
        if w.Some? {
          var m :| from + 1 <= m < |ms| && IsMountWinner(ms, request, verb, from + 1, m, w.value);
          assert IsMountWinner(ms, request, verb, from, m, w.value);
        }
      }
    }
  }

  /** Mount m has the winner, and no mount between `from` and m offers anything. */
  predicate IsMountWinner(ms: seq<Mounted>, request: seq<Segment>, verb: Method, from: nat, m: nat, w: Winner) {
    m < |ms| && PickMounted(ms[m], request, verb).Some? &&
    w == Winner(ms[m].routes[PickMounted(ms[m], request, verb).value], |ms[m].prefix|) &&
    forall k :: from <= k < m ==> PickMounted(ms[k], request, verb).None?
  }

  predicate MountOffers(m: Mounted, request: seq<Segment>, verb: Method) {
    PrefixMatches(m.prefix, request) && Offers(m.routes, request, |m.prefix|, verb)
  }

  /**
   * First match: a server route wins whenever the server table offers one; otherwise the first
   * mounted router under whose prefix the path lies and which offers one; otherwise nobody.
   */
  lemma WinnerIsFirst(routes: seq<Route>, ms: seq<Mounted>, request: seq<Segment>, verb: Method)
    ensures var w := WinnerOf(routes, ms, request, verb);
            (w.None? <==> !Offers(routes, request, 0, verb) &&
                          forall k :: 0 <= k < |ms| ==> !MountOffers(ms[k], request, verb)) &&
            (Offers(routes, request, 0, verb) ==>
               w.Some? && w.value == Winner(routes[Pick(routes, request, 0, verb).value], 0)) &&
            (w.Some? && !Offers(routes, request, 0, verb) ==>
               exists m :: 0 <= m < |ms| && MountOffers(ms[m], request, verb) &&
                           IsMountWinner(ms, request, verb, 0, m, w.value))
  {
    hide Offers, FirstMounted, Pick, PrefixMatches;
    PickIsFirst(routes, request, 0, verb);
    FirstMountedIsFirst(ms, request, verb, 0);
    forall k | 0 <= k < |ms| ensures MountOffers(ms[k], request, verb) <==> PickMounted(ms[k], request, verb).Some? {
      PickIsFirst(ms[k].routes, request, |ms[k].prefix|, verb);
    }
  }

  // ---- the Allow header ----

  const ALLOW_SIZE := 128

  function MethodName(m: Method): (r: string)
    ensures 0 < |r| < 8
  {
    match m
    case GET => "GET" case POST => "POST" case PUT => "PUT" case PATCH => "PATCH" case DELETE => "DELETE"
    case HEAD => "HEAD" case OPTIONS => "OPTIONS" case CONNECT => "CONNECT" case TRACE => "TRACE"
  }

  /** The nine methods of RFC 9110 and RFC 5789 under their own names. */
  lemma MethodNames()
    ensures MethodName(GET) == "GET" && MethodName(POST) == "POST" && MethodName(PUT) == "PUT"
    ensures MethodName(PATCH) == "PATCH" && MethodName(DELETE) == "DELETE" && MethodName(HEAD) == "HEAD"
    ensures MethodName(OPTIONS) == "OPTIONS" && MethodName(CONNECT) == "CONNECT" && MethodName(TRACE) == "TRACE"
  {
  }

  /** Adds a name if it fits with its separator and the NUL. */
  function AllowAppend(allow: string, name: string): string {
    if allow != "" then (if |allow| + 2 + |name| >= ALLOW_SIZE then allow else allow + ", " + name)
    else if |name| >= ALLOW_SIZE then allow
    else name
  }

  function AllowOf(ns: seq<Method>): string {
    if ns == [] then "" else AllowAppend(AllowOf(ns[..|ns| - 1]), MethodName(ns[|ns| - 1]))
  }

  function JoinNames(ns: seq<Method>): string {
    if ns == [] then ""
    else if |ns| == 1 then MethodName(ns[0])
    else JoinNames(ns[..|ns| - 1]) + ", " + MethodName(ns[|ns| - 1])
  }

  /** The header is empty only when there is no name, and the full list whenever that fits. */
  lemma {:induction false} AllowIsList(ns: seq<Method>)
    ensures |AllowOf(ns)| < 128 && (AllowOf(ns) == "" <==> ns == [])
    ensures |JoinNames(ns)| < 128 ==> AllowOf(ns) == JoinNames(ns)
    decreases |ns|
  {
    hide MethodName;
    if ns != [] {
      AllowIsList(ns[..|ns| - 1]);
    }
  }

  /** The verbs of the matching routes, in order. */
  function VerbsUpTo(routes: seq<Route>, request: seq<Segment>, offset: nat, n: nat): seq<Method>
    requires n <= |routes|
  {
    if n == 0 then []
    else
      VerbsUpTo(routes, request, offset, n - 1) +
      (if Matches(routes[n - 1].segments, request, offset) then [routes[n - 1].verb] else [])
  }

  function MountVerbsUpTo(ms: seq<Mounted>, request: seq<Segment>, n: nat): seq<Method>
    requires n <= |ms|
  {
    if n == 0 then []
    else
      MountVerbsUpTo(ms, request, n - 1) +
      (if PrefixMatches(ms[n - 1].prefix, request)
       then VerbsUpTo(ms[n - 1].routes, request, |ms[n - 1].prefix|, |ms[n - 1].routes|) else [])
  }

  function AllVerbs(routes: seq<Route>, ms: seq<Mounted>, request: seq<Segment>): seq<Method> {
    VerbsUpTo(routes, request, 0, |routes|) + MountVerbsUpTo(ms, request, |ms|)
  }

  lemma {:induction false} VerbsExist(routes: seq<Route>, request: seq<Segment>, offset: nat, n: nat)
    requires n <= |routes|
    ensures VerbsUpTo(routes, request, offset, n) != [] <==>
            exists i :: 0 <= i < n && Matches(routes[i].segments, request, offset)
    decreases n
  {
    hide Matches;
    if n > 0 {
      VerbsExist(routes, request, offset, n - 1);
    }
  }

  lemma {:induction false} MountVerbsExist(ms: seq<Mounted>, request: seq<Segment>, n: nat)
    requires n <= |ms|
    ensures MountVerbsUpTo(ms, request, n) != [] <==> exists k :: 0 <= k < n && MountMatches(ms[k], request)
    decreases n
  {
    hide Matches, PrefixMatches;
    if n > 0 {
      MountVerbsExist(ms, request, n - 1);
      VerbsExist(ms[n - 1].routes, request, |ms[n - 1].prefix|, |ms[n - 1].routes|);
      assert MountMatches(ms[n - 1], request) <==>
             PrefixMatches(ms[n - 1].prefix, request) && AnyMatch(ms[n - 1].routes, request, |ms[n - 1].prefix|);
    }
  }

  /** Something is allowed exactly when the path exists. */
  lemma VerbsExistExactly(routes: seq<Route>, ms: seq<Mounted>, request: seq<Segment>)
    ensures AllVerbs(routes, ms, request) != [] <==> PathExists(routes, ms, request)
  {
    hide Matches, MountMatches;
    VerbsExist(routes, request, 0, |routes|);
    MountVerbsExist(ms, request, |ms|);
  }

  // ---- the outcome ----

  /** What the static file mounts say; they are not part of this model. */
  datatype Static = Served | RefusedMethod | NotMatched

  datatype Outcome =
    | NotImplemented
    | HandledBy(handler: Handler)
    | AutoOptions(allow: string)
    | StaticServed
    | MethodNotAllowed
    | NotFound

  /** The outcome for a request with the given verb, if it is a known one. */
  function OutcomeOf(routes: seq<Route>, ms: seq<Mounted>, request: seq<Segment>, verb: Option<Method>,
                     static_: Static): Outcome
  {
    match verb
    case None => NotImplemented
    case Some(m) =>
      match WinnerOf(routes, ms, request, m)
      case Some(w) => HandledBy(w.route.handler)
      case None =>
        if m == OPTIONS && PathExists(routes, ms, request) then AutoOptions(AllowOf(AllVerbs(routes, ms, request)))
        else match static_
          case Served => StaticServed
          case RefusedMethod => MethodNotAllowed
          case NotMatched => if PathExists(routes, ms, request) then MethodNotAllowed else NotFound
  }

  // ---- the server ----

  datatype Mount = Mount(prefix: seq<Segment>, router: RouteTable)

  datatype UseResult = UseOk | UseError

  class Server {
    const table: RouteTable
    var mounts: seq<Mount>

    ghost predicate Valid()
      reads this, table, set m | m in mounts :: m.router
    {
      table.Valid() && (forall m :: m in mounts ==> m.router.Valid() && m.router != table)
    }

    constructor ()
      ensures Valid() && mounts == [] && table.routes == [] && fresh(table)
    {
      table := new RouteTable();
      mounts := [];
    }

    /** The first n mounts as values. */
    ghost function ViewUpTo(n: nat): (r: seq<Mounted>)
      requires n <= |mounts|
      reads this, set m | m in mounts :: m.router
      ensures |r| == n
      ensures forall i :: 0 <= i < n ==> r[i] == Mounted(mounts[i].prefix, mounts[i].router.routes)
    {
      if n == 0 then []
      else ViewUpTo(n - 1) + [Mounted(mounts[n - 1].prefix, mounts[n - 1].router.routes)]
    }

    ghost function View(): seq<Mounted>
      reads this, set m | m in mounts :: m.router
    {
      ViewUpTo(|mounts|)
    }

    /** Mounts a router behind those already mounted; a router is mounted once. */
    method Use(prefix: string, router: RouteTable) returns (r: UseResult)
      requires Valid() && router.Valid() && router != table
      modifies this`mounts
      ensures Valid()
      ensures r.UseOk? <==>
                prefix != "" && prefix[0] == '/' && |prefix| < 512 && '?' !in prefix &&
                (forall m :: m in old(mounts) ==> m.router != router) && ParsePath(prefix).Some? &&
                forall i :: 0 <= i < |ParsePath(prefix).value| ==> !ParsePath(prefix).value[i].isParam
      ensures mounts == if r.UseOk? then old(mounts) + [Mount(ParsePath(prefix).value, router)] else old(mounts)
    {
      hide ParseFrom;
      r := UseError;
      for i := 0 to |mounts|
        invariant forall k :: 0 <= k < i ==> mounts[k].router != router
      {
        if mounts[i].router == router {
          return;
        }
      }
      if prefix == "" || prefix[0] != '/' || |prefix| >= PATH_MAX || '?' in prefix {
        return;
      }
      var segments := ParseSegments(prefix);
      if segments.None? {
        return;
      }
      for i := 0 to |segments.value|
        invariant forall k :: 0 <= k < i ==> !segments.value[k].isParam
      {
        if segments.value[i].isParam {
          return;
        }
      }
      mounts := mounts + [Mount(segments.value, router)];
      r := UseOk;
    }
  }

  method PrefixMatch(prefix: seq<Segment>, request: seq<Segment>) returns (ok: bool)
    ensures ok == PrefixMatches(prefix, request)
  {
    if |prefix| > |request| {
      return false;
    }
    for i := 0 to |prefix|
      invariant forall k :: 0 <= k < i ==> prefix[k].text == request[k].text
    {
      if prefix[i].text != request[i].text {
        return false;
      }
    }
    return true;
  }

  /** One table: the wanted verb first, then GET for HEAD; `seen` tells whether some route matched. */
  method Search(routes: seq<Route>, request: seq<Segment>, offset: nat, verb: Method)
    returns (found: Option<nat>, seen: bool)
    ensures found == Pick(routes, request, offset, verb)
    ensures found.None? ==> seen == AnyMatch(routes, request, offset)
  {
    hide Matches;
    found, seen := None, false;
    var i := 0;
    while i < |routes|
      invariant 0 <= i <= |routes|
      invariant FirstHit(routes, request, offset, verb, i) == FirstHit(routes, request, offset, verb, 0)
      invariant seen <==> exists k :: 0 <= k < i && Matches(routes[k].segments, request, offset)
    {
      var ok := MatchAt(routes[i].segments, request, offset);
      if ok {
        seen := true;
        if routes[i].verb == verb {
          return Some(i), true;
        }
      }
      i := i + 1;
    }
    if verb == HEAD {
      i := 0;
      while i < |routes|
        invariant 0 <= i <= |routes|
        invariant FirstHit(routes, request, offset, GET, i) == FirstHit(routes, request, offset, GET, 0)
      {
        var ok := MatchAt(routes[i].segments, request, offset);
        if ok && routes[i].verb == GET {
          return Some(i), seen;
        }
        i := i + 1;
      }
    }
  }

  /** Adds the verbs of the matching routes of one table to the header. */
  method CollectTable(routes: seq<Route>, request: seq<Segment>, offset: nat, allow: string, ghost before: seq<Method>)
    returns (r: string)
    requires allow == AllowOf(before)
    ensures r == AllowOf(before + VerbsUpTo(routes, request, offset, |routes|))
  {
    hide Matches, AllowOf, VerbsUpTo;
    r := allow;
    VerbsNone(routes, request, offset, before);
    for i := 0 to |routes|
      invariant r == AllowOf(before + VerbsUpTo(routes, request, offset, i))
    {
      VerbsStep(routes, request, offset, i, before);
      var ok := MatchAt(routes[i].segments, request, offset);
      if ok {
        r := AllowAppend(r, MethodName(routes[i].verb));
      }
    }
  }

  lemma VerbsNone(routes: seq<Route>, request: seq<Segment>, offset: nat, before: seq<Method>)
    ensures before + VerbsUpTo(routes, request, offset, 0) == before
  {
  }

  lemma VerbsStep(routes: seq<Route>, request: seq<Segment>, offset: nat, i: nat, before: seq<Method>)
    requires i < |routes|
    ensures AllowOf(before + VerbsUpTo(routes, request, offset, i + 1)) ==
            if Matches(routes[i].segments, request, offset)
            then AllowAppend(AllowOf(before + VerbsUpTo(routes, request, offset, i)), MethodName(routes[i].verb))
            else AllowOf(before + VerbsUpTo(routes, request, offset, i))
  {
    hide Matches, AllowAppend, MethodName;
    var ns := before + VerbsUpTo(routes, request, offset, i);
    if Matches(routes[i].segments, request, offset) {
      assert (ns + [routes[i].verb])[..|ns|] == ns;
      assert before + VerbsUpTo(routes, request, offset, i + 1) == ns + [routes[i].verb];
    } else {
      assert before + VerbsUpTo(routes, request, offset, i + 1) == ns;
    }
  }

  /** The verbs of one mounted router, when the path lies under its prefix. */
  method CollectMount(m: Mount, request: seq<Segment>, allow: string, ghost before: seq<Method>) returns (r: string)
    requires allow == AllowOf(before)
    ensures r == AllowOf(before + if PrefixMatches(m.prefix, request)
                                  then VerbsUpTo(m.router.routes, request, |m.prefix|, |m.router.routes|) else [])
  {
    hide VerbsUpTo, AllowOf, PrefixMatches;
    r := allow;
    var ok := PrefixMatch(m.prefix, request);
    if ok {
      r := CollectTable(m.router.routes, request, |m.prefix|, allow, before);
    } else {
      assert before + [] == before;
    }
  }

  method CollectAllow(server: Server, request: seq<Segment>) returns (allow: string)
    requires server.Valid()
    ensures allow == AllowOf(AllVerbs(server.table.routes, server.View(), request))
  {
    hide VerbsUpTo, MountVerbsUpTo, AllowOf, PrefixMatches, Registered;
    NoVerbs();
    allow := CollectTable(server.table.routes, request, 0, "", []);
    ghost var own := VerbsUpTo(server.table.routes, request, 0, |server.table.routes|);
    ghost var ms := server.View();
    MountVerbsNone(ms, request, own);
    for i := 0 to |server.mounts|
      invariant allow == AllowOf(own + MountVerbsUpTo(ms, request, i))
    {
      MountVerbsStep(ms, request, i, own);
      allow := CollectMount(server.mounts[i], request, allow, own + MountVerbsUpTo(ms, request, i));
    }
  }

  lemma MountVerbsNone(ms: seq<Mounted>, request: seq<Segment>, own: seq<Method>)
    ensures own + MountVerbsUpTo(ms, request, 0) == own && [] + own == own
  {
  }

  lemma MountVerbsStep(ms: seq<Mounted>, request: seq<Segment>, i: nat, own: seq<Method>)
    requires i < |ms|
    ensures own + MountVerbsUpTo(ms, request, i + 1) ==
            own + MountVerbsUpTo(ms, request, i) +
            if PrefixMatches(ms[i].prefix, request)
            then VerbsUpTo(ms[i].routes, request, |ms[i].prefix|, |ms[i].routes|) else []
  {
    hide VerbsUpTo, PrefixMatches;
    var ns := MountVerbsUpTo(ms, request, i);
    var more := if PrefixMatches(ms[i].prefix, request)
                then VerbsUpTo(ms[i].routes, request, |ms[i].prefix|, |ms[i].routes|) else [];
    assert own + (ns + more) == own + ns + more;
  }

  lemma NoVerbs()
    ensures AllowOf([]) == ""
  {
  }

  predicate SeenUpTo(ms: seq<Mounted>, request: seq<Segment>, n: nat)
    requires n <= |ms|
  {
    exists k :: 0 <= k < n && MountMatches(ms[k], request)
  }

  lemma SeenStep(ms: seq<Mounted>, request: seq<Segment>, n: nat)
    requires n < |ms|
    ensures SeenUpTo(ms, request, n + 1) <==> SeenUpTo(ms, request, n) || MountMatches(ms[n], request)
  {
    hide MountMatches;
  }

  lemma FirstMountedStep(ms: seq<Mounted>, request: seq<Segment>, verb: Method, i: nat)
    requires i < |ms|
    ensures FirstMounted(ms, request, verb, i) ==
            (match PickMounted(ms[i], request, verb)
             case Some(j) => Some(Winner(ms[i].routes[j], |ms[i].prefix|))
             case None => FirstMounted(ms, request, verb, i + 1))
  {
    hide PickMounted;
  }

  /** One mounted router. */
  method SearchMount(m: Mount, request: seq<Segment>, verb: Method) returns (found: Option<nat>, seen: bool)
    ensures found == PickMounted(Mounted(m.prefix, m.router.routes), request, verb)
    ensures found.None? ==> seen == MountMatches(Mounted(m.prefix, m.router.routes), request)
  {
    hide Pick, AnyMatch, PrefixMatches;
    var ok := PrefixMatch(m.prefix, request);
    if ok {
      found, seen := Search(m.router.routes, request, |m.prefix|, verb);
    } else {
      found, seen := None, false;
    }
  }

  /** The mounted routers in mount order, until one has the route. */
  method SearchMounts(server: Server, request: seq<Segment>, verb: Method) returns (w: Option<Winner>, seen: bool)
    requires server.Valid()
    ensures w == FirstMounted(server.View(), request, verb, 0)
    ensures w.None? ==> seen == SeenUpTo(server.View(), request, |server.View()|)
  {
    hide PickMounted, MountMatches, FirstMounted, SeenUpTo;
    w, seen := None, false;
    ghost var ms := server.View();
    NoneSeen(ms, request, verb);
    var i := 0;
    while i < |server.mounts|
      invariant 0 <= i <= |server.mounts| == |ms|
      invariant FirstMounted(ms, request, verb, i) == FirstMounted(ms, request, verb, 0)
      invariant seen == SeenUpTo(ms, request, i)
    {
      FirstMountedStep(ms, request, verb, i);
      SeenStep(ms, request, i);
      assert ms[i] == Mounted(server.mounts[i].prefix, server.mounts[i].router.routes);
      var found, matched := SearchMount(server.mounts[i], request, verb);
      if found.Some? {
        return Some(Winner(server.mounts[i].router.routes[found.value], |server.mounts[i].prefix|)), true;
      }
      seen := seen || matched;
      i := i + 1;
    }
  }

  lemma NoneSeen(ms: seq<Mounted>, request: seq<Segment>, verb: Method)
    ensures !SeenUpTo(ms, request, 0) && FirstMounted(ms, request, verb, |ms|) == None
  {
  }

  /** Server routes first, then the mounted routers. */
  method FindWinner(server: Server, request: seq<Segment>, verb: Method) returns (w: Option<Winner>, seen: bool)
    requires server.Valid()
    ensures w == WinnerOf(server.table.routes, server.View(), request, verb)
    ensures w.None? ==> seen == PathExists(server.table.routes, server.View(), request)
  {
    hide Pick, FirstMounted, MountMatches, AnyMatch;
    var found;
    found, seen := Search(server.table.routes, request, 0, verb);
    if found.Some? {
      w := Some(Winner(server.table.routes[found.value], 0));
    } else {
      var seenMounted;
      w, seenMounted := SearchMounts(server, request, verb);
      seen := seen || seenMounted;
    }
  }

  /** What happens when no route has won. */
  method WithoutRoute(server: Server, request: seq<Segment>, verb: Method, seen: bool, static_: Static)
    returns (r: Outcome)
    requires server.Valid() && WinnerOf(server.table.routes, server.View(), request, verb).None?
    requires seen == PathExists(server.table.routes, server.View(), request)
    ensures r == OutcomeOf(server.table.routes, server.View(), request, Some(verb), static_)
  {
    hide WinnerOf, PathExists, AllVerbs, AllowOf;
    VerbsExistExactly(server.table.routes, server.View(), request);
    AllowIsList(AllVerbs(server.table.routes, server.View(), request));
    if verb == OPTIONS {
      var allow := CollectAllow(server, request);
      if allow != "" {
        return AutoOptions(allow);
      }
    }
    match static_ {
      case Served => return StaticServed;
      case RefusedMethod => return MethodNotAllowed;
      case NotMatched => return if seen then MethodNotAllowed else NotFound;
    }
  }

  /**
   * Runs the dispatch for a parsed request path. The result is that of the first-match
   * specification; the winner's parameters are bound, in pattern order, and nobody else's.
   */
  method Execute(server: Server, verb: Option<Method>, ghost path: string, request: seq<Segment>, params: Params,
                 static_: Static)
    returns (r: Outcome)
    requires server.Valid() && params.Valid() && ParsePath(path) == Some(request)
    modifies params, params.slots
    ensures params.Valid() && server.View() == old(server.View())
    ensures r == OutcomeOf(server.table.routes, server.View(), request, verb, static_)
    ensures verb.Some? && WinnerOf(server.table.routes, server.View(), request, verb.value).Some? ==>
              var w := WinnerOf(server.table.routes, server.View(), request, verb.value).value;
              params.Contents() == Bound(w.route.segments, request, w.offset)
    ensures verb.None? || WinnerOf(server.table.routes, server.View(), request, verb.value).None? ==>
              params.count == old(params.count)
  {
    hide ParseFrom, Matches, WinnerOf, PathExists, Registered;
    if verb.None? {
      return NotImplemented;
    }
    var w, seen := FindWinner(server, request, verb.value);
    if w.None? {
      r := WithoutRoute(server, request, verb.value, seen, static_);
      return;
    }
    WinnerRegistered(server, request, verb.value);
    MatchBinds(w.value.route, request, path, w.value.offset);
    var ok := MatchAndBind(w.value.route.segments, request, w.value.offset, params);
    return HandledBy(w.value.route.handler);
  }

  /** A path that cannot be split into segments matches no route at all. */
  method DispatchPath(server: Server, verb: Option<Method>, path: string, params: Params, static_: Static)
    returns (r: Outcome)
    requires server.Valid() && params.Valid()
    modifies params, params.slots
    ensures params.Valid() && server.View() == old(server.View())
    ensures r == match ParsePath(path)
                 case None => NotFound
                 case Some(request) => OutcomeOf(server.table.routes, server.View(), request, verb, static_)
  {
    hide ParseFrom, WinnerOf, PathExists;
    var request := ParseSegments(path);
    if request.None? {
      return NotFound;
    }
    r := Execute(server, verb, path, request.value, params, static_);
  }

  /** Whoever wins was registered. */
  lemma WinnerRegistered(server: Server, request: seq<Segment>, verb: Method)
    requires server.Valid()
    ensures WinnerOf(server.table.routes, server.View(), request, verb).Some? ==>
              Registered(WinnerOf(server.table.routes, server.View(), request, verb).value.route)
  {
    hide Matches, Pick, Registered, FirstMounted, PickMounted;
    FirstMountedIsFirst(server.View(), request, verb, 0);
    var w := FirstMounted(server.View(), request, verb, 0);
    if w.Some? {
      var ms := server.View();
      var k :| 0 <= k < |ms| && IsMountWinner(ms, request, verb, 0, k, w.value);
      assert server.mounts[k].router.Valid();
    }
  }

  /** 405 against 404: without a winner and a static answer it depends exactly on some route matching the path. */
  lemma MethodNotAllowedExactly(routes: seq<Route>, ms: seq<Mounted>, request: seq<Segment>, verb: Method)
    ensures OutcomeOf(routes, ms, request, Some(verb), NotMatched) == NotFound <==> !PathExists(routes, ms, request)
    ensures OutcomeOf(routes, ms, request, Some(verb), NotMatched) == MethodNotAllowed <==>
              PathExists(routes, ms, request) && verb != OPTIONS && WinnerOf(routes, ms, request, verb).None?
  {
    hide Matches, Pick, FirstMounted;
    WinnerExists(routes, ms, request, verb);
  }

  lemma WinnerExists(routes: seq<Route>, ms: seq<Mounted>, request: seq<Segment>, verb: Method)
    ensures WinnerOf(routes, ms, request, verb).Some? ==> PathExists(routes, ms, request)
  {
    hide Matches, Pick, FirstMounted, PrefixMatches;
    FirstMountedIsFirst(ms, request, verb, 0);
    var w := FirstMounted(ms, request, verb, 0);
    if Pick(routes, request, 0, verb).Some? {
      assert AnyMatch(routes, request, 0);
    } else if w.Some? {
      var k :| 0 <= k < |ms| && IsMountWinner(ms, request, verb, 0, k, w.value);
      assert MountMatches(ms[k], request);
    }
  }

  // ---- the outcome depends on the texts of the request alone ----

  lemma {:induction false} HitReadsTexts(routes: seq<Route>, request: seq<Segment>, offset: nat, verb: Method,
                                         from: nat)
    requires from <= |routes|
    ensures FirstHit(routes, Bare(request), offset, verb, from) == FirstHit(routes, request, offset, verb, from)
    decreases |routes| - from
  {
    hide Matches;
    if from < |routes| {
      MatchReadsTexts(routes[from].segments, request, offset);
      HitReadsTexts(routes, request, offset, verb, from + 1);
    }
  }

  lemma PickReadsTexts(routes: seq<Route>, request: seq<Segment>, offset: nat, verb: Method)
    ensures Pick(routes, Bare(request), offset, verb) == Pick(routes, request, offset, verb)
  {
    hide FirstHit, Matches, Bare;
    HitReadsTexts(routes, request, offset, verb, 0);
    HitReadsTexts(routes, request, offset, GET, 0);
  }

  lemma {:induction false} MountedReadsTexts(ms: seq<Mounted>, request: seq<Segment>, verb: Method, from: nat)
    requires from <= |ms|
    ensures FirstMounted(ms, Bare(request), verb, from) == FirstMounted(ms, request, verb, from)
    decreases |ms| - from
  {
    hide Pick, Matches;
    if from < |ms| {
      PickReadsTexts(ms[from].routes, request, |ms[from].prefix|, verb);
      MountedReadsTexts(ms, request, verb, from + 1);
    }
  }

  lemma {:induction false} VerbsReadTexts(routes: seq<Route>, request: seq<Segment>, offset: nat, n: nat)
    requires n <= |routes|
    ensures VerbsUpTo(routes, Bare(request), offset, n) == VerbsUpTo(routes, request, offset, n)
  {
    hide Matches, Bare;
    if n > 0 {
      MatchReadsTexts(routes[n - 1].segments, request, offset);
      VerbsReadTexts(routes, request, offset, n - 1);
    }
  }

  lemma {:induction false} MountVerbsReadTexts(ms: seq<Mounted>, request: seq<Segment>, n: nat)
    requires n <= |ms|
    ensures MountVerbsUpTo(ms, Bare(request), n) == MountVerbsUpTo(ms, request, n)
  {
    hide VerbsUpTo;
    if n > 0 {
      VerbsReadTexts(ms[n - 1].routes, request, |ms[n - 1].prefix|, |ms[n - 1].routes|);
      MountVerbsReadTexts(ms, request, n - 1);
    }
  }

  /** For every server and request: the winner and the outcome are those of the bare texts. */
  lemma OutcomeReadsTexts(routes: seq<Route>, ms: seq<Mounted>, request: seq<Segment>, verb: Option<Method>,
                          static_: Static)
    ensures verb.Some? ==> WinnerOf(routes, ms, Bare(request), verb.value) == WinnerOf(routes, ms, request, verb.value)
    ensures OutcomeOf(routes, ms, Bare(request), verb, static_) == OutcomeOf(routes, ms, request, verb, static_)
  {
    hide Pick, FirstMounted, VerbsUpTo, MountVerbsUpTo, Bare, Matches, AllowOf, PathExists;
    if verb.Some? {
      PickReadsTexts(routes, request, 0, verb.value);
      MountedReadsTexts(ms, request, verb.value, 0);
      VerbsReadTexts(routes, request, 0, |routes|);
      MountVerbsReadTexts(ms, request, |ms|);
      VerbsExistExactly(routes, ms, request);
      VerbsExistExactly(routes, ms, Bare(request));
    }
  }
}
