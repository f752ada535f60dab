/** Scanning JSON text: white space, strings, numbers, and skipping a nested value up to a depth. */
module JsonScan {
  import opened Wrappers
  import opened Chars

  /** The body is a C string: a NUL stands behind its last byte. */
  function At(s: string, p: nat): char {
    if p < |s| then s[p] else '\0'
  }

  predicate IsWs(c: char) {
    c == ' ' || c == '\t' || c == '\n' || c == '\r'
  }

  /** White space of section 2 of RFC 8259: tab, line feed, carriage return and blank. */
  lemma WsExactly(c: char)
    ensures IsWs(c) <==> c as int in {9, 10, 13, 32}
  {
  }

  predicate IsNumChar(c: char) {
    IsDigit(c) || c == '.' || c == 'e' || c == 'E' || c == '+' || c == '-'
  }

  function Ws(s: string, p: nat): (r: nat)
    requires p <= |s|
    ensures p <= r <= |s|
    decreases |s| - p
  {
    if IsWs(At(s, p)) then Ws(s, p + 1) else p
  }

  /** Behind the closing quote of the string whose content starts at p. */
  function StringEnd(s: string, p: nat): (r: Option<nat>)
    requires p <= |s|
    ensures r.Some? ==> p < r.value <= |s|
    decreases |s| - p
  {
    var c := At(s, p);
    if c == '"' then Some(p + 1)
    else if c == '\0' || c == '\n' || c == '\r' then None
    else if c == '\\' then (if At(s, p + 1) == '\0' then None else StringEnd(s, p + 2))
    else StringEnd(s, p + 1)
  }

  function NumEnd(s: string, p: nat): (r: nat)
    requires p <= |s|
    ensures p <= r <= |s|
    decreases |s| - p
  {
    if IsNumChar(At(s, p)) then NumEnd(s, p + 1) else p
  }

  function ScalarEnd(s: string, p: nat): (r: Option<nat>)
    requires p <= |s|
    ensures r.Some? ==> p < r.value <= |s|
  {
    if StartsAt(s, p, "true") then Some(p + 4)
    else if StartsAt(s, p, "false") then Some(p + 5)
    else if StartsAt(s, p, "null") then Some(p + 4)
    else
      var q := if At(s, p) == '-' then p + 1 else p;
      if IsDigit(At(s, q)) then Some(NumEnd(s, q + 1)) else None
  }

  /** Behind the value at p; None when it is malformed or nested more than `depth` deep. */
  function Skip(s: string, p: nat, depth: int): (r: Option<nat>)
    requires p <= |s|
    ensures r.Some? ==> p < r.value <= |s|
    decreases |s| - p, 0
  {
    if depth < 0 then None
    else if At(s, p) == '"' then StringEnd(s, p + 1)
    else if At(s, p) == '{' then
      var q := Ws(s, p + 1);
      if At(s, q) == '}' then Some(q + 1) else SkipMembers(s, q, depth)
    else if At(s, p) == '[' then
      var q := Ws(s, p + 1);
      if At(s, q) == ']' then Some(q + 1) else SkipItems(s, q, depth)
    else ScalarEnd(s, p)
  }

  function SkipMembers(s: string, p: nat, depth: int): (r: Option<nat>)
    requires p <= |s|
    ensures r.Some? ==> p < r.value <= |s|
    decreases |s| - p, 1
  {
    if At(s, p) != '"' then None else
    match Skip(s, p, depth - 1)
    case None => None
    case Some(k) =>
      var colon := Ws(s, k);
      if At(s, colon) != ':' then None else
      match Skip(s, Ws(s, colon + 1), depth - 1)
      case None => None
      case Some(e) =>
        var q := Ws(s, e);
        if At(s, q) == ',' then SkipMembers(s, Ws(s, q + 1), depth)
        else if At(s, q) == '}' then Some(q + 1)
        else None
  }

  function SkipItems(s: string, p: nat, depth: int): (r: Option<nat>)
    requires p <= |s|
    ensures r.Some? ==> p < r.value <= |s|
    decreases |s| - p, 1
  {
    match Skip(s, p, depth - 1)
    case None => None
    case Some(e) =>
      var q := Ws(s, e);
      if At(s, q) == ',' then SkipItems(s, Ws(s, q + 1), depth)
      else if At(s, q) == ']' then Some(q + 1)
      else None
  }

  // ---- the loops ----

  method SkipWs(s: string, p: nat) returns (r: nat)
    requires p <= |s|
    ensures r == Ws(s, p)
  {
    r := p;
    while IsWs(At(s, r))
      invariant r <= |s| && Ws(s, r) == Ws(s, p)
      decreases |s| - r
    {
      r := r + 1;
    }
  }

  method SkipString(s: string, p: nat) returns (r: Option<nat>)
    requires p <= |s|
    ensures r == StringEnd(s, p)
  {
    var q := p;
    while At(s, q) != '"'
      invariant q <= |s| && StringEnd(s, q) == StringEnd(s, p)
      decreases |s| - q
    {
      if At(s, q) == '\0' || At(s, q) == '\n' || At(s, q) == '\r' {
        return None;
      }
      if At(s, q) == '\\' {
        if At(s, q + 1) == '\0' {
          return None;
        }
        q := q + 1;
      }
      q := q + 1;
    }
    r := Some(q + 1);
  }

  method SkipScalar(s: string, p: nat) returns (r: Option<nat>)
    requires p <= |s|
    ensures r == ScalarEnd(s, p)
  {
    if StartsAt(s, p, "true") {
      return Some(p + 4);
    }
    if StartsAt(s, p, "false") {
      return Some(p + 5);
    }
    if StartsAt(s, p, "null") {
      return Some(p + 4);
    }
    var q := p;
    if At(s, q) == '-' {
      q := q + 1;
    }
    if !IsDigit(At(s, q)) {
      return None;
    }
    ghost var first := q;
    while IsNumChar(At(s, q))
      invariant first <= q <= |s| && NumEnd(s, q) == NumEnd(s, first)
      decreases |s| - q
    {
      q := q + 1;
    }
    r := Some(q);
  }

  method SkipValue(s: string, p: nat, depth: int) returns (r: Option<nat>)
    requires p <= |s|
    ensures r == Skip(s, p, depth)
    decreases |s| - p
  {
    if depth < 0 {
      return None;
    }
    var c := At(s, p);
    if c == '"' {
      r := SkipString(s, p + 1);
    } else if c == '{' {
      r := SkipObject(s, p, depth);
    } else if c == '[' {
      r := SkipArray(s, p, depth);
    } else {
      r := SkipScalar(s, p);
    }
  }

  lemma ObjectUnfolds(s: string, p: nat, depth: int)
    requires p < |s| && s[p] == '{' && depth >= 0
    ensures Skip(s, p, depth) ==
            if At(s, Ws(s, p + 1)) == '}' then Some(Ws(s, p + 1) + 1) else SkipMembers(s, Ws(s, p + 1), depth)
  {
    hide SkipMembers, Ws;
  }

  lemma MembersUnfold(s: string, p: nat, depth: int)
    requires p <= |s|
    ensures SkipMembers(s, p, depth) ==
            if At(s, p) != '"' then None else
            match Skip(s, p, depth - 1)
            case None => None
            case Some(k) =>
              var colon := Ws(s, k);
              if At(s, colon) != ':' then None else
              match Skip(s, Ws(s, colon + 1), depth - 1)
              case None => None
              case Some(e) =>
                var q := Ws(s, e);
                if At(s, q) == ',' then SkipMembers(s, Ws(s, q + 1), depth)
                else if At(s, q) == '}' then Some(q + 1)
                else None
  {
    hide Skip, Ws;
  }

  method SkipObject(s: string, p: nat, depth: int) returns (r: Option<nat>)
    requires p < |s| && s[p] == '{' && depth >= 0
    ensures r == Skip(s, p, depth)
    decreases |s| - p, 0
  {
    hide Ws, Skip, SkipMembers;
    ObjectUnfolds(s, p, depth);
    var q := SkipWs(s, p + 1);
    if At(s, q) == '}' {
      return Some(q + 1);
    }
    while true
      invariant p < q <= |s| && SkipMembers(s, q, depth) == Skip(s, p, depth)
      decreases |s| - q
    {
      MembersUnfold(s, q, depth);
      if At(s, q) != '"' {
        return None;
      }
      var k := SkipValue(s, q, depth - 1);
      if k.None? {
        return None;
      }
      var colon := SkipWs(s, k.value);
      if At(s, colon) != ':' {
        return None;
      }
      var v := SkipWs(s, colon + 1);
      var e := SkipValue(s, v, depth - 1);
      if e.None? {
        return None;
      }
      var n := SkipWs(s, e.value);
      if At(s, n) == '}' {
        return Some(n + 1);
      }
      if At(s, n) != ',' {
        return None;
      }
      q := SkipWs(s, n + 1);
    }
  }

  lemma ArrayUnfolds(s: string, p: nat, depth: int)
    requires p < |s| && s[p] == '[' && depth >= 0
    ensures Skip(s, p, depth) ==
            if At(s, Ws(s, p + 1)) == ']' then Some(Ws(s, p + 1) + 1) else SkipItems(s, Ws(s, p + 1), depth)
  {
    hide SkipItems, Ws;
  }

  lemma ItemsUnfold(s: string, p: nat, depth: int)
    requires p <= |s|
    ensures SkipItems(s, p, depth) ==
            match Skip(s, p, depth - 1)
            case None => None
            case Some(e) =>
              var q := Ws(s, e);
              if At(s, q) == ',' then SkipItems(s, Ws(s, q + 1), depth)
              else if At(s, q) == ']' then Some(q + 1)
              else None
  {
    hide Skip, Ws;
  }

  method SkipArray(s: string, p: nat, depth: int) returns (r: Option<nat>)
    requires p < |s| && s[p] == '[' && depth >= 0
    ensures r == Skip(s, p, depth)
    decreases |s| - p, 0
  {
    hide Ws, Skip, SkipItems;
    ArrayUnfolds(s, p, depth);
    var q := SkipWs(s, p + 1);
    if At(s, q) == ']' {
      return Some(q + 1);
    }
    while true
      invariant p < q <= |s| && SkipItems(s, q, depth) == Skip(s, p, depth)
      decreases |s| - q
    {
      ItemsUnfold(s, q, depth);
      var e := SkipValue(s, q, depth - 1);
      if e.None? {
        return None;
      }
      var n := SkipWs(s, e.value);
      if At(s, n) == ']' {
        return Some(n + 1);
      }
      if At(s, n) != ',' {
        return None;
      }
      q := SkipWs(s, n + 1);
    }
  }
}
