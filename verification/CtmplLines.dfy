/** The generated statements as lines of C text with braces, and how they read back as statements. */
module CtmplLines {
  import opened CtmplMeaning
  import opened CtmplTarget

  datatype Line =
    | LitLine(content: string)
    | PutLine(writer: Writer, expr: string)
    | RawLine(expr: string)
    | Open                                        // {
    | FragBeginLine(name: string)
    | FragEndLine
    | OnceLine(handle: string)                    // if (tpl_once_begin(out, &(..))) {
    | IfLine(cond: string)                        // if (..) {
    | ElseIfLine(cond: string)                    // } else if (..) {
    | ElseLine                                    // } else {
    | ForLine(head: string)                       // for (..) {
    | CallLine(callee: string, args: string)
    | StructLine(fn: string, data: DataExpr)      // TplChildren tpl_children = {fn, data};
    | CallWithLine(callee: string, args: string)  // .., &tpl_children);
    | ChildrenTestLine                            // if (children != NULL && children->fn != NULL) {
    | ChildrenCallLine
    | Close                                       // }

  /** The lines of a list of statements. */
  function Print(ss: Stmts): seq<Line>
    decreases ss
  {
    match ss
    case End => []
    case Then(s, next) => PrintOne(s) + Print(next)
  }

  function PrintOne(s: Stmt): seq<Line>
    decreases s
  {
    match s
    case WriteLiteral(c) => [LitLine(c)]
    case WriteEscaped(writer, e) => [PutLine(writer, e)]
    case WriteRaw(e) => [RawLine(e)]
    case InFragment(name, block) => [Open, FragBeginLine(name)] + Print(block) + [FragEndLine, Close]
    case IfOnce(h, block) => [OnceLine(h)] + Print(block) + [Close]
    case IfElse(Clause(c, block, more)) => [IfLine(c)] + Print(block) + PrintMore(more)
    case IfElse(Else(rest)) => [Open] + Print(rest) + [Close]
    case Loop(h, block) => [ForLine(h)] + Print(block) + [Close]
    case Invoke(callee, args) => [CallLine(callee, args)]
    case InvokeWith(callee, args, fn, data) => [Open, StructLine(fn, data), CallWithLine(callee, args), Close]
    case InvokeChildren => [ChildrenTestLine, ChildrenCallLine, Close]
  }

  /** The rest of an if chain, closing brace included. */
  function PrintMore(cs: Clauses): seq<Line>
    decreases cs
  {
    match cs
    case Clause(c, block, more) => [ElseIfLine(c)] + Print(block) + PrintMore(more)
    case Else(End) => [Close]
    case Else(rest) => [ElseLine] + Print(rest) + [Close]
  }

  /** An if chain as the generator builds it starts with a condition, everywhere. */
  predicate Chained(ss: Stmts)
    decreases ss
  {
    match ss
    case End => true
    case Then(s, next) => ChainedOne(s) && Chained(next)
  }

  predicate ChainedOne(s: Stmt)
    decreases s
  {
    match s
    case InFragment(_, block) => Chained(block)
    case IfOnce(_, block) => Chained(block)
    case IfElse(clauses) => clauses.Clause? && ChainedMore(clauses)
    case Loop(_, block) => Chained(block)
    case _ => true
  }

  predicate ChainedMore(cs: Clauses)
    decreases cs
  {
    match cs
    case Clause(_, block, more) => Chained(block) && ChainedMore(more)
    case Else(rest) => Chained(rest)
  }

  // ---- reading back ----

  datatype Parsed<T> = Bad | Ok(value: T, rest: seq<Line>)

  /** Statements up to a line that cannot begin one. */
  function Read(ls: seq<Line>): (r: Parsed<Stmts>)
    ensures r.Ok? ==> |r.rest| <= |ls|
    decreases |ls|, 2
  {
    if ls == [] || ls[0].Close? || ls[0].ElseIfLine? || ls[0].ElseLine? || ls[0].FragEndLine? then Ok(End, ls) else
    match ReadOne(ls)
    case Bad => Bad
    case Ok(s, rest) =>
      match Read(rest)
      case Bad => Bad
      case Ok(next, rest') => Ok(Then(s, next), rest')
  }

  /** A block and its closing brace. */
  function ReadBlock(ls: seq<Line>): (r: Parsed<Stmts>)
    ensures r.Ok? ==> |r.rest| < |ls|
    decreases |ls|, 3
  {
    match Read(ls)
    case Bad => Bad
    case Ok(block, rest) => if rest != [] && rest[0].Close? then Ok(block, rest[1..]) else Bad
  }

  function ReadOne(ls: seq<Line>): (r: Parsed<Stmt>)
    requires ls != []
    ensures r.Ok? ==> |r.rest| < |ls|
    decreases |ls|, 1
  {
    var rest := ls[1..];
    match ls[0]
    case LitLine(c) => Ok(WriteLiteral(c), rest)
    case PutLine(writer, e) => Ok(WriteEscaped(writer, e), rest)
    case RawLine(e) => Ok(WriteRaw(e), rest)
    case CallLine(callee, args) => Ok(Invoke(callee, args), rest)
    case Open => ReadScope(rest)
    case OnceLine(h) =>
      (match ReadBlock(rest)
       case Bad => Bad
       case Ok(block, rest') => Ok(IfOnce(h, block), rest'))
    case ForLine(h) =>
      (match ReadBlock(rest)
       case Bad => Bad
       case Ok(block, rest') => Ok(Loop(h, block), rest'))
    case IfLine(c) =>
      (match ReadClause(c, rest)
       case Bad => Bad
       case Ok(cs, rest') => Ok(IfElse(cs), rest'))
    case ChildrenTestLine =>
      if |rest| >= 2 && rest[0].ChildrenCallLine? && rest[1].Close? then Ok(InvokeChildren, rest[2..]) else Bad
    case _ => Bad
  }

  /** A scope holds a fragment or a children struct with its call. */
  function ReadScope(ls: seq<Line>): (r: Parsed<Stmt>)
    ensures r.Ok? ==> |r.rest| < |ls|
    decreases |ls|, 1
  {
    if ls == [] then Bad
    else if ls[0].FragBeginLine? then
      match Read(ls[1..])
      case Bad => Bad
      case Ok(block, rest) =>
        if |rest| >= 2 && rest[0].FragEndLine? && rest[1].Close? then Ok(InFragment(ls[0].name, block), rest[2..])
          else Bad
    else if |ls| >= 3 && ls[0].StructLine? && ls[1].CallWithLine? && ls[2].Close? then
      Ok(InvokeWith(ls[1].callee, ls[1].args, ls[0].fn, ls[0].data), ls[3..])
    else Bad
  }

  /** The block of a condition and the rest of its chain. */
  function ReadClause(c: string, ls: seq<Line>): (r: Parsed<Clauses>)
    ensures r.Ok? ==> |r.rest| < |ls|
    decreases |ls|, 3
  {
    match Read(ls)
    case Bad => Bad
    case Ok(block, rest) =>
      if rest == [] then Bad
      else match rest[0]
        case Close => Ok(Clause(c, block, Else(End)), rest[1..])
        case ElseIfLine(c') =>
          (match ReadClause(c', rest[1..])
           case Bad => Bad
           case Ok(more, rest') => Ok(Clause(c, block, more), rest'))
        case ElseLine =>
          (match ReadBlock(rest[1..])
           case Bad => Bad
           case Ok(last, rest') => Ok(Clause(c, block, Else(last)), rest'))
        case _ => Bad
  }

  /** What may follow a list of statements. */
  predicate Stops(ls: seq<Line>) {
    ls == [] || ls[0].Close? || ls[0].ElseIfLine? || ls[0].ElseLine? || ls[0].FragEndLine?
  }

  /** The braces are unambiguous: the lines determine the statements. */
  lemma {:induction false} ReadUndoesPrint(ss: Stmts, rest: seq<Line>)
    requires Chained(ss) && Stops(rest)
    ensures Read(Print(ss) + rest) == Ok(ss, rest)
    decreases ss, 1
  {
    hide ReadOne, PrintOne;
    match ss
    case End => assert Print(ss) + rest == rest;
    case Then(s, next) =>
      var tail := Print(next) + rest;
      assert Print(ss) + rest == PrintOne(s) + tail;
      ReadOneUndoes(s, tail);
      PrintOneStarts(s, tail);
      ReadUndoesPrint(next, rest);
  }

  lemma PrintOneStarts(s: Stmt, tail: seq<Line>)
    ensures PrintOne(s) != [] && !Stops(PrintOne(s) + tail)
  {
    hide Print, PrintMore;
  }

  lemma {:induction false} ReadBlockUndoes(block: Stmts, tail: seq<Line>)
    requires Chained(block)
    ensures ReadBlock(Print(block) + ([Close] + tail)) == Ok(block, tail)
    decreases block, 2
  {
    ReadUndoesPrint(block, [Close] + tail);
    assert ([Close] + tail)[1..] == tail;
  }

  lemma {:induction false} ReadOneUndoes(s: Stmt, tail: seq<Line>)
    requires ChainedOne(s)
    ensures var ls := PrintOne(s) + tail; ls != [] && ReadOne(ls) == Ok(s, tail)
    decreases s
  {
    hide Read, Print, ReadBlock, ReadClause, PrintMore;
    var ls := PrintOne(s) + tail;
    match s
    case InFragment(name, block) =>
      var after := [FragEndLine, Close] + tail;
      ReadUndoesPrint(block, after);
      assert ls == [Open, FragBeginLine(name)] + (Print(block) + after);
      assert ls[1..] == [FragBeginLine(name)] + (Print(block) + after);
      assert ls[1..][1..] == Print(block) + after;
      assert after[2..] == tail;
    case IfOnce(h, block) =>
      ReadBlockUndoes(block, tail);
      assert ls == [OnceLine(h)] + (Print(block) + ([Close] + tail));
      assert ls[1..] == Print(block) + ([Close] + tail);
    case Loop(h, block) =>
      ReadBlockUndoes(block, tail);
      assert ls == [ForLine(h)] + (Print(block) + ([Close] + tail));
      assert ls[1..] == Print(block) + ([Close] + tail);
    case IfElse(clauses) =>
      var Clause(c, block, more) := clauses;
      ReadClauseUndoes(c, block, more, tail);
      assert ls[1..] == Print(block) + (PrintMore(more) + tail);
    case _ => ReadPlain(s, tail);
  }

  lemma ReadPlain(s: Stmt, tail: seq<Line>)
    requires !s.InFragment? && !s.IfOnce? && !s.Loop? && !s.IfElse?
    ensures var ls := PrintOne(s) + tail; ls != [] && ReadOne(ls) == Ok(s, tail)
  {
    hide Read, Print, ReadBlock, ReadClause;
    var ls := PrintOne(s) + tail;
    if s.InvokeWith? {
      assert ls[1..][3..] == tail;
    } else if s.InvokeChildren? {
      assert ls[1..][2..] == tail;
    } else {
      assert ls[1..] == tail;
    }
  }

  lemma {:induction false} ReadClauseUndoes(c: string, block: Stmts, more: Clauses, tail: seq<Line>)
    requires Chained(block) && ChainedMore(more)
    ensures ReadClause(c, Print(block) + (PrintMore(more) + tail)) == Ok(Clause(c, block, more), tail)
    decreases Clause(c, block, more), 0
  {
    hide Read, Print, ReadBlock;
    var after := PrintMore(more) + tail;
    ReadUndoesPrint(block, after);
    match more
    case Else(End) => assert after[1..] == tail;
    case Else(rest) =>
      ReadBlockUndoes(rest, tail);
      assert after[1..] == Print(rest) + ([Close] + tail);
    case Clause(c', block', more') =>
      assert after[1..] == Print(block') + (PrintMore(more') + tail);
      ReadClauseUndoes(c', block', more', tail);
  }
}
