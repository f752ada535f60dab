/** Which connections get a thread of their own, and which the accept loop has to handle itself. */
module WorkersSpawn {
  import opened Workers

  /** The step that keeps connection c from a thread: no threads or no memory, no room, or no thread created. */
  predicate Refuses(s: State, a: Action, c: Conn) {
    || (a.TrySpawn? && s.accept == Accepted(c) && !(s.threaded && a.memory))
    || (a == CheckLimit && s.accept == HasLock(c) && Unretired(s) >= s.limit)
    || (a == Create(false) && s.accept == Reserved(c))
  }

  ghost predicate RefusedIn(s: State, run: seq<Action>, c: Conn)
    requires Possible(s, run)
    decreases |run|
  {
    run != [] && (Refuses(s, run[0], c) || RefusedIn(Apply(s, run[0]), run[1..], c))
  }

  ghost predicate HasWorker(s: State, c: Conn) {
    exists w :: OwnedBy(s, c, w)
  }

  /** Where a connection stands on its way through the server. */
  datatype Status = Ahead | OnTheWay | TurnedBack | Served | Finished

  predicate MayStillSpawn(pc: AcceptPc) {
    pc.Accepted? || pc.WantsSlot? || pc.HasLock? || (pc.Unlocking? && pc.reserved) || pc.Reserved?
  }

  ghost function StatusOf(s: State, c: Conn): Status {
    if c >= s.accepted then Ahead
    else if Busy(s.accept) && s.accept.c == c then (if MayStillSpawn(s.accept) then OnTheWay else TurnedBack)
    else if HasWorker(s, c) then Served
    else Finished
  }

  lemma WorkersStay(s: State, a: Action, c: Conn)
    requires Enabled(s, a)
    ensures HasWorker(s, c) ==> HasWorker(Apply(s, a), c)
    ensures HasWorker(Apply(s, a), c) ==> HasWorker(s, c) || (a == Create(true) && s.accept.c == c)
  {
    var t := Apply(s, a);
    forall w | OwnedBy(s, c, w)
      ensures OwnedBy(t, c, w)
    {
    }
    forall w | OwnedBy(t, c, w)
      ensures OwnedBy(s, c, w) || (a == Create(true) && s.accept.c == c)
    {
    }
  }

  lemma CreateServes(s: State)
    requires Enabled(s, Create(true))
    ensures Apply(s, Create(true)).workers == s.workers + [Worker(s.accept.c, Handling)]
    ensures HasWorker(Apply(s, Create(true)), s.accept.c)
  {
    assert OwnedBy(Apply(s, Create(true)), s.accept.c, |s.workers|);
  }

  /** What a step may do to a connection. */
  predicate Moves(refused: bool, before: Status, now: Status) {
    if refused then before == OnTheWay && now == TurnedBack
    else match before
         case Ahead => now == Ahead || now == OnTheWay
         case OnTheWay => now == OnTheWay || now == Served
         case TurnedBack => now == TurnedBack || now == Finished
         case Served => now == Served
         case Finished => now == Finished
  }

  lemma StatusStep(s: State, a: Action, c: Conn)
    requires Enabled(s, a) && ConnInv(s) && CountInv(s)
    ensures Moves(Refuses(s, a, c), StatusOf(s, c), StatusOf(Apply(s, a), c))
  {
    WorkersStay(s, a, c);
    OwnersApart(s, c);
    hide ConnInv, CountAll;
    if a == Create(true) {
      CreateServes(s);
      hide HasWorker;
    } else if OfAnyWorker(a) || a.BeginDrain? || a.LockDrain? || a.CheckIdle? || a.Spurious? || a.UnlockDrain? {
      OthersStep(s, a, c);
    } else {
      AcceptStep(s, a, c);
    }
  }

  lemma OthersStep(s: State, a: Action, c: Conn)
    requires Enabled(s, a) && (HasWorker(s, c) <==> HasWorker(Apply(s, a), c))
    requires OfAnyWorker(a) || a.BeginDrain? || a.LockDrain? || a.CheckIdle? || a.Spurious? || a.UnlockDrain?
    ensures StatusOf(Apply(s, a), c) == StatusOf(s, c) && !Refuses(s, a, c)
  {
    hide HasWorker;
    assert Apply(s, a).accept == s.accept && Apply(s, a).accepted == s.accepted;
    hide Apply;
  }

  lemma AcceptStep(s: State, a: Action, c: Conn)
    requires Enabled(s, a) && CountInv(s) && !OfAnyWorker(a) && a != Create(true)
    requires !a.BeginDrain? && !a.LockDrain? && !a.CheckIdle? && !a.Spurious? && !a.UnlockDrain?
    requires HasWorker(s, c) <==> HasWorker(Apply(s, a), c)
    requires HasWorker(s, c) ==> c < s.accepted && !(Busy(s.accept) && s.accept.c == c)
    requires Busy(s.accept) ==> s.accept.c < s.accepted
    ensures Moves(Refuses(s, a, c), StatusOf(s, c), StatusOf(Apply(s, a), c))
  {
    hide HasWorker, CountAll;
  }

  lemma OwnersApart(s: State, c: Conn)
    requires ConnInv(s)
    ensures HasWorker(s, c) ==> c < s.accepted && !(Busy(s.accept) && s.accept.c == c)
    ensures Busy(s.accept) ==> s.accept.c < s.accepted
  {
  }

  lemma {:induction false} StatusAfter(s: State, run: seq<Action>, c: Conn)
    requires Inv(s) && Possible(s, run)
    ensures var before, now := StatusOf(s, c), StatusOf(After(s, run), c);
            match before
            case Served => now == Served && !RefusedIn(s, run, c)
            case Finished => now == Finished && !RefusedIn(s, run, c)
            case TurnedBack => (now == TurnedBack || now == Finished) && !RefusedIn(s, run, c)
            case _ => if RefusedIn(s, run, c) then now == TurnedBack || now == Finished
                      else now == Ahead || now == OnTheWay || now == Served
    decreases |run|
  {
    hide Apply, Enabled, LockInv, CountInv, DrainInv, ConnInv, StatusOf, Refuses;
    if run != [] {
      StatusStep(s, run[0], c);
      LockStep(s, run[0]);
      CountStep(s, run[0]);
      DrainStep(s, run[0]);
      ConnStep(s, run[0]);
      StatusAfter(Apply(s, run[0]), run[1..], c);
    }
  }

  /**
   * In every run: a connection the accept loop has let go of has a worker exactly when no step refused
   * it, that is, when the server is threaded, there was memory, fewer than `limit` workers were
   * reserved and not retired when the limit was checked, and its thread was created.
   */
  lemma SpawnedExactly(threaded: bool, limit: nat, run: seq<Action>, c: Conn)
    requires Possible(Initial(threaded, limit), run)
    ensures var s := After(Initial(threaded, limit), run);
            c < s.accepted && !(Busy(s.accept) && s.accept.c == c) ==>
              (HasWorker(s, c) <==> !RefusedIn(Initial(threaded, limit), run, c))
  {
    InitialInv(threaded, limit);
    StatusAfter(Initial(threaded, limit), run, c);
    hide RefusedIn;
  }

  /** The accept loop handles a connection itself only if a step refused it. */
  lemma InlineIsRefused(threaded: bool, limit: nat, run: seq<Action>, c: Conn)
    requires Possible(Initial(threaded, limit), run)
    ensures var s := After(Initial(threaded, limit), run);
            s.accept == Inline(c) || s.accept == ClosingInline(c) ==> RefusedIn(Initial(threaded, limit), run, c)
  {
    InitialInv(threaded, limit);
    InvAlways(Initial(threaded, limit), run);
    StatusAfter(Initial(threaded, limit), run, c);
    hide RefusedIn;
  }
}
