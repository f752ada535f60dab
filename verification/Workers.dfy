/**
 * Connections shared out to worker threads, and the drain protocol when the server is closed. The
 * accept loop, the workers and the closing thread take single steps in any order; one lock protects
 * the count of active workers, and the closing thread waits on a condition variable.
 */
module Workers {
  type Conn = nat

  datatype Holder = Free | ByAccept | ByWorker(w: nat) | ByDrain

  /** The accept loop: between connections, on the way to a worker, or handling one itself. */
  datatype AcceptPc =
    | Idle
    | Accepted(c: Conn)
    | WantsSlot(c: Conn)      // about to lock
    | HasLock(c: Conn)
    | Unlocking(c: Conn, reserved: bool)
    | Reserved(c: Conn)       // counted, the thread is about to be created
    | WantsBack(c: Conn)      // creation failed, about to lock
    | Uncounting(c: Conn)
    | Uncounted(c: Conn)      // still holds the lock
    | Inline(c: Conn)
    | ClosingInline(c: Conn)
    | Stopped

  datatype WorkerPc = Handling | Closing | WantsLock | Counting | Releasing | Exiting | Gone

  datatype Worker = Worker(c: Conn, pc: WorkerPc)

  datatype DrainPc = Open | WantsDrain | Checking | Waiting | Passing | Drained

  datatype State = State(
    threaded: bool,
    limit: nat,
    holder: Holder,
    active: int,
    accept: AcceptPc,
    workers: seq<Worker>,
    drain: DrainPc,
    accepted: nat,              // connections so far, numbered from 0
    handled: multiset<Conn>,
    closed: multiset<Conn>)

  datatype Action =
    | Accept                    // a connection arrives
    | Stop                      // the loop sees that listening is over
    | TrySpawn(memory: bool)    // iterative mode or no memory: handle it inline
    | LockSlot
    | CheckLimit
    | UnlockSlot
    | Create(ok: bool)
    | LockBack
    | Uncount
    | UnlockBack
    | HandleInline
    | CloseInline
    | Handle(w: nat)
    | CloseConn(w: nat)
    | LockWorker(w: nat)
    | CountDown(w: nat)
    | UnlockWorker(w: nat)
    | FreeArgs(w: nat)
    | BeginDrain                // the server is closed, after the accept loop has returned
    | LockDrain
    | CheckIdle
    | Spurious                  // a wakeup without a signal
    | UnlockDrain

  predicate WorkerAt(s: State, w: nat, pc: WorkerPc) {
    w < |s.workers| && s.workers[w].pc == pc
  }

  predicate Enabled(s: State, a: Action) {
    match a
    case Accept => s.accept.Idle?
    case Stop => s.accept.Idle?
    case TrySpawn(_) => s.accept.Accepted?
    case LockSlot => s.accept.WantsSlot? && s.holder.Free?
    case CheckLimit => s.accept.HasLock?
    case UnlockSlot => s.accept.Unlocking?
    case Create(_) => s.accept.Reserved?
    case LockBack => s.accept.WantsBack? && s.holder.Free?
    case Uncount => s.accept.Uncounting?
    case UnlockBack => s.accept.Uncounted?
    case HandleInline => s.accept.Inline?
    case CloseInline => s.accept.ClosingInline?
    case Handle(w) => WorkerAt(s, w, Handling)
    case CloseConn(w) => WorkerAt(s, w, Closing)
    case LockWorker(w) => WorkerAt(s, w, WantsLock) && s.holder.Free?
    case CountDown(w) => WorkerAt(s, w, Counting)
    case UnlockWorker(w) => WorkerAt(s, w, Releasing)
    case FreeArgs(w) => WorkerAt(s, w, Exiting)
    case BeginDrain => s.accept.Stopped? && s.drain.Open?
    case LockDrain => s.drain.WantsDrain? && s.holder.Free?
    case CheckIdle => s.drain.Checking?
    case Spurious => s.drain.Waiting?
    case UnlockDrain => s.drain.Passing?
  }

  /** A broadcast wakes the closing thread if it waits; it must take the lock again. */
  function Woken(d: DrainPc): DrainPc {
    if d.Waiting? then WantsDrain else d
  }

  function Moved(s: State, w: nat, pc: WorkerPc): seq<Worker>
    requires w < |s.workers|
  {
    s.workers[w := s.workers[w].(pc := pc)]
  }

  /** The count after a worker has left, with the guard of the decrement against zero. */
  function Less(active: int): int {
    if active > 0 then active - 1 else active
  }

  function Apply(s: State, a: Action): State
    requires Enabled(s, a)
  {
    match a
    case Accept => s.(accept := Accepted(s.accepted), accepted := s.accepted + 1)
    case Stop => s.(accept := Stopped)
    case TrySpawn(memory) => s.(accept := if s.threaded && memory then WantsSlot(s.accept.c) else Inline(s.accept.c))
    case LockSlot => s.(accept := HasLock(s.accept.c), holder := ByAccept)
    case CheckLimit =>
      if s.active >= s.limit then s.(accept := Unlocking(s.accept.c, false))
      else s.(accept := Unlocking(s.accept.c, true), active := s.active + 1)
    case UnlockSlot => s.(accept := if s.accept.reserved then Reserved(s.accept.c)
      else Inline(s.accept.c), holder := Free)
    case Create(ok) =>
      if ok then s.(accept := Idle, workers := s.workers + [Worker(s.accept.c, Handling)])
      else s.(accept := WantsBack(s.accept.c))
    case LockBack => s.(accept := Uncounting(s.accept.c), holder := ByAccept)
    case Uncount =>
      s.(accept := Uncounted(s.accept.c), active := s.active - 1,
         drain := if s.active - 1 == 0 then Woken(s.drain) else s.drain)
    case UnlockBack => s.(accept := Inline(s.accept.c), holder := Free)
    case HandleInline => s.(accept := ClosingInline(s.accept.c), handled := s.handled + multiset{s.accept.c})
    case CloseInline => s.(accept := Idle, closed := s.closed + multiset{s.accept.c})
    case Handle(w) => s.(workers := Moved(s, w, Closing), handled := s.handled + multiset{s.workers[w].c})
    case CloseConn(w) =>
      s.(workers := Moved(s, w, if s.threaded then WantsLock else Exiting),
        closed := s.closed + multiset{s.workers[w].c})
    case LockWorker(w) => s.(workers := Moved(s, w, Counting), holder := ByWorker(w))
    case CountDown(w) =>
      s.(workers := Moved(s, w, Releasing), active := Less(s.active),
         drain := if Less(s.active) == 0 then Woken(s.drain) else s.drain)
    case UnlockWorker(w) => s.(workers := Moved(s, w, Exiting), holder := Free)
    case FreeArgs(w) => s.(workers := Moved(s, w, Gone))
    case BeginDrain => s.(drain := if s.threaded then WantsDrain else Drained)
    case LockDrain => s.(drain := Checking, holder := ByDrain)
    case CheckIdle => if s.active > 0 then s.(drain := Waiting, holder := Free) else s.(drain := Passing)
    case Spurious => s.(drain := WantsDrain)
    case UnlockDrain => s.(drain := Drained, holder := Free)
  }

  function Initial(threaded: bool, limit: nat): State {
    State(threaded, limit, Free, 0, Idle, [], Open, 0, multiset{}, multiset{})
  }

  ghost predicate Possible(s: State, run: seq<Action>)
    decreases |run|
  {
    run == [] || (Enabled(s, run[0]) && Possible(Apply(s, run[0]), run[1..]))
  }

  ghost function After(s: State, run: seq<Action>): State
    requires Possible(s, run)
    decreases |run|
  {
    if run == [] then s else After(Apply(s, run[0]), run[1..])
  }

  // ---- the invariant ----

  /** Reserved and not yet retired. */
  function Counted(pc: WorkerPc): nat {
    match pc
    case Handling => 1
    case Closing => 1
    case WantsLock => 1
    case Counting => 1
    case _ => 0
  }

  function CountAll(ws: seq<Worker>): nat {
    if ws == [] then 0 else CountAll(ws[..|ws| - 1]) + Counted(ws[|ws| - 1].pc)
  }

  /** The accept loop's own reservation. */
  function CountAccept(pc: AcceptPc): nat {
    match pc
    case Unlocking(_, reserved) => if reserved then 1 else 0
    case Reserved(_) => 1
    case WantsBack(_) => 1
    case Uncounting(_) => 1
    case _ => 0
  }

  lemma {:induction false} CountMoved(ws: seq<Worker>, w: nat, pc: WorkerPc)
    requires w < |ws|
    ensures CountAll(ws[w := ws[w].(pc := pc)]) == CountAll(ws) - Counted(ws[w].pc) + Counted(pc)
    ensures CountAll(ws) >= Counted(ws[w].pc)
    decreases |ws|
  {
    var init := ws[..|ws| - 1];
    var ws' := ws[w := ws[w].(pc := pc)];
    if w == |ws| - 1 {
      assert ws'[..|ws| - 1] == init;
    } else {
      CountMoved(init, w, pc);
      assert ws'[..|ws| - 1] == init[w := init[w].(pc := pc)];
    }
  }

  predicate AcceptHolds(pc: AcceptPc) {
    pc.HasLock? || pc.Unlocking? || pc.Uncounting? || pc.Uncounted?
  }

  predicate WorkerHolds(pc: WorkerPc) {
    pc == Counting || pc == Releasing
  }

  predicate DrainHolds(pc: DrainPc) {
    pc.Checking? || pc.Passing?
  }

  /** The lock is held exactly by whoever is in its critical section. */
  predicate LockInv(s: State) {
    (AcceptHolds(s.accept) <==> s.holder.ByAccept?) &&
    (DrainHolds(s.drain) <==> s.holder.ByDrain?) &&
    (s.holder.ByWorker? ==> s.holder.w < |s.workers|) &&
    (forall w :: 0 <= w < |s.workers| ==> (WorkerHolds(s.workers[w].pc) <==> s.holder == ByWorker(w)))
  }

  /** The count is that of the reservations, and within the limit. */
  predicate CountInv(s: State) {
    s.active == CountAll(s.workers) + CountAccept(s.accept) && s.active <= s.limit
  }

  /** Without threads every connection is handled inline. */
  predicate Iterative(pc: AcceptPc) {
    pc.Idle? || pc.Accepted? || pc.Inline? || pc.ClosingInline? || pc.Stopped?
  }

  /** Draining starts after the accept loop; a waiting thread has something to wait for. */
  predicate DrainInv(s: State) {
    (!s.drain.Open? ==> s.accept.Stopped?) &&
    (s.drain.Waiting? ==> s.active > 0) &&
    (s.drain.Passing? || s.drain.Drained? ==> s.active == 0) &&
    (!s.threaded ==> s.workers == [] && (s.drain.Open? || s.drain.Drained?) && Iterative(s.accept))
  }

  predicate Busy(pc: AcceptPc) {
    !pc.Idle? && !pc.Stopped?
  }

  /** Who owns connection c: a worker, the accept loop, or nobody any more. */
  predicate OwnedBy(s: State, c: Conn, w: nat) {
    w < |s.workers| && s.workers[w].c == c
  }

  ghost predicate Owned(s: State, c: Conn) {
    (Busy(s.accept) && s.accept.c == c) || exists w :: OwnedBy(s, c, w)
  }

  function HandledBy(pc: WorkerPc): nat {
    if pc == Handling then 0 else 1
  }

  function ClosedBy(pc: WorkerPc): nat {
    if pc == Handling || pc == Closing then 0 else 1
  }

  /** Each connection has one owner, which handles it once and then closes it once. */
  ghost predicate ConnInv(s: State) {
    (forall w :: 0 <= w < |s.workers| ==>
       s.workers[w].c < s.accepted && s.handled[s.workers[w].c] == HandledBy(s.workers[w].pc) &&
       s.closed[s.workers[w].c] == ClosedBy(s.workers[w].pc)) &&
    (forall v, w :: 0 <= v < w < |s.workers| ==> s.workers[v].c != s.workers[w].c) &&
    (Busy(s.accept) ==>
       s.accept.c < s.accepted && s.closed[s.accept.c] == 0 &&
       s.handled[s.accept.c] == (if s.accept.ClosingInline? then 1 else 0) &&
       forall w :: 0 <= w < |s.workers| ==> s.workers[w].c != s.accept.c) &&
    (forall c: Conn :: c < s.accepted && !Owned(s, c) ==> s.handled[c] == 1 && s.closed[c] == 1) &&
    (forall c: Conn :: c >= s.accepted ==> s.handled[c] == 0 && s.closed[c] == 0)
  }

  ghost predicate Inv(s: State) {
    LockInv(s) && CountInv(s) && DrainInv(s) && ConnInv(s)
  }

  predicate OfWorker(a: Action, w: nat) {
    a == Handle(w) || a == CloseConn(w) || a == LockWorker(w) || a == CountDown(w) || a == UnlockWorker(w) ||
    a == FreeArgs(w)
  }

  predicate OfAnyWorker(a: Action) {
    a.Handle? || a.CloseConn? || a.LockWorker? || a.CountDown? || a.UnlockWorker? || a.FreeArgs?
  }

  lemma LockStepWorker(s: State, a: Action, w: nat)
    requires Enabled(s, a) && LockInv(s) && DrainInv(s) && OfWorker(a, w) && w < |s.workers|
    ensures LockInv(Apply(s, a))
  {
    var t := Apply(s, a);
    assert |t.workers| == |s.workers| && forall v :: 0 <= v < |s.workers| && v != w ==> t.workers[v] == s.workers[v];
  }

  lemma LockStepOther(s: State, a: Action)
    requires Enabled(s, a) && LockInv(s) && DrainInv(s) && !OfAnyWorker(a)
    ensures LockInv(Apply(s, a))
  {
  }

  lemma LockStep(s: State, a: Action)
    requires Enabled(s, a) && LockInv(s) && DrainInv(s)
    ensures LockInv(Apply(s, a))
  {
    hide Apply, LockInv, DrainInv;
    if OfAnyWorker(a) {
      LockStepWorker(s, a, a.w);
    } else {
      LockStepOther(s, a);
    }
  }

  lemma CountStep(s: State, a: Action)
    requires Enabled(s, a) && CountInv(s) && DrainInv(s)
    ensures CountInv(Apply(s, a))
  {
    hide CountAll, CountInv, Apply, DrainInv;
    if OfAnyWorker(a) {
      CountStepWorker(s, a);
    } else {
      CountStepOther(s, a);
    }
  }

  lemma CountStepWorker(s: State, a: Action)
    requires Enabled(s, a) && CountInv(s) && DrainInv(s) && OfAnyWorker(a)
    ensures CountInv(Apply(s, a))
  {
    hide CountAll;
    match a
    case Handle(w) => CountMoved(s.workers, w, Closing);
    case CloseConn(w) => CountMoved(s.workers, w, if s.threaded then WantsLock else Exiting);
    case LockWorker(w) => CountMoved(s.workers, w, Counting);
    case CountDown(w) => CountMoved(s.workers, w, Releasing);
    case UnlockWorker(w) => CountMoved(s.workers, w, Exiting);
    case FreeArgs(w) => CountMoved(s.workers, w, Gone);
  }

  lemma CountStepOther(s: State, a: Action)
    requires Enabled(s, a) && CountInv(s) && !OfAnyWorker(a)
    ensures CountInv(Apply(s, a))
  {
    hide CountAll;
    if a == Create(true) {
      CountGrows(s.workers, Worker(s.accept.c, Handling));
    }
  }

  lemma CountGrows(ws: seq<Worker>, w: Worker)
    ensures CountAll(ws + [w]) == CountAll(ws) + Counted(w.pc)
  {
    assert (ws + [w])[..|ws|] == ws;
  }

  lemma DrainStep(s: State, a: Action)
    requires Enabled(s, a) && LockInv(s) && CountInv(s) && DrainInv(s)
    ensures DrainInv(Apply(s, a))
  {
    if a.CountDown? {
      CountMoved(s.workers, a.w, Releasing);
    }
  }

  /** A step of a worker: its connection moves on, every other one keeps its owner and its record. */
  lemma ConnWorkerStep(s: State, a: Action, w: nat)
    requires Enabled(s, a) && ConnInv(s) && w < |s.workers| && OfWorker(a, w)
    ensures ConnInv(Apply(s, a))
  {
    if a.Handle? || a.CloseConn? {
      ConnServeStep(s, a, w);
    } else {
      ConnRetireStep(s, a, w);
    }
  }

  lemma SameOwners(s: State, t: State)
    requires |t.workers| == |s.workers| && forall v :: 0 <= v < |s.workers| ==> t.workers[v].c == s.workers[v].c
    requires t.accept == s.accept
    ensures forall c: Conn :: Owned(s, c) <==> Owned(t, c)
  {
    forall c: Conn ensures Owned(s, c) <==> Owned(t, c) {
      forall v | OwnedBy(s, c, v) || OwnedBy(t, c, v) ensures OwnedBy(s, c, v) && OwnedBy(t, c, v) {
      }
    }
  }

  lemma ConnServeStep(s: State, a: Action, w: nat)
    requires Enabled(s, a) && ConnInv(s) && w < |s.workers| && (a == Handle(w) || a == CloseConn(w))
    ensures ConnInv(Apply(s, a))
  {
    hide Owned;
    var t := Apply(s, a);
    SameOwners(s, t);
    assert Owned(s, s.workers[w].c) by { IsOwner(s, w); }
  }

  lemma IsOwner(s: State, w: nat)
    requires w < |s.workers|
    ensures Owned(s, s.workers[w].c)
  {
    assert OwnedBy(s, s.workers[w].c, w);
  }

  lemma ConnRetireStep(s: State, a: Action, w: nat)
    requires Enabled(s, a) && ConnInv(s) && w < |s.workers| && OfWorker(a, w) && !a.Handle? && !a.CloseConn?
    ensures ConnInv(Apply(s, a))
  {
    hide Owned;
    var t := Apply(s, a);
    SameOwners(s, t);
  }

  /** The accept loop hands its connection to a new worker. */
  lemma ConnCreateStep(s: State)
    requires Enabled(s, Create(true)) && ConnInv(s)
    ensures ConnInv(Apply(s, Create(true)))
  {
    var t := Apply(s, Create(true));
    var n := |s.workers|;
    assert t.workers[n].c == s.accept.c && forall v :: 0 <= v < n ==> t.workers[v] == s.workers[v];
    forall c: Conn | c < t.accepted && !Owned(t, c) ensures t.handled[c] == 1 && t.closed[c] == 1 {
      forall v | OwnedBy(s, c, v) ensures false {
        assert OwnedBy(t, c, v);
      }
      assert !OwnedBy(t, c, n);
    }
  }

  /** The accept loop takes a new connection, or finishes its own. */
  lemma ConnEndStep(s: State, a: Action)
    requires Enabled(s, a) && ConnInv(s) && (a.Accept? || a.CloseInline?)
    ensures ConnInv(Apply(s, a))
  {
    var t := Apply(s, a);
    forall c: Conn | c < t.accepted && !Owned(t, c) ensures t.handled[c] == 1 && t.closed[c] == 1 {
      forall v | OwnedBy(s, c, v) ensures false {
        assert OwnedBy(t, c, v);
      }
    }
  }

  /** Steps of the accept loop and the closing thread that leave connections with their owners. */
  lemma ConnOtherStep(s: State, a: Action)
    requires Enabled(s, a) && ConnInv(s) && !OfAnyWorker(a) && !a.Accept? && !a.CloseInline? && a != Create(true)
    ensures ConnInv(Apply(s, a))
  {
    var t := Apply(s, a);
    assert t.workers == s.workers && t.accepted == s.accepted && t.closed == s.closed;
    assert Busy(s.accept) <==> Busy(t.accept);
    assert Busy(s.accept) ==> s.accept.c == t.accept.c;
    forall c: Conn | c < t.accepted && !Owned(t, c) ensures t.handled[c] == 1 && t.closed[c] == 1 {
      forall v | OwnedBy(s, c, v) ensures false {
        assert OwnedBy(t, c, v);
      }
    }
  }

  lemma ConnStep(s: State, a: Action)
    requires Enabled(s, a) && ConnInv(s)
    ensures ConnInv(Apply(s, a))
  {
    hide Apply, ConnInv;
    if OfAnyWorker(a) {
      ConnWorkerStep(s, a, a.w);
    } else if a == Create(true) {
      ConnCreateStep(s);
    } else if a.Accept? || a.CloseInline? {
      ConnEndStep(s, a);
    } else {
      ConnOtherStep(s, a);
    }
  }

  // ---- every run ----

  lemma {:induction false} InvAlways(s: State, run: seq<Action>)
    requires Inv(s) && Possible(s, run)
    ensures Inv(After(s, run))
    decreases |run|
  {
    hide Apply, Enabled, LockInv, CountInv, DrainInv, ConnInv;
    if run != [] {
      LockStep(s, run[0]);
      CountStep(s, run[0]);
      DrainStep(s, run[0]);
      ConnStep(s, run[0]);
      InvAlways(Apply(s, run[0]), run[1..]);
    }
  }

  lemma InitialInv(threaded: bool, limit: nat)
    ensures Inv(Initial(threaded, limit))
  {
  }

  /** Workers that are reserved and not yet retired. */
  function Unretired(s: State): nat {
    CountAll(s.workers) + CountAccept(s.accept)
  }

  /** In every state of every run the count is that of the unretired workers, and never above the limit. */
  lemma CountIsRight(threaded: bool, limit: nat, run: seq<Action>)
    requires Possible(Initial(threaded, limit), run)
    ensures var s := After(Initial(threaded, limit), run); s.active == Unretired(s) && 0 <= s.active <= limit
    ensures forall a :: Enabled(After(Initial(threaded, limit), run), a) ==>
              var s := After(Initial(threaded, limit), run); a.CountDown? || a.Uncount? ==> s.active > 0
  {
    hide Apply, LockInv, ConnInv, CountAll;
    InitialInv(threaded, limit);
    InvAlways(Initial(threaded, limit), run);
    LimitStays(Initial(threaded, limit), run);
    var s := After(Initial(threaded, limit), run);
    forall a | Enabled(s, a) ensures a.CountDown? || a.Uncount? ==> s.active > 0 {
      if a.CountDown? {
        CountMoved(s.workers, a.w, Releasing);
      }
    }
  }

  lemma {:induction false} LimitStays(s: State, run: seq<Action>)
    requires Possible(s, run)
    ensures After(s, run).limit == s.limit && After(s, run).threaded == s.threaded
    decreases |run|
  {
    if run != [] {
      LimitStays(Apply(s, run[0]), run[1..]);
    }
  }

  /**
   * Each connection is handled once and closed once: never more often in any state, not closed
   * before it is handled, and exactly once when the loop has stopped and the workers are gone.
   */
  lemma HandledOnce(threaded: bool, limit: nat, run: seq<Action>, c: Conn)
    requires Possible(Initial(threaded, limit), run)
    ensures var s := After(Initial(threaded, limit), run);
            s.closed[c] <= s.handled[c] <= 1 && (c >= s.accepted ==> s.handled[c] == 0) &&
            (s.accept.Stopped? && (forall w :: 0 <= w < |s.workers| ==> s.workers[w].pc == Gone) && c < s.accepted ==>
               s.handled[c] == 1 && s.closed[c] == 1)
  {
    hide Apply, LockInv, CountInv, DrainInv;
    InitialInv(threaded, limit);
    InvAlways(Initial(threaded, limit), run);
    var s := After(Initial(threaded, limit), run);
    if c < s.accepted && Owned(s, c) {
      if !(Busy(s.accept) && s.accept.c == c) {
        var w :| OwnedBy(s, c, w);
      }
    }
  }

  // ---- the drain ----

  /** The worker has made its last access to the server. */
  predicate PastServer(pc: WorkerPc) {
    pc == Exiting || pc == Gone
  }

  lemma {:induction false} NoneCounted(ws: seq<Worker>, w: nat)
    requires CountAll(ws) == 0 && w < |ws|
    ensures Counted(ws[w].pc) == 0
    decreases |ws|
  {
    if w < |ws| - 1 {
      NoneCounted(ws[..|ws| - 1], w);
    }
  }

  /**
   * When the drain has completed the accept loop has returned and every worker is past its last
   * access to the server, so freeing the server is safe.
   */
  lemma DrainedIsSafe(threaded: bool, limit: nat, run: seq<Action>)
    requires Possible(Initial(threaded, limit), run) && After(Initial(threaded, limit), run).drain.Drained?
    ensures var s := After(Initial(threaded, limit), run);
            s.accept.Stopped? && forall w :: 0 <= w < |s.workers| ==> PastServer(s.workers[w].pc)
  {
    InitialInv(threaded, limit);
    PastLock(Initial(threaded, limit), run);
    InvAlways(Initial(threaded, limit), run);
    hide Apply, ConnInv;
    var s := After(Initial(threaded, limit), run);
    forall w | 0 <= w < |s.workers| ensures PastServer(s.workers[w].pc) {
      NoneCounted(s.workers, w);
      assert s.workers[w].pc != Releasing;
    }
  }

  /** Once the closing thread has passed, no worker holds the lock any more. */
  predicate NoneReleasing(s: State) {
    s.drain.Passing? || s.drain.Drained? ==> forall w :: 0 <= w < |s.workers| ==> s.workers[w].pc != Releasing
  }

  lemma {:induction false} PastLock(s: State, run: seq<Action>)
    requires Inv(s) && NoneReleasing(s) && Possible(s, run)
    ensures NoneReleasing(After(s, run))
    decreases |run|
  {
    if run != [] {
      PastLockStep(s, run[0]);
      LockStep(s, run[0]);
      CountStep(s, run[0]);
      DrainStep(s, run[0]);
      ConnStep(s, run[0]);
      PastLock(Apply(s, run[0]), run[1..]);
    }
  }

  lemma PastLockStep(s: State, a: Action)
    requires Inv(s) && NoneReleasing(s) && Enabled(s, a)
    ensures NoneReleasing(Apply(s, a))
  {
    hide ConnInv;
    if a.CountDown? {
      CountMoved(s.workers, a.w, Releasing);
    }
  }

  // ---- no lost wakeup ----

  /** Steps a worker still has to take. */
  function Left(pc: WorkerPc): nat {
    match pc
    case Handling => 6
    case Closing => 5
    case WantsLock => 4
    case Counting => 3
    case Releasing => 2
    case Exiting => 1
    case Gone => 0
  }

  function LeftAll(ws: seq<Worker>): nat {
    if ws == [] then 0 else LeftAll(ws[..|ws| - 1]) + Left(ws[|ws| - 1].pc)
  }

  lemma {:induction false} LeftMoved(ws: seq<Worker>, w: nat, pc: WorkerPc)
    requires w < |ws|
    ensures LeftAll(ws[w := ws[w].(pc := pc)]) == LeftAll(ws) - Left(ws[w].pc) + Left(pc)
    decreases |ws|
  {
    var init := ws[..|ws| - 1];
    var ws' := ws[w := ws[w].(pc := pc)];
    if w == |ws| - 1 {
      assert ws'[..|ws| - 1] == init;
    } else {
      LeftMoved(init, w, pc);
      assert ws'[..|ws| - 1] == init[w := init[w].(pc := pc)];
    }
  }

  /** Steps of the closing thread; while workers are active it may have to go round once more. */
  function LeftDrain(d: DrainPc, active: int): nat {
    match d
    case Open => 9
    case WantsDrain => if active > 0 then 8 else 4
    case Checking => if active > 0 then 7 else 3
    case Waiting => 6
    case Passing => 2
    case Drained => 0
  }

  /** What is left to do once the accept loop has returned. */
  function Work(s: State): nat {
    LeftAll(s.workers) + LeftDrain(s.drain, s.active)
  }

  /** Every step but a spurious wakeup brings the end nearer. */
  lemma WorkShrinks(s: State, a: Action)
    requires Inv(s) && s.accept.Stopped? && Enabled(s, a) && !a.Spurious?
    ensures Work(Apply(s, a)) < Work(s) && Apply(s, a).accept.Stopped?
  {
    hide ConnInv, CountAll, LeftAll;
    match a
    case Handle(w) => LeftMoved(s.workers, w, Closing);
    case CloseConn(w) => LeftMoved(s.workers, w, if s.threaded then WantsLock else Exiting);
    case LockWorker(w) => LeftMoved(s.workers, w, Counting);
    case CountDown(w) =>
      CountMoved(s.workers, w, Releasing);
      LeftMoved(s.workers, w, Releasing);
    case UnlockWorker(w) => LeftMoved(s.workers, w, Exiting);
    case FreeArgs(w) => LeftMoved(s.workers, w, Gone);
    case _ =>
  }

  /** The step a worker can take next, if the lock is free where it needs it. */
  function NextOf(pc: WorkerPc, w: nat): Action
    requires pc != Gone
  {
    match pc
    case Handling => Handle(w)
    case Closing => CloseConn(w)
    case WantsLock => LockWorker(w)
    case Counting => CountDown(w)
    case Releasing => UnlockWorker(w)
    case Exiting => FreeArgs(w)
  }

  lemma {:induction false} SomeCounted(ws: seq<Worker>) returns (w: nat)
    requires CountAll(ws) > 0
    ensures w < |ws| && Counted(ws[w].pc) == 1
    decreases |ws|
  {
    if Counted(ws[|ws| - 1].pc) == 1 {
      w := |ws| - 1;
    } else {
      w := SomeCounted(ws[..|ws| - 1]);
    }
  }

  /** Until the drain has completed some step other than a spurious wakeup is possible: no wakeup is lost. */
  lemma NeverStuck(s: State) returns (a: Action)
    requires Inv(s) && s.accept.Stopped? && !s.drain.Drained?
    ensures Enabled(s, a) && !a.Spurious?
  {
    hide ConnInv, CountAll;
    match s.holder
    case ByWorker(w) => a := NextOf(s.workers[w].pc, w);
    case ByDrain => a := if s.drain.Checking? then CheckIdle else UnlockDrain;
    case ByAccept => a := BeginDrain;
    case Free =>
      match s.drain {
        case Open => a := BeginDrain;
        case WantsDrain => a := LockDrain;
        case Waiting =>
          var w := SomeCounted(s.workers);
          a := NextOf(s.workers[w].pc, w);
        case _ => a := BeginDrain;
      }
  }

  /** So from any state after the accept loop has returned, the drain completes. */
  lemma {:induction false} DrainCompletes(s: State) returns (run: seq<Action>)
    requires Inv(s) && s.accept.Stopped?
    ensures |run| <= Work(s) && Possible(s, run) && After(s, run).drain.Drained?
    decreases Work(s)
  {
    run := [];
    if !s.drain.Drained? {
      var a := NeverStuck(s);
      WorkShrinks(s, a);
      LockStep(s, a);
      CountStep(s, a);
      DrainStep(s, a);
      ConnStep(s, a);
      hide Apply, Enabled, LockInv, CountInv, DrainInv, ConnInv, Work;
      var rest := DrainCompletes(Apply(s, a));
      run := [a] + rest;
      assert run[1..] == rest;
    }
  }

  /** And no run without spurious wakeups can go on longer than the work left. */
  lemma {:induction false} RunsEnd(s: State, run: seq<Action>)
    requires Inv(s) && s.accept.Stopped? && Possible(s, run) && forall i :: 0 <= i < |run| ==> !run[i].Spurious?
    ensures |run| <= Work(s)
    decreases |run|
  {
    if run != [] {
      var a := run[0];
      WorkShrinks(s, a);
      LockStep(s, a);
      CountStep(s, a);
      DrainStep(s, a);
      ConnStep(s, a);
      hide Apply, Enabled, LockInv, CountInv, DrainInv, ConnInv, Work;
      RunsEnd(Apply(s, a), run[1..]);
    }
  }
}
