/**
 * Frames written by several threads: every send, close and mark-dead takes the session lock,
 * and one frame goes out in any number of partial socket writes. All interleavings are runs of
 * the small machine below; whatever the interleaving, the wire carries whole frames.
 */
module WsWriters {
  import opened Bytes
  import opened WsFrames
  import opened WsRoundTrip
  import opened WsParserState

  type Thread = nat
  type Code = c: nat | c < 0x1_0000

  datatype Job =
    | Send(opcode: Opcode, payload: SizedPayload)
    | SendClose(code: Code, reason: seq<byte>)
    | MarkDead(code: Code, io: bool)

  /** Where a thread stands; from Locked on it holds the lock; `done` bytes of its frame are out. */
  datatype Pc =
    | Outside
    | Queued(job: Job)
    | Locked(job: Job)
    | Writing(job: Job, done: nat)
    | Leaving

  /** A finished job; `written` holds the frame that went out, if any. */
  datatype Result = Result(thread: Thread, job: Job, written: seq<ServerFrame>)

  datatype Holder = Free | HeldBy(thread: Thread)

  /** The shared session, with a record of the finished jobs and of the bytes of an unfinished frame. */
  datatype State = State(
    holder: Holder,
    pcs: map<Thread, Pc>,
    dead: bool,
    ioError: bool,
    closeSent: bool,
    closeCode: Code,
    wire: seq<byte>,
    results: seq<Result>,
    partial: seq<byte>)

  datatype Action =
    | Call(t: Thread, job: Job)
    | Lock(t: Thread)
    | Check(t: Thread)
    | WriteSome(t: Thread, k: nat)
    | WriteFails(t: Thread)
    | Unlock(t: Thread)

  function PcOf(s: State, t: Thread): Pc {
    if t in s.pcs then s.pcs[t] else Outside
  }

  function FrameFor(job: Job): ServerFrame
    requires !job.MarkDead?
  {
    if job.Send? then ServerFrame(job.opcode, job.payload)
    else ServerFrame(OP_CLOSE, ClosePayload(job.code, job.reason))
  }

  /** The bytes a job puts on the wire. */
  function WireBytes(job: Job): seq<byte>
    requires !job.MarkDead?
  {
    EncodeServer(FrameFor(job))
  }

  predicate CanWrite(s: State, t: Thread) {
    PcOf(s, t).Writing? && !PcOf(s, t).job.MarkDead?
  }

  predicate Enabled(s: State, a: Action) {
    match a
    case Call(t, _) => PcOf(s, t).Outside?
    case Lock(t) => PcOf(s, t).Queued? && s.holder.Free?
    case Check(t) => PcOf(s, t).Locked?
    case WriteSome(t, k) => CanWrite(s, t) && 0 < k && PcOf(s, t).done + k <= |WireBytes(PcOf(s, t).job)|
    case WriteFails(t) => CanWrite(s, t)
    case Unlock(t) => PcOf(s, t).Leaving?
  }

  function At(s: State, t: Thread, pc: Pc): State {
    s.(pcs := s.pcs[t := pc])
  }

  function Finish(s: State, t: Thread, job: Job, written: seq<ServerFrame>): State {
    At(s, t, Leaving).(results := s.results + [Result(t, job, written)])
  }

  /** The flags a job sets when it has the lock. */
  function Flagged(s: State, job: Job): State {
    match job
    case Send(_, _) => s
    case SendClose(code, _) =>
      s.(closeSent := true, closeCode := if !s.dead && !s.closeSent && code != 0 then code else s.closeCode)
    case MarkDead(code, io) =>
      s.(dead := true, ioError := s.ioError || io, closeCode := if code != 0 then code else s.closeCode)
  }

  /** Under the lock: mark dead at once, give up on a dead session, or start writing. */
  function Decide(s: State, t: Thread, job: Job): State {
    if job.MarkDead? || s.dead then Finish(Flagged(s, job), t, job, [])
    else At(Flagged(s, job), t, Writing(job, 0))
  }

  function Apply(s: State, a: Action): State
    requires Enabled(s, a)
  {
    match a
    case Call(t, job) => At(s, t, Queued(job))
    case Lock(t) => At(s, t, Locked(PcOf(s, t).job)).(holder := HeldBy(t))
    case Check(t) => Decide(s, t, PcOf(s, t).job)
    case WriteSome(t, k) =>
      var Writing(job, done) := PcOf(s, t);
      var whole := WireBytes(job);
      var s' := s.(wire := s.wire + whole[done..done + k], partial := s.partial + whole[done..done + k]);
      if done + k == |whole| then Finish(s', t, job, [FrameFor(job)]).(partial := [])
      else At(s', t, Writing(job, done + k))
    case WriteFails(t) => Finish(s, t, PcOf(s, t).job, []).(dead := true, ioError := true)
    case Unlock(t) => At(s, t, Outside).(holder := Free)
  }

  function Initial(): State {
    State(Free, map[], false, false, false, 0, [], [], [])
  }

  /** A run: the actions are possible one after the other. */
  ghost predicate Possible(s: State, run: seq<Action>)
    decreases |run|
  {
    run == [] || (Enabled(s, run[0]) && Possible(Apply(s, run[0]), run[1..]))
  }

  ghost function After(s: State, run: seq<Action>): State
    requires Possible(s, run)
    decreases |run|
  {
    if run == [] then s else After(Apply(s, run[0]), run[1..])
  }

  /** The frames written, in the order the jobs held the lock. */
  function Written(rs: seq<Result>): seq<ServerFrame> {
    if rs == [] then [] else Written(rs[..|rs| - 1]) + rs[|rs| - 1].written
  }

  lemma WrittenAppend(rs: seq<Result>, r: Result)
    ensures Written(rs + [r]) == Written(rs) + r.written
  {
    assert (rs + [r])[..|rs|] == rs;
  }

  // ---- the invariant ----

  ghost predicate InLock(pc: Pc) {
    pc.Locked? || pc.Writing? || pc.Leaving?
  }

  /** Exactly the lock holder is inside. */
  ghost predicate Exclusive(s: State) {
    forall t :: InLock(PcOf(s, t)) <==> s.holder == HeldBy(t)
  }

  /** The frame being written is on the wire up to the bytes that are left. */
  ghost predicate Progress(s: State) {
    if s.holder.HeldBy? && PcOf(s, s.holder.thread).Writing? then
      var pc := PcOf(s, s.holder.thread);
      && !s.dead && !pc.job.MarkDead?
      && pc.done < |WireBytes(pc.job)| && s.partial == WireBytes(pc.job)[..pc.done]
    else
      s.partial == [] || (s.dead && s.ioError && Truncated(s.partial))
  }

  /** A job either put its own frame on the wire, once, or nothing. */
  ghost predicate Honest(r: Result) {
    r.written == [] || (!r.job.MarkDead? && r.written == [FrameFor(r.job)])
  }

  /** The wire against the record of finished jobs. */
  ghost predicate Accounted(s: State) {
    && s.wire == EncodeAll(Written(s.results)) + s.partial
    && (forall i :: 0 <= i < |s.results| ==> Honest(s.results[i]))
  }

  ghost predicate Inv(s: State) {
    Exclusive(s) && Progress(s) && Accounted(s)
  }

  lemma InvInitial()
    ensures Inv(Initial())
  {
  }

  lemma StaysExclusive(s: State, a: Action)
    requires Exclusive(s) && Enabled(s, a)
    ensures Exclusive(Apply(s, a))
    ensures a.Check? || a.WriteSome? || a.WriteFails? || a.Unlock? ==> s.holder == HeldBy(a.t)
  {
    hide WireBytes, FrameFor;
    var s' := Apply(s, a);
    assert InLock(PcOf(s, a.t)) <==> s.holder == HeldBy(a.t);
    forall t
      ensures InLock(PcOf(s', t)) <==> s'.holder == HeldBy(t)
    {
      assert InLock(PcOf(s, t)) <==> s.holder == HeldBy(t);
    }
  }

  /** A job that leaves without writing adds nothing to the account. */
  lemma NothingWritten(s: State, s': State, t: Thread, job: Job)
    requires Accounted(s) && s'.results == s.results + [Result(t, job, [])]
    requires s'.wire == s.wire && s'.partial == s.partial
    ensures Accounted(s')
  {
    WrittenAppend(s.results, Result(t, job, []));
    assert Written(s.results) + [] == Written(s.results);
  }

  /** A completed frame is entered in the account. */
  lemma OneWritten(s: State, s': State, t: Thread, job: Job)
    requires Accounted(s) && !job.MarkDead?
    requires s'.results == s.results + [Result(t, job, [FrameFor(job)])]
    requires s'.wire == EncodeAll(Written(s.results)) + EncodeServer(FrameFor(job)) && s'.partial == []
    ensures Accounted(s')
  {
    hide EncodeServer, FrameFor;
    WrittenAppend(s.results, Result(t, job, [FrameFor(job)]));
    EncodeAllAppend(Written(s.results), FrameFor(job));
    hide EncodeAll, Written;
    assert s'.wire + [] == s'.wire;
  }

  lemma CheckLeaves(s: State, t: Thread, job: Job)
    requires Progress(s) && Accounted(s) && PcOf(s, t) == Locked(job) && s.holder == HeldBy(t)
    requires job.MarkDead? || s.dead
    ensures Progress(Decide(s, t, job)) && Accounted(Decide(s, t, job))
  {
    hide Truncated, WireBytes;
    var s' := Decide(s, t, job);
    assert PcOf(s', t) == Leaving && s'.dead && s'.partial == s.partial;
    NothingWritten(s, s', t, job);
    hide Accounted;
  }

  lemma CheckStarts(s: State, t: Thread, job: Job)
    requires Progress(s) && Accounted(s) && PcOf(s, t) == Locked(job) && s.holder == HeldBy(t)
    requires !job.MarkDead? && !s.dead
    ensures Progress(Decide(s, t, job)) && Accounted(Decide(s, t, job))
  {
    var s' := Decide(s, t, job);
    assert PcOf(s', t) == Writing(job, 0) && s'.partial == s.partial == [] && !s'.dead;
    assert WireBytes(job) != [];
    hide WireBytes, EncodeAll, Written, Honest;
    assert s'.wire == s.wire && s'.results == s.results;
  }

  lemma StepWrite(s: State, t: Thread, k: nat)
    requires Progress(s) && Accounted(s) && Enabled(s, WriteSome(t, k)) && s.holder == HeldBy(t)
    ensures Progress(Apply(s, WriteSome(t, k))) && Accounted(Apply(s, WriteSome(t, k)))
  {
    var Writing(job, done) := PcOf(s, t);
    if done + k == |WireBytes(job)| {
      WriteEnds(s, t, k);
    } else {
      hide Progress, Accounted, Apply, WireBytes;
      WriteGoesOn(s, t, k);
    }
  }

  lemma Cut(whole: seq<byte>, i: nat, j: nat)
    requires i <= j <= |whole|
    ensures whole[..i] + whole[i..j] == whole[..j]
  {
  }

  lemma Longer(sent: seq<byte>, whole: seq<byte>, i: nat, j: nat)
    requires i <= j <= |whole|
    ensures (sent + whole[..i]) + whole[i..j] == sent + whole[..j]
  {
  }

  lemma WriteEnds(s: State, t: Thread, k: nat)
    requires Progress(s) && Accounted(s) && Enabled(s, WriteSome(t, k)) && s.holder == HeldBy(t)
    requires PcOf(s, t).done + k == |WireBytes(PcOf(s, t).job)|
    ensures Progress(Apply(s, WriteSome(t, k))) && Accounted(Apply(s, WriteSome(t, k)))
  {
    var Writing(job, done) := PcOf(s, t);
    var whole := WireBytes(job);
    assert whole == EncodeServer(FrameFor(job));
    hide WireBytes, EncodeServer, FrameFor, Truncated;
    var s' := Apply(s, WriteSome(t, k));
    Longer(EncodeAll(Written(s.results)), whole, done, done + k);
    assert whole[..|whole|] == whole;
    assert PcOf(s', t) == Leaving && s'.partial == [];
    OneWritten(s, s', t, job);
    hide Accounted;
  }

  lemma WriteGoesOn(s: State, t: Thread, k: nat)
    requires Progress(s) && Accounted(s) && Enabled(s, WriteSome(t, k)) && s.holder == HeldBy(t)
    requires PcOf(s, t).done + k < |WireBytes(PcOf(s, t).job)|
    ensures Progress(Apply(s, WriteSome(t, k))) && Accounted(Apply(s, WriteSome(t, k)))
  {
    hide WireBytes, EncodeServer, FrameFor, Truncated, EncodeAll, Written, Honest;
    var Writing(job, done) := PcOf(s, t);
    var whole := WireBytes(job);
    Cut(whole, done, done + k);
    Longer(EncodeAll(Written(s.results)), whole, done, done + k);
    var s' := Apply(s, WriteSome(t, k));
    assert PcOf(s', t) == Writing(job, done + k) && s'.partial == whole[..done + k] && s'.results == s.results;
    hide Apply;
  }

  lemma StepFail(s: State, t: Thread)
    requires Progress(s) && Accounted(s) && CanWrite(s, t) && s.holder == HeldBy(t)
    ensures Progress(Apply(s, WriteFails(t))) && Accounted(Apply(s, WriteFails(t)))
  {
    var Writing(job, done) := PcOf(s, t);
    NothingWritten(s, Apply(s, WriteFails(t)), t, job);
    PartialIsTruncated(s);
    hide Accounted, Truncated, WireBytes;
  }

  /** The bytes of an unfinished frame: none, or a proper prefix of one frame. */
  lemma PartialIsTruncated(s: State)
    requires Progress(s)
    ensures s.partial == [] || Truncated(s.partial)
  {
    if s.holder.HeldBy? && PcOf(s, s.holder.thread).Writing? {
      var f := FrameFor(PcOf(s, s.holder.thread).job);
      hide EncodeServer, FrameFor;
      assert |s.partial| < |EncodeServer(f)| && s.partial == EncodeServer(f)[..|s.partial|];
    }
  }

  lemma InvStep(s: State, a: Action)
    requires Inv(s) && Enabled(s, a)
    ensures Inv(Apply(s, a))
  {
    StaysExclusive(s, a);
    hide WireBytes, Truncated, FrameFor, EncodeAll, Written, Exclusive, Honest;
    match a
    case Call(_, _) =>
    case Lock(_) =>
    case Check(t) =>
      if PcOf(s, t).job.MarkDead? || s.dead {
        CheckLeaves(s, t, PcOf(s, t).job);
      } else {
        CheckStarts(s, t, PcOf(s, t).job);
      }
    case WriteSome(t, k) => StepWrite(s, t, k);
    case WriteFails(t) => StepFail(s, t);
    case Unlock(_) =>
  }

  lemma {:induction false} InvAlways(s: State, run: seq<Action>)
    requires Inv(s) && Possible(s, run)
    ensures Inv(After(s, run))
    decreases |run|
  {
    if run != [] {
      InvStep(s, run[0]);
      hide Inv, Apply, Enabled;
      InvAlways(Apply(s, run[0]), run[1..]);
    }
  }

  // ---- the main results ----

  /**
   * In every interleaving, the bytes sent are whole frames, one for each job that succeeded and
   * in lock order, then at most the beginning of one more; with the lock free that beginning is
   * there only after a socket error. A client therefore reads exactly the frames written.
   */
  lemma WholeFramesInEveryRun(run: seq<Action>)
    requires Possible(Initial(), run)
    ensures var s := After(Initial(), run);
            && s.wire == EncodeAll(Written(s.results)) + s.partial
            && (s.partial == [] || Truncated(s.partial))
            && (s.holder.Free? && s.partial != [] ==> s.dead && s.ioError)
            && (forall i :: 0 <= i < |s.results| ==> Honest(s.results[i]))
            && ReadServer(s.wire) == Pairs(Written(s.results))
  {
    InvInitial();
    InvAlways(Initial(), run);
    var s := After(Initial(), run);
    PartialIsTruncated(s);
    hide EncodeServer, Possible, After, NextServer;
    if s.partial != [] {
      var f: ServerFrame :| |s.partial| < |EncodeServer(f)| && s.partial == EncodeServer(f)[..|s.partial|];
      ReadTruncated(f, |s.partial|);
    }
    ReadsNothing(s.partial);
    ReadUndoesWrite(Written(s.results), s.partial);
  }

  lemma ReadsNothing(p: seq<byte>)
    requires p == [] || NextServer(p) == Short
    ensures ReadServer(p) == []
  {
  }

  lemma DeadStep(s: State, a: Action)
    requires Inv(s) && s.dead && Enabled(s, a)
    ensures Apply(s, a).dead && Apply(s, a).wire == s.wire
  {
    hide WireBytes, EncodeAll, Written, FrameFor, Truncated, Honest;
    assert InLock(PcOf(s, a.t)) <==> s.holder == HeldBy(a.t);
  }

  /** Dead is never cleared, and nothing is written after it. */
  lemma {:induction false} DeadIsFinal(s: State, run: seq<Action>)
    requires Inv(s) && s.dead && Possible(s, run)
    ensures After(s, run).dead && After(s, run).wire == s.wire
    decreases |run|
  {
    if run != [] {
      var a := run[0];
      InvStep(s, a);
      DeadStep(s, a);
      hide Inv, Apply, Enabled;
      DeadIsFinal(Apply(s, a), run[1..]);
    }
  }

  // ---- nothing is lost without an error ----

  /** Every finished job put its frame on the wire, but for marking dead and on a dead session. */
  ghost predicate AllOut(s: State) {
    s.dead || forall i :: 0 <= i < |s.results| ==>
      !s.results[i].job.MarkDead? && s.results[i].written == [FrameFor(s.results[i].job)]
  }

  /** The session is dead exactly when a job marked it so or a write failed. */
  predicate Kills(s: State, a: Action) {
    a.WriteFails? || (a.Check? && PcOf(s, a.t).Locked? && PcOf(s, a.t).job.MarkDead?)
  }

  ghost predicate Killed(s: State, run: seq<Action>)
    requires Possible(s, run)
    decreases |run|
  {
    run != [] && (Kills(s, run[0]) || Killed(Apply(s, run[0]), run[1..]))
  }

  lemma AllOutStep(s: State, a: Action)
    requires AllOut(s) && Enabled(s, a)
    ensures AllOut(Apply(s, a)) && (Apply(s, a).dead <==> s.dead || Kills(s, a))
  {
    hide WireBytes, FrameFor;
  }

  /**
   * In every run: the session is dead exactly when some job marked it or some write failed, and until
   * then every finished job has put its frame on the wire.
   */
  lemma {:induction false} NothingLost(s: State, run: seq<Action>)
    requires AllOut(s) && Possible(s, run)
    ensures AllOut(After(s, run)) && (After(s, run).dead <==> s.dead || Killed(s, run))
    decreases |run|
  {
    if run != [] {
      AllOutStep(s, run[0]);
      hide AllOut, Apply, Enabled, Kills;
      NothingLost(Apply(s, run[0]), run[1..]);
    }
  }

  lemma LiveSessionsWriteAll(run: seq<Action>)
    requires Possible(Initial(), run)
    ensures var s := After(Initial(), run);
            && (s.dead <==> Killed(Initial(), run))
            && (!s.dead ==> forall i :: 0 <= i < |s.results| ==>
                  !s.results[i].job.MarkDead? && s.results[i].written == [FrameFor(s.results[i].job)])
  {
    NothingLost(Initial(), run);
  }

  /** What each step does to the close code: the first close sets it, and marking dead with a code. */
  lemma CloseCodeExactly(s: State, a: Action)
    requires Enabled(s, a)
    ensures Initial().closeCode == 0
    ensures Apply(s, a).closeCode ==
            if !a.Check? then s.closeCode
            else match PcOf(s, a.t).job
                 case Send(_, _) => s.closeCode
                 case SendClose(code, _) => if s.dead || s.closeSent || code == 0 then s.closeCode else code
                 case MarkDead(code, _) => if code == 0 then s.closeCode else code
  {
    hide WireBytes, FrameFor;
  }

  /**
   * No thread waits for ever: while one is between its call and its return, some thread can go on, and
   * one that writes may write any part of what is left, up to all of it.
   */
  lemma SomeStep(s: State, t: Thread) returns (a: Action)
    requires Inv(s) && !PcOf(s, t).Outside?
    ensures Enabled(s, a) && !a.Call?
    ensures forall u, k: nat :: PcOf(s, u).Writing? && s.holder == HeldBy(u) ==>
              (Enabled(s, WriteSome(u, k)) <==> 1 <= k <= |WireBytes(PcOf(s, u).job)| - PcOf(s, u).done)
  {
    hide WireBytes, FrameFor, Accounted, Truncated;
    assert InLock(PcOf(s, t)) <==> s.holder == HeldBy(t);
    if s.holder.Free? {
      a := Lock(t);
    } else {
      var u := s.holder.thread;
      assert InLock(PcOf(s, u));
      match PcOf(s, u)
      case Locked(_) => a := Check(u);
      case Writing(_, _) => a := WriteSome(u, 1);
      case Leaving => a := Unlock(u);
    }
  }
}
