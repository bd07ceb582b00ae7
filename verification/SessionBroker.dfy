/** The broker of session workers: a map of sessions, one run goroutine per
    session that launches and relaunches its worker process, and stop requests
    that race with it. Each stretch of code under one lock, or between two
    blocking calls, is one step. */
module SessionBroker {
  import opened Options

  type Id = string

  /** The length of a restart window, in nanoseconds. */
  const WINDOW: nat := 60_000_000_000

  const MAX_RESTARTS := 3

  /** Where a run goroutine is. */
  datatype Pc =
    | Begin                // the goroutine has not run yet
    | Check                // at the top of the loop
    | Passed               // the test there has passed, Launch is not yet called
    | Launching            // inside Launch
    | Launched(p: nat)     // Launch has returned a process
    | Backoff              // a relaunch has failed
    | Serving(p: nat)      // the process is attached
    | Closing(p: nat)      // about to close it and go on
    | Discarding(p: nat)   // about to close it and return
    | Closed               // the process is closed
    | Pause                // before a relaunch
    | Removing             // the deferred remove
    | CleaningUp(stage: nat) // the stopProcess part of it
    | Returned
  {
    /** The goroutine is responsible for process q. */
    predicate Holds(q: nat) {
      (Launched? || Serving? || Closing? || Discarding?) && p == q
    }

    predicate Leaving() {
      Removing? || CleaningUp? || Returned?
    }

    /** The launch that has been counted on is still to come. */
    predicate BeforeLaunch() {
      Begin? || Check? || Passed? || Pause?
    }
  }

  datatype Session = Session(
    id: Id, pc: Pc, cancelled: bool, terminateRequested: bool, process: Option<nat>,
    restarts: nat, restartWindow: nat,
    // what has happened so far; earlier counts the launches before the window
    // began, and the very first one with them
    born: nat, earlier: nat, resets: nat, launches: nat, attached: nat, rejections: nat, saidTerminate: bool)
  {
    /** What the test at the top of the loop asks. */
    predicate Ended() {
      cancelled || terminateRequested
    }
  }

  datatype Process = Process(owner: nat, open: bool)

  /** A stop request that has taken its session out of the map. */
  datatype Stopper = Stopper(session: nat, stage: nat)

  datatype State = State(sessions: map<Id, nat>, objs: seq<Session>, procs: seq<Process>, stops: seq<Stopper>, now: nat)

  function Initial(): State {
    State(map[], [], [], [], 0)
  }

  /** The map still holds this session object. */
  predicate Mapped(s: State, k: nat)
    requires k < |s.objs|
  {
    s.objs[k].id in s.sessions && s.sessions[s.objs[k].id] == k
  }

  // ---- The run goroutine -----------------------------------------------------------

  datatype RunEvent =
    | Start                    // the clock is read for the first time
    | CheckTop                 // the test at the top of the loop
    | CallLaunch
    | LaunchReturns(ok: bool)
    | BackoffEnds(done: bool)  // done: the context was cancelled
    | TakeLock                 // attach, if the session is still in the map
    | ServeCancelled
    | ServeEnds                // reader or writer error, or an invalid response
    | WorkerTerminates         // the worker sends session_terminate
    | CloseProcess
    | Decide                   // relaunch or give up
    | PauseEnds(done: bool)
    | RemoveSelf
    | CleanUp

  predicate EventEnabled(o: Session, e: RunEvent) {
    match e
    case Start => o.pc.Begin?
    case CheckTop => o.pc.Check?
    case CallLaunch => o.pc.Passed?
    case LaunchReturns(_) => o.pc.Launching?
    case BackoffEnds(done) => o.pc.Backoff? && (done ==> o.cancelled)
    case TakeLock => o.pc.Launched?
    case ServeCancelled => o.pc.Serving? && o.cancelled
    case ServeEnds => o.pc.Serving?
    case WorkerTerminates => o.pc.Serving?
    case CloseProcess => o.pc.Closing? || o.pc.Discarding?
    case Decide => o.pc.Closed?
    case PauseEnds(done) => o.pc.Pause? && (done ==> o.cancelled)
    case RemoveSelf => o.pc.Removing?
    case CleanUp => o.pc.CleaningUp?
  }

  /** Counts one more restart, in a new window if the old one is over, and goes
      on at next unless there were too many. */
  function CountRestart(o: Session, now: nat, next: Pc): Session {
    var w := if now - o.restartWindow < WINDOW then o
             else o.(restartWindow := now, restarts := 0, resets := o.resets + 1, earlier := o.launches);
    var c := w.(restarts := w.restarts + 1);
    if c.restarts > MAX_RESTARTS then c.(pc := Removing) else c.(pc := next)
  }

  /** The session after a step of its goroutine. Mapped says whether the map
      holds this very object, nextProc is the number of the next process. */
  function RunStep(o: Session, e: RunEvent, now: nat, mapped: bool, nextProc: nat): Session
    requires EventEnabled(o, e)
  {
    match e
    case Start => o.(pc := Check, restartWindow := now)
    case CheckTop => o.(pc := if o.Ended() then Removing else Passed)
    case CallLaunch => o.(pc := Launching, launches := o.launches + 1)
    case LaunchReturns(ok) =>
      if ok then o.(pc := Launched(nextProc))
      else if o.restarts == 0 then o.(pc := Removing, rejections := o.rejections + 1)
      else o.(pc := Backoff)
    case BackoffEnds(done) => if done then o.(pc := Removing) else CountRestart(o, now, Check)
    case TakeLock =>
      if !mapped || o.cancelled then o.(pc := Discarding(o.pc.p))
      else o.(pc := Serving(o.pc.p), process := Some(o.pc.p), attached := o.attached + 1)
    case ServeCancelled => o.(pc := Discarding(o.pc.p))
    case ServeEnds => o.(pc := Closing(o.pc.p))
    case WorkerTerminates => o.(terminateRequested := true, saidTerminate := true)
    case CloseProcess => o.(pc := if o.pc.Closing? then Closed else Removing)
    case Decide =>
      if o.Ended() then o.(pc := Removing) else CountRestart(o, now, Pause)
    case PauseEnds(done) => o.(pc := if done then Removing else Check)
    case RemoveSelf => o.(pc := if mapped then CleaningUp(0) else Returned)
    case CleanUp =>
      if o.pc.stage == 0 then o.(pc := CleaningUp(1), terminateRequested := true)
      else if o.pc.stage == 1 then o.(pc := CleaningUp(2), cancelled := true)
      else o.(pc := Returned)
  }

  /** What a step does to processes. */
  datatype Effect = NoEffect | Spawn | Close(p: nat)

  function EffectOf(o: Session, e: RunEvent): Effect
    requires EventEnabled(o, e)
  {
    match e
    case LaunchReturns(ok) => if ok then Spawn else NoEffect
    case CloseProcess => Close(o.pc.p)
    case CleanUp => if o.pc.stage >= 2 && o.process.Some? then Close(o.process.value) else NoEffect
    case _ => NoEffect
  }

  function Apply(procs: seq<Process>, owner: nat, f: Effect): (r: seq<Process>)
    ensures |procs| <= |r|
  {
    match f
    case NoEffect => procs
    case Spawn => procs + [Process(owner, true)]
    case Close(p) => if p < |procs| then procs[p := procs[p].(open := false)] else procs
  }

  // ---- All steps ---------------------------------------------------------------------

  datatype Step =
    | Offer(id: Id)
    | Run(k: nat, event: RunEvent)
    | Stop(id: Id)      // stop, up to the end of its critical section
    | StopWork(j: nat)  // the rest of a stop, action by action
    | Cancel(k: nat)    // the parent context is cancelled
    | Tick(d: nat)

  predicate Enabled(s: State, t: Step) {
    match t
    case Run(k, e) => k < |s.objs| && EventEnabled(s.objs[k], e)
    case StopWork(j) => j < |s.stops| && s.stops[j].stage < 3 && s.stops[j].session < |s.objs|
    case Cancel(k) => k < |s.objs|
    case _ => true
  }

  function NewSession(id: Id, now: nat): Session {
    Session(id, Begin, false, false, None, 0, now, now, 1, 0, 0, 0, 0, false)
  }

  function Next(s: State, t: Step): State
    requires Enabled(s, t)
  {
    match t
    case Offer(id) =>
      if id in s.sessions then s
      else s.(sessions := s.sessions[id := |s.objs|], objs := s.objs + [NewSession(id, s.now)])
    case Run(k, e) =>
      var o := s.objs[k];
      s.(sessions := if e.RemoveSelf? && Mapped(s, k) then s.sessions - {o.id} else s.sessions,
         objs := s.objs[k := RunStep(o, e, s.now, Mapped(s, k), |s.procs|)],
         procs := Apply(s.procs, k, EffectOf(o, e)))
    case Stop(id) =>
      if id !in s.sessions then s
      else s.(sessions := s.sessions - {id}, stops := s.stops + [Stopper(s.sessions[id], 0)])
    case StopWork(j) =>
      var k, o := s.stops[j].session, s.objs[s.stops[j].session];
      s.(stops := s.stops[j := Stopper(k, s.stops[j].stage + 1)],
         objs := s.objs[k := StopAction(o, s.stops[j].stage)],
         procs := Apply(s.procs, k, StopEffect(o, s.stops[j].stage)))
    case Cancel(k) => s.(objs := s.objs[k := s.objs[k].(cancelled := true)])
    case Tick(d) => s.(now := s.now + d)
  }

  function StopAction(o: Session, stage: nat): Session {
    if stage == 0 then o.(terminateRequested := true)
    else if stage == 1 then o.(cancelled := true)
    else o
  }

  function StopEffect(o: Session, stage: nat): Effect {
    if stage == 2 && o.process.Some? then Close(o.process.value) else NoEffect
  }

  predicate Legal(s: State, steps: seq<Step>)
    decreases |steps|
  {
    steps != [] ==> Enabled(s, steps[0]) && Legal(Next(s, steps[0]), steps[1..])
  }

  function Execute(s: State, steps: seq<Step>): State
    requires Legal(s, steps)
    decreases |steps|
  {
    if steps == [] then s else Execute(Next(s, steps[0]), steps[1..])
  }

  // ---- The invariant --------------------------------------------------------------------

  /** What a session's own counters satisfy at a given time. */
  predicate Counted(o: Session, now: nat) {
    && o.born + WINDOW * o.resets <= o.restartWindow <= now
    && (o.pc.Begin? ==> o.resets == 0) && (o.pc.Launching? ==> o.launches > 0)
    && o.launches <= 3 * o.resets + o.restarts + (if o.pc.BeforeLaunch() then 0 else 1)
    && (o.restarts <= MAX_RESTARTS || (o.restarts == MAX_RESTARTS + 1 && o.pc.Leaving() && o.launches <= 4 + 3 * o.resets))
  }

  lemma RestartsBound(o: Session, now: nat)
    requires Counted(o, now)
    ensures o.restarts <= MAX_RESTARTS + (if o.pc.Leaving() then 1 else 0)
  {}

  /** A rejected answer is sent at most once, and only before any worker. */
  predicate RejectedOnce(o: Session) {
    && o.rejections <= 1
    && (o.rejections == 1 ==> o.attached == 0 && o.pc.Leaving())
  }

  /** Without a restart counted there has been no worker before the launch. */
  predicate FirstLaunch(o: Session) {
    && (o.restarts == 0 && (o.pc.BeforeLaunch() || o.pc.Launching? || o.pc.Launched?) ==> o.attached == 0)
    && (o.restarts == 0 ==> !o.pc.Backoff? && !o.pc.Pause?)
    && (o.pc.Begin? ==> o.restarts == 0)
    && (o.restarts == 0 ==> o.resets == 0)
  }

  /** Every restart of the window has been one launch, or is about to be. */
  predicate RestartsCounted(o: Session) {
    && (!o.pc.Leaving() ==> o.launches + (if o.pc.BeforeLaunch() then 1 else 0) == o.earlier + o.restarts)
    && (o.restarts > MAX_RESTARTS ==> o.launches == o.earlier + MAX_RESTARTS)
  }

  /** The process that is served is the one that a stop request closes. */
  predicate Attaches(o: Session) {
    o.pc.Serving? ==> o.process == Some(o.pc.p) && o.attached > 0
  }

  /** A goroutine that has seen session_terminate is not on its way to a
      launch. */
  predicate TerminateSeen(o: Session) {
    o.saidTerminate ==>
      && o.terminateRequested
      && (o.pc.Serving? || o.pc.Closing? || o.pc.Discarding? || o.pc.Closed? || o.pc.Leaving())
  }

  ghost predicate SessionValid(s: State, k: nat)
    requires k < |s.objs|
  {
    var o := s.objs[k];
    && Counted(o, s.now) && RejectedOnce(o) && FirstLaunch(o) && TerminateSeen(o) && Attaches(o) && RestartsCounted(o)
    && (o.process.Some? ==> o.process.value < |s.procs| && s.procs[o.process.value].owner == k)
    && (forall p: nat :: o.pc.Holds(p) ==> p < |s.procs| && s.procs[p].owner == k)
    && (o.pc.CleaningUp? || o.pc.Returned? ==> !Mapped(s, k))
  }

  /** An open process is in the hands of the goroutine that launched it. */
  predicate ProcessValid(s: State, p: nat)
    requires p < |s.procs|
  {
    s.procs[p].owner < |s.objs| && (s.procs[p].open ==> s.objs[s.procs[p].owner].pc.Holds(p))
  }

  ghost predicate Valid(s: State) {
    && (forall k: nat :: k < |s.objs| ==> SessionValid(s, k))
    && (forall p: nat :: p < |s.procs| ==> ProcessValid(s, p))
    && (forall id :: id in s.sessions ==> s.sessions[id] < |s.objs| && s.objs[s.sessions[id]].id == id)
    && (forall j: nat :: j < |s.stops| ==> s.stops[j].session < |s.objs|)
  }

  lemma CountRestartCounted(o: Session, now: nat, next: Pc)
    requires Counted(o, now) && !o.pc.BeforeLaunch() && !o.pc.Leaving() && (next.Check? || next.Pause?)
    ensures Counted(CountRestart(o, now, next), now)
  {
    assert WINDOW * (o.resets + 1) == WINDOW * o.resets + WINDOW;
  }

  lemma RunCounted(o: Session, e: RunEvent, now: nat, mapped: bool, nextProc: nat)
    requires EventEnabled(o, e) && Counted(o, now)
    ensures Counted(RunStep(o, e, now, mapped, nextProc), now)
  {
    if e == BackoffEnds(false) {
      CountRestartCounted(o, now, Check);
    } else if e.Decide? && !o.terminateRequested && !o.cancelled {
      CountRestartCounted(o, now, Pause);
    }
  }

  lemma RunRejectedOnce(o: Session, e: RunEvent, now: nat, mapped: bool, nextProc: nat)
    requires EventEnabled(o, e) && RejectedOnce(o) && FirstLaunch(o)
    ensures RejectedOnce(RunStep(o, e, now, mapped, nextProc))
  {}

  lemma RunFirstLaunch(o: Session, e: RunEvent, now: nat, mapped: bool, nextProc: nat)
    requires EventEnabled(o, e) && FirstLaunch(o)
    ensures FirstLaunch(RunStep(o, e, now, mapped, nextProc))
  {
    if e.Decide? {
    } else if e.BackoffEnds? {
    } else {
      hide CountRestart;
    }
  }

  lemma RunTerminateSeen(o: Session, e: RunEvent, now: nat, mapped: bool, nextProc: nat)
    requires EventEnabled(o, e) && TerminateSeen(o)
    ensures TerminateSeen(RunStep(o, e, now, mapped, nextProc))
  {}

  lemma RunRestartsCounted(o: Session, e: RunEvent, now: nat, mapped: bool, nextProc: nat)
    requires EventEnabled(o, e) && RestartsCounted(o) && o.restarts <= MAX_RESTARTS + (if o.pc.Leaving() then 1 else 0)
    ensures RestartsCounted(RunStep(o, e, now, mapped, nextProc))
  {
    if e.Decide? {
    } else if e.BackoffEnds? {
    } else {
      hide CountRestart;
    }
  }

  lemma RunAttaches(o: Session, e: RunEvent, now: nat, mapped: bool, nextProc: nat)
    requires EventEnabled(o, e) && Attaches(o)
    ensures Attaches(RunStep(o, e, now, mapped, nextProc))
  {}

  /** A goroutine lets go of a process only by closing it. */
  lemma HoldsUntilClosed(o: Session, e: RunEvent, now: nat, mapped: bool, nextProc: nat, q: nat)
    requires EventEnabled(o, e)
    ensures o.pc.Holds(q) ==> RunStep(o, e, now, mapped, nextProc).pc.Holds(q) || EffectOf(o, e) == Close(q)
    ensures RunStep(o, e, now, mapped, nextProc).pc.Holds(q) && !o.pc.Holds(q) ==>
      q == nextProc && EffectOf(o, e) == Spawn
    ensures EffectOf(o, e) == Spawn ==> RunStep(o, e, now, mapped, nextProc).pc.Holds(nextProc)
    ensures RunStep(o, e, now, mapped, nextProc).process == o.process
         || (o.pc.Launched? && RunStep(o, e, now, mapped, nextProc).process == Some(o.pc.p))
  {}

  /** What an effect does to the processes that already exist. */
  lemma ApplyKeeps(procs: seq<Process>, owner: nat, f: Effect, p: nat)
    requires p < |procs|
    ensures Apply(procs, owner, f)[p].owner == procs[p].owner
    ensures Apply(procs, owner, f)[p].open ==> procs[p].open && f != Close(p)
    ensures f != Close(p) ==> Apply(procs, owner, f)[p] == procs[p]
  {}

  // ---- Every step keeps it ----------------------------------------------------------------

  /** Sessions that a step does not touch stay valid. */
  lemma OtherSession(s: State, r: State, k: nat)
    requires k < |s.objs| <= |r.objs| && r.objs[k] == s.objs[k] && SessionValid(s, k)
    requires |s.procs| <= |r.procs| && forall p :: 0 <= p < |s.procs| ==> r.procs[p].owner == s.procs[p].owner
    requires r.now >= s.now && (Mapped(r, k) ==> Mapped(s, k))
    ensures SessionValid(r, k)
  {}

  lemma RunSession(s: State, k: nat, e: RunEvent)
    requires Valid(s) && Enabled(s, Run(k, e))
    ensures SessionValid(Next(s, Run(k, e)), k)
  {
    var o, r := s.objs[k], Next(s, Run(k, e));
    var mapped, n := Mapped(s, k), |s.procs|;
    assert SessionValid(s, k);
    RunCounted(o, e, s.now, mapped, n);
    RunRejectedOnce(o, e, s.now, mapped, n);
    RunFirstLaunch(o, e, s.now, mapped, n);
    RunTerminateSeen(o, e, s.now, mapped, n);
    RunAttaches(o, e, s.now, mapped, n);
    RestartsBound(o, s.now);
    RunRestartsCounted(o, e, s.now, mapped, n);
    hide Counted, RejectedOnce, FirstLaunch, TerminateSeen, Attaches, RestartsCounted, CountRestart;
    if o.process.Some? {
      ApplyKeeps(s.procs, k, EffectOf(o, e), o.process.value);
    }
    forall p: nat | r.objs[k].pc.Holds(p) ensures p < |r.procs| && r.procs[p].owner == k {
      HoldsUntilClosed(o, e, s.now, mapped, n, p);
      if o.pc.Holds(p) {
        ApplyKeeps(s.procs, k, EffectOf(o, e), p);
      }
    }
    HoldsUntilClosed(o, e, s.now, mapped, n, 0);
    RunProcess(s, k, e);
    RunMapped(s, k, e);
  }

  /** The process field names a process of the session's own. */
  lemma RunProcess(s: State, k: nat, e: RunEvent)
    requires Valid(s) && Enabled(s, Run(k, e))
    ensures var r := Next(s, Run(k, e)); r.objs[k].process.Some? ==>
      r.objs[k].process.value < |r.procs| && r.procs[r.objs[k].process.value].owner == k
  {
    var o, r := s.objs[k], Next(s, Run(k, e));
    assert SessionValid(s, k);
    hide Counted, RejectedOnce, FirstLaunch, TerminateSeen, Attaches, RestartsCounted;
    HoldsUntilClosed(o, e, s.now, Mapped(s, k), |s.procs|, 0);
    hide RunStep;
    if o.process.Some? {
      ApplyKeeps(s.procs, k, EffectOf(o, e), o.process.value);
    }
    if o.pc.Launched? {
      assert o.pc.Holds(o.pc.p);
      ApplyKeeps(s.procs, k, EffectOf(o, e), o.pc.p);
    }
  }

  /** A goroutine that cleans up has left the map. */
  lemma RunMapped(s: State, k: nat, e: RunEvent)
    requires Valid(s) && Enabled(s, Run(k, e))
    ensures var r := Next(s, Run(k, e)); r.objs[k].pc.CleaningUp? || r.objs[k].pc.Returned? ==> !Mapped(r, k)
  {
    assert SessionValid(s, k);
    hide Counted, RejectedOnce, FirstLaunch, TerminateSeen, Attaches, RestartsCounted;
  }

  lemma RunKeeps(s: State, k: nat, e: RunEvent)
    requires Valid(s) && Enabled(s, Run(k, e))
    ensures Valid(Next(s, Run(k, e)))
  {
    var o, r, f := s.objs[k], Next(s, Run(k, e)), EffectOf(s.objs[k], e);
    forall p | 0 <= p < |s.procs| ensures r.procs[p].owner == s.procs[p].owner {
      ApplyKeeps(s.procs, k, f, p);
    }
    forall i: nat | i < |r.objs| ensures SessionValid(r, i) {
      if i == k {
        RunSession(s, k, e);
      } else {
        assert SessionValid(s, i);
        OtherSession(s, r, i);
      }
    }
    forall p: nat | p < |r.procs| ensures ProcessValid(r, p) {
      HoldsUntilClosed(o, e, s.now, Mapped(s, k), |s.procs|, p);
      if p < |s.procs| {
        assert ProcessValid(s, p);
        ApplyKeeps(s.procs, k, f, p);
      }
    }
    assert forall id :: id in r.sessions ==> id in s.sessions;
    RunKeepsId(o, e, s.now, Mapped(s, k), |s.procs|);
  }

  lemma RunKeepsId(o: Session, e: RunEvent, now: nat, mapped: bool, nextProc: nat)
    requires EventEnabled(o, e)
    ensures RunStep(o, e, now, mapped, nextProc).id == o.id
    ensures o.terminateRequested ==> RunStep(o, e, now, mapped, nextProc).terminateRequested
  {
    if e.Decide? {
    } else if e.BackoffEnds? {
    } else {
      hide CountRestart;
    }
  }

  lemma OfferKeeps(s: State, id: Id)
    requires Valid(s)
    ensures Valid(Next(s, Offer(id)))
  {
    var r := Next(s, Offer(id));
    forall i: nat | i < |r.objs| ensures SessionValid(r, i) {
      if i < |s.objs| {
        assert SessionValid(s, i);
        OtherSession(s, r, i);
      }
    }
    forall p: nat | p < |r.procs| ensures ProcessValid(r, p) {
      assert ProcessValid(s, p);
    }
  }

  /** What stop and cancel do to a session. */
  lemma FlagsKeep(o: Session, p: Session, now: nat)
    requires Counted(o, now) && RejectedOnce(o) && FirstLaunch(o) && TerminateSeen(o) && Attaches(o) && RestartsCounted(o)
    requires p == o.(cancelled := p.cancelled, terminateRequested := p.terminateRequested)
    requires o.terminateRequested ==> p.terminateRequested
    ensures Counted(p, now) && RejectedOnce(p) && FirstLaunch(p) && TerminateSeen(p) && Attaches(p) && RestartsCounted(p)
  {}

  lemma StopWorkKeeps(s: State, j: nat)
    requires Valid(s) && Enabled(s, StopWork(j))
    ensures Valid(Next(s, StopWork(j)))
  {
    var r, k := Next(s, StopWork(j)), s.stops[j].session;
    var f := StopEffect(s.objs[k], s.stops[j].stage);
    forall p | 0 <= p < |s.procs| ensures r.procs[p].owner == s.procs[p].owner {
      ApplyKeeps(s.procs, k, f, p);
    }
    forall i: nat | i < |r.objs| ensures SessionValid(r, i) {
      assert SessionValid(s, i);
      if i != k {
        OtherSession(s, r, i);
      } else {
        FlagsKeep(s.objs[k], r.objs[k], s.now);
        hide Counted, RejectedOnce, FirstLaunch, TerminateSeen, Attaches, RestartsCounted, Apply, StopEffect;
      }
    }
    forall p: nat | p < |r.procs| ensures ProcessValid(r, p) {
      assert ProcessValid(s, p);
      ApplyKeeps(s.procs, k, f, p);
    }
  }

  lemma CancelKeeps(s: State, k: nat)
    requires Valid(s) && k < |s.objs|
    ensures Valid(Next(s, Cancel(k)))
  {
    var r := Next(s, Cancel(k));
    forall i: nat | i < |r.objs| ensures SessionValid(r, i) {
      assert SessionValid(s, i);
      FlagsKeep(s.objs[i], r.objs[i], s.now);
      hide Counted, RejectedOnce, FirstLaunch, TerminateSeen, Attaches, RestartsCounted;
    }
    forall p: nat | p < |r.procs| ensures ProcessValid(r, p) {
      assert ProcessValid(s, p);
    }
  }

  lemma StopOrTickKeeps(s: State, t: Step)
    requires Valid(s) && (t.Stop? || t.Tick?)
    ensures Valid(Next(s, t))
  {
    var r := Next(s, t);
    forall i: nat | i < |r.objs| ensures SessionValid(r, i) {
      assert SessionValid(s, i);
      OtherSession(s, r, i);
    }
    forall p: nat | p < |r.procs| ensures ProcessValid(r, p) {
      assert ProcessValid(s, p);
    }
  }

  lemma StepKeeps(s: State, t: Step)
    requires Valid(s) && Enabled(s, t)
    ensures Valid(Next(s, t))
  {
    hide Valid, Next;
    match t
    case Offer(id) => OfferKeeps(s, id);
    case Run(k, e) => RunKeeps(s, k, e);
    case StopWork(j) => StopWorkKeeps(s, j);
    case Cancel(k) => CancelKeeps(s, k);
    case _ => StopOrTickKeeps(s, t);
  }

  lemma {:induction false} RunIsValid(s: State, steps: seq<Step>)
    requires Valid(s) && Legal(s, steps)
    ensures Valid(Execute(s, steps))
    decreases |steps|
  {
    hide Valid, Next, Enabled;
    if steps != [] {
      StepKeeps(s, steps[0]);
      RunIsValid(Next(s, steps[0]), steps[1..]);
    }
  }

  lemma InitialIsValid()
    ensures Valid(Initial())
  {}

  // ---- What follows for every run -------------------------------------------------------------

  /** All processes that session k has launched are closed. */
  ghost predicate AllClosed(s: State, k: nat) {
    forall p: nat :: p < |s.procs| && s.procs[p].owner == k ==> !s.procs[p].open
  }

  /** At each launch, and when the goroutine has returned, every process it
      ever launched is closed; in between at most one is open. */
  lemma ClosedBeforeLaunch(steps: seq<Step>, k: nat)
    requires Legal(Initial(), steps)
    requires k < |Execute(Initial(), steps).objs|
    requires var o := Execute(Initial(), steps).objs[k]; o.pc.BeforeLaunch() || o.pc.Launching? || o.pc.Returned?
    ensures AllClosed(Execute(Initial(), steps), k)
  {
    InitialIsValid();
    RunIsValid(Initial(), steps);
    var s := Execute(Initial(), steps);
    forall p: nat | p < |s.procs| && s.procs[p].owner == k ensures !s.procs[p].open {
      assert ProcessValid(s, p);
    }
  }

  lemma OneOpenProcess(steps: seq<Step>, p: nat, q: nat)
    requires Legal(Initial(), steps)
    requires var s := Execute(Initial(), steps);
      p < |s.procs| && q < |s.procs| && s.procs[p].owner == s.procs[q].owner && s.procs[p].open && s.procs[q].open
    ensures p == q
  {
    InitialIsValid();
    RunIsValid(Initial(), steps);
    var s := Execute(Initial(), steps);
    assert ProcessValid(s, p) && ProcessValid(s, q);
  }

  /** A goroutine that has returned has left the map. */
  lemma ReturnedIsUnmapped(steps: seq<Step>, k: nat)
    requires Legal(Initial(), steps)
    requires k < |Execute(Initial(), steps).objs| && Execute(Initial(), steps).objs[k].pc.Returned?
    ensures !Mapped(Execute(Initial(), steps), k)
  {
    InitialIsValid();
    RunIsValid(Initial(), steps);
    assert SessionValid(Execute(Initial(), steps), k);
  }

  lemma StepUnmapped(s: State, t: Step, k: nat)
    requires Valid(s) && Enabled(s, t) && k < |s.objs| && !Mapped(s, k)
    ensures var r := Next(s, t);
      && k < |r.objs| && !Mapped(r, k)
      && r.objs[k].attached == s.objs[k].attached && r.objs[k].process == s.objs[k].process
  {
    hide SessionValid, ProcessValid, Apply, EffectOf, StopEffect;
    if t.Run? {
      RunKeepsId(s.objs[t.k], t.event, s.now, Mapped(s, t.k), |s.procs|);
    }
  }

  /** Once stop or remove has taken a session out of the map, it never comes
      back and no process is attached to it any more. */
  lemma {:induction false} NoAttachAfterStop(s: State, steps: seq<Step>, k: nat)
    requires Valid(s) && Legal(s, steps) && k < |s.objs| && !Mapped(s, k)
    ensures var r := Execute(s, steps);
      && k < |r.objs| && !Mapped(r, k)
      && r.objs[k].attached == s.objs[k].attached && r.objs[k].process == s.objs[k].process
    decreases |steps|
  {
    if steps != [] {
      StepKeeps(s, steps[0]);
      StepUnmapped(s, steps[0], k);
      hide Valid, Next, Enabled, Mapped;
      NoAttachAfterStop(Next(s, steps[0]), steps[1..], k);
    }
  }

  lemma ClosesItsOwn(s: State, t: Step, k: nat, p: nat)
    requires k < |s.objs| && SessionValid(s, k) && p < |s.procs| && s.procs[p].owner != k
    requires t.Run? ==> EventEnabled(s.objs[k], t.event)
    requires t.StopWork? ==> t.j < |s.stops|
    ensures t.Run? ==> EffectOf(s.objs[k], t.event) != Close(p)
    ensures t.StopWork? ==> StopEffect(s.objs[k], s.stops[t.j].stage) != Close(p)
  {}

  /** A goroutine, or a stop request, for one session does nothing to any other
      session, even one registered under the same id later: not to its map
      entry, not to its fields, not to its processes. */
  lemma SuccessorUntouched(s: State, t: Step, k: nat, other: nat)
    requires Valid(s) && Enabled(s, t) && other < |s.objs| && other != k
    requires (t.Run? && t.k == k) || (t.StopWork? && s.stops[t.j].session == k)
    ensures var r := Next(s, t);
      && r.objs[other] == s.objs[other] && (Mapped(r, other) <==> Mapped(s, other))
      && forall p: nat :: p < |s.procs| && s.procs[p].owner == other ==> r.procs[p] == s.procs[p]
  {
    var r := Next(s, t);
    var f := if t.Run? then EffectOf(s.objs[k], t.event) else StopEffect(s.objs[k], s.stops[t.j].stage);
    assert SessionValid(s, k);
    hide Counted, RejectedOnce, FirstLaunch, TerminateSeen, Attaches, RestartsCounted, RunStep;
    forall p: nat | p < |s.procs| && s.procs[p].owner == other ensures r.procs[p] == s.procs[p] {
      ClosesItsOwn(s, t, k, p);
      ApplyKeeps(s.procs, k, f, p);
    }
  }

  /** 1 if a launch may still be called although the session has ended. */
  function Late(o: Session): nat {
    if o.pc.Passed? then 1 else 0
  }

  lemma RunEnded(o: Session, e: RunEvent, now: nat, mapped: bool, nextProc: nat)
    requires EventEnabled(o, e) && o.Ended()
    ensures var p := RunStep(o, e, now, mapped, nextProc); p.Ended() && p.launches + Late(p) == o.launches + Late(o)
    ensures !o.pc.Passed? ==> !RunStep(o, e, now, mapped, nextProc).pc.Passed?
  {}

  lemma StepEnded(s: State, t: Step, k: nat)
    requires Enabled(s, t) && k < |s.objs| && s.objs[k].Ended()
    ensures var r := Next(s, t);
      && k < |r.objs| && r.objs[k].Ended()
      && r.objs[k].launches + Late(r.objs[k]) == s.objs[k].launches + Late(s.objs[k])
    ensures !s.objs[k].pc.Passed? ==> !Next(s, t).objs[k].pc.Passed?
  {
    hide Mapped, RunStep;
    if t.Run? && t.k == k {
      RunEnded(s.objs[k], t.event, s.now, Mapped(s, k), |s.procs|);
    }
  }

  /** Once a session is cancelled or asked to terminate, Launch is called at
      most once more: exactly if the goroutine had passed its test already, and
      then as its next step. */
  lemma {:induction false} LaunchesAfterEnd(s: State, steps: seq<Step>, k: nat)
    requires Legal(s, steps) && k < |s.objs| && s.objs[k].Ended()
    ensures k < |Execute(s, steps).objs|
    ensures var r := Execute(s, steps).objs[k];
      r.launches == s.objs[k].launches + if s.objs[k].pc.Passed? && !r.pc.Passed? then 1 else 0
    decreases |steps|
  {
    EndedRun(s, steps, k);
    if !s.objs[k].pc.Passed? {
      PassedRun(s, steps, k);
    }
  }

  lemma {:induction false} EndedRun(s: State, steps: seq<Step>, k: nat)
    requires Legal(s, steps) && k < |s.objs| && s.objs[k].Ended()
    ensures k < |Execute(s, steps).objs|
    ensures var r := Execute(s, steps).objs[k]; r.launches + Late(r) == s.objs[k].launches + Late(s.objs[k])
    decreases |steps|
  {
    if steps != [] {
      StepEnded(s, steps[0], k);
      hide Next, Enabled, Late;
      EndedRun(Next(s, steps[0]), steps[1..], k);
    }
  }

  /** The test does not pass any more. */
  lemma {:induction false} PassedRun(s: State, steps: seq<Step>, k: nat)
    requires Legal(s, steps) && k < |s.objs| && s.objs[k].Ended() && !s.objs[k].pc.Passed?
    ensures k < |Execute(s, steps).objs| && !Execute(s, steps).objs[k].pc.Passed?
    decreases |steps|
  {
    if steps != [] {
      StepEnded(s, steps[0], k);
      hide Next, Enabled;
      PassedRun(Next(s, steps[0]), steps[1..], k);
    }
  }

  lemma StepRemembers(s: State, t: Step, k: nat)
    requires Enabled(s, t) && k < |s.objs| && s.objs[k].terminateRequested && s.objs[k].saidTerminate
    ensures k < |Next(s, t).objs| && Next(s, t).objs[k].terminateRequested && Next(s, t).objs[k].saidTerminate
  {
    hide Mapped;
  }

  /** The worker's session_terminate sets the flag, for good. */
  lemma {:induction false} TerminateIsRemembered(s: State, steps: seq<Step>, k: nat)
    requires Valid(s) && Legal(s, steps) && k < |s.objs| && s.objs[k].saidTerminate
    ensures var r := Execute(s, steps); k < |r.objs| && r.objs[k].terminateRequested && r.objs[k].saidTerminate
    decreases |steps|
  {
    assert SessionValid(s, k);
    if steps != [] {
      StepKeeps(s, steps[0]);
      StepRemembers(s, steps[0], k);
      hide Valid, Next, Enabled, SessionValid;
      TerminateIsRemembered(Next(s, steps[0]), steps[1..], k);
    }
  }

  /** A worker that has sent session_terminate is never relaunched. */
  lemma NoRelaunchAfterTerminate(before: seq<Step>, after: seq<Step>, k: nat)
    requires Legal(Initial(), before) && Legal(Execute(Initial(), before), after)
    requires k < |Execute(Initial(), before).objs| && Execute(Initial(), before).objs[k].saidTerminate
    ensures k < |Execute(Execute(Initial(), before), after).objs|
    ensures Execute(Execute(Initial(), before), after).objs[k].launches == Execute(Initial(), before).objs[k].launches
  {
    InitialIsValid();
    RunIsValid(Initial(), before);
    var s := Execute(Initial(), before);
    assert SessionValid(s, k);
    LaunchesAfterEnd(s, after, k);
  }

  // ---- A launch after a stop -----------------------------------------------------------------

  /** A run in which the goroutine passes its test, and a stop request runs to
      its end before Launch is called. */
  function BeforeTheStop(id: Id): seq<Step> {
    [Offer(id), Run(0, Start), Run(0, CheckTop)]
  }

  function TheStop(id: Id): seq<Step> {
    [Stop(id), StopWork(0), StopWork(0), StopWork(0)]
  }

  /** Launch is called all the same. */
  lemma LaunchAfterStop(id: Id)
    ensures Legal(Initial(), BeforeTheStop(id)) && Legal(Execute(Initial(), BeforeTheStop(id)), TheStop(id))
    ensures var t := Execute(Execute(Initial(), BeforeTheStop(id)), TheStop(id));
      && t.stops == [Stopper(0, 3)] && |t.objs| == 1
      && t.objs[0].terminateRequested && t.objs[0].cancelled && t.objs[0].launches == 0
      && Enabled(t, Run(0, CallLaunch)) && Next(t, Run(0, CallLaunch)).objs[0].launches == 1
  {
    var s0 := Initial();
    var s1 := Next(s0, Offer(id));
    var s2 := Next(s1, Run(0, Start));
    var s3 := Next(s2, Run(0, CheckTop));
    Unroll(s0, Offer(id), [Run(0, Start), Run(0, CheckTop)]);
    Unroll(s1, Run(0, Start), [Run(0, CheckTop)]);
    Unroll(s2, Run(0, CheckTop), []);
    assert s3.objs[0].pc.Passed? && s3.sessions == map[id := 0];
    assert [Offer(id)] + [Run(0, Start), Run(0, CheckTop)] == BeforeTheStop(id);
    assert [Run(0, Start)] + [Run(0, CheckTop)] == [Run(0, Start), Run(0, CheckTop)];
    assert [Run(0, CheckTop)] + [] == [Run(0, CheckTop)];
    StopRuns(s3, id);
  }

  lemma Unroll(s: State, t: Step, more: seq<Step>)
    ensures Legal(s, [t] + more) <==> Enabled(s, t) && Legal(Next(s, t), more)
    ensures Enabled(s, t) && Legal(Next(s, t), more) ==> Execute(s, [t] + more) == Execute(Next(s, t), more)
  {
    hide Next, Enabled;
    assert ([t] + more)[1..] == more;
  }

  lemma StopRuns(s: State, id: Id)
    requires s.sessions == map[id := 0] && |s.objs| == 1 && s.objs[0].process == None && s.stops == []
    ensures Legal(s, TheStop(id))
    ensures Execute(s, TheStop(id)) == s.(sessions := map[], stops := [Stopper(0, 3)],
      objs := [s.objs[0].(terminateRequested := true, cancelled := true)])
  {
    var s1 := Next(s, Stop(id));
    var s2 := Next(s1, StopWork(0));
    var s3 := Next(s2, StopWork(0));
    var s4 := Next(s3, StopWork(0));
    Unroll(s, Stop(id), [StopWork(0), StopWork(0), StopWork(0)]);
    Unroll(s1, StopWork(0), [StopWork(0), StopWork(0)]);
    Unroll(s2, StopWork(0), [StopWork(0)]);
    Unroll(s3, StopWork(0), []);
    assert [StopWork(0)] + [] == [StopWork(0)];
    assert [StopWork(0)] + [StopWork(0)] == [StopWork(0), StopWork(0)];
    assert [StopWork(0)] + [StopWork(0), StopWork(0)] == [StopWork(0), StopWork(0), StopWork(0)];
    assert [Stop(id)] + [StopWork(0), StopWork(0), StopWork(0)] == TheStop(id);
    assert s4.sessions == map[];
    assert s4.objs == [s.objs[0].(terminateRequested := true, cancelled := true)];
  }

  // ---- Why a goroutine leaves, and when it goes on --------------------------------------------

  /** A stop request has taken the session out of the map. */
  ghost predicate Stopped(s: State, k: nat) {
    exists j :: 0 <= j < |s.stops| && s.stops[j].session == k
  }

  ghost predicate Explained(s: State, k: nat)
    requires k < |s.objs|
  {
    && (s.objs[k].pc.Discarding? ==> s.objs[k].Ended() || Stopped(s, k))
    && (!Mapped(s, k) ==> Stopped(s, k) || s.objs[k].pc.CleaningUp? || s.objs[k].pc.Returned?)
    && (Stopped(s, k) || CleanedUp(s.objs[k]))
  }

  /** How far stopProcess has come. */
  predicate CleanedUp(o: Session) {
    && ((o.pc.CleaningUp? && o.pc.stage > 0) || o.pc.Returned? ==> o.terminateRequested)
    && ((o.pc.CleaningUp? && o.pc.stage > 1) || o.pc.Returned? ==> o.cancelled)
  }

  lemma StaysStopped(s: State, t: Step, k: nat)
    requires Enabled(s, t) && Stopped(s, k)
    ensures Stopped(Next(s, t), k)
  {
    hide Mapped, RunStep, EffectOf, StopEffect, StopAction;
    var j :| 0 <= j < |s.stops| && s.stops[j].session == k;
    assert Next(s, t).stops[j].session == k;
  }

  lemma RunExplained(o: Session, e: RunEvent, now: nat, mapped: bool, nextProc: nat)
    requires EventEnabled(o, e)
    ensures var r := RunStep(o, e, now, mapped, nextProc);
      && (r.pc.Discarding? && !r.Ended() ==> !mapped || (o.pc.Discarding? && !o.Ended()))
      && (o.pc.CleaningUp? || o.pc.Returned? ==> r.pc.CleaningUp? || r.pc.Returned?)
      && (e.RemoveSelf? && mapped ==> r.pc.CleaningUp?) && (o.Ended() ==> r.Ended())
      && (CleanedUp(o) && (mapped || !e.RemoveSelf?) ==> CleanedUp(r))
  {}

  lemma StepExplains(s: State, t: Step, k: nat)
    requires Valid(s) && Enabled(s, t) && k < |s.objs| && Explained(s, k)
    ensures k < |Next(s, t).objs| && Explained(Next(s, t), k)
  {
    var r := Next(s, t);
    if Stopped(s, k) {
      StaysStopped(s, t, k);
    } else {
      if t.Run? {
        RunExplained(s.objs[t.k], t.event, s.now, Mapped(s, t.k), |s.procs|);
        RunKeepsId(s.objs[t.k], t.event, s.now, Mapped(s, t.k), |s.procs|);
      }
      if t.Stop? && Mapped(s, k) && !Mapped(r, k) {
        assert r.stops[|s.stops|].session == k;
      }
    }
    hide RunStep, SessionValid, ProcessValid;
    if !Stopped(s, k) && t.StopWork? {
      assert s.stops[t.j].session != k;
    }
  }

  lemma {:induction false} AllExplained(s: State, steps: seq<Step>)
    requires Valid(s) && Legal(s, steps) && forall k: nat :: k < |s.objs| ==> Explained(s, k)
    ensures forall k: nat :: k < |Execute(s, steps).objs| ==> Explained(Execute(s, steps), k)
    decreases |steps|
  {
    if steps != [] {
      var t, r := steps[0], Next(s, steps[0]);
      StepKeeps(s, t);
      forall k: nat | k < |r.objs| ensures Explained(r, k) {
        if k < |s.objs| {
          StepExplains(s, t, k);
        } else {
          assert t.Offer? && Mapped(r, k) && r.objs[k].pc.Begin?;
        }
      }
      hide Next, Valid, Explained, Enabled;
      AllExplained(r, steps[1..]);
    }
  }

  /** A goroutine that has returned has left the map, closed every process, and
      marked and cancelled its session, unless a stop request has that to do. */
  lemma ReturnedIsDone(steps: seq<Step>, k: nat)
    requires Legal(Initial(), steps)
    requires k < |Execute(Initial(), steps).objs| && Execute(Initial(), steps).objs[k].pc.Returned?
    ensures var s := Execute(Initial(), steps);
      && !Mapped(s, k) && AllClosed(s, k)
      && (Stopped(s, k) || (s.objs[k].terminateRequested && s.objs[k].cancelled))
  {
    InitialIsValid();
    RunIsValid(Initial(), steps);
    AllExplained(Initial(), steps);
    ReturnedIsUnmapped(steps, k);
    ClosedBeforeLaunch(steps, k);
    assert Explained(Execute(Initial(), steps), k);
  }

  /** A goroutine leaves only because its session has been cancelled, asked to
      terminate or stopped, because its very first launch failed, or because in
      the sixty seconds of a window three launches more have come to an end. */
  lemma LeavesForAReason(steps: seq<Step>, t: Step, k: nat)
    requires Legal(Initial(), steps) && Enabled(Execute(Initial(), steps), t) && k < |Execute(Initial(), steps).objs|
    requires !Execute(Initial(), steps).objs[k].pc.Leaving()
    requires k < |Next(Execute(Initial(), steps), t).objs| && Next(Execute(Initial(), steps), t).objs[k].pc.Leaving()
    ensures var s := Execute(Initial(), steps); var o, p := s.objs[k], Next(s, t).objs[k];
      || o.Ended() || Stopped(s, k)
      || (o.launches == 1 && o.attached == 0 && p.rejections == 1)
      || (p.restarts == 4 && p.launches == p.earlier + 3 && s.now - p.restartWindow < 60_000_000_000)
  {
    InitialIsValid();
    RunIsValid(Initial(), steps);
    AllExplained(Initial(), steps);
    var s := Execute(Initial(), steps);
    hide Execute, Legal;
    assert SessionValid(s, k) && Explained(s, k);
    hide Stopped, Valid;
    assert t.Run? && t.k == k;
    Leaves(s.objs[k], t.event, s.now, Mapped(s, k), |s.procs|);
  }

  lemma Leaves(o: Session, e: RunEvent, now: nat, mapped: bool, nextProc: nat)
    requires EventEnabled(o, e) && Counted(o, now) && FirstLaunch(o) && RejectedOnce(o) && RestartsCounted(o)
    requires !o.pc.Leaving() && RunStep(o, e, now, mapped, nextProc).pc.Leaving()
    ensures var p := RunStep(o, e, now, mapped, nextProc);
      || o.Ended() || o.pc.Discarding?
      || (o.launches == 1 && o.attached == 0 && p.rejections == 1)
      || (p.restarts == 4 && p.launches == p.earlier + 3 && now - p.restartWindow < 60_000_000_000)
  {}

  /** A goroutine that has not returned can always go on. */
  lemma NeverStuck(o: Session)
    requires !o.pc.Returned?
    ensures exists e :: EventEnabled(o, e)
  {
    match o.pc
    case Begin => assert EventEnabled(o, Start);
    case Check => assert EventEnabled(o, CheckTop);
    case Passed => assert EventEnabled(o, CallLaunch);
    case Launching => assert EventEnabled(o, LaunchReturns(true)) && EventEnabled(o, LaunchReturns(false));
    case Launched(_) => assert EventEnabled(o, TakeLock);
    case Backoff => assert EventEnabled(o, BackoffEnds(false));
    case Serving(_) => assert EventEnabled(o, ServeEnds) && EventEnabled(o, WorkerTerminates);
    case Closing(_) => assert EventEnabled(o, CloseProcess);
    case Discarding(_) => assert EventEnabled(o, CloseProcess);
    case Closed => assert EventEnabled(o, Decide);
    case Pause => assert EventEnabled(o, PauseEnds(false));
    case Removing => assert EventEnabled(o, RemoveSelf);
    case CleaningUp(_) => assert EventEnabled(o, CleanUp);
  }

  /** There is still a restart left, in this window or in a new one. */
  predicate RestartsLeft(o: Session, now: nat) {
    o.restarts < 3 || now - o.restartWindow >= 60_000_000_000
  }

  /** How many steps of its own a goroutine is away from calling Launch, when
      nobody ends its session; 0 if it is not on the way. */
  function ToLaunch(o: Session): nat {
    match o.pc
    case Serving(_) => 6
    case Closing(_) => 5
    case Closed => 4
    case Begin => 3
    case Backoff => 3
    case Pause => 3
    case Check => 2
    case Passed => 1
    case _ => 0
  }

  /** It may have to count a restart on that way. */
  predicate MayGoOn(o: Session, now: nat) {
    o.pc.Serving? || o.pc.Closing? || o.pc.Closed? || o.pc.Backoff? ==> RestartsLeft(o, now)
  }

  lemma RunTowardsLaunch(o: Session, e: RunEvent, now: nat, mapped: bool, nextProc: nat)
    requires EventEnabled(o, e) && ToLaunch(o) > 0 && MayGoOn(o, now) && !RunStep(o, e, now, mapped, nextProc).Ended()
    ensures var p := RunStep(o, e, now, mapped, nextProc);
      && ToLaunch(p) == ToLaunch(o) - 1 && p.launches == o.launches + (if ToLaunch(o) == 1 then 1 else 0)
      && (ToLaunch(p) > 0 ==> MayGoOn(p, now)) && !o.Ended()
  {}

  lemma StepTowardsLaunch(s: State, t: Step, k: nat)
    requires Enabled(s, t) && k < |s.objs| && ToLaunch(s.objs[k]) > 0 && MayGoOn(s.objs[k], s.now)
    requires !Next(s, t).objs[k].Ended()
    ensures var r := Next(s, t); var o, p := s.objs[k], r.objs[k]; var own := if t.Run? && t.k == k then 1 else 0;
      && ToLaunch(p) == ToLaunch(o) - own && p.launches == o.launches + (if ToLaunch(p) == 0 then 1 else 0)
      && (ToLaunch(p) > 0 ==> MayGoOn(p, r.now)) && !o.Ended()
  {
    hide Mapped, EffectOf, StopEffect, RunStep;
    if t.Run? && t.k == k {
      RunTowardsLaunch(s.objs[k], t.event, s.now, Mapped(s, k), |s.procs|);
    }
  }

  /** How many of the steps are session k's own. */
  function Own(steps: seq<Step>, k: nat): nat
    decreases |steps|
  {
    if steps == [] then 0 else (if steps[0].Run? && steps[0].k == k then 1 else 0) + Own(steps[1..], k)
  }

  lemma {:induction false} EndedStays(s: State, steps: seq<Step>, k: nat)
    requires Legal(s, steps) && k < |s.objs| && s.objs[k].Ended()
    ensures k < |Execute(s, steps).objs| && Execute(s, steps).objs[k].Ended()
    decreases |steps|
  {
    if steps != [] {
      StepEnded(s, steps[0], k);
      hide Next, Enabled;
      EndedStays(Next(s, steps[0]), steps[1..], k);
    }
  }

  lemma {:induction false} SameSessions(s: State, steps: seq<Step>)
    requires Legal(s, steps)
    ensures |s.objs| <= |Execute(s, steps).objs|
    decreases |steps|
  {
    if steps != [] {
      assert |s.objs| <= |Next(s, steps[0]).objs|;
      hide Next, Enabled;
      SameSessions(Next(s, steps[0]), steps[1..]);
    }
  }

  /** A crashed worker is launched again: as long as nobody ends the session,
      and with a restart left, the goroutine's own next steps lead to Launch,
      whatever else happens in between. */
  lemma {:induction false} LaunchesAgain(s: State, steps: seq<Step>, k: nat)
    requires Legal(s, steps) && k < |s.objs| <= |Execute(s, steps).objs| && !Execute(s, steps).objs[k].Ended()
    requires ToLaunch(s.objs[k]) > 0 && MayGoOn(s.objs[k], s.now) && Own(steps, k) == ToLaunch(s.objs[k])
    ensures Execute(s, steps).objs[k].launches == s.objs[k].launches + 1 && Execute(s, steps).objs[k].pc.Launching?
    decreases |steps|
  {
    var t, r := steps[0], Next(s, steps[0]);
    SameSessions(r, steps[1..]);
    if r.objs[k].Ended() {
      EndedStays(r, steps[1..], k);
    } else {
      StepTowardsLaunch(s, t, k);
      if ToLaunch(r.objs[k]) > 0 {
        hide Next, Enabled, ToLaunch, MayGoOn;
        LaunchesAgain(r, steps[1..], k);
      } else {
        WaitsForLaunch(r, steps[1..], k);
      }
    }
  }

  lemma {:induction false} WaitsForLaunch(s: State, steps: seq<Step>, k: nat)
    requires Legal(s, steps) && k < |s.objs| && Own(steps, k) == 0
    ensures k < |Execute(s, steps).objs| && Execute(s, steps).objs[k].pc == s.objs[k].pc
    ensures Execute(s, steps).objs[k].launches == s.objs[k].launches
    decreases |steps|
  {
    if steps != [] {
      var r := Next(s, steps[0]);
      assert k < |r.objs| && r.objs[k].pc == s.objs[k].pc && r.objs[k].launches == s.objs[k].launches by {
        hide RunStep, Mapped, EffectOf, StopEffect;
      }
      hide Next, Enabled;
      WaitsForLaunch(r, steps[1..], k);
    }
  }

  /** The launch rate of a session: by elapsed time t at most
      1 + 3 * (1 + t / 60 s) launches. */
  lemma LaunchRate(steps: seq<Step>, k: nat)
    requires Legal(Initial(), steps) && k < |Execute(Initial(), steps).objs|
    ensures var s := Execute(Initial(), steps);
      s.now >= s.objs[k].born && s.objs[k].launches <= 1 + 3 * (1 + (s.now - s.objs[k].born) / 60_000_000_000)
  {
    InitialIsValid();
    RunIsValid(Initial(), steps);
    var s := Execute(Initial(), steps);
    assert SessionValid(s, k);
    hide Valid, SessionValid, Execute, Legal;
    WindowsPassed(s.objs[k].resets, s.now - s.objs[k].born);
  }

  lemma WindowsPassed(n: nat, t: int)
    requires WINDOW * n <= t
    ensures n <= t / WINDOW
  {}

  lemma Rejections(steps: seq<Step>, k: nat)
    requires Legal(Initial(), steps) && k < |Execute(Initial(), steps).objs|
    ensures var o := Execute(Initial(), steps).objs[k]; o.rejections <= 1 && (o.rejections == 1 ==> o.attached == 0)
  {
    InitialIsValid();
    RunIsValid(Initial(), steps);
    assert SessionValid(Execute(Initial(), steps), k);
  }

  // ---- Stop requests -----------------------------------------------------------------------

  /** How far a stop request has come. */
  ghost predicate StopDone(s: State, j: nat)
    requires j < |s.stops|
  {
    var k, stage := s.stops[j].session, s.stops[j].stage;
    && k < |s.objs| && !Mapped(s, k)
    && (stage >= 1 ==> s.objs[k].terminateRequested)
    && (stage >= 2 ==> s.objs[k].cancelled)
    && (stage >= 3 ==> ProcessClosed(s, k))
  }

  predicate ProcessClosed(s: State, k: nat)
    requires k < |s.objs|
  {
    s.objs[k].process.Some? ==> s.objs[k].process.value < |s.procs| && !s.procs[s.objs[k].process.value].open
  }

  /** Flags are never taken back and closed processes are never reopened. */
  lemma Monotone(s: State, t: Step, k: nat)
    requires Valid(s) && Enabled(s, t) && k < |s.objs|
    ensures var r := Next(s, t);
      && k < |r.objs|
      && (s.objs[k].terminateRequested ==> r.objs[k].terminateRequested)
      && (s.objs[k].cancelled ==> r.objs[k].cancelled)
  {
    hide Valid, Mapped;
  }

  lemma StaysClosed(s: State, t: Step, p: nat)
    requires Enabled(s, t) && p < |s.procs| && !s.procs[p].open
    ensures p < |Next(s, t).procs| && !Next(s, t).procs[p].open
  {
    hide RunStep, EffectOf, StopEffect, StopAction, Mapped;
    if t.Run? {
      ApplyKeeps(s.procs, t.k, EffectOf(s.objs[t.k], t.event), p);
    } else if t.StopWork? {
      ApplyKeeps(s.procs, s.stops[t.j].session, StopEffect(s.objs[s.stops[t.j].session], s.stops[t.j].stage), p);
    }
  }

  lemma StopDoneKept(s: State, t: Step, j: nat)
    requires Valid(s) && Enabled(s, t) && j < |s.stops| && StopDone(s, j)
    ensures j < |Next(s, t).stops| && StopDone(Next(s, t), j)
  {
    var k := s.stops[j].session;
    StepUnmapped(s, t, k);
    Monotone(s, t, k);
    if s.objs[k].process.Some? && s.stops[j].stage >= 3 {
      StaysClosed(s, t, s.objs[k].process.value);
    }
    if t == StopWork(j) {
      assert SessionValid(s, k);
    }
    hide Mapped, SessionValid, RunStep, EffectOf, ProcessValid;
  }

  lemma {:induction false} StopsDone(s: State, steps: seq<Step>)
    requires Valid(s) && Legal(s, steps) && forall j: nat :: j < |s.stops| ==> StopDone(s, j)
    ensures forall j: nat :: j < |Execute(s, steps).stops| ==> StopDone(Execute(s, steps), j)
    decreases |steps|
  {
    if steps != [] {
      var t, r := steps[0], Next(s, steps[0]);
      StepKeeps(s, t);
      forall j: nat | j < |r.stops| ensures StopDone(r, j) {
        if j < |s.stops| {
          StopDoneKept(s, t, j);
        } else {
          assert t.Stop? && r.stops[j] == Stopper(s.sessions[t.id], 0);
        }
      }
      hide Next, Valid, StopDone, Enabled;
      StopsDone(r, steps[1..]);
    }
  }

  /** Once a stop request has returned, its session is out of the map, marked
      and cancelled, and the process attached to it is closed. */
  lemma StoppedForGood(steps: seq<Step>, j: nat)
    requires Legal(Initial(), steps) && j < |Execute(Initial(), steps).stops|
    requires Execute(Initial(), steps).stops[j].stage >= 3
    ensures var s := Execute(Initial(), steps); var k := s.stops[j].session;
      && k < |s.objs| && !Mapped(s, k) && s.objs[k].terminateRequested && s.objs[k].cancelled && ProcessClosed(s, k)
      && (s.objs[k].pc.Serving? ==> s.objs[k].pc.p < |s.procs| && !s.procs[s.objs[k].pc.p].open)
  {
    InitialIsValid();
    RunIsValid(Initial(), steps);
    StopsDone(Initial(), steps);
    assert SessionValid(Execute(Initial(), steps), Execute(Initial(), steps).stops[j].session);
    assert StopDone(Execute(Initial(), steps), j);
  }
}
