/** The sign-in tile. The LogonUI thread runs the callbacks, one worker thread
    talks to the server, and they share the worker's results under one lock.
    Every stretch of code between two lock operations is one step; between the
    steps of a callback the worker may take any number of its own. */
module CredentialTile {

  datatype Mode = MODE_FIDO2 | MODE_PUSH | MODE_OTP

  datatype Job = JobNone | JobStartPush | JobWebAuthnBegin | JobVerifyOtp

  datatype ServerError = NoError | NetworkError | OtherError(code: nat)

  datatype Status = NoStatus | Approved | Denied | Expired | TimedOut

  /** What a status request comes back with. */
  datatype PollAnswer = RequestFailed | Pending | Decided(status: Status) {
    predicate Final() {
      Decided? && status in {Approved, Denied, Expired}
    }
  }

  /** What the server would answer to the next request, whichever that is. */
  datatype ServerAnswer = ServerAnswer(satisfied: bool, ok: bool, error: ServerError, poll: PollAnswer)

  datatype WorkerState = WorkerState(stop: bool, beginDone: bool, beginOk: bool, beginError: ServerError,
                                     done: bool, status: Status)

  function NewWorkerState(): WorkerState {
    WorkerState(false, false, false, NoError, false, NoStatus)
  }

  /** Where the worker thread is. */
  datatype Worker =
    | NoThread
    | Starting
    | AskGate(job: Job)
    | GateAnswered(job: Job, satisfied: bool)
    | CallBegin(job: Job)
    | BeginAnswered(job: Job, ok: bool, error: ServerError)
    | Waiting(job: Job, i: nat, slice: nat)
    | CallPoll(job: Job, i: nat)
    | PollAnswered(job: Job, i: nat, answer: PollAnswer)
    | AfterPoll(job: Job, i: nat)
    | OutOfTime(job: Job)
    | Finished
  {
    predicate HasJob() {
      !NoThread? && !Starting? && !Finished?
    }

    predicate Polls() {
      Waiting? || CallPoll? || PollAnswered? || AfterPoll? || OutOfTime?
    }
  }

  /** An answer of the server to the worker of one generation, or what the
      LogonUI thread has done: set a job up, changed the mode, handed the
      credential to Windows. */
  datatype Event =
    | GateSatisfied(gen: nat)
    | OtpAccepted(gen: nat)
    | ChallengeApproved(gen: nat, job: Job)
    | BeginFailed(gen: nat, job: Job, error: ServerError)
    | JobSet(job: Job)
    | Switched(mode: Mode)
    | HandedOver(why: Reason)
  {
    predicate Answer() {
      GateSatisfied? || OtpAccepted? || ChallengeApproved? || BeginFailed?
    }
  }

  predicate Positive(e: Event) {
    e.GateSatisfied? || e.OtpAccepted? || e.ChallengeApproved?
  }

  datatype Response = NotFinished | CredentialFinished

  /** Why a credential was handed to Windows. */
  datatype Reason =
    | NoReason
    | BypassAccount(user: string, domain: string)
    | FactorConfirmed
    | FailOpen(gen: nat, job: Job)

  datatype Field = FID_USERNAME | FID_PASSWORD | FID_OTP_CODE | FID_FIDO2_BTN | FID_SWITCH_FACTOR_BTN | OtherField

  function JobFor(m: Mode): Job {
    match m
    case MODE_FIDO2 => JobWebAuthnBegin
    case MODE_PUSH => JobStartPush
    case MODE_OTP => JobVerifyOtp
  }

  /** Where the first c stands in s, or |s|. */
  function IndexOf(s: string, c: char): (i: nat)
    ensures i <= |s| && (i < |s| ==> s[i] == c)
  {
    if s == [] || s[0] == c then 0 else 1 + IndexOf(s[1..], c)
  }

  /** Splits DOMAIN\user or user@domain. */
  function SplitName(raw: string): (r: (string, string)) {
    var slash, at := IndexOf(raw, '\\'), IndexOf(raw, '@');
    if slash < |raw| then (raw[slash + 1..], raw[..slash])
    else if 0 < at && at + 1 < |raw| then (raw[..at], raw[at + 1..])
    else (raw, "")
  }

  lemma {:induction false} IndexIsFirst(s: string, c: char)
    ensures c !in s[..IndexOf(s, c)] && (c in s ==> IndexOf(s, c) < |s|)
  {
    if s != [] && s[0] != c {
      IndexIsFirst(s[1..], c);
      var i := IndexOf(s[1..], c);
      assert s[..1 + i] == [s[0]] + s[1..][..i];
    }
  }

  /** The domain is what stands before the first backslash; without one, what
      stands after the first @, unless that is at either end of the name;
      otherwise there is none. Put together again they give the name. */
  lemma NameParts(raw: string)
    ensures var (user, domain) := SplitName(raw);
      && ('\\' in raw ==> raw == domain + "\\" + user && '\\' !in domain)
      && ('\\' !in raw && domain != "" ==> raw == user + "@" + domain && user != "" && '@' !in user)
      && ('\\' !in raw && domain == "" ==>
            user == raw && ('@' in raw ==> raw[0] == '@' || (raw[|raw| - 1] == '@' && '@' !in raw[..|raw| - 1])))
  {
    IndexIsFirst(raw, '\\');
    IndexIsFirst(raw, '@');
    var slash, at := IndexOf(raw, '\\'), IndexOf(raw, '@');
    if slash < |raw| {
      assert raw == raw[..slash] + [raw[slash]] + raw[slash + 1..];
    } else if at < |raw| {
      assert raw == raw[..at] + [raw[at]] + raw[at + 1..];
    }
  }

  /** When the parts as they are shown again are what was entered. */
  lemma SameName(raw: string)
    ensures var (user, domain) := SplitName(raw);
      (if domain == "" then user else domain + "\\" + user) == raw
      <==> raw == "" || if '\\' in raw then raw[0] != '\\' else domain == ""
  {
    NameParts(raw);
    IndexIsFirst(raw, '\\');
    var (user, domain) := SplitName(raw);
    if '\\' in raw {
      assert domain == raw[..IndexOf(raw, '\\')];
    } else if domain != "" {
      assert (domain + "\\" + user)[|domain|] == '\\';
    }
  }

  datatype Config = Config(
    failClose: bool, fido2Enabled: bool, defaultFactor: int, pushTimeoutSec: int,
    remoteSession: bool, credUi: bool,
    isBypassAccount: (string, string) -> bool,  // IsBypassAccount of the configuration
    sameName: (string, string) -> bool)         // comparison that ignores case

  function DefaultMode(cfg: Config): Mode {
    if cfg.credUi then if cfg.defaultFactor == 2 then MODE_OTP else MODE_PUSH
    else if cfg.defaultFactor == 1 && cfg.fido2Enabled then MODE_FIDO2
    else if cfg.defaultFactor == 2 then MODE_OTP
    else MODE_PUSH
  }

  // ---- The timeline --------------------------------------------------------------------

  /** The server has confirmed the second factor at some time. */
  ghost predicate Confirmed(log: seq<Event>) {
    exists e :: e in log && Positive(e)
  }

  /** How many jobs have been set up. */
  ghost function JobsIn(log: seq<Event>): nat {
    if log == [] then 0 else JobsIn(log[..|log| - 1]) + if log[|log| - 1].JobSet? then 1 else 0
  }

  /** The mode of a tile after a timeline. */
  ghost function ModeAfter(first: Mode, log: seq<Event>): Mode {
    if log == [] then first
    else if log[|log| - 1].Switched? then log[|log| - 1].mode
    else ModeAfter(first, log[..|log| - 1])
  }

  /** The reasons of all credentials handed over, in order. */
  ghost function HandOvers(log: seq<Event>): seq<Reason> {
    if log == [] then []
    else HandOvers(log[..|log| - 1]) + if log[|log| - 1].HandedOver? then [log[|log| - 1].why] else []
  }

  /** A sound reason to hand over the credential after a timeline. */
  ghost predicate Sound(cfg: Config, log: seq<Event>, reason: Reason) {
    match reason
    case NoReason => false
    case BypassAccount(u, d) => cfg.isBypassAccount(u, d)
    case FactorConfirmed => Confirmed(log)
    case FailOpen(g, j) =>
      var mode := ModeAfter(DefaultMode(cfg), log);
      && !cfg.failClose && mode != MODE_FIDO2 && j == JobFor(mode) && g == JobsIn(log)
      && BeginFailed(g, j, NetworkError) in log
  }

  /** Whenever a credential was handed over, what had happened until then was
      a sound reason. */
  ghost predicate Justified(cfg: Config, log: seq<Event>) {
    forall k :: 0 <= k < |log| && log[k].HandedOver? ==> Sound(cfg, log[..k], log[k].why)
  }

  /** Time has gone on, and nothing has been handed over. */
  ghost predicate Quietly(before: seq<Event>, after: seq<Event>) {
    before <= after && HandOvers(after) == HandOvers(before)
  }

  /** A finished response, and no other one, is on the timeline, as the last
      entry. */
  ghost predicate Recorded(before: seq<Event>, log: seq<Event>, response: Response, reason: Reason) {
    if response.NotFinished? then Quietly(before, log)
    else log != [] && log[|log| - 1] == HandedOver(reason) && Quietly(before, log[..|log| - 1])
  }

  lemma Appended(first: Mode, log: seq<Event>, e: Event)
    ensures JobsIn(log + [e]) == JobsIn(log) + if e.JobSet? then 1 else 0
    ensures ModeAfter(first, log + [e]) == if e.Switched? then e.mode else ModeAfter(first, log)
    ensures HandOvers(log + [e]) == HandOvers(log) + if e.HandedOver? then [e.why] else []
  {
    assert (log + [e])[..|log|] == log;
  }

  lemma JustifiedNext(cfg: Config, log: seq<Event>, e: Event)
    requires Justified(cfg, log) && (e.HandedOver? ==> Sound(cfg, log, e.why))
    ensures Justified(cfg, log + [e])
  {
    hide Sound;
    var more := log + [e];
    assert more[..|log|] == log;
    forall k | 0 <= k < |more| && more[k].HandedOver? ensures Sound(cfg, more[..k], more[k].why) {
      assert k < |log| ==> more[..k] == log[..k];
    }
  }

  lemma StillConfirmed(before: seq<Event>, after: seq<Event>)
    requires before <= after
    ensures Confirmed(before) ==> Confirmed(after)
  {
    if Confirmed(before) {
      var e :| e in before && Positive(e);
      assert e in after;
    }
  }

  /** Handing over does not take the reason away. */
  lemma StillSound(cfg: Config, log: seq<Event>, reason: Reason)
    requires Sound(cfg, log, reason)
    ensures Sound(cfg, log + [HandedOver(reason)], reason)
  {
    Appended(DefaultMode(cfg), log, HandedOver(reason));
    StillConfirmed(log, log + [HandedOver(reason)]);
  }

  class LigamentCredential {
    const config: Config
    var currentMode: Mode
    var username: string
    var domain: string
    var password: string
    var otpCode: string
    var authenticated: bool
    var worker: WorkerState
    var job: Job
    var pc: Worker            // the worker thread; NoThread when there is no handle
    ghost var gen: nat        // how many jobs have been set up
    ghost var log: seq<Event> // what has happened so far

    function MaxPolls(): nat {
      if config.pushTimeoutSec < 0 then 0 else config.pushTimeoutSec
    }

    // ---- The invariant -----------------------------------------------------------

    /** No result has been published yet. */
    predicate NoResult()
      reads `worker
    {
      !worker.beginDone && !worker.done && worker.status == NoStatus
    }

    /** The worker's own knowledge, not yet published, is backed by the log. */
    ghost predicate AnswersLogged()
      reads `pc, `gen, `log
    {
      match pc
      case GateAnswered(j, satisfied) => satisfied ==> Confirmed(log)
      case BeginAnswered(j, ok, error) =>
        if ok then j == JobVerifyOtp ==> Confirmed(log) else BeginFailed(gen, j, error) in log
      case PollAnswered(j, i, answer) => answer == Decided(Approved) ==> Confirmed(log)
      case _ => true
    }

    ghost predicate InBounds()
      reads `pc
    {
      match pc
      case Waiting(j, i, slice) => i < MaxPolls() && slice < 4
      case CallPoll(j, i) => i < MaxPolls()
      case PollAnswered(j, i, answer) => i < MaxPolls()
      case AfterPoll(j, i) => i < MaxPolls()
      case _ => true
    }

    /** The timeline tells the mode and the number of jobs, and every credential
        was handed over for a sound reason. */
    ghost predicate Timeline()
      reads `currentMode, `gen, `log
    {
      && gen == JobsIn(log) && currentMode == ModeAfter(DefaultMode(config), log)
      && Justified(config, log)
    }

    /** What every step keeps: a live worker does the job of the current mode,
        only the latest job's results are there to be seen, and whatever they
        or the authenticated flag say has been answered by the server. */
    ghost predicate Valid()
      reads `pc, `job, `worker, `authenticated, `currentMode, `gen, `log
    {
      && (pc.HasJob() ==> pc.job == JobFor(currentMode))
      && (pc.Starting? ==> job == JobFor(currentMode))
      && (pc.Polls() ==> currentMode != MODE_OTP)
      && (!pc.Polls() && !pc.Finished? ==> NoResult())
      && InBounds() && AnswersLogged() && Timeline()
      && (authenticated ==> Confirmed(log))
      && (worker.status == Approved ==> Confirmed(log))
      && (worker.beginDone && worker.beginOk && currentMode == MODE_OTP ==> Confirmed(log))
      && (worker.beginDone && !worker.beginOk ==>
            BeginFailed(gen, JobFor(currentMode), worker.beginError) in log)
      && (worker.done && currentMode == MODE_OTP ==> worker.beginDone)
    }

    // ---- The worker thread ----------------------------------------------------------

    /** How many steps the worker can still take. */
    function Rank(): (r: nat)
      requires InBounds()
      reads `pc
    {
      var m := MaxPolls();
      match pc
      case NoThread => 0
      case Finished => 0
      case OutOfTime(_) => 1
      case AfterPoll(_, i) => 8 * (m - i) + 1
      case PollAnswered(_, i, _) => 8 * (m - i) + 2
      case CallPoll(_, i) => 8 * (m - i) + 3
      case Waiting(_, i, slice) => 8 * (m - i) + 7 - slice
      case BeginAnswered(_, _, _) => 8 * m + 8
      case CallBegin(_) => 8 * m + 9
      case GateAnswered(_, _) => 8 * m + 10
      case AskGate(_) => 8 * m + 11
      case Starting => 8 * m + 12
    }

    /** How many steps it can take at most once it has been told to stop. */
    function StopRank(): (r: nat)
      reads `pc
      ensures r <= 5
    {
      match pc
      case Starting => 5
      case AskGate(_) => 4
      case GateAnswered(_, _) => 3
      case CallPoll(_, _) => 3
      case CallBegin(_) => 2
      case PollAnswered(_, _, _) => 2
      case Finished => 0
      case NoThread => 0
      case _ => 1
    }

    /** One step of the worker. */
    method WorkerStep(answer: ServerAnswer)
      requires Valid() && !pc.NoThread? && !pc.Finished?
      modifies `pc, `job, `worker, `authenticated, `log
      ensures Valid() && Rank() < old(Rank()) && !pc.NoThread?
      ensures worker.stop ==> StopRank() < old(StopRank())
      ensures Quietly(old(log), log) && worker.stop == old(worker.stop)
      ensures old(authenticated) ==> authenticated
      ensures old(worker.stop) ==> worker == old(worker) && authenticated == old(authenticated)
    {
      if pc.CallPoll? || pc.PollAnswered? {
        PollStep(answer.poll);
      } else if pc.Polls() {
        WaitStep();
      } else if pc.CallBegin? || pc.BeginAnswered? {
        BeginStep(answer.ok, answer.error);
      } else {
        GateStep(answer.satisfied);
      }
    }

    /** Taking the job over, and the gate that can waive the second factor. */
    method GateStep(satisfied: bool)
      requires Valid() && (pc.Starting? || pc.AskGate? || pc.GateAnswered?)
      modifies `pc, `job, `worker, `authenticated, `log
      ensures Valid() && Rank() < old(Rank()) && !pc.NoThread?
      ensures worker.stop ==> StopRank() < old(StopRank())
      ensures Quietly(old(log), log) && worker.stop == old(worker.stop)
      ensures old(authenticated) ==> authenticated
      ensures old(worker.stop) ==> worker == old(worker) && authenticated == old(authenticated)
      ensures old(pc).Starting? ==>
        && worker == old(worker) && authenticated == old(authenticated) && log == old(log) && job == JobNone
        && pc == (if config.remoteSession && !config.credUi then AskGate(old(job)) else CallBegin(old(job)))
      ensures old(pc).AskGate? ==>
        && worker == old(worker) && authenticated == old(authenticated)
        && pc == GateAnswered(old(pc).job, satisfied)
        && log == old(log) + (if satisfied then [GateSatisfied(gen)] else [])
      ensures old(pc).GateAnswered? ==>
        && log == old(log) && pc == (if old(pc).satisfied then Finished else CallBegin(old(pc).job))
        && (old(pc).satisfied && !worker.stop ==> authenticated && worker.beginDone && worker.beginOk && worker.done)
        && (!old(pc).satisfied ==> worker == old(worker) && authenticated == old(authenticated))
    {
      hide Confirmed, Timeline, HandOvers;
      match pc {
        case Starting =>
          var taken := job;
          job := JobNone;
          pc := if config.remoteSession && !config.credUi then AskGate(taken) else CallBegin(taken);
        case AskGate(j) =>
          if satisfied {
            Learn(GateSatisfied(gen));
          }
          pc := GateAnswered(j, satisfied);
        case GateAnswered(j, waived) =>
          if waived {
            if !worker.stop {
              worker := worker.(beginDone := true, beginOk := true, done := true);
              authenticated := true;
            }
            pc := Finished;
          } else {
            pc := CallBegin(j);
          }
      }
    }

    /** The call that starts the second factor. */
    method BeginStep(ok: bool, error: ServerError)
      requires Valid() && (pc.CallBegin? || pc.BeginAnswered?)
      modifies `pc, `job, `worker, `authenticated, `log
      ensures Valid() && Rank() < old(Rank()) && !pc.NoThread?
      ensures worker.stop ==> StopRank() < old(StopRank())
      ensures Quietly(old(log), log) && worker.stop == old(worker.stop)
      ensures old(authenticated) ==> authenticated
      ensures old(worker.stop) ==> worker == old(worker) && authenticated == old(authenticated)
      ensures old(pc).CallBegin? ==>
        && worker == old(worker) && authenticated == old(authenticated) && pc == BeginAnswered(old(pc).job, ok, error)
        && log == old(log) + (if !ok then [BeginFailed(gen, pc.job, error)]
                              else if pc.job == JobVerifyOtp then [OtpAccepted(gen)] else [])
      ensures old(pc).BeginAnswered? ==> log == old(log)
      ensures old(pc).BeginAnswered? && !worker.stop ==>
        && worker.beginDone && worker.beginOk == old(pc).ok && worker.beginError == old(pc).error
        && (worker.done <==> old(pc).job == JobVerifyOtp)
        && (authenticated <==> old(authenticated) || (old(pc).job == JobVerifyOtp && old(pc).ok))
        && pc == (if old(pc).job == JobVerifyOtp || !old(pc).ok then Finished
                  else if config.pushTimeoutSec > 0 then Waiting(old(pc).job, 0, 0) else OutOfTime(old(pc).job))
    {
      hide Confirmed, Timeline, HandOvers;
      match pc {
        case CallBegin(j) =>
          if !ok {
            Learn(BeginFailed(gen, j, error));
          } else if j == JobVerifyOtp {
            Learn(OtpAccepted(gen));
          }
          pc := BeginAnswered(j, ok, error);
        case BeginAnswered(j, begun, reason) =>
          if worker.stop {
            pc := Finished;
          } else {
            worker := worker.(beginDone := true, beginOk := begun, beginError := reason);
            if j == JobVerifyOtp {
              worker := worker.(done := true);
              if begun {
                authenticated := true;
              }
              pc := Finished;
            } else if !begun {
              pc := Finished;
            } else {
              pc := if 0 < MaxPolls() then Waiting(j, 0, 0) else OutOfTime(j);
            }
          }
      }
    }

    /** Asking for the decision once a second ... */
    method PollStep(answer: PollAnswer)
      requires Valid() && (pc.CallPoll? || pc.PollAnswered?)
      modifies `pc, `job, `worker, `authenticated, `log
      ensures Valid() && Rank() < old(Rank()) && !pc.NoThread?
      ensures worker.stop ==> StopRank() < old(StopRank())
      ensures Quietly(old(log), log) && worker.stop == old(worker.stop)
      ensures old(authenticated) ==> authenticated
      ensures old(worker.stop) ==> worker == old(worker) && authenticated == old(authenticated)
      ensures old(pc).CallPoll? ==>
        && worker == old(worker) && authenticated == old(authenticated) && pc == PollAnswered(old(pc).job, old(pc).i, answer)
        && log == old(log) + (if answer == Decided(Approved) then [ChallengeApproved(gen, pc.job)] else [])
      ensures old(pc).PollAnswered? ==> log == old(log)
      ensures old(pc).PollAnswered? && old(pc).answer.Final() ==>
        && pc.Finished?
        && (!worker.stop ==> worker.done && worker.status == old(pc).answer.status
                             && (authenticated <==> old(authenticated) || worker.status == Approved))
      ensures old(pc).PollAnswered? && !old(pc).answer.Final() ==>
        && pc == AfterPoll(old(pc).job, old(pc).i) && worker == old(worker) && authenticated == old(authenticated)
    {
      hide Confirmed, Timeline, HandOvers;
      match pc {
        case CallPoll(j, i) =>
          if answer == Decided(Approved) {
            Learn(ChallengeApproved(gen, j));
          }
          pc := PollAnswered(j, i, answer);
        case PollAnswered(j, i, heard) =>
          if heard == Decided(Approved) || heard == Decided(Denied) || heard == Decided(Expired) {
            if !worker.stop {
              worker := worker.(status := heard.status, done := true);
              if heard.status == Approved {
                authenticated := true;
              }
            }
            pc := Finished;
          } else {
            pc := AfterPoll(j, i);
          }
      }
    }

    /** ... until the time is up. */
    method WaitStep()
      requires Valid() && (pc.Waiting? || pc.AfterPoll? || pc.OutOfTime?)
      modifies `pc, `job, `worker, `authenticated, `log
      ensures Valid() && Rank() < old(Rank()) && !pc.NoThread?
      ensures worker.stop ==> StopRank() < old(StopRank())
      ensures Quietly(old(log), log) && worker.stop == old(worker.stop)
      ensures old(authenticated) ==> authenticated
      ensures old(worker.stop) ==> worker == old(worker) && authenticated == old(authenticated)
      ensures log == old(log) && authenticated == old(authenticated)
      ensures worker.stop ==> pc.Finished?
      ensures old(pc).Waiting? && !worker.stop ==>
        pc == if old(pc).slice < 3 then Waiting(old(pc).job, old(pc).i, old(pc).slice + 1) else CallPoll(old(pc).job, old(pc).i)
      ensures old(pc).AfterPoll? && !worker.stop ==>
        pc == if old(pc).i + 1 < MaxPolls() then Waiting(old(pc).job, old(pc).i + 1, 0) else OutOfTime(old(pc).job)
      ensures old(pc).OutOfTime? && !worker.stop ==> worker == old(worker).(status := TimedOut, done := true)
      ensures !old(pc).OutOfTime? || worker.stop ==> worker == old(worker)
    {
      hide Confirmed, Timeline, HandOvers;
      match pc {
        case Waiting(j, i, slice) =>
          pc := if worker.stop then Finished else if slice < 3 then Waiting(j, i, slice + 1) else CallPoll(j, i);
        case AfterPoll(j, i) =>
          pc := if worker.stop then Finished else if i + 1 < MaxPolls() then Waiting(j, i + 1, 0) else OutOfTime(j);
        case OutOfTime(j) =>
          if !worker.stop {
            worker := worker.(status := TimedOut, done := true);
          }
          pc := Finished;
      }
    }

    /** Takes note of an answer of the server. */
    ghost method Learn(e: Event)
      requires e.Answer() && Timeline()
      modifies `log
      ensures Timeline() && log == old(log) + [e] && Quietly(old(log), log)
      ensures old(Confirmed(log)) ==> Confirmed(log)
      ensures Positive(e) ==> Confirmed(log)
    {
      Appended(DefaultMode(config), log, e);
      JustifiedNext(config, log, e);
      StillConfirmed(log, log + [e]);
      log := log + [e];
    }

    /** The worker takes any number of steps. */
    method Interfere()
      requires Valid()
      modifies `pc, `job, `worker, `authenticated, `log
      ensures Valid() && Quietly(old(log), log) && worker.stop == old(worker.stop)
      ensures pc.NoThread? <==> old(pc.NoThread?)
      ensures old(pc.NoThread?) ==> worker == old(worker) && authenticated == old(authenticated) && log == old(log)
      ensures old(authenticated) ==> authenticated
      ensures old(pc.Finished?) ==>
        pc == old(pc) && worker == old(worker) && authenticated == old(authenticated) && log == old(log)
      ensures old(worker.stop) ==> worker == old(worker) && authenticated == old(authenticated)
      ensures old(Confirmed(log)) ==> Confirmed(log)
    {
      hide Valid, HandOvers;
      var steps: nat := *;
      while steps > 0 && !pc.NoThread? && !pc.Finished?
        invariant Valid() && Quietly(old(log), log) && worker.stop == old(worker.stop)
        invariant pc.NoThread? <==> old(pc.NoThread?)
        invariant old(pc.NoThread?) ==> worker == old(worker) && authenticated == old(authenticated) && log == old(log)
        invariant old(authenticated) ==> authenticated
        invariant old(worker.stop) ==> worker == old(worker) && authenticated == old(authenticated)
        invariant old(pc.Finished?) ==>
          pc == old(pc) && worker == old(worker) && authenticated == old(authenticated) && log == old(log)
        decreases steps
      {
        var answer: ServerAnswer := *;
        WorkerStep(answer);
        steps := steps - 1;
      }
      StillConfirmed(old(log), log);
    }

    // ---- Starting and stopping it ------------------------------------------------------

    /** Waits for the worker to finish and forgets its results. */
    method JoinPollThread() returns (ghost steps: nat)
      requires Valid()
      modifies `pc, `job, `worker, `authenticated, `log
      ensures Valid() && Quietly(old(log), log) && pc.NoThread? && job == JobNone && worker == NewWorkerState()
      ensures old(worker.stop) ==> steps <= 5
      ensures old(authenticated) ==> authenticated
      ensures old(pc.NoThread? || pc.Finished? || worker.stop) ==> authenticated == old(authenticated)
      ensures old(pc.NoThread? || pc.Finished?) ==> log == old(log)
      ensures old(Confirmed(log)) ==> Confirmed(log)
    {
      hide HandOvers, Timeline, Confirmed;
      steps := 0;
      if !pc.NoThread? {
        while !pc.Finished?
          invariant old(worker.stop) ==> steps + StopRank() <= 5
          invariant Valid() && Quietly(old(log), log) && !pc.NoThread? && worker.stop == old(worker.stop)
          invariant old(authenticated) ==> authenticated
          invariant old(pc.Finished? || worker.stop) ==> authenticated == old(authenticated)
          invariant old(pc.Finished?) ==> pc.Finished? && log == old(log)
          decreases Rank()
        {
          var answer: ServerAnswer := *;
          WorkerStep(answer);
          steps := steps + 1;
        }
        pc := NoThread;
      }
      job := JobNone;
      worker := NewWorkerState();
      StillConfirmed(old(log), log);
    }

    /** Tells the worker to stop, and waits: it takes five steps more at most,
        with one request to the gate, one to begin, or one for the decision. */
    method StopPollThread() returns (ghost steps: nat)
      requires Valid()
      modifies `pc, `job, `worker, `authenticated, `log
      ensures Valid() && Quietly(old(log), log) && pc.NoThread? && job == JobNone && worker == NewWorkerState()
      ensures steps <= 5
      ensures old(authenticated) ==> authenticated
      ensures old(pc.NoThread? || pc.Finished?) ==> authenticated == old(authenticated) && log == old(log)
    {
      hide HandOvers, Timeline, Confirmed;
      Interfere();
      worker := worker.(stop := true);
      steps := JoinPollThread();
    }

    /** Starts a job on a new worker thread. The callers ask for the job that
        belongs to the current mode. */
    method StartWorkerJob(newJob: Job, threads: bool) returns (started: bool)
      requires Valid() && newJob == JobFor(currentMode)
      modifies `pc, `job, `worker, `authenticated, `log, `gen
      ensures Valid() && Quietly(old(log), log) && gen == old(gen) + 1 && worker == NewWorkerState()
      ensures log != [] && log[|log| - 1] == JobSet(newJob)
      ensures started == threads && if started then pc.Starting? && job == newJob else pc.NoThread? && job == JobNone
      ensures worker == WorkerState(false, false, false, NoError, false, NoStatus)
    {
      hide HandOvers, Confirmed, Justified, Timeline, Sound;
      ghost var steps := StopPollThread();
      worker := NewWorkerState();
      job := newJob;
      NoteJob(newJob);
      started := threads;
      if started {
        pc := Starting;
      } else {
        job := JobNone;
        worker := NewWorkerState();
      }
    }

    ghost method NoteJob(newJob: Job)
      requires Valid() && pc.NoThread? && NoResult()
      modifies `log, `gen
      ensures Valid() && Quietly(old(log), log) && gen == old(gen) + 1 && log == old(log) + [JobSet(newJob)]
    {
      hide HandOvers, Confirmed, Justified, Sound;
      Appended(DefaultMode(config), log, JobSet(newJob));
      JustifiedNext(config, log, JobSet(newJob));
      StillConfirmed(log, log + [JobSet(newJob)]);
      log, gen := log + [JobSet(newJob)], gen + 1;
    }

    // ---- Callbacks on the LogonUI thread ------------------------------------------------

    /** A tile that has been initialised once. */
    constructor (cfg: Config)
      ensures Valid() && config == cfg && log == [] && !authenticated && pc.NoThread?
      ensures currentMode == DefaultMode(cfg)
      ensures currentMode == MODE_FIDO2 <==> !cfg.credUi && cfg.defaultFactor == 1 && cfg.fido2Enabled
      ensures currentMode == MODE_OTP <==> cfg.defaultFactor == 2
      ensures username == domain == password == otpCode == ""
    {
      config := cfg;
      currentMode := DefaultMode(cfg);
      username, domain, password, otpCode := "", "", "", "";
      authenticated, worker, job, pc, gen, log := false, NewWorkerState(), JobNone, NoThread, 0, [];
    }

    method ResetAuthState()
      requires Valid()
      modifies `pc, `job, `worker, `authenticated, `log, `otpCode
      ensures Valid() && Quietly(old(log), log) && pc.NoThread? && otpCode == "" && worker == NewWorkerState()
      ensures old(pc.NoThread? || pc.Finished?) ==> !authenticated && log == old(log)
    {
      hide HandOvers, Confirmed, Timeline;
      authenticated := false;
      Interfere();
      otpCode := "";
      ghost var steps := StopPollThread();
    }

    method SetSelected() returns (autoLogon: bool)
      requires Valid()
      ensures autoLogon == authenticated && (autoLogon ==> Confirmed(log))
    {
      autoLogon := authenticated;
    }

    method SetDeselected()
      requires Valid()
      modifies `pc, `job, `worker, `authenticated, `log, `otpCode
      ensures Valid() && Quietly(old(log), log) && (pc.NoThread? <==> old(pc.NoThread?))
      ensures old(pc.NoThread? && !authenticated) ==> !authenticated && otpCode == ""
      ensures !old(pc.NoThread? && !authenticated) ==> (old(authenticated) ==> authenticated) && otpCode == old(otpCode)
    {
      hide HandOvers, Confirmed, Valid;
      Interfere();
      if pc.NoThread? && !authenticated {
        ResetAuthState();
      }
    }

    method SetStringValue(field: Field, value: string)
      requires Valid()
      modifies `pc, `job, `worker, `authenticated, `log, `otpCode, `username, `domain, `password
      ensures Valid() && Quietly(old(log), log)
      ensures field == FID_USERNAME ==> (username, domain) == SplitName(value)
      ensures field == FID_USERNAME ==>
        (FullName() == value <==> value == "" || if '\\' in value then value[0] != '\\' else domain == "")
      ensures field == FID_PASSWORD ==> password == value
      ensures field != FID_USERNAME ==> username == old(username) && domain == old(domain)
      ensures field != FID_PASSWORD ==> password == old(password)
      ensures old(Resets(field, value)) ==> pc.NoThread? && worker == NewWorkerState()
      ensures !old(Resets(field, value)) ==> (pc.NoThread? <==> old(pc.NoThread?)) && (old(authenticated) ==> authenticated)
      ensures otpCode == if field == FID_OTP_CODE then value else if old(Resets(field, value)) then "" else old(otpCode)
    {
      hide HandOvers, Confirmed, SplitName, Valid;
      Interfere();
      if field == FID_USERNAME {
        if !config.sameName(value, FullName()) {
          ResetAuthState();
        }
        var split := SplitName(value);
        username, domain := split.0, split.1;
        SameName(value);
      } else if field == FID_PASSWORD {
        if password != value {
          ResetAuthState();
        }
        password := value;
      } else if field == FID_OTP_CODE {
        otpCode := value;
      }
    }

    /** Another user name or password voids what has been confirmed. */
    predicate Resets(field: Field, value: string)
      reads `username, `domain, `password
    {
      || (field == FID_USERNAME && !config.sameName(value, FullName()))
      || (field == FID_PASSWORD && password != value)
    }

    function FullName(): string
      reads `username, `domain
    {
      if domain == "" then username else domain + "\\" + username
    }

    predicate Fido2Allowed() {
      config.fido2Enabled && !config.credUi
    }

    method TriggerFIDO2Auth(threads: bool)
      requires Valid() && currentMode == MODE_FIDO2
      modifies `pc, `job, `worker, `authenticated, `log, `gen
      ensures Valid() && Quietly(old(log), log)
      ensures gen == old(gen) ==> (pc.NoThread? <==> old(pc.NoThread?)) && (pc.NoThread? ==> worker == old(worker))
      ensures gen != old(gen) ==>
        && gen == old(gen) + 1 && username != "" && password != "" && !old(authenticated)
        && worker == NewWorkerState() && if threads then pc.Starting? && job == JobWebAuthnBegin else pc.NoThread?
      ensures old(pc.NoThread? && username != "" && password != "" && !authenticated) ==> gen == old(gen) + 1
    {
      hide HandOvers, Confirmed, Valid;
      Interfere();
      if username == "" || password == "" || authenticated {
        return;
      }
      var started := StartWorkerJob(JobWebAuthnBegin, threads);
    }

    /** The worker is stopped before the mode changes. */
    method SwitchToMode(newMode: Mode, threads: bool)
      requires Valid()
      modifies `pc, `job, `worker, `authenticated, `log, `gen, `currentMode
      ensures Valid() && Quietly(old(log), log)
      ensures newMode != MODE_FIDO2 || (config.fido2Enabled && !config.credUi) ==> currentMode == newMode
      ensures newMode == MODE_FIDO2 && !(config.fido2Enabled && !config.credUi) ==> currentMode == old(currentMode)
      ensures currentMode == old(currentMode) ==>
        pc == old(pc) && worker == old(worker) && authenticated == old(authenticated) && log == old(log)
      ensures currentMode != old(currentMode) ==>
        && worker == NewWorkerState()
        && (!pc.NoThread? ==> currentMode == MODE_FIDO2 && pc.Starting? && threads && username != "" && password != "")
      ensures currentMode != old(currentMode) && currentMode == MODE_FIDO2 && username != "" && password != "" ==>
        old(pc.NoThread? && !authenticated) ==> gen == old(gen) + 1 && (pc.Starting? <==> threads)
    {
      hide HandOvers, Confirmed, Justified, Sound;
      if newMode == MODE_FIDO2 && !Fido2Allowed() {
        return;
      }
      if currentMode == newMode {
        return;
      }
      ghost var steps := StopPollThread();
      Appended(DefaultMode(config), log, Switched(newMode));
      JustifiedNext(config, log, Switched(newMode));
      StillConfirmed(log, log + [Switched(newMode)]);
      currentMode, log := newMode, log + [Switched(newMode)];
      if currentMode == MODE_FIDO2 && username != "" && password != "" {
        TriggerFIDO2Auth(threads);
      }
    }

    /** The mode that a button asks for: one button goes between push and the
        passkey, the other one to the code and back to the passkey. */
    function Wanted(field: Field, mode: Mode): (r: Mode)
      ensures field == FID_FIDO2_BTN || field == FID_SWITCH_FACTOR_BTN ==> r != mode
    {
      match field
      case FID_FIDO2_BTN => if mode == MODE_PUSH then MODE_FIDO2 else MODE_PUSH
      case FID_SWITCH_FACTOR_BTN => if mode == MODE_OTP then MODE_FIDO2 else MODE_OTP
      case _ => mode
    }

    method CommandLinkClicked(field: Field, threads: bool)
      requires Valid()
      modifies `pc, `job, `worker, `authenticated, `log, `gen, `currentMode
      ensures Valid() && Quietly(old(log), log)
      ensures Wanted(field, old(currentMode)) == MODE_FIDO2 && !Fido2Allowed() ==> currentMode == old(currentMode)
      ensures Wanted(field, old(currentMode)) != MODE_FIDO2 || Fido2Allowed() ==>
        currentMode == Wanted(field, old(currentMode))
      ensures !pc.NoThread? && currentMode != old(currentMode) ==> currentMode == MODE_FIDO2
    {
      hide HandOvers, Confirmed, Valid;
      if field == FID_FIDO2_BTN {
        SwitchToMode(if currentMode == MODE_PUSH then MODE_FIDO2 else MODE_PUSH, threads);
      } else if field == FID_SWITCH_FACTOR_BTN {
        SwitchToMode(if currentMode == MODE_OTP then MODE_FIDO2 else MODE_OTP, threads);
      }
    }

    method ReportResult()
      requires Valid()
      modifies `pc, `job, `worker, `authenticated, `log, `otpCode, `password
      ensures Valid() && Quietly(old(log), log) && pc.NoThread? && password == "" && otpCode == ""
      ensures old(pc.NoThread? || pc.Finished?) ==> !authenticated
    {
      password := "";
      otpCode := "";
      ResetAuthState();
    }

    /** Serialization itself may fail: packs tells whether it works. */
    method PackAndFinish(ghost why: Reason, packs: bool) returns (response: Response, ghost reason: Reason)
      requires Valid() && Sound(config, log, why)
      modifies `log
      ensures Valid() && reason == why && Sound(config, log, reason) && (response.CredentialFinished? <==> packs)
      ensures log == old(log) + if response.CredentialFinished? then [HandedOver(why)] else []
      ensures Recorded(old(log), log, response, reason)
    {
      hide HandOvers, Confirmed, Sound, Justified, Valid;
      response := if packs then CredentialFinished else NotFinished;
      reason := why;
      if packs {
        StillSound(config, log, why);
        NoteHandOver(why);
        assert log[..|log| - 1] == old(log);
      }
    }

    ghost method NoteHandOver(why: Reason)
      requires Valid() && Sound(config, log, why)
      modifies `log
      ensures Valid() && log == old(log) + [HandedOver(why)]
    {
      hide HandOvers, Confirmed, Sound, Justified, JobsIn, ModeAfter, InBounds, NoResult;
      Appended(DefaultMode(config), log, HandedOver(why));
      JustifiedNext(config, log, HandedOver(why));
      StillConfirmed(log, log + [HandedOver(why)]);
      log := log + [HandedOver(why)];
    }

    /** Hands the credential to Windows, if it can be packed, only for a bypass
        account, after a positive answer of the server to some worker, or, where
        the configuration allows it, when the begin call of the last push or OTP
        worker could not reach the server; and in these cases it does. */
    method GetSerialization(threads: bool, packs: bool) returns (response: Response, ghost reason: Reason)
      requires Valid()
      modifies `pc, `job, `worker, `authenticated, `log, `gen
      ensures Valid() && Recorded(old(log), log, response, reason)
      ensures response.CredentialFinished? <==> packs && reason != NoReason
      ensures reason != NoReason ==> Sound(config, log, reason) && username != "" && password != ""
      ensures reason.FailOpen? ==> currentMode != MODE_FIDO2 && reason == FailOpen(old(gen), JobFor(currentMode))
      ensures username != "" && password != "" && config.isBypassAccount(username, domain) <==>
        reason == BypassAccount(username, domain)
      ensures username != "" && password != "" && !config.isBypassAccount(username, domain) && old(authenticated) ==>
        reason == FactorConfirmed
      ensures username != "" && password != "" && !config.isBypassAccount(username, domain) && old(NetworkDown()) ==>
        reason == if config.failClose then NoReason else FailOpen(old(gen), JobFor(currentMode))
      ensures username != "" && password != "" && !config.isBypassAccount(username, domain) && old(Unasked()) ==>
        gen == old(gen) + 1
    {
      hide Confirmed, AnswersLogged, InBounds, NoResult, HandOvers, JobsIn, ModeAfter, Justified;
      reason := NoReason;
      if username == "" || password == "" {
        return NotFinished, NoReason;
      }
      if config.isBypassAccount(username, domain) {
        response, reason := PackAndFinish(BypassAccount(username, domain), packs);
        return;
      }
      Interfere();
      if authenticated {
        ghost var steps := JoinPollThread();
        response, reason := PackAndFinish(FactorConfirmed, packs);
        return;
      }
      match currentMode {
        case MODE_OTP => response, reason := SerializeOtp(threads, packs);
        case MODE_PUSH => response, reason := SerializePush(threads, packs);
        case MODE_FIDO2 => response, reason := SerializeFido2(threads, packs);
      }
    }

    /** Nothing is known, and the server can be asked. */
    predicate Unasked()
      reads `currentMode, `pc, `authenticated, `otpCode
    {
      pc.NoThread? && !authenticated && (currentMode == MODE_OTP ==> otpCode != "")
    }

    /** The last push or OTP worker has ended without reaching the server. */
    predicate NetworkDown()
      reads `currentMode, `pc, `worker, `authenticated, `otpCode
    {
      && currentMode != MODE_FIDO2 && pc.Finished? && !authenticated
      && worker.beginDone && !worker.beginOk && worker.beginError == NetworkError
      && (currentMode == MODE_OTP ==> worker.done && otpCode != "")
    }

    /** What can be seen of the worker's results has been answered. */
    lemma SeenIsLogged()
      requires Valid()
      ensures worker.status == Approved || authenticated ==> Confirmed(log)
      ensures worker.beginDone && worker.beginOk && currentMode == MODE_OTP ==> Confirmed(log)
      ensures worker.beginDone && !worker.beginOk ==> BeginFailed(gen, JobFor(currentMode), worker.beginError) in log
      ensures worker.done && currentMode == MODE_OTP ==> worker.beginDone
    {}

    lemma FailOpenIsSound()
      requires Valid() && !config.failClose && currentMode != MODE_FIDO2
      requires BeginFailed(gen, JobFor(currentMode), NetworkError) in log
      ensures Sound(config, log, FailOpen(gen, JobFor(currentMode)))
    {}

    lemma ConfirmedIsSound()
      requires Valid() && authenticated
      ensures Sound(config, log, FactorConfirmed)
    {}

    method Confirm()
      requires Valid() && Confirmed(log)
      modifies `authenticated
      ensures Valid() && authenticated && Sound(config, log, FactorConfirmed)
    {
      authenticated := true;
    }

    method SerializeOtp(threads: bool, packs: bool) returns (response: Response, ghost reason: Reason)
      requires Valid() && currentMode == MODE_OTP
      modifies `pc, `job, `worker, `authenticated, `log, `gen
      ensures Valid() && Recorded(old(log), log, response, reason)
      ensures response.CredentialFinished? <==> packs && reason != NoReason
      ensures reason != NoReason ==> Sound(config, log, reason)
      ensures reason == NoReason || reason == FactorConfirmed
        || reason == FailOpen(old(gen), JobVerifyOtp)
      ensures old(pc.NoThread? && otpCode != "") ==> gen == old(gen) + 1 && reason == NoReason
      ensures old(NetworkDown()) ==>
        reason == if config.failClose then NoReason else FailOpen(old(gen), JobVerifyOtp)
      ensures old(otpCode != "" && pc.Finished? && worker.done && worker.beginOk) ==> reason == FactorConfirmed
      ensures old(otpCode != "" && pc.Finished? && worker.done) ==> pc.NoThread?
    {
      hide Confirmed, Valid, HandOvers, JobsIn, ModeAfter, Sound;
      if otpCode == "" {
        return NotFinished, NoReason;
      }
      if pc.NoThread? {
        var started := StartWorkerJob(JobVerifyOtp, threads);
        return NotFinished, NoReason;
      }
      Interfere();
      var seen := worker;
      SeenIsLogged();
      Interfere();
      if !seen.done {
        return NotFinished, NoReason;
      }
      ghost var steps := JoinPollThread();
      if seen.beginDone && seen.beginOk {
        Interfere();
        Confirm();
        response, reason := PackAndFinish(FactorConfirmed, packs);
        return;
      }
      if !config.failClose && seen.beginError == NetworkError {
        FailOpenIsSound();
        response, reason := PackAndFinish(FailOpen(gen, JobVerifyOtp), packs);
        return;
      }
      return NotFinished, NoReason;
    }

    /** The end of a push or passkey poll, as it was seen. */
    method FinishPoll(seen: WorkerState, packs: bool) returns (response: Response, ghost reason: Reason)
      requires Valid() && (seen.status == Approved ==> Confirmed(log))
      modifies `pc, `job, `worker, `authenticated, `log
      ensures Valid() && Recorded(old(log), log, response, reason)
      ensures response.CredentialFinished? <==> packs && reason != NoReason
      ensures reason != NoReason ==> reason == FactorConfirmed && Sound(config, log, reason)
      ensures seen.done && (seen.status == Approved || old(authenticated)) ==> reason == FactorConfirmed
      ensures !seen.done ==> reason == NoReason
      ensures seen.done ==> pc.NoThread?
    {
      hide Confirmed, Valid, HandOvers, JobsIn, ModeAfter, Sound;
      Interfere();
      SeenIsLogged();
      if !seen.done {
        return NotFinished, NoReason;
      }
      if seen.status == Approved || authenticated {
        ghost var steps := JoinPollThread();
        Confirm();
        response, reason := PackAndFinish(FactorConfirmed, packs);
        return;
      }
      ghost var steps := JoinPollThread();
      return NotFinished, NoReason;
    }

    method SerializePush(threads: bool, packs: bool) returns (response: Response, ghost reason: Reason)
      requires Valid() && currentMode == MODE_PUSH
      modifies `pc, `job, `worker, `authenticated, `log, `gen
      ensures Valid() && Recorded(old(log), log, response, reason)
      ensures response.CredentialFinished? <==> packs && reason != NoReason
      ensures reason != NoReason ==> Sound(config, log, reason)
      ensures reason == NoReason || reason == FactorConfirmed
        || reason == FailOpen(old(gen), JobStartPush)
      ensures old(pc.NoThread?) ==> gen == old(gen) + 1 && reason == NoReason
      ensures old(NetworkDown()) ==>
        reason == if config.failClose then NoReason else FailOpen(old(gen), JobStartPush)
      ensures old(pc.Finished? && worker.done && worker.beginOk && worker.status == Approved) ==> reason == FactorConfirmed
      ensures old(pc.Finished? && (worker.done || (worker.beginDone && !worker.beginOk))) ==> pc.NoThread?
    {
      hide Confirmed, Valid, HandOvers, JobsIn, ModeAfter, Sound;
      if pc.NoThread? {
        var started := StartWorkerJob(JobStartPush, threads);
        return NotFinished, NoReason;
      }
      Interfere();
      var seen := worker;
      SeenIsLogged();
      Interfere();
      if seen.beginDone && !seen.beginOk {
        ghost var steps := JoinPollThread();
        if !config.failClose && seen.beginError == NetworkError {
          FailOpenIsSound();
          response, reason := PackAndFinish(FailOpen(gen, JobStartPush), packs);
          return;
        }
        return NotFinished, NoReason;
      }
      response, reason := FinishPoll(seen, packs);
    }

    method SerializeFido2(threads: bool, packs: bool) returns (response: Response, ghost reason: Reason)
      requires Valid() && currentMode == MODE_FIDO2
      modifies `pc, `job, `worker, `authenticated, `log, `gen
      ensures Valid() && Recorded(old(log), log, response, reason)
      ensures response.CredentialFinished? <==> packs && reason != NoReason
      ensures reason != NoReason ==> Sound(config, log, reason) && reason == FactorConfirmed
      ensures old(pc.NoThread? && username != "" && password != "" && !authenticated) ==> gen == old(gen) + 1
      ensures old(pc.Finished? && worker.done && worker.beginOk && worker.status == Approved) ==> reason == FactorConfirmed
      ensures old(pc.Finished? && (worker.done || (worker.beginDone && !worker.beginOk))) ==> pc.NoThread?
    {
      hide Confirmed, Valid, HandOvers, JobsIn, ModeAfter, Sound;
      if pc.NoThread? {
        TriggerFIDO2Auth(threads);
        Interfere();
        if authenticated {
          ConfirmedIsSound();
          response, reason := PackAndFinish(FactorConfirmed, packs);
          return;
        }
        return NotFinished, NoReason;
      }
      Interfere();
      var seen := worker;
      SeenIsLogged();
      Interfere();
      if seen.beginDone && !seen.beginOk {
        ghost var steps := JoinPollThread();
        return NotFinished, NoReason;
      }
      response, reason := FinishPoll(seen, packs);
    }
  }

  // ---- Whole runs ----------------------------------------------------------------------

  datatype Callback =
    | Select
    | Deselect
    | SetString(field: Field, value: string)
    | Click(field: Field, threads: bool)
    | Serialize(threads: bool, packs: bool)
    | Report

  /** The reasons of those responses that are finished. */
  ghost function FinishedReasons(responses: seq<Response>, reasons: seq<Reason>): seq<Reason>
    requires |responses| == |reasons|
  {
    if responses == [] then []
    else
      var n := |responses| - 1;
      FinishedReasons(responses[..n], reasons[..n]) + if responses[n].CredentialFinished? then [reasons[n]] else []
  }

  lemma FinishedNext(responses: seq<Response>, reasons: seq<Reason>, response: Response, reason: Reason)
    requires |responses| == |reasons|
    ensures FinishedReasons(responses + [response], reasons + [reason])
      == FinishedReasons(responses, reasons) + if response.CredentialFinished? then [reason] else []
  {
    assert (responses + [response])[..|responses|] == responses && (reasons + [reason])[..|reasons|] == reasons;
  }

  lemma RecordedNext(before: seq<Event>, log: seq<Event>, response: Response, reason: Reason)
    requires Recorded(before, log, response, reason)
    ensures HandOvers(log) == HandOvers(before) + if response.CredentialFinished? then [reason] else []
  {
    if response.CredentialFinished? {
      assert log == log[..|log| - 1] + [HandedOver(reason)];
      Appended(MODE_PUSH, log[..|log| - 1], HandedOver(reason));
    }
  }

  lemma IsJustified(tile: LigamentCredential)
    requires tile.Valid()
    ensures Justified(tile.config, tile.log)
  {}

  lemma NothingYet()
    ensures HandOvers([]) == [] && FinishedReasons([], []) == []
  {}

  /** Any sequence of callbacks on a tile, with any answers of the server and
      any interleaving of its workers: the timeline holds the finished responses
      in order, and each was given for a reason that was sound when it was. */
  method RunTile(cfg: Config, callbacks: seq<Callback>)
    returns (tile: LigamentCredential, responses: seq<Response>, ghost reasons: seq<Reason>)
    ensures fresh(tile) && tile.Valid() && tile.config == cfg
    ensures |responses| == |reasons| == |callbacks|
    ensures HandOvers(tile.log) == FinishedReasons(responses, reasons)
    ensures Justified(cfg, tile.log)
  {
    hide Confirmed, LigamentCredential.Valid, HandOvers, FinishedReasons, Justified, Recorded;
    tile := new LigamentCredential(cfg);
    NothingYet();
    responses, reasons := [], [];
    for k := 0 to |callbacks|
      invariant fresh(tile) && tile.Valid() && tile.config == cfg
      invariant |responses| == |reasons| == k
      invariant HandOvers(tile.log) == FinishedReasons(responses, reasons)
    {
      tile.Interfere();
      ghost var before := tile.log;
      var response := NotFinished;
      ghost var reason := NoReason;
      match callbacks[k] {
        case Select => var autoLogon := tile.SetSelected();
        case Deselect => tile.SetDeselected();
        case SetString(field, value) => tile.SetStringValue(field, value);
        case Click(field, threads) => tile.CommandLinkClicked(field, threads);
        case Serialize(threads, packs) =>
          response, reason := tile.GetSerialization(threads, packs);
          RecordedNext(before, tile.log, response, reason);
        case Report => tile.ReportResult();
      }
      FinishedNext(responses, reasons, response, reason);
      responses, reasons := responses + [response], reasons + [reason];
    }
    IsJustified(tile);
  }
}
