/** The job protocol of the API server (netsim/cli/api.py): requests register and
    cancel jobs, one runner thread per job executes its action under RUN_LOCK
    with the process working directory changed.  Every transition below is one
    step between two points where another thread can get in. */
module ApiJobs {
  import opened Options

  type JobId = string

  datatype JobState = Queued | Running | Success | Failed | Canceled

  /** How a piece of code ends: normally, with an Exception, or with an exception
      that "except Exception" does not catch, such as SystemExit. */
  datatype Outcome = Completed | Raised | Exited

  /** Program points of a runner thread. */
  datatype Pc =
    | Registered                               // in JOBS, thread not started
    | Starting                                 // before the JOB_LOCK block
    | Preparing                                // before job["workdir"] is set
    | Waiting                                  // before RUN_LOCK
    | Locked                                   // RUN_LOCK held, log file not open
    | Saved(prev: string)                      // prev_cwd read, before chdir
    | Acting(prev: string)                     // inside the action
    | Restoring(prev: string, out: Outcome)    // before chdir(prev_cwd)
    | Unlocking(out: Outcome)                  // before RUN_LOCK is released
    | Closing(out: Outcome)                    // before the final state is set
    | Done(out: Outcome)

  datatype Job = Job(state: JobState, pc: Pc, executed: bool)

  datatype Server = Server(jobs: map<JobId, Job>, runLock: Option<JobId>, cwd: string)

  datatype Step =
    | Submit(j: JobId)
    | StartThread(j: JobId)
    | Cancel(j: JobId)
    | Begin(j: JobId)
    | Prepare(j: JobId, out: Outcome)
    | Acquire(j: JobId)
    | OpenLog(j: JobId, out: Outcome)
    | ChangeDir(j: JobId, workdir: string, out: Outcome)
    | ActionChdir(j: JobId, dir: string)
    | ActionEnds(j: JobId, out: Outcome)
    | RestoreDir(j: JobId)
    | Release(j: JobId)
    | Close(j: JobId)

  predicate At(s: Server, j: JobId, pc: Pc) {
    j in s.jobs && s.jobs[j].pc == pc
  }

  /** The thread concerned is at the right point and no lock is in the way. */
  predicate Enabled(s: Server, step: Step) {
    match step
    case Submit(j) => j !in s.jobs
    case StartThread(j) => At(s, j, Registered)
    case Cancel(j) => j in s.jobs
    case Begin(j) => At(s, j, Starting)
    case Prepare(j, _) => At(s, j, Preparing)
    case Acquire(j) => At(s, j, Waiting) && s.runLock == None
    case OpenLog(j, _) => At(s, j, Locked)
    case ChangeDir(j, _, _) => j in s.jobs && s.jobs[j].pc.Saved?
    case ActionChdir(j, _) => j in s.jobs && s.jobs[j].pc.Acting?
    case ActionEnds(j, _) => j in s.jobs && s.jobs[j].pc.Acting?
    case RestoreDir(j) => j in s.jobs && s.jobs[j].pc.Restoring?
    case Release(j) => j in s.jobs && s.jobs[j].pc.Unlocking?
    case Close(j) => j in s.jobs && s.jobs[j].pc.Closing?
  }

  function Goto(s: Server, j: JobId, pc: Pc): Server
    requires j in s.jobs
  {
    s.(jobs := s.jobs[j := s.jobs[j].(pc := pc)])
  }

  function SetState(s: Server, j: JobId, state: JobState): Server
    requires j in s.jobs
  {
    s.(jobs := s.jobs[j := s.jobs[j].(state := state)])
  }

  function Apply(s: Server, step: Step): Server
    requires Enabled(s, step)
  {
    match step
    case Submit(j) => s.(jobs := s.jobs[j := Job(Queued, Registered, false)])
    case StartThread(j) => Goto(s, j, Starting)
    case Cancel(j) => if s.jobs[j].state == Queued then SetState(s, j, Canceled) else s
    case Begin(j) =>
      if s.jobs[j].state == Canceled then Goto(s, j, Done(Completed))
      else Goto(SetState(s, j, Running), j, Preparing)
    case Prepare(j, out) => Goto(s, j, if out.Completed? then Waiting else Closing(out))
    case Acquire(j) => Goto(s, j, Locked).(runLock := Some(j))
    case OpenLog(j, out) => Goto(s, j, if out.Completed? then Saved(s.cwd) else Unlocking(out))
    case ChangeDir(j, workdir, out) =>
      var prev := s.jobs[j].pc.prev;
      if out.Completed? then
        var entered := Goto(s, j, Acting(prev));
        entered.(jobs := entered.jobs[j := entered.jobs[j].(executed := true)], cwd := workdir)
      else Goto(s, j, Restoring(prev, out))
    case ActionChdir(j, dir) => s.(cwd := dir)
    case ActionEnds(j, out) => Goto(s, j, Restoring(s.jobs[j].pc.prev, out))
    case RestoreDir(j) => Goto(s, j, Unlocking(s.jobs[j].pc.out)).(cwd := s.jobs[j].pc.prev)
    case Release(j) => Goto(s, j, Closing(s.jobs[j].pc.out)).(runLock := None)
    case Close(j) =>
      var out := s.jobs[j].pc.out;
      var closed := Goto(s, j, Done(out));
      match out
      case Completed => SetState(closed, j, Success)
      case Raised => SetState(closed, j, Failed)
      case Exited => closed
  }

  /** A run from a freshly started server. */
  predicate IsRun(start: Server, steps: seq<Step>) {
    steps == [] || (IsRun(start, steps[..|steps| - 1]) && Enabled(After(start, steps[..|steps| - 1]), steps[|steps| - 1]))
  }

  function After(start: Server, steps: seq<Step>): Server {
    if steps == [] then start
    else
      var s := After(start, steps[..|steps| - 1]);
      if Enabled(s, steps[|steps| - 1]) then Apply(s, steps[|steps| - 1]) else s
  }

  function Fresh(cwd: string): Server {
    Server(map[], None, cwd)
  }

  // ----- invariant

  /** Points at which a runner holds RUN_LOCK. */
  predicate HoldsLock(pc: Pc) {
    pc.Locked? || pc.Saved? || pc.Acting? || pc.Restoring? || pc.Unlocking?
  }

  /** Points inside run_netlab_action. */
  predicate InsideAction(pc: Pc) {
    pc.Saved? || pc.Acting? || pc.Restoring?
  }

  predicate StateFits(job: Job) {
    match job.pc
    case Registered => job.state in {Queued, Canceled}
    case Starting => job.state in {Queued, Canceled}
    case Done(Completed) => job.state in {Success, Canceled}
    case Done(Raised) => job.state == Failed
    case Done(Exited) => job.state == Running
    case _ => job.state == Running
  }

  /** Points from which only success is possible. */
  predicate Succeeding(pc: Pc) {
    (pc.Restoring? || pc.Unlocking? || pc.Closing?) && pc.out == Completed
  }

  /** Job state, program point and the fact that the action ran go together. */
  predicate JobOk(job: Job, cwd0: string) {
    && StateFits(job)
    && (job.state in {Queued, Canceled} ==> !job.executed)
    && (job.state == Success || job.pc.Acting? || Succeeding(job.pc) ==> job.executed)
    && (InsideAction(job.pc) ==> job.pc.prev == cwd0)
  }

  /** RUN_LOCK is held by the one runner that is past acquiring it. */
  ghost predicate LockOk(s: Server) {
    && (forall j | j in s.jobs :: HoldsLock(s.jobs[j].pc) <==> s.runLock == Some(j))
    && (s.runLock.Some? ==> s.runLock.value in s.jobs)
  }

  /** The working directory differs only while the lock holder is in its action. */
  ghost predicate DirectoryOk(s: Server, cwd0: string) {
    s.cwd != cwd0 ==> s.runLock.Some? && s.runLock.value in s.jobs
                      && (s.jobs[s.runLock.value].pc.Acting? || s.jobs[s.runLock.value].pc.Restoring?)
  }

  ghost predicate Invariant(s: Server, cwd0: string) {
    && (forall j | j in s.jobs :: JobOk(s.jobs[j], cwd0))
    && LockOk(s)
    && DirectoryOk(s, cwd0)
  }

  lemma OtherJobsUntouched(s: Server, step: Step, k: JobId)
    requires Enabled(s, step) && k != step.j
    ensures k in Apply(s, step).jobs <==> k in s.jobs
    ensures k in s.jobs ==> Apply(s, step).jobs[k] == s.jobs[k]
  {
  }

  lemma StepKeepsStateFits(s: Server, step: Step)
    requires Enabled(s, step) && (step.j in s.jobs ==> StateFits(s.jobs[step.j]))
    ensures step.j in Apply(s, step).jobs && StateFits(Apply(s, step).jobs[step.j])
  {
  }

  lemma StepKeepsJob(s: Server, step: Step, cwd0: string)
    requires Invariant(s, cwd0) && Enabled(s, step)
    ensures step.j in Apply(s, step).jobs && JobOk(Apply(s, step).jobs[step.j], cwd0)
  {
    if step.j in s.jobs {
      assert JobOk(s.jobs[step.j], cwd0);
    }
    StepKeepsStateFits(s, step);
    if step.OpenLog? {
      assert HoldsLock(s.jobs[step.j].pc);
    }
  }

  lemma StepKeepsHolder(s: Server, step: Step, k: JobId)
    requires LockOk(s) && Enabled(s, step) && k in Apply(s, step).jobs
    ensures HoldsLock(Apply(s, step).jobs[k].pc) <==> Apply(s, step).runLock == Some(k)
  {
    if k != step.j {
      OtherJobsUntouched(s, step, k);
    }
  }

  lemma StepKeepsLock(s: Server, step: Step, cwd0: string)
    requires Invariant(s, cwd0) && Enabled(s, step)
    ensures LockOk(Apply(s, step)) && DirectoryOk(Apply(s, step), cwd0)
  {
    var s' := Apply(s, step);
    StepKeepsJob(s, step, cwd0);
    if step.j in s.jobs {
      assert JobOk(s.jobs[step.j], cwd0);
    }
    forall k | k in s'.jobs ensures HoldsLock(s'.jobs[k].pc) <==> s'.runLock == Some(k) {
      StepKeepsHolder(s, step, k);
    }
    if s.runLock.Some? && s.runLock.value != step.j {
      OtherJobsUntouched(s, step, s.runLock.value);
    }
  }

  lemma StepKeepsInvariant(s: Server, step: Step, cwd0: string)
    requires Invariant(s, cwd0) && Enabled(s, step)
    ensures Invariant(Apply(s, step), cwd0)
  {
    StepKeepsJob(s, step, cwd0);
    StepKeepsLock(s, step, cwd0);
    forall k | k in Apply(s, step).jobs ensures JobOk(Apply(s, step).jobs[k], cwd0) {
      if k != step.j {
        OtherJobsUntouched(s, step, k);
      }
    }
  }

  lemma {:induction false} RunKeepsInvariant(cwd0: string, steps: seq<Step>)
    requires IsRun(Fresh(cwd0), steps)
    ensures Invariant(After(Fresh(cwd0), steps), cwd0)
  {
    if steps == [] {
    } else {
      RunKeepsInvariant(cwd0, steps[..|steps| - 1]);
      StepKeepsInvariant(After(Fresh(cwd0), steps[..|steps| - 1]), steps[|steps| - 1], cwd0);
    }
  }

  // ----- what holds in every run

  lemma RunSplits(start: Server, steps: seq<Step>, more: seq<Step>)
    requires more != []
    ensures (steps + more)[..|steps + more| - 1] == steps + more[..|more| - 1]
    ensures (steps + more)[|steps + more| - 1] == more[|more| - 1]
  {
  }

  predicate Final(state: JobState) {
    state in {Success, Failed, Canceled}
  }

  lemma StepKeepsState(s: Server, step: Step, cwd0: string, j: JobId)
    requires Invariant(s, cwd0) && Enabled(s, step) && j in s.jobs
    ensures j in Apply(s, step).jobs
    ensures Final(s.jobs[j].state) ==> Apply(s, step).jobs[j].state == s.jobs[j].state
    ensures s.jobs[j].state == Running ==> Apply(s, step).jobs[j].state in {Running, Success, Failed}
  {
    assert JobOk(s.jobs[j], cwd0);
    if j != step.j {
      OtherJobsUntouched(s, step, j);
    }
  }

  /** success, failed and canceled are final, and a running job is never
      canceled, however the run goes on. */
  lemma {:induction false} StatesStay(cwd0: string, steps: seq<Step>, more: seq<Step>, j: JobId)
    requires IsRun(Fresh(cwd0), steps + more)
    requires j in After(Fresh(cwd0), steps).jobs
    ensures j in After(Fresh(cwd0), steps + more).jobs
    ensures var before, after := After(Fresh(cwd0), steps).jobs[j].state, After(Fresh(cwd0), steps + more).jobs[j].state;
            && (Final(before) ==> after == before)
            && (before == Running ==> after in {Running, Success, Failed})
    decreases |more|
  {
    if more == [] {
      assert steps + more == steps;
    } else {
      var front, last := more[..|more| - 1], more[|more| - 1];
      RunSplits(Fresh(cwd0), steps, more);
      StatesStay(cwd0, steps, front, j);
      RunKeepsInvariant(cwd0, steps + front);
      StepKeepsState(After(Fresh(cwd0), steps + front), last, cwd0, j);
    }
  }

  /** A job that was canceled at any time never executes its action. */
  lemma CanceledNeverExecutes(cwd0: string, steps: seq<Step>, more: seq<Step>, j: JobId)
    requires IsRun(Fresh(cwd0), steps + more)
    requires j in After(Fresh(cwd0), steps).jobs && After(Fresh(cwd0), steps).jobs[j].state == Canceled
    ensures j in After(Fresh(cwd0), steps + more).jobs && !After(Fresh(cwd0), steps + more).jobs[j].executed
  {
    StatesStay(cwd0, steps, more, j);
    RunKeepsInvariant(cwd0, steps + more);
    assert JobOk(After(Fresh(cwd0), steps + more).jobs[j], cwd0);
  }

  // ----- what the steps achieve

  lemma AfterSnoc(start: Server, steps: seq<Step>, step: Step)
    ensures IsRun(start, steps + [step]) <==> IsRun(start, steps) && Enabled(After(start, steps), step)
    ensures Enabled(After(start, steps), step) ==> After(start, steps + [step]) == Apply(After(start, steps), step)
  {
    assert (steps + [step])[..|steps|] == steps;
  }

  /** Canceling a queued job takes effect: the job is canceled, stays so, and never
      executes its action, however the run goes on. */
  lemma CancelTakesEffect(cwd0: string, steps: seq<Step>, more: seq<Step>, j: JobId)
    requires IsRun(Fresh(cwd0), steps + [Cancel(j)] + more)
    requires j in After(Fresh(cwd0), steps).jobs && After(Fresh(cwd0), steps).jobs[j].state == Queued
    requires Enabled(After(Fresh(cwd0), steps), Cancel(j))
    ensures var then_ := After(Fresh(cwd0), steps + [Cancel(j)]); j in then_.jobs && then_.jobs[j].state == Canceled
    ensures var end := After(Fresh(cwd0), steps + [Cancel(j)] + more);
            j in end.jobs && end.jobs[j].state == Canceled && !end.jobs[j].executed
  {
    AfterSnoc(Fresh(cwd0), steps, Cancel(j));
    StatesStay(cwd0, steps + [Cancel(j)], more, j);
    CanceledNeverExecutes(cwd0, steps + [Cancel(j)], more, j);
  }

  /** In any other state the request is refused and changes nothing. */
  lemma CancelRefused(s: Server, j: JobId)
    requires j in s.jobs && s.jobs[j].state != Queued
    ensures Enabled(s, Cancel(j)) && Apply(s, Cancel(j)) == s
  {
  }

  /** Some step of the run is a cancellation of the queued job. */
  ghost predicate CanceledWhileQueued(start: Server, steps: seq<Step>, j: JobId) {
    exists i :: 0 <= i < |steps| && steps[i] == Cancel(j)
                && j in After(start, steps[..i]).jobs && After(start, steps[..i]).jobs[j].state == Queued
  }

  /** The run has entered the action of the job. */
  ghost predicate Entered(steps: seq<Step>, j: JobId) {
    exists i :: 0 <= i < |steps| && steps[i].ChangeDir? && steps[i].j == j && steps[i].out == Completed
  }

  /** Some piece of code of the job ended that way. */
  ghost predicate EndedBy(steps: seq<Step>, j: JobId, out: Outcome) {
    exists i :: 0 <= i < |steps| && steps[i].j == j && EndsWith(steps[i], out)
  }

  predicate EndsWith(step: Step, out: Outcome) {
    (step.Prepare? || step.OpenLog? || step.ChangeDir? || step.ActionEnds?) && step.out == out
  }

  /** The outcome that a runner carries to its end. */
  function Carried(pc: Pc): Outcome {
    if pc.Restoring? || pc.Unlocking? || pc.Closing? || pc.Done? then pc.out else Completed
  }

  /** What has happened to a job in a run. */
  datatype History = History(submitted: bool, started: bool, begun: bool, canceled: bool, entered: bool, raised: bool, exited: bool)

  ghost function HistoryOf(start: Server, steps: seq<Step>, j: JobId): History {
    History(Submit(j) in steps, StartThread(j) in steps, Begin(j) in steps, CanceledWhileQueued(start, steps, j),
            Entered(steps, j), EndedBy(steps, j, Raised), EndedBy(steps, j, Exited))
  }

  function JobIn(s: Server, j: JobId): Option<Job> {
    if j in s.jobs then Some(s.jobs[j]) else None
  }

  /** State and program point of a job say exactly what has happened. */
  predicate Tells(job: Option<Job>, h: History) {
    match job
    case None => h == History(false, false, false, false, false, false, false)
    case Some(job) => TellsProgress(job, h) && TellsOutcome(job, h)
  }

  predicate TellsProgress(job: Job, h: History) {
    && h.submitted
    && (h.started <==> job.pc != Registered)
    && (h.begun <==> !job.pc.Registered? && !job.pc.Starting?)
    && (h.canceled <==> job.state == Canceled)
  }

  predicate TellsOutcome(job: Job, h: History) {
    && (h.entered <==> job.executed)
    && (h.raised <==> Carried(job.pc) == Raised)
    && (h.exited <==> Carried(job.pc) == Exited)
  }

  /** A step adds to the history of its job. */
  function Extended(h: History, s: Server, step: Step): History {
    History(h.submitted || step.Submit?,
            h.started || step.StartThread?,
            h.begun || step.Begin?,
            h.canceled || (step.Cancel? && JobIn(s, step.j).Some? && JobIn(s, step.j).value.state == Queued),
            h.entered || (step.ChangeDir? && step.out == Completed),
            h.raised || EndsWith(step, Raised),
            h.exited || EndsWith(step, Exited))
  }

  lemma StepTellsProgress(s: Server, step: Step, h: History)
    requires Enabled(s, step) && Tells(JobIn(s, step.j), h)
    requires step.j in s.jobs ==> StateFits(s.jobs[step.j])
    ensures step.j in Apply(s, step).jobs && TellsProgress(Apply(s, step).jobs[step.j], Extended(h, s, step))
  {
  }

  lemma StepTellsOutcome(s: Server, step: Step, h: History)
    requires Enabled(s, step) && Tells(JobIn(s, step.j), h)
    ensures step.j in Apply(s, step).jobs && TellsOutcome(Apply(s, step).jobs[step.j], Extended(h, s, step))
  {
  }

  lemma StepTells(s: Server, step: Step, cwd0: string, h: History)
    requires Enabled(s, step) && Tells(JobIn(s, step.j), h)
    requires step.j in s.jobs ==> JobOk(s.jobs[step.j], cwd0)
    ensures Tells(JobIn(Apply(s, step), step.j), Extended(h, s, step))
  {
    StepTellsProgress(s, step, h);
    StepTellsOutcome(s, step, h);
  }

  lemma LongerCanceled(start: Server, steps: seq<Step>, step: Step, j: JobId)
    ensures CanceledWhileQueued(start, steps + [step], j) <==>
            CanceledWhileQueued(start, steps, j)
            || (step == Cancel(j) && j in After(start, steps).jobs && After(start, steps).jobs[j].state == Queued)
  {
    var longer := steps + [step];
    assert longer[|steps|] == step && longer[..|steps|] == steps;
    if i :| 0 <= i < |steps| && steps[i] == Cancel(j)
            && j in After(start, steps[..i]).jobs && After(start, steps[..i]).jobs[j].state == Queued {
      assert longer[i] == steps[i] && longer[..i] == steps[..i];
    }
    if i :| 0 <= i < |steps| && longer[i] == Cancel(j)
            && j in After(start, longer[..i]).jobs && After(start, longer[..i]).jobs[j].state == Queued {
      assert longer[i] == steps[i] && longer[..i] == steps[..i];
    }
  }

  lemma LongerEntered(steps: seq<Step>, step: Step, j: JobId)
    ensures Entered(steps + [step], j) <==> Entered(steps, j) || (step.ChangeDir? && step.j == j && step.out == Completed)
  {
    var longer := steps + [step];
    assert longer[|steps|] == step && forall i | 0 <= i < |steps| :: longer[i] == steps[i];
  }

  lemma LongerEnded(steps: seq<Step>, step: Step, j: JobId, out: Outcome)
    ensures EndedBy(steps + [step], j, out) <==> EndedBy(steps, j, out) || (step.j == j && EndsWith(step, out))
  {
    var longer := steps + [step];
    assert longer[|steps|] == step && forall i | 0 <= i < |steps| :: longer[i] == steps[i];
  }

  lemma LongerHistory(start: Server, steps: seq<Step>, step: Step, j: JobId)
    ensures HistoryOf(start, steps + [step], j) ==
            if step.j == j then Extended(HistoryOf(start, steps, j), After(start, steps), step) else HistoryOf(start, steps, j)
  {
    LongerCanceled(start, steps, step, j);
    LongerEntered(steps, step, j);
    LongerEnded(steps, step, j, Raised);
    LongerEnded(steps, step, j, Exited);
  }

  /** A job is there once it has been submitted; it is canceled exactly by a request
      that found it queued; it executes exactly when its runner gets into the
      action; and failures and exits are those of its own code. */
  lemma {:induction false} HistoryExact(cwd0: string, steps: seq<Step>, j: JobId)
    requires IsRun(Fresh(cwd0), steps)
    ensures Tells(JobIn(After(Fresh(cwd0), steps), j), HistoryOf(Fresh(cwd0), steps, j))
  {
    if steps == [] {
    } else {
      var front, step := steps[..|steps| - 1], steps[|steps| - 1];
      var s := After(Fresh(cwd0), front);
      assert steps == front + [step];
      HistoryExact(cwd0, front, j);
      RunKeepsInvariant(cwd0, front);
      LongerHistory(Fresh(cwd0), front, step, j);
      AfterSnoc(Fresh(cwd0), front, step);
      if j == step.j {
        StepTells(s, step, cwd0, HistoryOf(Fresh(cwd0), front, j));
      } else {
        OtherJobsUntouched(s, step, j);
      }
    }
  }

  /** The directory that a job has entered. */
  ghost predicate InDirectory(s: Server, j: JobId, workdir: string) {
    j in s.jobs && s.jobs[j].pc.Acting? && s.runLock == Some(j) && s.cwd == workdir
  }

  lemma StepKeepsDirectory(s: Server, step: Step, cwd0: string, j: JobId, workdir: string)
    requires Invariant(s, cwd0) && Enabled(s, step) && InDirectory(s, j, workdir)
    requires !(step.ActionChdir? && step.j == j) && !(step.ActionEnds? && step.j == j)
    ensures InDirectory(Apply(s, step), j, workdir)
  {
    if step.j != j {
      OtherJobsUntouched(s, step, j);
      assert step.j in s.jobs ==> !HoldsLock(s.jobs[step.j].pc);
    }
  }

  /** While a job is in its action and has not changed the directory itself, the
      working directory is the one it entered, whatever other threads do. */
  lemma {:induction false} ActionInItsDirectory(cwd0: string, steps: seq<Step>, j: JobId, workdir: string, more: seq<Step>)
    requires IsRun(Fresh(cwd0), steps + [ChangeDir(j, workdir, Completed)] + more)
    requires forall step | step in more && step.j == j :: !step.ActionChdir? && !step.ActionEnds?
    ensures InDirectory(After(Fresh(cwd0), steps + [ChangeDir(j, workdir, Completed)] + more), j, workdir)
    decreases |more|
  {
    var entered := steps + [ChangeDir(j, workdir, Completed)];
    if more == [] {
      assert entered + more == entered;
      AfterSnoc(Fresh(cwd0), steps, ChangeDir(j, workdir, Completed));
      RunKeepsInvariant(cwd0, steps);
      assert HoldsLock(After(Fresh(cwd0), steps).jobs[j].pc);
    } else {
      var front, last := more[..|more| - 1], more[|more| - 1];
      RunSplits(Fresh(cwd0), entered, more);
      assert last in more && forall step | step in front :: step in more;
      ActionInItsDirectory(cwd0, steps, j, workdir, front);
      RunKeepsInvariant(cwd0, entered + front);
      StepKeepsDirectory(After(Fresh(cwd0), entered + front), last, cwd0, j, workdir);
    }
  }

  /** At most one job is inside run_netlab_action, and the working directory is
      the original one whenever RUN_LOCK is free. */
  lemma OneActionAtATime(cwd0: string, steps: seq<Step>, i: JobId, j: JobId)
    requires IsRun(Fresh(cwd0), steps)
    ensures var s := After(Fresh(cwd0), steps);
            && (i in s.jobs && j in s.jobs && InsideAction(s.jobs[i].pc) && InsideAction(s.jobs[j].pc) ==> i == j)
            && (s.runLock == None ==> s.cwd == cwd0)
  {
    RunKeepsInvariant(cwd0, steps);
    var s := After(Fresh(cwd0), steps);
    if i in s.jobs && j in s.jobs && InsideAction(s.jobs[i].pc) && InsideAction(s.jobs[j].pc) {
      assert s.runLock == Some(i) && s.runLock == Some(j);
    }
  }

  /** The state of a job whose runner is done tells how its action ended, except
      that an action left by SystemExit leaves the job running for good. */
  lemma FinishedJobs(cwd0: string, steps: seq<Step>, j: JobId)
    requires IsRun(Fresh(cwd0), steps)
    requires j in After(Fresh(cwd0), steps).jobs && After(Fresh(cwd0), steps).jobs[j].pc.Done?
    ensures var job := After(Fresh(cwd0), steps).jobs[j];
            && (job.state == Success <==> job.pc.out == Completed && job.executed)
            && (job.state == Canceled <==> job.pc.out == Completed && !job.executed)
            && (job.state == Failed <==> job.pc.out == Raised)
            && (!Final(job.state) <==> job.pc.out == Exited)
  {
    RunKeepsInvariant(cwd0, steps);
    assert JobOk(After(Fresh(cwd0), steps).jobs[j], cwd0);
  }

  /** Distance of a runner from its end. */
  function Remaining(pc: Pc): nat {
    match pc
    case Registered => 10
    case Starting => 9
    case Preparing => 8
    case Waiting => 7
    case Locked => 6
    case Saved(_) => 5
    case Acting(_) => 4
    case Restoring(_, _) => 3
    case Unlocking(_) => 2
    case Closing(_) => 1
    case Done(_) => 0
  }

  /** No deadlock: as long as some runner is not done, one of the runners can make
      a step that brings it closer to its end. */
  lemma SomeRunnerAdvances(cwd0: string, steps: seq<Step>, j: JobId)
    requires IsRun(Fresh(cwd0), steps)
    requires j in After(Fresh(cwd0), steps).jobs && !After(Fresh(cwd0), steps).jobs[j].pc.Done?
    ensures var s := After(Fresh(cwd0), steps);
            exists step :: Enabled(s, step) && step.j in s.jobs
                           && Remaining(Apply(s, step).jobs[step.j].pc) < Remaining(s.jobs[step.j].pc)
  {
    RunKeepsInvariant(cwd0, steps);
    var s := After(Fresh(cwd0), steps);
    var k := if s.jobs[j].pc.Waiting? && s.runLock.Some? then s.runLock.value else j;
    NextStepAdvances(s, k);
  }

  lemma NextStepAdvances(s: Server, k: JobId)
    requires k in s.jobs && !s.jobs[k].pc.Done?
    requires s.jobs[k].pc.Waiting? ==> s.runLock == None
    ensures var step := NextStep(k, s.jobs[k].pc);
            Enabled(s, step) && step.j == k && k in Apply(s, step).jobs
            && Remaining(Apply(s, step).jobs[k].pc) < Remaining(s.jobs[k].pc)
  {
  }

  function NextStep(k: JobId, pc: Pc): Step
    requires !pc.Done?
  {
    match pc
    case Registered => StartThread(k)
    case Starting => Begin(k)
    case Preparing => Prepare(k, Completed)
    case Waiting => Acquire(k)
    case Locked => OpenLog(k, Completed)
    case Saved(_) => ChangeDir(k, "", Completed)
    case Acting(_) => ActionEnds(k, Completed)
    case Restoring(_, _) => RestoreDir(k)
    case Unlocking(_) => Release(k)
    case Closing(_) => Close(k)
  }
}
