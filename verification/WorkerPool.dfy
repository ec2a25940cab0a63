/**
 * The worker pool as a transition system: feeder, workers, closer and collector over unbuffered
 * channels, with cancellation possible at any moment.
 */
module WorkerPool {
  import opened Options

  /** What a worker makes of a job. Only Negative is a failure; Cancelled is a consequence of stopping. */
  datatype Outcome = Squared(output: int) | Negative | Cancelled

  /** A result names its job by the position it was fed from. */
  datatype Result = Result(job: nat, outcome: Outcome, worker: nat)

  datatype Worker = Receiving | Working(job: nat) | Sending(result: Result) | Exited

  /** The call: the inputs of the jobs, the number of workers, and which of the two policies. */
  datatype Pool = Pool(jobs: seq<int>, workers: nat, failFast: bool)

  /** dropped and external record history; nothing reads them. */
  datatype State = State(
    fed: nat, jobsClosed: bool,
    workers: seq<Worker>, wg: int,
    resultsClosed: bool,
    results: seq<Result>, firstErr: Option<Result>, returned: bool,
    cancelled: bool, external: bool,
    dropped: seq<nat>,
    panicked: bool)

  datatype Step =
    | Feed(w: nat) | CloseJobs
    | Produce(w: nat, outcome: Outcome) | Send(w: nat) | Drop(w: nat) | Exit(w: nat)
    | CloseResults
    | Return
    | Cancel

  function Init(p: Pool): State {
    State(0, false, seq(p.workers, _ => Receiving), p.workers, false, [], None, false, false, false, [], false)
  }

  /** What processing may give: cancellation competes with the work, invalid input comes first. */
  predicate MayProduce(input: int, cancelled: bool, outcome: Outcome) {
    match outcome
    case Negative => input < 0
    case Squared(output) => input >= 0 && output == input * input
    case Cancelled => input >= 0 && cancelled
  }

  predicate IsAt(s: State, w: nat, what: Worker) {
    w < |s.workers| && s.workers[w] == what
  }

  predicate Enabled(p: Pool, s: State, step: Step) {
    match step
    case Feed(w) => !s.jobsClosed && s.fed < |p.jobs| && IsAt(s, w, Receiving)
    case CloseJobs => !s.jobsClosed && (s.fed >= |p.jobs| || s.cancelled)
    case Produce(w, outcome) =>
      w < |s.workers| && s.workers[w].Working? && s.workers[w].job < |p.jobs| &&
      MayProduce(p.jobs[s.workers[w].job], s.cancelled, outcome)
    case Send(w) => w < |s.workers| && s.workers[w].Sending? && (s.resultsClosed || !s.returned)
    case Drop(w) => w < |s.workers| && s.workers[w].Sending? && s.cancelled
    case Exit(w) => IsAt(s, w, Receiving) && s.jobsClosed
    case CloseResults => !s.resultsClosed && s.wg == 0
    case Return => s.resultsClosed && !s.returned
    case Cancel => !s.external
  }

  /** The collector's reaction to one result. */
  function Collect(p: Pool, s: State, r: Result): State {
    var t := s.(results := s.results + [r]);
    if p.failFast && r.outcome.Negative? && s.firstErr.None? then t.(firstErr := Some(r), cancelled := true) else t
  }

  function Apply(p: Pool, s: State, step: Step): State
    requires Enabled(p, s, step)
  {
    match step
    case Feed(w) => s.(fed := s.fed + 1, workers := s.workers[w := Working(s.fed)])
    case CloseJobs => s.(jobsClosed := true)
    case Produce(w, outcome) => s.(workers := s.workers[w := Sending(Result(s.workers[w].job, outcome, w))])
    case Send(w) =>
      if s.resultsClosed then s.(panicked := true)
      else Collect(p, s.(workers := s.workers[w := Receiving]), s.workers[w].result)
    case Drop(w) =>
      s.(workers := s.workers[w := Exited], wg := s.wg - 1, dropped := s.dropped + [s.workers[w].result.job])
    case Exit(w) => s.(workers := s.workers[w := Exited], wg := s.wg - 1)
    case CloseResults => s.(resultsClosed := true)
    case Return => s.(returned := true, cancelled := s.cancelled || p.failFast)
    case Cancel => s.(cancelled := true, external := true)
  }

  ghost predicate Next(p: Pool, s: State, t: State) {
    exists step {:trigger Enabled(p, s, step)} :: Enabled(p, s, step) && t == Apply(p, s, step)
  }

  ghost predicate Follows(p: Pool, run: seq<State>, i: nat) {
    i + 1 < |run| ==> Next(p, run[i], run[i + 1])
  }

  /** Any interleaving, from the start of the call. */
  ghost predicate IsRun(p: Pool, run: seq<State>) {
    && run != [] && run[0] == Init(p)
    && forall i: nat {:trigger Follows(p, run, i)} :: Follows(p, run, i)
  }

  // ---------- Counting ----------

  function Live(ws: seq<Worker>): nat {
    if ws == [] then 0 else Live(ws[..|ws| - 1]) + if ws[|ws| - 1].Exited? then 0 else 1
  }

  predicate Holds(w: Worker, job: nat) {
    (w.Working? && w.job == job) || (w.Sending? && w.result.job == job)
  }

  /** How many workers hold the job. */
  function Held(ws: seq<Worker>, job: nat): nat {
    if ws == [] then 0 else Held(ws[..|ws| - 1], job) + if Holds(ws[|ws| - 1], job) then 1 else 0
  }

  function Collected(rs: seq<Result>, job: nat): nat {
    if rs == [] then 0 else Collected(rs[..|rs| - 1], job) + if rs[|rs| - 1].job == job then 1 else 0
  }

  function Dropped(js: seq<nat>, job: nat): nat {
    if js == [] then 0 else Dropped(js[..|js| - 1], job) + if js[|js| - 1] == job then 1 else 0
  }

  lemma {:induction false} LiveUpdate(ws: seq<Worker>, w: nat, now: Worker)
    requires w < |ws|
    ensures Live(ws[w := now]) == Live(ws) - (if ws[w].Exited? then 0 else 1) + (if now.Exited? then 0 else 1)
  {
    var front := ws[..|ws| - 1];
    if w == |ws| - 1 {
      assert ws[w := now][..|ws| - 1] == front;
    } else {
      LiveUpdate(front, w, now);
      assert ws[w := now][..|ws| - 1] == front[w := now];
    }
  }

  lemma {:induction false} HeldUpdate(ws: seq<Worker>, w: nat, now: Worker, job: nat)
    requires w < |ws|
    ensures Held(ws[w := now], job) ==
      Held(ws, job) - (if Holds(ws[w], job) then 1 else 0) + (if Holds(now, job) then 1 else 0)
  {
    var front := ws[..|ws| - 1];
    if w == |ws| - 1 {
      assert ws[w := now][..|ws| - 1] == front;
    } else {
      HeldUpdate(front, w, now, job);
      assert ws[w := now][..|ws| - 1] == front[w := now];
    }
  }

  lemma {:induction false} LiveMeansNotExited(ws: seq<Worker>, w: nat)
    requires w < |ws| && !ws[w].Exited?
    ensures Live(ws) > 0
  {
    if w < |ws| - 1 {
      LiveMeansNotExited(ws[..|ws| - 1], w);
    }
  }

  lemma {:induction false} SomeoneLive(ws: seq<Worker>) returns (w: nat)
    requires Live(ws) > 0
    ensures w < |ws| && !ws[w].Exited?
  {
    w := |ws| - 1;
    if ws[w].Exited? {
      w := SomeoneLive(ws[..w]);
    }
  }

  lemma {:induction false} NobodyHolds(ws: seq<Worker>, job: nat)
    requires Live(ws) == 0
    ensures Held(ws, job) == 0
  {
    if ws != [] {
      NobodyHolds(ws[..|ws| - 1], job);
    }
  }

  lemma {:induction false} AllReceiving(n: nat, job: nat)
    ensures var ws: seq<Worker> := seq(n, _ => Receiving); Live(ws) == n && Held(ws, job) == 0
  {
    var ws: seq<Worker> := seq(n, _ => Receiving);
    if n > 0 {
      AllReceiving(n - 1, job);
      assert ws[..n - 1] == seq(n - 1, _ => Receiving);
    }
  }

  // ---------- The invariant ----------

  /** Each job fed is in exactly one place: with a worker, collected, or dropped. */
  ghost predicate Accounted(s: State, job: nat) {
    Held(s.workers, job) + Collected(s.results, job) + Dropped(s.dropped, job) == if job < s.fed then 1 else 0
  }

  /** Cancelled by the caller or because of a failure; returning from the fail-fast variant is not counted. */
  predicate Stopped(s: State) {
    s.external || s.firstErr.Some?
  }

  /** A result is one its job may have, and cancellation is reported only after cancelling. */
  predicate Genuine(p: Pool, s: State, r: Result) {
    r.job < s.fed <= |p.jobs| && r.worker < p.workers && MayProduce(p.jobs[r.job], Stopped(s), r.outcome)
  }

  ghost predicate WorkerOk(p: Pool, s: State, w: nat) {
    w < |s.workers| ==>
      match s.workers[w]
      case Receiving => true
      case Working(job) => job < s.fed
      case Sending(r) => Genuine(p, s, r) && r.worker == w
      case Exited => s.jobsClosed || Stopped(s)
  }

  /** The first result that is a failure. */
  function FirstFailure(rs: seq<Result>): Option<Result> {
    if rs == [] then None
    else
      var before := FirstFailure(rs[..|rs| - 1]);
      if before.Some? then before
      else if rs[|rs| - 1].outcome.Negative? then Some(rs[|rs| - 1]) else None
  }

  /** Counters and flags. */
  ghost predicate FlagsOk(p: Pool, s: State) {
    && s.fed <= |p.jobs| && |s.workers| == p.workers
    && !s.panicked
    && s.wg == Live(s.workers)
    && (s.resultsClosed ==> s.wg == 0)
    && (s.returned ==> s.resultsClosed)
    && (s.jobsClosed ==> s.fed == |p.jobs| || Stopped(s) || p.workers == 0)
    && (s.dropped != [] ==> Stopped(s))
    && (s.returned && p.workers > 0 ==> s.jobsClosed || Stopped(s))
    && s.firstErr == (if p.failFast then FirstFailure(s.results) else None)
    && (s.cancelled <==> Stopped(s) || (s.returned && p.failFast))
  }

  ghost predicate ResultOk(p: Pool, s: State, k: nat) {
    k < |s.results| ==> Genuine(p, s, s.results[k])
  }

  ghost predicate Inv(p: Pool, s: State) {
    && FlagsOk(p, s)
    && (forall w {:trigger WorkerOk(p, s, w)} :: WorkerOk(p, s, w))
    && (forall k {:trigger ResultOk(p, s, k)} :: ResultOk(p, s, k))
    && (forall job: nat {:trigger Accounted(s, job)} :: Accounted(s, job))
  }

  lemma InitHolds(p: Pool)
    ensures Inv(p, Init(p))
  {
    var s := Init(p);
    forall job: nat ensures Accounted(s, job) {
      AllReceiving(p.workers, job);
    }
    AllReceiving(p.workers, 0);
    forall w ensures WorkerOk(p, s, w) {
    }
  }

  /** A live worker keeps the results channel open. */
  lemma LiveKeepsOpen(p: Pool, s: State, w: nat)
    requires FlagsOk(p, s) && w < |s.workers| && !s.workers[w].Exited?
    ensures s.wg > 0 && !s.resultsClosed && !s.returned
  {
    LiveMeansNotExited(s.workers, w);
  }

  /** The worker a step moves, and to what. */
  function Moved(p: Pool, s: State, step: Step): Option<(nat, Worker)> {
    if !Enabled(p, s, step) then None else
      match step
      case Feed(w) => Some((w, Working(s.fed)))
      case Produce(w, outcome) => Some((w, Sending(Result(s.workers[w].job, outcome, w))))
      case Send(w) => if s.resultsClosed then None else Some((w, Receiving))
      case Drop(w) => Some((w, Exited))
      case Exit(w) => Some((w, Exited))
      case _ => None
  }

  lemma StepKeepsFlags(p: Pool, s: State, step: Step)
    requires Inv(p, s) && Enabled(p, s, step)
    ensures FlagsOk(p, Apply(p, s, step))
  {
    match Moved(p, s, step)
    case Some(m) =>
      LiveKeepsOpen(p, s, m.0);
      LiveUpdate(s.workers, m.0, m.1);
    case None =>
      if step.Send? {
        LiveKeepsOpen(p, s, step.w);
      }
      if step.Return? && p.workers > 0 {
        if !s.workers[0].Exited? {
          LiveMeansNotExited(s.workers, 0);
        }
        assert WorkerOk(p, s, 0);
      }
  }

  lemma StepKeepsWorkers(p: Pool, s: State, step: Step, w: nat)
    requires Inv(p, s) && Enabled(p, s, step)
    ensures WorkerOk(p, Apply(p, s, step), w)
  {
    assert WorkerOk(p, s, w);
    if (step.Produce? || step.Drop?) && step.w == w {
      LiveKeepsOpen(p, s, w);
    }
  }

  lemma StepKeepsResults(p: Pool, s: State, step: Step, k: nat)
    requires Inv(p, s) && Enabled(p, s, step)
    ensures ResultOk(p, Apply(p, s, step), k)
  {
    assert ResultOk(p, s, k);
    if step.Send? {
      assert WorkerOk(p, s, step.w);
    }
  }

  /** Nothing is lost, and nothing is done twice. */
  lemma StepAccounts(p: Pool, s: State, step: Step, job: nat)
    requires Inv(p, s) && Enabled(p, s, step)
    ensures Accounted(Apply(p, s, step), job)
  {
    assert Accounted(s, job);
    match Moved(p, s, step)
    case Some(m) =>
      HeldUpdate(s.workers, m.0, m.1, job);
    case None =>
  }

  /** No step of any goroutine breaks it. */
  lemma StepKeeps(p: Pool, s: State, step: Step)
    requires Inv(p, s) && Enabled(p, s, step)
    ensures Inv(p, Apply(p, s, step))
  {
    var t := Apply(p, s, step);
    StepKeepsFlags(p, s, step);
    forall w ensures WorkerOk(p, t, w) {
      StepKeepsWorkers(p, s, step, w);
    }
    forall k ensures ResultOk(p, t, k) {
      StepKeepsResults(p, s, step, k);
    }
    forall job: nat ensures Accounted(t, job) {
      StepAccounts(p, s, step, job);
    }
  }

  lemma NextKeeps(p: Pool, s: State, t: State)
    requires Inv(p, s) && Next(p, s, t)
    ensures Inv(p, t)
  {
    var step :| Enabled(p, s, step) && t == Apply(p, s, step);
    StepKeeps(p, s, step);
  }

  lemma {:induction false} RunKeeps(p: Pool, run: seq<State>, i: nat)
    requires IsRun(p, run) && i < |run|
    ensures Inv(p, run[i])
  {
    if i == 0 {
      InitHolds(p);
    } else {
      RunKeeps(p, run, i - 1);
      assert Follows(p, run, i - 1);
      NextKeeps(p, run[i - 1], run[i]);
    }
  }

  // ---------- Safety over every run ----------

  /** No run panics: results are closed last, after the final worker has left. */
  lemma NoSendOnClosed(p: Pool, run: seq<State>, i: nat)
    requires IsRun(p, run) && i < |run|
    ensures !run[i].panicked && run[i].wg >= 0
    ensures run[i].resultsClosed ==> forall w :: 0 <= w < |run[i].workers| ==> run[i].workers[w].Exited?
  {
    RunKeeps(p, run, i);
    var s := run[i];
    if s.resultsClosed {
      forall w | 0 <= w < |s.workers| ensures s.workers[w].Exited? {
        if !s.workers[w].Exited? {
          LiveMeansNotExited(s.workers, w);
        }
      }
    }
  }

  /** At any moment every job has at most one result, and each result is what its job calls for. */
  lemma AtMostOneResult(p: Pool, run: seq<State>, i: nat, job: nat)
    requires IsRun(p, run) && i < |run|
    ensures Collected(run[i].results, job) <= 1
    ensures forall k :: 0 <= k < |run[i].results| ==> Genuine(p, run[i], run[i].results[k])
  {
    RunKeeps(p, run, i);
    var s := run[i];
    assert Accounted(s, job);
    forall k | 0 <= k < |s.results| ensures Genuine(p, s, s.results[k]) {
      assert ResultOk(p, s, k);
    }
  }

  /** Every result of every run is right for its job, and no two are for the same job. */
  lemma ResultsAreRight(p: Pool, run: seq<State>, i: nat)
    requires IsRun(p, run) && i < |run|
    ensures forall k :: 0 <= k < |run[i].results| ==>
      var r := run[i].results[k];
      r.job < |p.jobs| && r.worker < p.workers &&
      match r.outcome
      case Negative => p.jobs[r.job] < 0
      case Squared(v) => p.jobs[r.job] >= 0 && v == p.jobs[r.job] * p.jobs[r.job]
      case Cancelled => p.jobs[r.job] >= 0 && (run[i].external || (p.failFast && run[i].firstErr.Some?))
    ensures forall k, l :: 0 <= k < l < |run[i].results| ==> run[i].results[k].job != run[i].results[l].job
  {
    RunKeeps(p, run, i);
    var s := run[i];
    forall k | 0 <= k < |s.results| ensures Genuine(p, s, s.results[k]) {
      assert ResultOk(p, s, k);
    }
    forall k, l | 0 <= k < l < |s.results| ensures s.results[k].job != s.results[l].job {
      if s.results[k].job == s.results[l].job {
        assert Accounted(s, s.results[k].job);
        CollectedTwice(s.results, k, l);
      }
    }
  }

  lemma {:induction false} CollectedOnce(rs: seq<Result>, k: nat)
    requires k < |rs|
    ensures Collected(rs, rs[k].job) >= 1
  {
    if k < |rs| - 1 {
      CollectedOnce(rs[..|rs| - 1], k);
    }
  }

  lemma {:induction false} CollectedTwice(rs: seq<Result>, k: nat, l: nat)
    requires k < l < |rs| && rs[k].job == rs[l].job
    ensures Collected(rs, rs[k].job) >= 2
  {
    if l < |rs| - 1 {
      CollectedTwice(rs[..|rs| - 1], k, l);
    } else {
      CollectedOnce(rs[..|rs| - 1], k);
    }
  }

  /** A returned run with a worker that was not cancelled before has the square of every input, or its error. */
  lemma EveryJobIsAnswered(p: Pool, run: seq<State>, i: nat, job: nat) returns (k: nat)
    requires IsRun(p, run) && i < |run| && p.workers > 0 && job < |p.jobs|
    requires run[i].returned && !run[i].external && run[i].firstErr.None?
    ensures k < |run[i].results| && run[i].results[k].job == job
    ensures run[i].results[k].outcome ==
      if p.jobs[job] < 0 then Negative else Squared(p.jobs[job] * p.jobs[job])
  {
    UncancelledIsComplete(p, run, i, job);
    k := CollectedIsThere(run[i].results, job);
    ResultsAreRight(p, run, i);
  }

  /** What cancels the work: the caller, and in the fail-fast call the first failure and the return. */
  lemma CancelledIff(p: Pool, run: seq<State>, i: nat)
    requires IsRun(p, run) && i < |run|
    ensures run[i].cancelled <==>
      run[i].external || (p.failFast && (run[i].returned || run[i].firstErr.Some?))
    ensures run[i].firstErr.Some? ==> p.failFast
  {
    RunKeeps(p, run, i);
  }

  /** A run that is not cancelled before it returns has exactly one result for every job, or none at all
      if there was no worker. */
  lemma UncancelledIsComplete(p: Pool, run: seq<State>, i: nat, job: nat)
    requires IsRun(p, run) && i < |run|
    requires run[i].returned && !Stopped(run[i])
    ensures Collected(run[i].results, job) == if p.workers > 0 && job < |p.jobs| then 1 else 0
    ensures |run[i].results| == if p.workers > 0 then |p.jobs| else 0
  {
    RunKeeps(p, run, i);
    if p.workers > 0 {
      AllComplete(p, run[i]);
    } else {
      NoWorkersNoResults(p, run[i]);
    }
  }

  lemma NoWorkersNoResults(p: Pool, s: State)
    requires Inv(p, s) && p.workers == 0
    ensures s.results == []
  {
    assert ResultOk(p, s, 0);
  }

  lemma AllComplete(p: Pool, s: State)
    requires Inv(p, s) && p.workers > 0 && s.returned && !Stopped(s)
    ensures forall job: nat {:trigger Collected(s.results, job)} ::
      Collected(s.results, job) == if job < |p.jobs| then 1 else 0
    ensures |s.results| == |p.jobs|
  {
    forall job: nat ensures Collected(s.results, job) == if job < |p.jobs| then 1 else 0 {
      Complete(p, s, job);
    }
    CollectedTotal(s.results, |p.jobs|);
  }

  /** Not cancelled, the call is complete exactly when there is a worker, or nothing to do. */
  lemma CompleteIffWorkers(p: Pool, run: seq<State>, i: nat)
    requires IsRun(p, run) && i < |run| && run[i].returned && !Stopped(run[i])
    ensures |run[i].results| == |p.jobs| <==> p.workers > 0 || p.jobs == []
  {
    UncancelledIsComplete(p, run, i, 0);
  }

  lemma Complete(p: Pool, s: State, job: nat)
    requires Inv(p, s) && p.workers > 0 && s.returned && !Stopped(s)
    ensures Collected(s.results, job) == if job < |p.jobs| then 1 else 0
  {
    if !s.workers[0].Exited? {
      LiveMeansNotExited(s.workers, 0);
    }
    assert WorkerOk(p, s, 0);
    NobodyHolds(s.workers, job);
    assert Accounted(s, job);
  }

  function Remove(rs: seq<Result>, job: nat): seq<Result> {
    if rs == [] then []
    else Remove(rs[..|rs| - 1], job) + if rs[|rs| - 1].job == job then [] else [rs[|rs| - 1]]
  }

  lemma {:induction false} RemoveCounts(rs: seq<Result>, job: nat, other: nat)
    ensures Collected(Remove(rs, job), other) == if other == job then 0 else Collected(rs, other)
    ensures |Remove(rs, job)| == |rs| - Collected(rs, job)
  {
    if rs != [] {
      var last, rest := rs[|rs| - 1], Remove(rs[..|rs| - 1], job);
      RemoveCounts(rs[..|rs| - 1], job, other);
      assert (rest + [last])[..|rest|] == rest && rest + [] == rest;
    }
  }

  /** One result for each of n jobs and no others make n results. */
  lemma {:induction false} CollectedTotal(rs: seq<Result>, n: nat)
    requires forall job: nat {:trigger Collected(rs, job)} :: Collected(rs, job) == if job < n then 1 else 0
    ensures |rs| == n
    decreases n
  {
    if n == 0 {
      assert rs != [] ==> Collected(rs, rs[|rs| - 1].job) > 0;
    } else {
      var last: nat := n - 1;
      assert Collected(rs, last) == 1;
      RemoveCounts(rs, last, 0);
      var fewer := Remove(rs, last);
      forall job: nat ensures Collected(fewer, job) == if job < last then 1 else 0 {
        RemoveCounts(rs, last, job);
        assert Collected(rs, job) == if job < n then 1 else 0;
      }
      CollectedTotal(fewer, last);
    }
  }

  // ---------- Fail-fast ----------

  /** The error returned is that of the first collected result that is a failure, for an input that is negative. */
  lemma {:induction false} FirstFailureIsFirst(rs: seq<Result>)
    ensures FirstFailure(rs).None? <==> forall k :: 0 <= k < |rs| ==> !rs[k].outcome.Negative?
    ensures FirstFailure(rs).Some? ==>
      exists k :: 0 <= k < |rs| && rs[k] == FirstFailure(rs).value && rs[k].outcome.Negative? &&
        forall j :: 0 <= j < k ==> !rs[j].outcome.Negative?
  {
    if rs != [] {
      var front := rs[..|rs| - 1];
      FirstFailureIsFirst(front);
      assert forall k :: 0 <= k < |front| ==> rs[k] == front[k];
      if FirstFailure(front).Some? {
        var k :| 0 <= k < |front| && front[k] == FirstFailure(front).value && front[k].outcome.Negative? &&
          forall j :: 0 <= j < k ==> !front[j].outcome.Negative?;
        assert rs[k] == FirstFailure(rs).value;
      } else {
        assert forall j :: 0 <= j < |rs| - 1 ==> !rs[j].outcome.Negative?;
      }
    }
  }

  lemma {:induction false} CollectedIsThere(rs: seq<Result>, job: nat) returns (k: nat)
    requires Collected(rs, job) > 0
    ensures k < |rs| && rs[k].job == job
  {
    k := |rs| - 1;
    if rs[k].job != job {
      k := CollectedIsThere(rs[..k], job);
    }
  }

  /** A failure is reported if and only if it is the first one collected. */
  lemma FailFastReportsFirst(p: Pool, run: seq<State>, i: nat)
    requires IsRun(p, run) && i < |run| && p.failFast
    ensures run[i].firstErr == FirstFailure(run[i].results)
    ensures run[i].firstErr.Some? ==>
      var r := run[i].firstErr.value; r in run[i].results && r.job < |p.jobs| && p.jobs[r.job] < 0
  {
    RunKeeps(p, run, i);
    var s := run[i];
    FirstFailureIsFirst(s.results);
    if s.firstErr.Some? {
      var k :| 0 <= k < |s.results| && s.results[k] == s.firstErr.value && s.results[k].outcome.Negative?;
      assert ResultOk(p, s, k);
    }
  }

  /** No failure reported and no cancelling by the caller means that there was none to report and that
      nothing is missing, exactly if there was a worker, or nothing to do. */
  lemma FailFastMissesNothingIff(p: Pool, run: seq<State>, i: nat)
    requires IsRun(p, run) && i < |run| && p.failFast
    requires run[i].returned && run[i].firstErr.None? && !run[i].external
    ensures (forall job :: 0 <= job < |p.jobs| ==> p.jobs[job] >= 0) && |run[i].results| == |p.jobs| <==>
      p.workers > 0 || p.jobs == []
  {
    RunKeeps(p, run, i);
    var s := run[i];
    if p.workers > 0 {
      AllComplete(p, s);
      FirstFailureIsFirst(s.results);
      forall job: nat | job < |p.jobs| ensures p.jobs[job] >= 0 {
        assert Collected(s.results, job) == 1;
        var k := CollectedIsThere(s.results, job);
        assert ResultOk(p, s, k);
      }
    } else {
      NoWorkersNoResults(p, s);
    }
  }

  /** Not cancelled by the caller, the call returns an error exactly if a job is negative and there is a worker
      to find out. */
  lemma FailFastErrorIff(p: Pool, run: seq<State>, i: nat)
    requires IsRun(p, run) && i < |run| && p.failFast && run[i].returned && !run[i].external
    ensures run[i].firstErr.Some? <==> p.workers > 0 && exists job :: 0 <= job < |p.jobs| && p.jobs[job] < 0
  {
    RunKeeps(p, run, i);
    FailFastReportsFirst(p, run, i);
    if run[i].firstErr.None? {
      FailFastMissesNothingIff(p, run, i);
    } else if p.workers == 0 {
      NoWorkersNoResults(p, run[i]);
    }
  }

  /** For any jobs, negative ones among them, there is a call without workers that reports no failure. */
  lemma ZeroWorkersHideFailures(jobs: seq<int>) returns (run: seq<State>)
    ensures IsRun(Pool(jobs, 0, true), run)
    ensures var s := run[|run| - 1]; s.returned && s.firstErr.None? && !s.external && s.results == []
  {
    run := RunWithoutWorkers(Pool(jobs, 0, true));
  }

  /** The shortest run: the results are closed and the call returns. */
  lemma RunWithoutWorkers(p: Pool) returns (run: seq<State>)
    requires p.workers == 0
    ensures IsRun(p, run)
    ensures run[|run| - 1] == Init(p).(resultsClosed := true, returned := true, cancelled := p.failFast)
  {
    var s0 := Init(p);
    assert Enabled(p, s0, CloseResults);
    var s1 := Apply(p, s0, CloseResults);
    assert Enabled(p, s1, Return);
    var s2 := Apply(p, s1, Return);
    run := [s0, s1, s2];
    assert Next(p, s0, s1) && Next(p, s1, s2);
    forall i: nat ensures Follows(p, run, i) {
    }
  }

  /** Without the fail-fast policy nothing but the caller cancels. */
  lemma RunPoolIsNotCancelled(p: Pool, run: seq<State>, i: nat)
    requires IsRun(p, run) && i < |run| && !p.failFast
    ensures run[i].cancelled <==> run[i].external
  {
    RunKeeps(p, run, i);
  }

  // ---------- Progress ----------

  /** Until the call has returned, some goroutine can move, without waiting for a cancellation. */
  lemma NeverStuck(p: Pool, run: seq<State>, i: nat) returns (step: Step)
    requires IsRun(p, run) && i < |run| && !run[i].returned
    ensures Enabled(p, run[i], step) && !step.Cancel?
  {
    RunKeeps(p, run, i);
    var s := run[i];
    if s.wg == 0 {
      step := if s.resultsClosed then Return else CloseResults;
    } else {
      var w := SomeoneLive(s.workers);
      assert WorkerOk(p, s, w);
      match s.workers[w]
      case Receiving =>
        step := if s.jobsClosed then Exit(w) else if s.fed < |p.jobs| then Feed(w) else CloseJobs;
      case Working(job) =>
        var input := p.jobs[job];
        step := Produce(w, if input < 0 then Negative else Squared(input * input));
      case Sending(r) =>
        step := Send(w);
    }
  }

  /** What a worker still has to do. */
  function Left(w: Worker): nat {
    match w
    case Receiving => 1
    case Working(_) => 3
    case Sending(_) => 2
    case Exited => 0
  }

  function LeftOf(ws: seq<Worker>): nat {
    if ws == [] then 0 else LeftOf(ws[..|ws| - 1]) + Left(ws[|ws| - 1])
  }

  lemma {:induction false} LeftUpdate(ws: seq<Worker>, w: nat, now: Worker)
    requires w < |ws|
    ensures LeftOf(ws[w := now]) == LeftOf(ws) - Left(ws[w]) + Left(now)
  {
    var front := ws[..|ws| - 1];
    if w == |ws| - 1 {
      assert ws[w := now][..|ws| - 1] == front;
    } else {
      LeftUpdate(front, w, now);
      assert ws[w := now][..|ws| - 1] == front[w := now];
    }
  }

  lemma {:induction false} LeftAtStart(n: nat)
    ensures LeftOf(seq(n, _ => Receiving)) == n
  {
    var ws: seq<Worker> := seq(n, _ => Receiving);
    if n > 0 {
      LeftAtStart(n - 1);
      assert ws[..n - 1] == seq(n - 1, _ => Receiving);
    }
  }

  function Open(b: bool): nat { if b then 0 else 1 }

  /** Steps left at most. */
  function Measure(p: Pool, s: State): int {
    3 * (|p.jobs| - s.fed) + LeftOf(s.workers) +
      Open(s.jobsClosed) + Open(s.resultsClosed) + Open(s.returned) + Open(s.external)
  }

  lemma StepDecreases(p: Pool, s: State, step: Step)
    requires Inv(p, s) && Enabled(p, s, step)
    ensures 0 <= Measure(p, Apply(p, s, step)) < Measure(p, s)
  {
    match Moved(p, s, step)
    case Some(m) =>
      LeftUpdate(s.workers, m.0, m.1);
    case None =>
      if step.Send? {
        LiveKeepsOpen(p, s, step.w);
      }
  }

  lemma NextDecreases(p: Pool, s: State, t: State)
    requires Inv(p, s) && Next(p, s, t)
    ensures 0 <= Measure(p, t) < Measure(p, s)
  {
    var step :| Enabled(p, s, step) && t == Apply(p, s, step);
    StepDecreases(p, s, step);
  }

  /** Every run ends: its length is bounded by the number of jobs and workers. */
  lemma RunsAreFinite(p: Pool, run: seq<State>)
    requires IsRun(p, run)
    ensures |run| <= 3 * |p.jobs| + p.workers + 5
  {
    LeftAtStart(p.workers);
    RunMeasure(p, run, |run| - 1);
  }

  lemma {:induction false} RunMeasure(p: Pool, run: seq<State>, i: nat)
    requires IsRun(p, run) && i < |run|
    ensures 0 <= Measure(p, run[i]) <= Measure(p, run[0]) - i
  {
    if i > 0 {
      RunMeasure(p, run, i - 1);
      RunKeeps(p, run, i - 1);
      assert Follows(p, run, i - 1);
      NextDecreases(p, run[i - 1], run[i]);
    }
  }

  /** Without workers and not cancelled, nothing is fed and the feeder does not stop. */
  ghost predicate Stranded(s: State) {
    s.external || (!s.jobsClosed && s.fed == 0 && s.results == [] && !s.cancelled)
  }

  lemma StepStrands(p: Pool, s: State, step: Step)
    requires p.workers == 0 && !p.failFast && p.jobs != []
    requires Inv(p, s) && Stranded(s) && Enabled(p, s, step)
    ensures Stranded(Apply(p, s, step))
  {
  }

  lemma {:induction false} RunStrands(p: Pool, run: seq<State>, i: nat)
    requires IsRun(p, run) && i < |run|
    requires p.workers == 0 && !p.failFast && p.jobs != []
    ensures Stranded(run[i])
  {
    if i > 0 {
      RunStrands(p, run, i - 1);
      RunKeeps(p, run, i - 1);
      assert Follows(p, run, i - 1);
      var step :| Enabled(p, run[i - 1], step) && run[i] == Apply(p, run[i - 1], step);
      StepStrands(p, run[i - 1], step);
    }
  }

  /**
   * After the return every worker has exited. The feeder has finished or can finish exactly if there was a
   * worker, or nothing to feed, or the call cancels on its return, or the caller cancelled.
   */
  lemma FeederFreedIff(p: Pool, run: seq<State>, i: nat)
    requires IsRun(p, run) && i < |run| && run[i].returned
    ensures run[i].wg == 0
    ensures (run[i].jobsClosed || Enabled(p, run[i], CloseJobs)) <==>
      p.workers > 0 || p.jobs == [] || p.failFast || run[i].external
  {
    RunKeeps(p, run, i);
    if p.workers == 0 && p.jobs != [] && !p.failFast {
      RunStrands(p, run, i);
    }
  }

  /**
   * Every call without workers that returns uncancelled returns nothing for its jobs, and only the caller
   * could still free the feeder, by cancelling.
   */
  lemma ZeroWorkersStrand(p: Pool, run: seq<State>, i: nat)
    requires IsRun(p, run) && i < |run| && p.workers == 0 && p.jobs != [] && !p.failFast
    requires run[i].returned && !run[i].external
    ensures run[i].results == []
    ensures forall step :: Enabled(p, run[i], step) ==> step.Cancel?
  {
    RunKeeps(p, run, i);
    RunStrands(p, run, i);
  }

  /** And there is such a call for any jobs. */
  lemma ZeroWorkersLoseJobs(jobs: seq<int>) returns (run: seq<State>)
    requires jobs != []
    ensures var p := Pool(jobs, 0, false);
      && IsRun(p, run)
      && run[|run| - 1].returned && run[|run| - 1].results == [] && !run[|run| - 1].cancelled
      && forall step :: Enabled(p, run[|run| - 1], step) ==> step.Cancel?
  {
    run := RunWithoutWorkers(Pool(jobs, 0, false));
  }
}
