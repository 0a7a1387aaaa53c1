/** runSFTPFileWorkers: a producer hands the files over an unbuffered channel and stops
    at the first cancellation of the shared context. */
module FileWorkers {
  import opened Wrappers
  import opened Pool

  datatype Producer = Offering | Closed | Returned(result: Option<Cause>)

  datatype State = State(next: nat, producer: Producer, workers: seq<Worker>, cause: Option<Cause>,
                         status: seq<Status>, taken: seq<nat>)

  /** One atomic step of the producer, of a worker, or of the caller's context. */
  datatype Step =
    | Hand(w: nat)
    | SeeCancellation
    | CloseAfterLast
    | Succeed(w: nat)
    | Fail(w: nat, failure: Cause)
    | Leave(w: nat)
    | CancelParent(reason: Cause)
    | Return

  function Jobs(files: nat, jobs: int): (n: nat)
  {
    var bounded := if jobs < 1 then 1 else jobs;
    if bounded < files then bounded else files
  }

  function Init(files: nat, jobs: int): State {
    State(0, if files == 0 then Returned(None) else Offering, Repeated(Waiting, Jobs(files, jobs)), None,
          Repeated(Queued, files), Repeated(0, files))
  }

  predicate Enabled(s: State, step: Step) {
    match step
    case Hand(w) =>
      s.producer == Offering && s.next < |s.status| && s.next < |s.taken| && w < |s.workers| && s.workers[w] == Waiting
    case SeeCancellation => s.producer == Offering && s.next < |s.status| && s.cause.Some?
    case CloseAfterLast => s.producer == Offering && s.next == |s.status|
    case Succeed(w) => w < |s.workers| && s.workers[w].Busy? && s.workers[w].job < |s.status|
    case Fail(w, _) => w < |s.workers| && s.workers[w].Busy? && s.workers[w].job < |s.status|
    case Leave(w) => s.producer == Closed && w < |s.workers| && s.workers[w] == Waiting
    case CancelParent(_) => !s.producer.Returned? && s.cause.None?
    case Return => s.producer == Closed && forall w :: 0 <= w < |s.workers| ==> s.workers[w] == Gone
  }

  /** context.WithCancelCause keeps the first cause. */
  function First(cause: Option<Cause>, later: Cause): Option<Cause> {
    if cause.Some? then cause else Some(later)
  }

  function Apply(s: State, step: Step): State
    requires Enabled(s, step)
  {
    match step
    case Hand(w) => s.(next := s.next + 1, workers := s.workers[w := Busy(s.next)],
                       status := s.status[s.next := Taken], taken := s.taken[s.next := s.taken[s.next] + 1])
    case SeeCancellation => s.(producer := Closed)
    case CloseAfterLast => s.(producer := Closed)
    case Succeed(w) => s.(workers := s.workers[w := Waiting], status := s.status[s.workers[w].job := Succeeded])
    case Fail(w, failure) => s.(workers := s.workers[w := Gone], status := s.status[s.workers[w].job := Failed],
                                cause := First(s.cause, failure))
    case Leave(w) => s.(workers := s.workers[w := Gone])
    case CancelParent(reason) => s.(cause := Some(reason))
    case Return => s.(producer := Returned(s.cause))
  }

  ghost predicate Inv(s: State) {
    && Consistent(s.workers, s.status, s.taken, s.next)
    && (s.status != [] ==> s.workers != [])
    && (forall i :: 0 <= i < |s.status| && s.status[i] == Failed ==> s.cause.Some?)
    && (s.producer == Offering && s.cause.None? ==> forall w :: 0 <= w < |s.workers| ==> s.workers[w] != Gone)
    && (s.producer != Offering && s.cause.None? ==> s.next == |s.status|)
    && (s.producer.Returned? ==> AllGone(s.workers) && s.producer.result == s.cause)
    && (s.producer == Returned(None) ==> AllDone(s.status, s.taken))
  }

  lemma InitInv(files: nat, jobs: int)
    ensures Inv(Init(files, jobs))
  {}

  lemma StepInv(s: State, step: Step)
    requires Inv(s) && Enabled(s, step)
    ensures Inv(Apply(s, step))
  {
    hide Consistent;
    match step {
      case Hand(w) => TakeConsistent(s.workers, s.status, s.taken, s.next, w);
      case Succeed(w) => EndConsistent(s.workers, s.status, s.taken, s.next, w, Succeeded, Waiting);
      case Fail(w, _) => EndConsistent(s.workers, s.status, s.taken, s.next, w, Failed, Gone);
      case Leave(w) => LeaveConsistent(s.workers, s.status, s.taken, s.next, w);
      case Return => if s.cause.None? { NothingLeft(s.workers, s.status, s.taken); }
      case SeeCancellation =>
      case CloseAfterLast =>
      case CancelParent(_) =>
    }
  }

  /** Every step uses up something: no schedule goes on forever. */
  function Rank(s: State): int {
    2 * (|s.status| - s.next) + Weights(s.workers) + (if s.cause.None? then 1 else 0)
    + match s.producer
      case Offering => 2
      case Closed => 1
      case Returned(_) => 0
  }

  lemma StepRank(s: State, step: Step)
    requires Enabled(s, step)
    ensures Rank(Apply(s, step)) < Rank(s)
  {
    match step {
      case Hand(w) => WeightsUpdate(s.workers, w, Busy(s.next));
      case Succeed(w) => WeightsUpdate(s.workers, w, Waiting);
      case Fail(w, _) => WeightsUpdate(s.workers, w, Gone);
      case Leave(w) => WeightsUpdate(s.workers, w, Gone);
      case SeeCancellation =>
      case CloseAfterLast =>
      case CancelParent(_) =>
      case Return =>
    }
  }

  /** No deadlock: until the call has returned, the producer or a worker can move, whether
      or not the caller ever cancels. */
  lemma Progress(s: State) returns (step: Step)
    requires Inv(s) && !s.producer.Returned?
    ensures Enabled(s, step) && !step.CancelParent?
  {
    if w :| 0 <= w < |s.workers| && s.workers[w].Busy? {
      step := Succeed(w);
    } else if w :| 0 <= w < |s.workers| && s.workers[w] == Waiting {
      step := if s.producer == Closed then Leave(w) else if s.next < |s.status| then Hand(w) else CloseAfterLast;
    } else if s.producer == Closed {
      step := Return;
    } else {
      step := if s.next < |s.status| then SeeCancellation else CloseAfterLast;
      if s.next < |s.status| {
        assert s.workers[0] == Gone;
      }
    }
  }

  // ------------------------------------------------------------- whole schedules

  predicate Schedule(s: State, steps: seq<Step>)
    decreases |steps|
  {
    steps == [] || (Enabled(s, steps[0]) && Schedule(Apply(s, steps[0]), steps[1..]))
  }

  function After(s: State, steps: seq<Step>): State
    requires Schedule(s, steps)
    decreases |steps|
  {
    if steps == [] then s else After(Apply(s, steps[0]), steps[1..])
  }

  /** The first thing that cancels the shared context. */
  function FirstCause(steps: seq<Step>): Option<Cause> {
    if steps == [] then None
    else match steps[0]
      case Fail(_, failure) => Some(failure)
      case CancelParent(reason) => Some(reason)
      case _ => FirstCause(steps[1..])
  }

  lemma {:induction false} AlongSchedule(s: State, steps: seq<Step>)
    requires Inv(s) && Schedule(s, steps)
    ensures var end := After(s, steps);
            && Inv(end) && |end.workers| == |s.workers| && |end.status| == |s.status|
            && Rank(end) + |steps| <= Rank(s)
            && end.cause == if s.cause.Some? then s.cause else FirstCause(steps)
    decreases |steps|
  {
    if steps != [] {
      StepInv(s, steps[0]);
      StepRank(s, steps[0]);
      AlongSchedule(Apply(s, steps[0]), steps[1..]);
    }
  }

  function BusyCount(ws: seq<Worker>): (n: nat)
    ensures n <= |ws|
  {
    if ws == [] then 0 else (if ws[0].Busy? then 1 else 0) + BusyCount(ws[1..])
  }

  /** Whatever the schedule, for every number of files and jobs: at most min(jobs, files)
      transfers run at once, no file is ever given twice, a schedule has at most as many
      steps as the Rank it starts with, it can always go on until the call returns, the
      result is the first cause, and nil means that every file was transferred once. */
  lemma EverySchedule(files: nat, jobs: int, steps: seq<Step>)
    requires Schedule(Init(files, jobs), steps)
    ensures var end := After(Init(files, jobs), steps);
            && BusyCount(end.workers) <= Jobs(files, jobs)
            && (forall i :: 0 <= i < |end.taken| ==> end.taken[i] <= 1)
            && |steps| <= 2 * files + Jobs(files, jobs) + 3
            && (end.producer.Returned? || exists step :: Enabled(end, step) && !step.CancelParent?)
            && (end.producer.Returned? ==> end.producer.result == FirstCause(steps))
            && (end.producer == Returned(None) ==> |end.status| == files && AllDone(end.status, end.taken))
  {
    var s := Init(files, jobs);
    InitInv(files, jobs);
    AlongSchedule(s, steps);
    FreshWorkers(Jobs(files, jobs));
    var end := After(s, steps);
    assert Rank(s) <= 2 * files + Jobs(files, jobs) + 3;
    RankNat(end);
    if !end.producer.Returned? {
      var step := Progress(end);
    }
  }

  lemma RankNat(s: State)
    requires Inv(s)
    ensures Rank(s) >= 0
  {}
}
