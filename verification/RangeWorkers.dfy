/** The workers of sftpUploadFileRanges: every missing chunk is already in a closed,
    buffered channel, and a failure cancels the requests of the others. */
module RangeWorkers {
  import opened Wrappers
  import opened Pool

  datatype State = State(next: nat, workers: seq<Worker>, errors: seq<Cause>, parent: Option<Cause>,
                         status: seq<Status>, taken: seq<nat>, returned: bool, result: Option<Cause>)

  datatype Step =
    | Take(w: nat)
    | Succeed(w: nat)
    | Fail(w: nat, failure: Cause)
    | Leave(w: nat)
    | CancelParent(reason: Cause)
    | Return

  /** min(parallelism, len(ranges)) workers. */
  function Init(chunks: nat, parallelism: nat): State {
    var n := if parallelism < chunks then parallelism else chunks;
    State(0, Repeated(Waiting, n), [], None, Repeated(Queued, chunks), Repeated(0, chunks), false, None)
  }

  predicate Enabled(s: State, step: Step) {
    !s.returned &&
    match step
    case Take(w) => s.next < |s.status| && s.next < |s.taken| && w < |s.workers| && s.workers[w] == Waiting
    case Succeed(w) => w < |s.workers| && s.workers[w].Busy? && s.workers[w].job < |s.status|
    case Fail(w, _) => w < |s.workers| && s.workers[w].Busy? && s.workers[w].job < |s.status|
    case Leave(w) => s.next == |s.status| && w < |s.workers| && s.workers[w] == Waiting
    case CancelParent(_) => s.parent.None?
    case Return => forall w :: 0 <= w < |s.workers| ==> s.workers[w] == Gone
  }

  /** A failure is sent to errCh unless that channel is full. */
  function Report(s: State, failure: Cause): seq<Cause> {
    if |s.errors| < |s.workers| then s.errors + [failure] else s.errors
  }

  function Apply(s: State, step: Step): State
    requires Enabled(s, step)
  {
    match step
    case Take(w) => s.(next := s.next + 1, workers := s.workers[w := Busy(s.next)],
                       status := s.status[s.next := Taken], taken := s.taken[s.next := s.taken[s.next] + 1])
    case Succeed(w) => s.(workers := s.workers[w := Waiting], status := s.status[s.workers[w].job := Succeeded])
    case Fail(w, failure) => s.(workers := s.workers[w := Gone], status := s.status[s.workers[w].job := Failed],
                                errors := Report(s, failure))
    case Leave(w) => s.(workers := s.workers[w := Gone])
    case CancelParent(reason) => s.(parent := Some(reason))
    case Return => s.(returned := true, result := if s.errors != [] then Some(s.errors[0]) else s.parent)
  }

  ghost predicate Inv(s: State) {
    && Consistent(s.workers, s.status, s.taken, s.next)
    && (s.status != [] ==> s.workers != [])
    && |s.errors| <= GoneCount(s.workers)
    && (forall i :: 0 <= i < |s.status| && s.status[i] == Failed ==> s.errors != [])
    && (s.errors == [] && s.next < |s.status| ==> forall w :: 0 <= w < |s.workers| ==> s.workers[w] != Gone)
    && (s.returned ==> AllGone(s.workers))
    && (s.returned ==> s.result == if s.errors != [] then Some(s.errors[0]) else s.parent)
    && (s.returned && s.result.None? ==> AllDone(s.status, s.taken))
  }

  lemma InitInv(chunks: nat, parallelism: nat)
    requires parallelism > 0
    ensures Inv(Init(chunks, parallelism))
  {
    FreshWorkers(|Init(chunks, parallelism).workers|);
  }

  lemma StepInv(s: State, step: Step)
    requires Inv(s) && Enabled(s, step)
    ensures Inv(Apply(s, step))
  {
    hide Consistent;
    match step {
      case Take(w) =>
        TakeConsistent(s.workers, s.status, s.taken, s.next, w);
        GoneUpdate(s.workers, w, Busy(s.next));
      case Succeed(w) =>
        EndConsistent(s.workers, s.status, s.taken, s.next, w, Succeeded, Waiting);
        GoneUpdate(s.workers, w, Waiting);
      case Fail(w, _) =>
        EndConsistent(s.workers, s.status, s.taken, s.next, w, Failed, Gone);
        GoneUpdate(s.workers, w, Gone);
      case Leave(w) =>
        LeaveConsistent(s.workers, s.status, s.taken, s.next, w);
        GoneUpdate(s.workers, w, Gone);
      case Return =>
        assert s.status != [] ==> s.workers[0] == Gone;
        if s.errors == [] {
          TakenInOrder(s.workers, s.status, s.taken, s.next);
          NothingLeft(s.workers, s.status, s.taken);
        }
      case CancelParent(_) =>
    }
  }

  function Rank(s: State): int {
    2 * (|s.status| - s.next) + Weights(s.workers) + (if s.parent.None? then 1 else 0) + (if s.returned then 0 else 1)
  }

  lemma StepRank(s: State, step: Step)
    requires Enabled(s, step)
    ensures Rank(Apply(s, step)) < Rank(s)
  {
    match step {
      case Take(w) => WeightsUpdate(s.workers, w, Busy(s.next));
      case Succeed(w) => WeightsUpdate(s.workers, w, Waiting);
      case Fail(w, _) => WeightsUpdate(s.workers, w, Gone);
      case Leave(w) => WeightsUpdate(s.workers, w, Gone);
      case CancelParent(_) =>
      case Return =>
    }
  }

  lemma Progress(s: State) returns (step: Step)
    requires Inv(s) && !s.returned
    ensures Enabled(s, step) && !step.CancelParent?
  {
    if w :| 0 <= w < |s.workers| && s.workers[w].Busy? {
      step := Succeed(w);
    } else if w :| 0 <= w < |s.workers| && s.workers[w] == Waiting {
      step := if s.next < |s.status| then Take(w) else Leave(w);
    } else {
      step := Return;
    }
  }

  predicate Schedule(s: State, steps: seq<Step>)
    decreases |steps|
  {
    steps == [] || (Enabled(s, steps[0]) && Schedule(Apply(s, steps[0]), steps[1..]))
  }

  function After(s: State, steps: seq<Step>): State
    requires Schedule(s, steps)
    decreases |steps|
  {
    if steps == [] then s else After(Apply(s, steps[0]), steps[1..])
  }

  /** The failures of a schedule, in order. */
  function Failures(steps: seq<Step>): seq<Cause> {
    if steps == [] then []
    else if steps[0].Fail? then [steps[0].failure] + Failures(steps[1..])
    else Failures(steps[1..])
  }

  /** The caller's own cancellation. */
  function Cancellation(steps: seq<Step>): Option<Cause> {
    if steps == [] then None
    else if steps[0].CancelParent? then Some(steps[0].reason)
    else Cancellation(steps[1..])
  }

  lemma {:induction false} AlongSchedule(s: State, steps: seq<Step>)
    requires Inv(s) && Schedule(s, steps)
    ensures var end := After(s, steps);
            && Inv(end) && |end.workers| == |s.workers| && |end.status| == |s.status|
            && Rank(end) + |steps| <= Rank(s)
            && end.errors == s.errors + Failures(steps)
            && end.parent == if s.parent.Some? then s.parent else Cancellation(steps)
    decreases |steps|
  {
    hide Inv, Enabled, Apply, Rank;
    if steps == [] {
      assert s.errors + [] == s.errors;
    } else {
      StepInv(s, steps[0]);
      StepRank(s, steps[0]);
      StepKeeps(s, steps[0]);
      AlongSchedule(Apply(s, steps[0]), steps[1..]);
      if steps[0].Fail? {
        Associative(s.errors, [steps[0].failure], Failures(steps[1..]));
      }
    }
  }

  /** No failure is lost to a full channel, and only the caller cancels. */
  lemma StepKeeps(s: State, step: Step)
    requires Inv(s) && Enabled(s, step)
    ensures var s' := Apply(s, step);
            && |s'.workers| == |s.workers| && |s'.status| == |s.status|
            && s'.errors == (if step.Fail? then s.errors + [step.failure] else s.errors)
            && s'.parent == (if step.CancelParent? then Some(step.reason) else s.parent)
            && (step.CancelParent? ==> s.parent.None?)
  {
    hide Consistent;
    if step.Fail? {
      GoneUpdate(s.workers, step.w, Gone);
    }
  }

  /** Whatever the schedule: no chunk is sent twice, no failure is lost to a full channel,
      the schedule is bounded and never stuck, the result is the first failure or else the
      caller's cancellation, and nil means that every chunk was sent once. */
  lemma EverySchedule(chunks: nat, parallelism: nat, steps: seq<Step>)
    requires parallelism > 1 && Schedule(Init(chunks, parallelism), steps)
    ensures var end := After(Init(chunks, parallelism), steps);
            && |end.workers| <= parallelism
            && (forall i :: 0 <= i < |end.taken| ==> end.taken[i] <= 1)
            && end.errors == Failures(steps)
            && |steps| <= 3 * chunks + 2
            && (end.returned || exists step :: Enabled(end, step) && !step.CancelParent?)
            && (end.returned ==>
                  end.result == if Failures(steps) != [] then Some(Failures(steps)[0]) else Cancellation(steps))
            && (end.returned && end.result.None? ==> |end.status| == chunks && AllDone(end.status, end.taken))
  {
    var s := Init(chunks, parallelism);
    InitInv(chunks, parallelism);
    AlongSchedule(s, steps);
    FreshWorkers(|s.workers|);
    var end := After(s, steps);
    RankNat(end);
    if !end.returned {
      var step := Progress(end);
    }
  }

  lemma RankNat(s: State)
    requires Inv(s)
    ensures Rank(s) >= 0
  {}
}
