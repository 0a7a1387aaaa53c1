/** Starting and stopping the engine inside an Android process, over all interleavings. */
module EngineLifecycle {
  import opened Wrappers

  // Start and Stop run under one mutex; every Start launches a goroutine that runs an engine,
  // announces its entrance, and reports how it ended over two channels. The steps below are
  // the atomic ones: of whoever holds the mutex, and of every goroutine.

  datatype Outcome = Nil | Canceled | Error(code: int)

  /** One engine and what only its own Start shares with it: its context, the buffered
      channels `entrance` and `failed`, and `done`. */
  datatype Engine = Engine(canceled: bool, announced: bool, entrance: bool, outcome: Option<Outcome>,
                           failed: Option<int>, sent: bool, done: bool)

  const LAUNCHED := Engine(false, false, false, None, None, false, false)

  /** Why a start failed. RunFailed stands for what classifyStartFailure makes of the code. */
  datatype Kind = StorageUnavailable | Unknown | RunFailed(code: int) | ProbeFailed | StoppedEarly

  datatype Report = Started(engine: nat) | Failed(kind: Kind, launched: Option<nat>) | Stopped | NotStarted

  /** Where the holder of the mutex is. */
  datatype Place =
    | Free
    | WaitOld(engine: nat)
    | Preparing
    | Selecting(engine: nat)
    | Probing(engine: nat)
    | Checking(engine: nat)
    | WaitFailed(engine: nat, code: int)
    | WaitProbe(engine: nat)
    | WaitStop(engine: nat)

  datatype State = State(engines: seq<Engine>, running: Option<nat>, place: Place, reports: seq<Report>)

  const INITIAL := State([], None, Free, [])

  datatype Step =
    | CallStart
    | CallStop
    | OldEnded
    | StopEnded
    | PrepareFails(kind: Kind)
    | Launch
    | SelectEntrance
    | SelectFailed
    | SelectDone
    | ProbeAnswers
    | ProbeFails
    | Check
    | FailedEnded
    | ProbeEnded
    | Announce(engine: nat)
    | RunReturns(engine: nat, outcome: Outcome)
    | SendFailure(engine: nat)
    | CloseDone(engine: nat)

  predicate At(s: State, i: nat) {
    i < |s.engines|
  }

  predicate Enabled(s: State, step: Step) {
    match step
    case CallStart => s.place == Free && (s.running.Some? ==> At(s, s.running.value))
    case CallStop => s.place == Free && (s.running.Some? ==> At(s, s.running.value))
    case OldEnded => s.place.WaitOld? && At(s, s.place.engine) && s.engines[s.place.engine].done
    case StopEnded => s.place.WaitStop? && At(s, s.place.engine) && s.engines[s.place.engine].done
    case PrepareFails(kind) => s.place == Preparing && (kind == StorageUnavailable || kind == Unknown)
    case Launch => s.place == Preparing
    case SelectEntrance => s.place.Selecting? && At(s, s.place.engine) && s.engines[s.place.engine].entrance
    case SelectFailed => s.place.Selecting? && At(s, s.place.engine) && s.engines[s.place.engine].failed.Some?
    case SelectDone => s.place.Selecting? && At(s, s.place.engine) && s.engines[s.place.engine].done
    case ProbeAnswers => s.place.Probing?
    case ProbeFails => s.place.Probing? && At(s, s.place.engine)
    case Check => s.place.Checking? && At(s, s.place.engine)
    case FailedEnded => s.place.WaitFailed? && At(s, s.place.engine) && s.engines[s.place.engine].done
    case ProbeEnded => s.place.WaitProbe? && At(s, s.place.engine) && s.engines[s.place.engine].done
    case Announce(e) => At(s, e) && s.engines[e].outcome.None? && !s.engines[e].announced
    case RunReturns(e, _) => At(s, e) && s.engines[e].outcome.None?
    case SendFailure(e) =>
      At(s, e) && s.engines[e].outcome.Some? && s.engines[e].outcome.value.Error? && !s.engines[e].sent
    case CloseDone(e) => At(s, e) && s.engines[e].outcome.Some? && !s.engines[e].done &&
                         (s.engines[e].outcome.value.Error? ==> s.engines[e].sent)
  }

  function Cancel(s: State, e: nat): State
    requires At(s, e)
  {
    s.(engines := s.engines[e := s.engines[e].(canceled := true)])
  }

  /** Return from the call that holds the mutex. */
  function Leave(s: State, report: Report): State {
    s.(place := Free, reports := s.reports + [report])
  }

  /** What is left in the failed channel decides between a run failure and `otherwise`. */
  function Reason(e: Engine, otherwise: Kind): Kind {
    if e.failed.Some? then RunFailed(e.failed.value) else otherwise
  }

  function Apply(s: State, step: Step): State
    requires Enabled(s, step)
  {
    match step
    case CallStart =>
      if s.running.Some? then Cancel(s, s.running.value).(place := WaitOld(s.running.value))
      else s.(place := Preparing)
    case CallStop =>
      if s.running.Some? then Cancel(s, s.running.value).(place := WaitStop(s.running.value))
      else Leave(s, NotStarted)
    case OldEnded => s.(running := None, place := Preparing)
    case StopEnded => Leave(s.(running := None), Stopped)
    case PrepareFails(kind) => Leave(s, Failed(kind, None))
    case Launch => s.(engines := s.engines + [LAUNCHED], place := Selecting(|s.engines|))
    case SelectEntrance =>
      var e := s.place.engine;
      s.(engines := s.engines[e := s.engines[e].(entrance := false)], place := Probing(e))
    case SelectFailed =>
      var e := s.place.engine;
      s.(engines := s.engines[e := s.engines[e].(failed := None, canceled := true)],
         place := WaitFailed(e, s.engines[e].failed.value))
    case SelectDone =>
      var e := s.place.engine;
      Leave(Cancel(s, e), Failed(Reason(s.engines[e], StoppedEarly), Some(e)))
    case ProbeAnswers => s.(place := Checking(s.place.engine))
    case ProbeFails => Cancel(s, s.place.engine).(place := WaitProbe(s.place.engine))
    case Check =>
      var e := s.place.engine;
      if s.engines[e].done then Leave(Cancel(s, e), Failed(Reason(s.engines[e], StoppedEarly), Some(e)))
      else Leave(s.(running := Some(e)), Started(e))
    case FailedEnded => Leave(s, Failed(RunFailed(s.place.code), Some(s.place.engine)))
    case ProbeEnded => Leave(s, Failed(Reason(s.engines[s.place.engine], ProbeFailed), Some(s.place.engine)))
    case Announce(e) => s.(engines := s.engines[e := s.engines[e].(announced := true, entrance := true)])
    case RunReturns(e, outcome) => s.(engines := s.engines[e := s.engines[e].(outcome := Some(outcome))])
    case SendFailure(e) =>
      var failed := Some(s.engines[e].outcome.value.code);
      s.(engines := s.engines[e := s.engines[e].(failed := failed, sent := true)])
    case CloseDone(e) => s.(engines := s.engines[e := s.engines[e].(done := true)])
  }

  // ---------------------------------------------------------------- what is kept

  /** A goroutine by itself. */
  predicate Sound(e: Engine) {
    && (e.done ==> e.outcome.Some?)
    && (e.failed.Some? ==> e.sent && e.outcome == Some(Error(e.failed.value)))
    && (e.sent ==> e.outcome.Some? && e.outcome.value.Error?)
    && (e.done && e.outcome.value.Error? ==> e.sent)
  }

  /** The failure of this engine has not been taken from its channel. */
  predicate Unread(e: Engine) {
    e.sent ==> e.failed.Some?
  }

  /** The engine that the current Start has launched. */
  function Current(place: Place): Option<nat> {
    match place
    case Selecting(e) => Some(e)
    case Probing(e) => Some(e)
    case Checking(e) => Some(e)
    case WaitFailed(e, _) => Some(e)
    case WaitProbe(e) => Some(e)
    case _ => None
  }

  /** What every report says about its engine. */
  predicate True(report: Report, engines: seq<Engine>) {
    match report
    case Failed(kind, Some(e)) =>
      && e < |engines| && engines[e].done && engines[e].canceled && engines[e].outcome.Some?
      && (match kind
          case RunFailed(code) => engines[e].outcome.value == Error(code)
          case StoppedEarly => !engines[e].outcome.value.Error?
          case ProbeFailed => !engines[e].outcome.value.Error?
          case _ => false)
    case Failed(kind, None) => kind == StorageUnavailable || kind == Unknown
    case _ => true
  }

  /** The engine that the holder of the mutex deals with. */
  function Target(place: Place): Option<nat> {
    match place
    case WaitOld(e) => Some(e)
    case WaitStop(e) => Some(e)
    case _ => Current(place)
  }

  ghost predicate PlaceInv(s: State)
    requires Target(s.place).Some? ==> At(s, Target(s.place).value)
  {
    match s.place
    case Free => true
    case Preparing => s.running.None?
    case WaitOld(e) => s.running == Some(e) && s.engines[e].canceled
    case WaitStop(e) => s.running == Some(e) && s.engines[e].canceled
    case WaitFailed(e, code) => s.running.None? && s.engines[e].canceled && s.engines[e].outcome == Some(Error(code))
    case WaitProbe(e) => s.running.None? && s.engines[e].canceled && Unread(s.engines[e])
    case _ =>
      var e := s.engines[Current(s.place).value];
      s.running.None? && !e.canceled && Unread(e)
  }

  ghost predicate Inv(s: State) {
    && (forall i :: 0 <= i < |s.engines| ==> Sound(s.engines[i]))
    && (s.running.Some? ==> At(s, s.running.value))
    && (Target(s.place).Some? ==> At(s, Target(s.place).value))
    && PlaceInv(s)
    && (s.running.Some? && s.place == Free ==> !s.engines[s.running.value].canceled)
    && (forall i :: 0 <= i < |s.engines| && Some(i) != s.running && Some(i) != Current(s.place) ==>
          s.engines[i].done && s.engines[i].canceled)
    && (forall i :: 0 <= i < |s.reports| ==> True(s.reports[i], s.engines))
  }

  /** A report stays true: an ended engine does not change its outcome. */
  lemma ReportsStay(reports: seq<Report>, engines: seq<Engine>, engines': seq<Engine>)
    requires forall i :: 0 <= i < |reports| ==> True(reports[i], engines)
    requires |engines| <= |engines'|
    requires forall i :: 0 <= i < |engines| && engines[i].done && engines[i].canceled ==>
               engines'[i].done && engines'[i].canceled && engines'[i].outcome == engines[i].outcome
    ensures forall i :: 0 <= i < |reports| ==> True(reports[i], engines')
  {
    forall i | 0 <= i < |reports| ensures True(reports[i], engines') {
      assert True(reports[i], engines);
    }
  }

  predicate OfGoroutine(step: Step) {
    step.Announce? || step.RunReturns? || step.SendFailure? || step.CloseDone?
  }

  lemma GoroutineInv(s: State, step: Step)
    requires Inv(s) && Enabled(s, step) && OfGoroutine(step)
    ensures Inv(Apply(s, step))
  {
    hide True;
    ReportsStay(s.reports, s.engines, Apply(s, step).engines);
  }

  lemma HolderInv(s: State, step: Step)
    requires Inv(s) && Enabled(s, step) && !OfGoroutine(step)
    ensures Inv(Apply(s, step))
  {
    hide True;
    var s' := Apply(s, step);
    ReportsStay(s.reports, s.engines, s'.engines);
    if |s'.reports| > |s.reports| {
      assert s'.reports == s.reports + [s'.reports[|s.reports|]];
      ReportTrue(s, step);
    }
  }

  /** A report is true when it is made. */
  lemma ReportTrue(s: State, step: Step)
    requires Inv(s) && Enabled(s, step) && |Apply(s, step).reports| > |s.reports|
    ensures True(Apply(s, step).reports[|s.reports|], Apply(s, step).engines)
  {}

  lemma StepInv(s: State, step: Step)
    requires Inv(s) && Enabled(s, step)
    ensures Inv(Apply(s, step))
  {
    hide Inv, Enabled, Apply;
    if OfGoroutine(step) {
      GoroutineInv(s, step);
    } else {
      HolderInv(s, step);
    }
  }

  predicate Schedule(s: State, steps: seq<Step>)
    decreases |steps|
  {
    steps == [] || (Enabled(s, steps[0]) && Schedule(Apply(s, steps[0]), steps[1..]))
  }

  function After(s: State, steps: seq<Step>): State
    requires Schedule(s, steps)
    decreases |steps|
  {
    if steps == [] then s else After(Apply(s, steps[0]), steps[1..])
  }

  lemma {:induction false} AlongSchedule(s: State, steps: seq<Step>)
    requires Inv(s) && Schedule(s, steps)
    ensures Inv(After(s, steps))
    decreases |steps|
  {
    if steps != [] {
      StepInv(s, steps[0]);
      AlongSchedule(Apply(s, steps[0]), steps[1..]);
    }
  }

  /** Over all interleavings, whenever the mutex is free: only the engine that
      running.cancel stops can still be unfinished, no other context is left open, and
      there is none at all when running.cancel is nil. */
  lemma AtMostOneEngine(steps: seq<Step>)
    requires Schedule(INITIAL, steps)
    ensures var s := After(INITIAL, steps);
            s.place == Free ==>
              forall i :: 0 <= i < |s.engines| ==>
                (s.running == Some(i) ==> !s.engines[i].canceled) &&
                (s.running != Some(i) ==> s.engines[i].done && s.engines[i].canceled)
  {
    AlongSchedule(INITIAL, steps);
  }

  /** Over all interleavings, whatever a Start reports is true: a failed start has waited
      for its engine to end; a run that failed is reported with its own failure, whichever
      case of the select came first; "stopped early" is said only of a run that returned
      nil or Canceled. */
  lemma ReportsAreTrue(steps: seq<Step>)
    requires Schedule(INITIAL, steps)
    ensures var s := After(INITIAL, steps);
            forall i :: 0 <= i < |s.reports| && s.reports[i].Failed? && s.reports[i].launched.Some? ==>
              var e, kind := s.reports[i].launched.value, s.reports[i].kind;
              && e < |s.engines| && s.engines[e].done && s.engines[e].outcome.Some?
              && (s.engines[e].outcome.value.Error? ==> kind == RunFailed(s.engines[e].outcome.value.code))
              && (!s.engines[e].outcome.value.Error? ==> kind == StoppedEarly || kind == ProbeFailed)
  {
    AlongSchedule(INITIAL, steps);
    var s := After(INITIAL, steps);
    forall i | 0 <= i < |s.reports| && s.reports[i].Failed? && s.reports[i].launched.Some?
      ensures True(s.reports[i], s.engines)
    {}
  }

  /** The call that holds the mutex is never stuck by itself: it can move, or the engine it
      waits for still has a step to take. */
  lemma NeverStuck(steps: seq<Step>) returns (step: Step)
    requires Schedule(INITIAL, steps) && After(INITIAL, steps).place != Free
    ensures Enabled(After(INITIAL, steps), step)
    ensures !step.CallStart? && !step.CallStop?
  {
    AlongSchedule(INITIAL, steps);
    var s := After(INITIAL, steps);
    match s.place {
      case Preparing => step := Launch;
      case Probing(e) => step := ProbeAnswers;
      case Checking(e) => step := Check;
      case WaitOld(e) => step := if s.engines[e].done then OldEnded else Ending(s, e);
      case WaitStop(e) => step := if s.engines[e].done then StopEnded else Ending(s, e);
      case Selecting(e) => step := if s.engines[e].done then SelectDone else Ending(s, e);
      case WaitFailed(e, _) => step := if s.engines[e].done then FailedEnded else Ending(s, e);
      case WaitProbe(e) => step := if s.engines[e].done then ProbeEnded else Ending(s, e);
    }
  }

  /** The next step of a goroutine that has not ended. */
  function Ending(s: State, e: nat): (step: Step)
    requires At(s, e) && Sound(s.engines[e]) && !s.engines[e].done
    ensures Enabled(s, step) && !step.CallStart? && !step.CallStop?
  {
    match s.engines[e].outcome
    case None => RunReturns(e, Canceled)
    case Some(Error(_)) => if s.engines[e].sent then CloseDone(e) else SendFailure(e)
    case Some(_) => CloseDone(e)
  }

  // --------------------------------------------------- how long the mutex is held

  /** The steps that a goroutine can still take. */
  function Work(e: Engine): (n: nat)
    ensures n <= 4
  {
    match e.outcome
    case None => if e.announced then 3 else 4
    case Some(outcome) => (if outcome.Error? && !e.sent then 1 else 0) + (if e.done then 0 else 1)
  }

  function Works(engines: seq<Engine>): nat {
    if engines == [] then 0 else Works(engines[..|engines| - 1]) + Work(engines[|engines| - 1])
  }

  lemma {:induction false} WorksUpdate(engines: seq<Engine>, i: nat, e: Engine)
    requires i < |engines|
    ensures Works(engines[i := e]) == Works(engines) - Work(engines[i]) + Work(e)
  {
    hide Work;
    var before, updated := engines[..|engines| - 1], engines[i := e];
    if i < |before| {
      WorksUpdate(before, i, e);
      assert updated[..|engines| - 1] == before[i := e];
    } else {
      assert updated[..|engines| - 1] == before;
    }
  }

  lemma WorksAppend(engines: seq<Engine>, e: Engine)
    ensures Works(engines + [e]) == Works(engines) + Work(e)
  {
    assert (engines + [e])[..|engines|] == engines;
  }

  /** When all engines but one have ended, what is left to do is that one's. */
  lemma {:induction false} WorksOfOne(engines: seq<Engine>, i: int)
    requires forall j :: 0 <= j < |engines| && j != i ==> Work(engines[j]) == 0
    ensures Works(engines) <= if 0 <= i < |engines| then 4 else 0
  {
    if engines != [] {
      WorksOfOne(engines[..|engines| - 1], i);
    }
  }

  /** The steps that the holder of the mutex can still take, the goroutine it launches included. */
  function PlaceRank(place: Place): nat {
    match place
    case Free => 0
    case Checking(_) => 1
    case Probing(_) => 2
    case Selecting(_) => 3
    case Preparing => 8
    case WaitOld(_) => 9
    case _ => 1
  }

  function Rank(s: State): nat {
    PlaceRank(s.place) + Works(s.engines)
  }

  predicate OfCaller(step: Step) {
    step.CallStart? || step.CallStop?
  }

  /** Every step but a new call uses something up. */
  lemma StepRank(s: State, step: Step)
    requires Enabled(s, step) && !OfCaller(step)
    ensures Rank(Apply(s, step)) < Rank(s)
  {
    var s' := Apply(s, step);
    if step.Launch? {
      WorksAppend(s.engines, LAUNCHED);
    } else if s'.engines != s.engines {
      TouchedWork(s, step);
      var i := Touched(s, step);
      WorksUpdate(s.engines, i, s'.engines[i]);
    }
  }

  /** The one engine that a step can change. */
  function Touched(s: State, step: Step): nat {
    match step
    case Announce(e) => e
    case RunReturns(e, _) => e
    case SendFailure(e) => e
    case CloseDone(e) => e
    case _ => if Target(s.place).Some? then Target(s.place).value else 0
  }

  lemma TouchedWork(s: State, step: Step)
    requires Enabled(s, step) && !OfCaller(step) && !step.Launch? && Apply(s, step).engines != s.engines
    ensures var i, engines := Touched(s, step), Apply(s, step).engines;
            && i < |s.engines| == |engines| && engines == s.engines[i := engines[i]]
            && if OfGoroutine(step) then Work(engines[i]) < Work(s.engines[i])
               else Work(engines[i]) == Work(s.engines[i])
  {
  }

  /** Only one engine can be unfinished. */
  lemma RankBounded(s: State)
    requires Inv(s)
    ensures Rank(s) <= 13
  {
    var i := if s.running.Some? then s.running.value else if Current(s.place).Some? then Current(s.place).value else 0;
    forall j | 0 <= j < |s.engines| && j != i ensures Work(s.engines[j]) == 0 {
      assert Sound(s.engines[j]) && s.engines[j].done;
    }
    WorksOfOne(s.engines, i);
  }

  /** The mutex is held before every one of these steps. */
  predicate Held(s: State, steps: seq<Step>)
    requires Schedule(s, steps)
    decreases |steps|
  {
    steps == [] || (s.place != Free && Held(Apply(s, steps[0]), steps[1..]))
  }

  lemma {:induction false} HeldRank(s: State, steps: seq<Step>)
    requires Schedule(s, steps) && Held(s, steps)
    ensures |steps| <= Rank(s)
    decreases |steps|
  {
    hide Rank, Apply;
    if steps != [] {
      StepRank(s, steps[0]);
      HeldRank(Apply(s, steps[0]), steps[1..]);
    }
  }

  /** Over all interleavings, no call holds the mutex for more than 13 steps, its own and those
      of every goroutine together; by NeverStuck it can always go on, so it ends. */
  lemma HeldBriefly(steps: seq<Step>, more: seq<Step>)
    requires Schedule(INITIAL, steps) && Schedule(After(INITIAL, steps), more)
    requires Held(After(INITIAL, steps), more)
    ensures |more| <= 13
  {
    AlongSchedule(INITIAL, steps);
    HeldRank(After(INITIAL, steps), more);
    RankBounded(After(INITIAL, steps));
  }
}
