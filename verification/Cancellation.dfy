/**
 * Cancelling a prove call: a token with two flags, written by any number of
 * threads that call request(), and read by the one thread that proves.
 */
module Cancellation {
  import opened Errors

  /**
   * The token: its own flag, and the flag of the native prover. A request is two
   * atomic stores, each a step of the machine below, and another thread may look
   * between them.
   */
  class CancelToken {
    var requested: bool
    var inner: bool

    /** The requests that have stored the outer flag only. */
    ghost var halfDone: nat

    constructor ()
      ensures Valid() && forall pc :: At(pc) == Initial(true).(pc := pc)
    {
      requested, inner, halfDone := false, false, 0;
    }

    /** The machine's state for a call that holds this token and has come to the given point. */
    ghost function At(pc: Pc): State
      reads this
    {
      State(true, requested, inner, halfDone, pc)
    }

    /** What every other thread may rely on, between the two stores of a request too. */
    ghost predicate Valid()
      reads this
    {
      Invariant(At(Entry))
    }

    method StoreRequested()
      requires Valid()
      modifies this
      ensures Valid() && requested
      ensures forall pc :: At(pc) == Apply(old(At(pc)), StoreOuter)
    {
      requested, halfDone := true, halfDone + 1;
    }

    /** Only after the outer flag: with none stored, the inner flag would be set alone. */
    method RequestInner()
      requires Valid() && halfDone > 0
      modifies this
      ensures Valid() && inner
      ensures forall pc :: At(pc) == Apply(old(At(pc)), StoreInner)
    {
      inner, halfDone := true, halfDone - 1;
    }

    method Request()
      requires Valid()
      modifies this
      ensures Valid()
      ensures forall pc :: At(pc) == Apply(Apply(old(At(pc)), StoreOuter), StoreInner)
    {
      StoreRequested();
      RequestInner();
    }
  }

  predicate IsRequested(cancel: Option<CancelToken>)
    reads if cancel.Some? then {cancel.value} else {}
  {
    cancel.Some? && cancel.value.requested
  }

  ghost function StateOf(cancel: Option<CancelToken>, pc: Pc): State
    reads if cancel.Some? then {cancel.value} else {}
  {
    if cancel.Some? then cancel.value.At(pc) else Initial(false).(pc := pc)
  }

  /** Reads the outer flag: the check the machine makes at entry and after the witness. */
  method EnsureNotCancelled(cancel: Option<CancelToken>) returns (r: Option<ProveError>)
    ensures r == if IsRequested(cancel) then Some(Cancelled) else None
    ensures forall pc, next ::
      Check(StateOf(cancel, pc), next) == StateOf(cancel, if r.Some? then Returned(Failed(r.value)) else next)
  {
    r := if IsRequested(cancel) then Some(Cancelled) else None;
  }

  datatype Outcome = Proof | Failed(error: ProveError)

  /** Where the proving thread is. */
  datatype Pc =
    | Entry
    | Building
    | PostWitness
    | SettingUp
    | Native
    | Returned(outcome: Outcome)

  /** `halfDone` counts the request() calls that have stored the outer flag only. */
  datatype State = State(hasToken: bool, requested: bool, inner: bool, halfDone: nat, pc: Pc)

  datatype Step =
    | StoreOuter
    | StoreInner
    | CheckEntry
    | Build(failure: Option<ProveError>)
    | CheckPostWitness
    | SetUp(failure: Option<ProveError>)
    | NativeEnds(outcome: Outcome)

  function Initial(hasToken: bool): State {
    State(hasToken, false, false, 0, Entry)
  }

  predicate IsRequestStep(step: Step) {
    step.StoreOuter? || step.StoreInner?
  }

  /**
   * The steps a state allows. Building the statement and the witness fails with
   * any error but cancellation; the native prover reports cancellation only when
   * it has read its flag set.
   */
  predicate Enabled(s: State, step: Step) {
    match step
    case StoreOuter => s.hasToken
    case StoreInner => s.halfDone > 0
    case CheckEntry => s.pc == Entry
    case Build(failure) => s.pc == Building && failure != Some(Cancelled)
    case CheckPostWitness => s.pc == PostWitness
    case SetUp(failure) => s.pc == SettingUp && IsSetUpFailure(failure)
    case NativeEnds(outcome) => s.pc == Native && NativeMayEnd(outcome, s.inner)
  }

  predicate IsSetUpFailure(failure: Option<ProveError>) {
    failure.None? || failure.value in {Prover, ProveError.Panic}
  }

  predicate NativeMayEnd(outcome: Outcome, inner: bool) {
    outcome == Proof || outcome.error in {Prover, ProveError.Panic} || (outcome.error == Cancelled && inner)
  }

  function Check(s: State, next: Pc): State {
    s.(pc := if s.requested then Returned(Failed(Cancelled)) else next)
  }

  function Continue(s: State, failure: Option<ProveError>, next: Pc): State {
    s.(pc := if failure.Some? then Returned(Failed(failure.value)) else next)
  }

  function Apply(s: State, step: Step): State
    requires Enabled(s, step)
  {
    match step
    case StoreOuter => s.(requested := true, halfDone := s.halfDone + 1)
    case StoreInner => s.(inner := true, halfDone := s.halfDone - 1)
    case CheckEntry => Check(s, Building)
    case Build(failure) => Continue(s, failure, PostWitness)
    case CheckPostWitness => Check(s, SettingUp)
    case SetUp(failure) => Continue(s, failure, Native)
    case NativeEnds(outcome) => s.(pc := Returned(outcome))
  }

  /** Some interleaving of the given steps leads from one state to the other. */
  ghost predicate Runs(s: State, steps: seq<Step>, end: State)
    decreases |steps|
  {
    if steps == [] then s == end
    else Enabled(s, steps[0]) && Runs(Apply(s, steps[0]), steps[1..], end)
  }

  lemma {:induction false} OneMoreStep(s: State, steps: seq<Step>, end: State, step: Step)
    requires Runs(s, steps, end) && Enabled(end, step)
    ensures Runs(s, steps + [step], Apply(end, step))
    decreases |steps|
  {
    var all := steps + [step];
    if steps == [] {
      assert Runs(Apply(s, step), all[1..], Apply(end, step));
    } else {
      OneMoreStep(Apply(s, steps[0]), steps[1..], end, step);
      assert all[1..] == steps[1..] + [step];
    }
  }

  /**
   * A whole prove call, with what its parts report: the statement and witness, the
   * set-up, and the native prover, which may read the inner flag. Another thread
   * may request while the witness is built. The call is a run of the machine, and
   * a request before either check keeps it from a proof.
   */
  method ProveCall(cancel: Option<CancelToken>, meanwhile: bool, build: Option<ProveError>, setUp: Option<ProveError>,
                   native: bool -> Outcome)
    returns (outcome: Outcome, ghost steps: seq<Step>)
    requires cancel.Some? ==> cancel.value.Valid()
    requires build != Some(Cancelled) && IsSetUpFailure(setUp)
    requires forall inner :: NativeMayEnd(native(inner), inner)
    modifies if cancel.Some? then {cancel.value} else {}
    ensures Runs(old(StateOf(cancel, Entry)), steps, StateOf(cancel, Returned(outcome)))
    ensures old(IsRequested(cancel)) ==> outcome == Failed(Cancelled)
    ensures cancel.Some? && meanwhile ==> outcome != Proof
  {
    ghost var s := StateOf(cancel, Entry);
    var stop := EnsureNotCancelled(cancel);
    steps := [CheckEntry];
    OneMoreStep(s, [], s, CheckEntry);
    hide Runs;
    if stop.Some? {
      return Failed(stop.value), steps;
    }
    if cancel.Some? && meanwhile {
      ghost var building := cancel.value.At(Building);
      cancel.value.Request();
      OneMoreStep(s, steps, building, StoreOuter);
      OneMoreStep(s, steps + [StoreOuter], Apply(building, StoreOuter), StoreInner);
      steps := steps + [StoreOuter] + [StoreInner];
    }
    OneMoreStep(s, steps, StateOf(cancel, Building), Build(build));
    steps := steps + [Build(build)];
    if build.Some? {
      return Failed(build.value), steps;
    }
    stop := EnsureNotCancelled(cancel);
    OneMoreStep(s, steps, StateOf(cancel, PostWitness), CheckPostWitness);
    steps := steps + [CheckPostWitness];
    if stop.Some? {
      return Failed(stop.value), steps;
    }
    OneMoreStep(s, steps, StateOf(cancel, SettingUp), SetUp(setUp));
    steps := steps + [SetUp(setUp)];
    if setUp.Some? {
      return Failed(setUp.value), steps;
    }
    outcome := native(cancel.Some? && cancel.value.inner);
    OneMoreStep(s, steps, StateOf(cancel, Native), NativeEnds(outcome));
    steps := steps + [NativeEnds(outcome)];
  }

  ghost predicate Invariant(s: State) {
    && (s.inner ==> s.requested)
    && (s.halfDone > 0 ==> s.requested)
    && (!s.hasToken ==> !s.requested)
    && (s.pc == Returned(Failed(Cancelled)) ==> s.requested)
  }

  lemma {:induction false} InvariantIsKept(s: State, steps: seq<Step>, end: State)
    requires Invariant(s) && Runs(s, steps, end)
    ensures Invariant(end) && end.hasToken == s.hasToken && (s.requested ==> end.requested)
    decreases |steps|
  {
    if steps != [] {
      InvariantIsKept(Apply(s, steps[0]), steps[1..], end);
    }
  }

  /**
   * In every interleaving the inner flag implies the outer one, a call ends
   * cancelled only after a request, and never without a token.
   */
  lemma OuterBeforeInner(hasToken: bool, steps: seq<Step>, end: State)
    requires Runs(Initial(hasToken), steps, end)
    ensures end.inner ==> end.requested
    ensures end.pc == Returned(Failed(Cancelled)) ==> end.requested && end.hasToken
  {
    InvariantIsKept(Initial(hasToken), steps, end);
  }

  /** A flag set before the entry check always ends in cancellation. */
  lemma {:induction false} EarlyRequestCancels(s: State, steps: seq<Step>, end: State)
    requires s.requested && (s.pc == Entry || s.pc == Returned(Failed(Cancelled)))
    requires Runs(s, steps, end)
    ensures end.pc == Entry || end.pc == Returned(Failed(Cancelled))
    decreases |steps|
  {
    if steps != [] {
      EarlyRequestCancels(Apply(s, steps[0]), steps[1..], end);
    }
  }

  predicate BeforePostCheck(pc: Pc) {
    pc == Entry || pc == Building || pc == PostWitness
  }

  /** Where a run can still be when its flag was set before the post-witness check. */
  predicate IsDoomed(s: State) {
    s.requested && (BeforePostCheck(s.pc) || (s.pc.Returned? && s.pc.outcome != Proof))
  }

  lemma {:induction false} DoomedStaysDoomed(s: State, steps: seq<Step>, end: State)
    requires IsDoomed(s) && Runs(s, steps, end)
    ensures IsDoomed(end)
    decreases |steps|
  {
    if steps != [] {
      DoomedStaysDoomed(Apply(s, steps[0]), steps[1..], end);
    }
  }

  predicate CanStillProve(s: State) {
    match s.pc
    case Returned(outcome) => outcome == Proof
    case SettingUp => true
    case Native => true
    case _ => !s.requested
  }

  ghost predicate EndsIn(s: State, steps: seq<Step>, end: State, outcome: Outcome) {
    Runs(s, steps, end) && end.pc == Returned(outcome)
  }

  ghost predicate CanEndIn(s: State, outcome: Outcome) {
    exists steps, end :: EndsIn(s, steps, end, outcome)
  }

  /**
   * A state can still end in a proof exactly when its flag is not set, or the
   * post-witness check is already behind it: a flag set before that check never
   * ends in a proof, and a flag set after it may.
   */
  lemma ProofIsPossibleExactly(s: State)
    ensures CanStillProve(s) <==> CanEndIn(s, Proof)
  {
    if CanStillProve(s) {
      var steps, end := ProofRun(s);
      assert EndsIn(s, steps, end, Proof);
    } else if CanEndIn(s, Proof) {
      var steps, end :| EndsIn(s, steps, end, Proof);
      if s.pc.Returned? {
        ReturnedStays(s, steps, end);
      } else {
        DoomedStaysDoomed(s, steps, end);
      }
    }
  }

  /** A call that has returned has returned for good. */
  lemma {:induction false} ReturnedStays(s: State, steps: seq<Step>, end: State)
    requires s.pc.Returned? && Runs(s, steps, end)
    ensures end.pc == s.pc
    decreases |steps|
  {
    if steps != [] {
      ReturnedStays(Apply(s, steps[0]), steps[1..], end);
    }
  }

  /** A schedule that lets the prover finish. */
  lemma {:induction false} ProofRun(s: State) returns (steps: seq<Step>, end: State)
    requires CanStillProve(s)
    ensures Runs(s, steps, end) && end.pc == Returned(Proof)
    decreases Rank(s.pc)
  {
    if s.pc.Returned? {
      steps, end := [], s;
    } else {
      var step := match s.pc
        case Entry => CheckEntry
        case Building => Build(None)
        case PostWitness => CheckPostWitness
        case SettingUp => SetUp(None)
        case _ => NativeEnds(Proof);
      var rest;
      rest, end := ProofRun(Apply(s, step));
      steps := [step] + rest;
      assert steps[1..] == rest;
    }
  }

  /** Every outcome a call can still have, by how far it has come and what the token says. */
  predicate MayEndIn(s: State, outcome: Outcome) {
    if s.pc.Returned? then s.pc.outcome == outcome
    else match outcome
      case Proof => CanStillProve(s)
      case Failed(Cancelled) => s.hasToken
      case Failed(error) =>
        match s.pc
        case Entry => !s.requested
        case Building => true
        case PostWitness => !s.requested && IsSetUpFailure(Some(error))
        case _ => IsSetUpFailure(Some(error))
  }

  /** A step on the way to an outcome. */
  function StepTowards(s: State, outcome: Outcome): Step
    requires !s.pc.Returned?
  {
    var cancelling := outcome == Failed(Cancelled);
    if cancelling && !s.requested then StoreOuter
    else match s.pc
      case Entry => CheckEntry
      case Building => Build(if outcome.Failed? && !cancelling then Some(outcome.error) else None)
      case PostWitness => CheckPostWitness
      case SettingUp => SetUp(if outcome.Failed? && !cancelling then Some(outcome.error) else None)
      case _ =>
        if !cancelling || s.inner then NativeEnds(outcome)
        else if s.halfDone > 0 then StoreInner
        else StoreOuter
  }

  /** The stores still missing before the native prover may report a cancellation. */
  function StoresLeft(s: State): nat {
    if s.inner then 0 else if s.halfDone > 0 then 1 else 2
  }

  lemma StepTowardsIsOne(s: State, outcome: Outcome)
    requires Invariant(s) && MayEndIn(s, outcome) && !s.pc.Returned?
    ensures Enabled(s, StepTowards(s, outcome)) && Invariant(Apply(s, StepTowards(s, outcome)))
    ensures MayEndIn(Apply(s, StepTowards(s, outcome)), outcome)
    ensures var t := Apply(s, StepTowards(s, outcome));
            Rank(t.pc) < Rank(s.pc) || (Rank(t.pc) == Rank(s.pc) && StoresLeft(t) < StoresLeft(s))
    ensures outcome != Failed(Cancelled) ==> !IsRequestStep(StepTowards(s, outcome))
  {}

  /** A schedule that ends in an outcome. */
  lemma {:induction false} OutcomeRun(s: State, outcome: Outcome) returns (steps: seq<Step>, end: State)
    requires Invariant(s) && MayEndIn(s, outcome)
    ensures EndsIn(s, steps, end, outcome)
    decreases Rank(s.pc), StoresLeft(s)
  {
    if s.pc.Returned? {
      steps, end := [], s;
    } else {
      var step := StepTowards(s, outcome);
      StepTowardsIsOne(s, outcome);
      var rest;
      rest, end := OutcomeRun(Apply(s, step), outcome);
      steps := [step] + rest;
      assert steps[1..] == rest;
    }
  }

  lemma StepForcesOutcome(s: State, step: Step, outcome: Outcome)
    requires Invariant(s) && Enabled(s, step) && MayEndIn(Apply(s, step), outcome)
    ensures Invariant(Apply(s, step)) && MayEndIn(s, outcome)
  {}

  lemma {:induction false} OutcomeWasPossible(s: State, steps: seq<Step>, end: State, outcome: Outcome)
    requires Invariant(s) && EndsIn(s, steps, end, outcome)
    ensures MayEndIn(s, outcome)
    decreases |steps|
  {
    if steps != [] {
      hide MayEndIn, Enabled, Apply, Invariant;
      InvariantStep(s, steps[0]);
      OutcomeWasPossible(Apply(s, steps[0]), steps[1..], end, outcome);
      StepForcesOutcome(s, steps[0], outcome);
    }
  }

  lemma InvariantStep(s: State, step: Step)
    requires Invariant(s) && Enabled(s, step)
    ensures Invariant(Apply(s, step))
  {}

  /**
   * From any state a run can be in, the outcomes some schedule reaches are exactly
   * these: a proof while that is possible, a cancellation whenever there is a token,
   * and an error as long as a step that reports it lies ahead.
   */
  lemma OutcomesExactly(s: State, outcome: Outcome)
    requires Invariant(s)
    ensures MayEndIn(s, outcome) <==> CanEndIn(s, outcome)
  {
    hide MayEndIn, EndsIn, Invariant;
    if MayEndIn(s, outcome) {
      var steps, end := OutcomeRun(s, outcome);
    }
    if CanEndIn(s, outcome) {
      var steps, end :| EndsIn(s, steps, end, outcome);
      OutcomeWasPossible(s, steps, end, outcome);
    }
  }

  /** How many steps of its own the proving thread has left at most. */
  function Rank(pc: Pc): nat {
    match pc
    case Entry => 5
    case Building => 4
    case PostWitness => 3
    case SettingUp => 2
    case Native => 1
    case Returned(_) => 0
  }

  function OwnSteps(steps: seq<Step>): nat {
    if steps == [] then 0
    else (if IsRequestStep(steps[0]) then 0 else 1) + OwnSteps(steps[1..])
  }

  /** Requests never block the prover: it always has a step, and at most five of them. */
  lemma {:induction false} ProverFinishes(s: State, steps: seq<Step>, end: State)
    requires Runs(s, steps, end)
    ensures OwnSteps(steps) + Rank(end.pc) <= Rank(s.pc)
    ensures !end.pc.Returned? ==> exists step :: !IsRequestStep(step) && Enabled(end, step)
    decreases |steps|
  {
    if steps != [] {
      ProverFinishes(Apply(s, steps[0]), steps[1..], end);
    } else {
      assert Enabled(s, CheckEntry) || Enabled(s, Build(None)) || Enabled(s, CheckPostWitness)
          || Enabled(s, SetUp(None)) || Enabled(s, NativeEnds(Proof)) || s.pc.Returned?;
    }
  }
}
