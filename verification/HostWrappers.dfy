/**
 * The asynchronous prove of the Swift and Kotlin packages around one prove call:
 * a cancellation handler that calls request() on the token, and a continuation
 * that the finished call and, in Kotlin, the cancellation compete for.
 */
module HostWrappers {
  import opened Errors
  import opened Cancellation

  datatype Platform = Swift | Kotlin

  /** Kotlin refuses to begin for a caller that is cancelled by then; no token is made and no call starts. */
  datatype Phase = Fresh | Running | Refused

  /**
   * The cancellation handler: not yet registered, waiting, about to store the
   * outer flag, between the two stores, done, or dropped because the wait is over.
   */
  datatype Handler = Unregistered | Armed | StoringOuter | StoringInner | Fired | Dropped

  /** The continuation's result: whoever moves it from Active first has settled it. */
  datatype Slot = Active | Completed(outcome: Outcome) | CancelledFirst

  /**
   * Whether the caller waits for the result or finds it. The caller going to
   * sleep and the one who settled the result meet here: the second to come
   * hands the result over.
   */
  datatype Meeting = Undecided | Asleep | Settled

  /** One of the two contenders for the continuation. */
  datatype Contender = Idle | Trying | Won | Finished

  datatype Delivery = Value(outcome: Outcome) | CancellationException | Nothing

  /**
   * `late` records a handler that was registered after the cancellation and so
   * runs at once, before the call; `inTime` that the caller was cancelled before
   * anything was delivered.
   */
  datatype Wrapper = Wrapper(
    platform: Platform,
    phase: Phase,
    core: State,
    cancelled: bool,
    inTime: bool,
    handler: Handler,
    late: bool,
    slot: Slot,
    meeting: Meeting,
    canceller: Contender,
    caller: Contender,
    awaited: bool,
    delivered: seq<Delivery>)

  datatype Move =
    | Cancel
    | Begin
    | Register
    | TryCancel
    | HandlerOuter
    | HandlerInner
    | Prove(step: Step)
    | TryResume
    | CancellerMeets
    | CallerMeets
    | Await

  function Start(platform: Platform): Wrapper {
    Wrapper(platform, Fresh, Initial(true), false, false, Unregistered, false, Active, Undecided, Idle, Idle, false, [])
  }

  /** A handler registered late runs on the thread of the call, before it. */
  predicate MayProve(w: Wrapper) {
    w.handler != Unregistered && (w.late ==> w.handler == Fired)
  }

  /** The canceller runs the handler it found before it wakes the caller. */
  predicate HandlerIsThrough(w: Wrapper) {
    w.late || (w.handler != StoringOuter && w.handler != StoringInner)
  }

  /**
   * In Kotlin the call runs on the thread that awaits it, so the wait comes after
   * the result was handed over or refused; in Swift the call is a task of its own.
   */
  predicate MayAwait(w: Wrapper) {
    MayProve(w) && !w.awaited && (w.platform == Kotlin ==> w.caller == Finished)
  }

  /** Each thread's own order of steps, and no more: nothing here looks at what was delivered. */
  predicate Allowed(w: Wrapper, move: Move) {
    match move
    case Cancel => !w.cancelled
    case Begin => w.phase == Fresh
    case Register => w.phase == Running && w.handler == Unregistered
    case TryCancel => w.phase == Running && w.canceller == Trying
    case HandlerOuter => w.handler == StoringOuter && Enabled(w.core, StoreOuter)
    case HandlerInner => w.handler == StoringInner && Enabled(w.core, StoreInner)
    case Prove(step) => MayProve(w) && !IsRequestStep(step) && Enabled(w.core, step)
    case TryResume => w.core.pc.Returned? && w.caller == Idle
    case CancellerMeets => w.canceller == Won && HandlerIsThrough(w)
    case CallerMeets => w.caller == Won
    case Await => MayAwait(w)
  }

  /**
   * What a reader of the continuation gets. Kotlin drops a value when the caller is
   * cancelled by then, but an exception the call ended with is thrown all the same.
   */
  function Seen(w: Wrapper): Delivery {
    match w.slot
    case Active => Nothing
    case Completed(outcome) =>
      if w.platform == Kotlin && w.cancelled && outcome == Proof then CancellationException else Value(outcome)
    case CancelledFirst => CancellationException
  }

  /** Delivers; in Swift the handler is in place until then. */
  function Deliver(w: Wrapper): Wrapper {
    w.(delivered := w.delivered + [Seen(w)], handler := if w.handler == Armed then Dropped else w.handler)
  }

  /** A contender that has settled the result: it hands over to a sleeping caller, or leaves word. */
  function Meet(w: Wrapper): Wrapper {
    match w.meeting
    case Undecided => w.(meeting := Settled)
    case Asleep => Deliver(w)
    case Settled => w
  }

  function RunHandler(handler: Handler): Handler {
    if handler == Armed then StoringOuter else handler
  }

  function Do(w: Wrapper, move: Move): Wrapper
    requires Allowed(w, move)
  {
    match move
    case Cancel =>
      var flagged := w.(cancelled := true, inTime := w.delivered == []);
      if w.platform == Swift then flagged.(handler := RunHandler(w.handler)) else flagged.(canceller := Trying)
    case Begin =>
      if w.platform == Kotlin && w.cancelled
      then w.(phase := Refused, delivered := w.delivered + [CancellationException])
      else w.(phase := Running)
    case Register =>
      var late := if w.platform == Swift then w.cancelled else w.slot == CancelledFirst;
      w.(late := late, handler := if late then StoringOuter else Armed)
    case TryCancel =>
      if w.slot == Active then w.(slot := CancelledFirst, canceller := Won, handler := RunHandler(w.handler))
      else w.(canceller := Finished)
    case HandlerOuter => w.(handler := StoringInner, core := Apply(w.core, StoreOuter))
    case HandlerInner => w.(handler := Fired, core := Apply(w.core, StoreInner))
    case Prove(step) => w.(core := Apply(w.core, step))
    case TryResume =>
      if w.slot == Active then w.(slot := Completed(w.core.pc.outcome), caller := Won)
      else w.(caller := Finished)
    case CancellerMeets => Meet(w).(canceller := Finished)
    case CallerMeets => Meet(w).(caller := Finished)
    case Await =>
      var t := w.(awaited := true);
      if w.meeting == Settled then Deliver(t) else t.(meeting := Asleep)
  }

  ghost predicate Plays(w: Wrapper, moves: seq<Move>, end: Wrapper)
    decreases |moves|
  {
    if moves == [] then w == end
    else Allowed(w, moves[0]) && Plays(Do(w, moves[0]), moves[1..], end)
  }

  /** The handler runs or has run. */
  predicate WasCalled(handler: Handler) {
    handler == StoringOuter || handler == StoringInner || handler == Fired
  }

  /** The token, the handler and the cancellation. */
  ghost predicate TokenInvariant(w: Wrapper) {
    && Cancellation.Invariant(w.core) && w.core.hasToken
    // The handler makes the only request, one store at a time.
    && w.core.halfDone == (if w.handler == StoringInner then 1 else 0)
    && (w.core.requested <==> w.handler == StoringInner || w.handler == Fired)
    && (w.core.inner <==> w.handler == Fired)
    && (w.inTime ==> w.cancelled)
    && (w.cancelled && w.delivered == [] ==> w.inTime)
    && (w.handler == Armed ==> w.delivered == [])
    // A handler that runs was called for: by the cancelled task, or by the contender that won.
    && (WasCalled(w.handler) ==>
          w.cancelled && w.inTime && (w.platform == Kotlin ==> w.slot == CancelledFirst))
    && (w.platform == Swift && w.inTime ==> w.handler != Armed && w.handler != Dropped)
    && (w.slot == CancelledFirst ==> w.cancelled && w.platform == Kotlin && w.handler != Armed && w.handler != Dropped)
    && (w.handler == Unregistered ==> w.core.pc == Entry && !w.late)
    && (w.handler == Dropped ==> w.delivered != [])
    && (w.late ==> WasCalled(w.handler)
                   && (w.core.pc == Entry || w.core.pc == Returned(Failed(Cancelled))))
    && (w.phase != Running ==> w.handler == Unregistered && w.slot == Active)
  }

  /** The race for the continuation, and the meeting of the winner with the caller. */
  ghost predicate RaceInvariant(w: Wrapper) {
    // At most one contender wins, and the slot says which.
    && (w.canceller == Won ==> w.slot == CancelledFirst)
    && (w.caller == Won ==> w.slot.Completed?)
    && (w.slot.Completed? ==> (w.caller == Won || w.caller == Finished) && w.core.pc == Returned(w.slot.outcome))
    && (w.slot == CancelledFirst ==> (w.canceller == Won || w.canceller == Finished))
    && (w.caller == Finished ==> w.slot != Active)
    && (w.caller != Idle ==> w.core.pc.Returned?)
    && w.caller != Trying
    && (w.canceller != Idle ==> w.cancelled)
    && (w.platform == Swift ==> w.canceller == Idle)
    && (w.platform == Kotlin ==> w.slot == Active ==> (w.canceller == Idle || w.canceller == Trying))
    && (w.platform == Kotlin && w.cancelled ==> w.canceller != Idle)
    && (w.awaited ==> w.handler != Unregistered && (w.platform == Kotlin ==> w.caller == Finished))
    // The winner has come to the meeting exactly when it is finished.
    && (w.phase == Running ==>
          (w.meeting == Undecided <==> !w.awaited && !WinnerHasMet(w))
          && (w.meeting == Asleep ==> w.awaited)
          && (w.meeting == Settled ==> WinnerHasMet(w))
          // The result is delivered exactly when both have come, and once.
          && (w.delivered != [] <==> w.awaited && WinnerHasMet(w)))
    && (w.phase != Running ==>
          && w.meeting == Undecided && !w.awaited && w.caller == Idle
          && (w.canceller == Idle || w.canceller == Trying))
    && (w.phase == Fresh ==> w.delivered == [])
    && (w.phase == Refused ==> w.platform == Kotlin && w.delivered == [CancellationException])
    && (w.delivered == [] || exists d :: w.delivered == [d] && DeliveryIsRight(w, d))
  }

  predicate WinnerHasMet(w: Wrapper) {
    (w.slot == CancelledFirst && w.canceller == Finished) || (w.slot.Completed? && w.caller == Finished)
  }

  predicate DeliveryIsRight(w: Wrapper, d: Delivery) {
    match d
    case Value(outcome) => w.slot == Completed(outcome) && (w.platform == Kotlin && outcome == Proof ==> !w.inTime)
    case CancellationException =>
      w.platform == Kotlin && w.cancelled && w.inTime && (w.slot.Completed? ==> w.slot.outcome == Proof)
    case Nothing => false
  }

  ghost predicate WrapperInvariant(w: Wrapper) {
    TokenInvariant(w) && RaceInvariant(w)
  }

  lemma ProveKeepsInvariant(w: Wrapper, step: Step)
    requires WrapperInvariant(w) && Allowed(w, Prove(step))
    ensures WrapperInvariant(Do(w, Prove(step)))
  {
    assert Runs(w.core, [step], Apply(w.core, step)) by {
      assert Runs(Apply(w.core, step), [], Apply(w.core, step));
    }
    InvariantIsKept(w.core, [step], Apply(w.core, step));
  }

  /** The moves that settle the continuation or deliver from it. */
  predicate IsRaceMove(move: Move) {
    move.TryCancel? || move.TryResume? || move.CancellerMeets? || move.CallerMeets? || move.Await?
  }

  lemma SettlingKeepsToken(w: Wrapper, move: Move)
    requires WrapperInvariant(w) && Allowed(w, move) && (move.TryCancel? || move.TryResume?)
    ensures TokenInvariant(Do(w, move))
  {
    hide Cancellation.Invariant, Cancellation.Enabled, Cancellation.Apply, DeliveryIsRight;
  }

  lemma MeetingKeepsToken(w: Wrapper, move: Move)
    requires WrapperInvariant(w) && Allowed(w, move) && IsRaceMove(move) && !move.TryCancel? && !move.TryResume?
    ensures TokenInvariant(Do(w, move))
  {
    hide Cancellation.Invariant, Cancellation.Enabled, Cancellation.Apply, DeliveryIsRight;
  }

  lemma OtherMoveKeepsToken(w: Wrapper, move: Move)
    requires WrapperInvariant(w) && Allowed(w, move) && !IsRaceMove(move) && !move.Prove?
    ensures TokenInvariant(Do(w, move))
  {
    hide DeliveryIsRight;
  }

  lemma ContenderKeepsRace(w: Wrapper, move: Move)
    requires WrapperInvariant(w) && Allowed(w, move) && (move.CancellerMeets? || move.CallerMeets?)
    ensures RaceInvariant(Do(w, move))
  {
    hide Cancellation.Invariant, Cancellation.Enabled, Cancellation.Apply;
    DeliversRightly(w, Do(w, move));
  }

  lemma AwaitKeepsRace(w: Wrapper)
    requires WrapperInvariant(w) && Allowed(w, Await)
    ensures RaceInvariant(Do(w, Await))
  {
    hide Cancellation.Invariant, Cancellation.Enabled, Cancellation.Apply;
    if w.meeting == Settled {
      DeliversRightly(w, Do(w, Await));
    }
  }

  /** What is read from a settled continuation before anything was delivered is right. */
  lemma DeliversRightly(w: Wrapper, t: Wrapper)
    requires WrapperInvariant(w) && w.slot != Active && w.delivered == []
    requires t.platform == w.platform && t.slot == w.slot && t.cancelled == w.cancelled && t.inTime == w.inTime
    ensures Seen(w) != Nothing && DeliveryIsRight(t, Seen(w))
    ensures t.delivered == w.delivered + [Seen(w)] ==> t.delivered == [Seen(w)]
  {
    hide Cancellation.Invariant;
  }

  lemma SettlingKeepsRace(w: Wrapper, move: Move)
    requires WrapperInvariant(w) && Allowed(w, move) && (move.TryCancel? || move.TryResume?)
    ensures RaceInvariant(Do(w, move))
  {
    hide Cancellation.Invariant, Cancellation.Enabled, Cancellation.Apply;
    assert Do(w, move).delivered == w.delivered;
  }

  lemma OtherMoveKeepsRace(w: Wrapper, move: Move)
    requires WrapperInvariant(w) && Allowed(w, move) && !IsRaceMove(move) && !move.Prove?
    ensures RaceInvariant(Do(w, move))
  {
    hide Cancellation.Invariant, Cancellation.Enabled, Cancellation.Apply;
    var t := Do(w, move);
    if move.HandlerOuter? {
      CallMakesProgress(w.core, StoreOuter);
    } else if move.HandlerInner? {
      CallMakesProgress(w.core, StoreInner);
    }
    if t.delivered != w.delivered {
      assert t.delivered == [CancellationException] && DeliveryIsRight(t, CancellationException);
    } else if w.delivered != [] {
      assert DeliveryIsRight(t, w.delivered[0]);
    }
  }

  lemma StepKeepsInvariant(w: Wrapper, move: Move)
    requires WrapperInvariant(w) && Allowed(w, move)
    ensures WrapperInvariant(Do(w, move)) && Do(w, move).platform == w.platform
  {
    hide Allowed, TokenInvariant, RaceInvariant;
    if move.Prove? {
      ProveKeepsInvariant(w, move.step);
    } else if IsRaceMove(move) {
      if move.TryCancel? || move.TryResume? {
        SettlingKeepsToken(w, move);
        SettlingKeepsRace(w, move);
      } else {
        MeetingKeepsToken(w, move);
        if move.Await? {
          AwaitKeepsRace(w);
        } else {
          ContenderKeepsRace(w, move);
        }
      }
    } else {
      OtherMoveKeepsToken(w, move);
      OtherMoveKeepsRace(w, move);
    }
  }

  lemma {:induction false} InvariantHolds(w: Wrapper, moves: seq<Move>, end: Wrapper)
    requires WrapperInvariant(w) && Plays(w, moves, end)
    ensures WrapperInvariant(end) && end.platform == w.platform
    decreases |moves|
  {
    hide WrapperInvariant;
    if moves != [] {
      StepKeepsInvariant(w, moves[0]);
      InvariantHolds(Do(w, moves[0]), moves[1..], end);
    }
  }

  lemma InvariantAtEnd(platform: Platform, moves: seq<Move>, end: Wrapper)
    requires Plays(Start(platform), moves, end)
    ensures WrapperInvariant(end) && end.platform == platform
  {
    assert WrapperInvariant(Start(platform));
    InvariantHolds(Start(platform), moves, end);
  }

  lemma SettledStays(w: Wrapper, move: Move)
    requires w.slot != Active && Allowed(w, move)
    ensures Do(w, move).slot == w.slot
  {}

  /** The contender that moves the continuation first has settled it for good. */
  lemma {:induction false} SettledForGood(w: Wrapper, moves: seq<Move>, end: Wrapper)
    requires w.slot != Active && Plays(w, moves, end)
    ensures end.slot == w.slot
    decreases |moves|
  {
    if moves != [] {
      SettledStays(w, moves[0]);
      hide Allowed, Do;
      SettledForGood(Do(w, moves[0]), moves[1..], end);
    }
  }

  /**
   * In every run of either wrapper: at most one delivery, and never of a
   * continuation that nobody settled; a value delivered is the result of the call;
   * a continuation that was cancelled first drops it. A Kotlin caller cancelled
   * before the delivery never gets a proof: it gets the error of a call that failed
   * and settled the continuation first, and a CancellationException otherwise.
   */
  lemma DeliversAtMostOnce(platform: Platform, moves: seq<Move>, end: Wrapper)
    requires Plays(Start(platform), moves, end)
    ensures |end.delivered| <= 1 && Nothing !in end.delivered
    ensures forall o :: end.delivered == [Value(o)] ==> end.core.pc == Returned(o) && end.slot == Completed(o)
    ensures platform == Swift ==> CancellationException !in end.delivered && end.slot != CancelledFirst
    ensures end.slot == CancelledFirst && end.delivered != [] ==> end.delivered == [CancellationException]
    ensures platform == Kotlin && end.inTime ==> Value(Proof) !in end.delivered
    ensures platform == Kotlin && end.inTime && end.delivered != [] ==>
      (end.delivered == [CancellationException] <==> !(end.slot.Completed? && end.slot.outcome.Failed?))
  {
    InvariantAtEnd(platform, moves, end);
  }

  /** A run goes on with any allowed move. */
  lemma {:induction false} GoOn(w: Wrapper, moves: seq<Move>, end: Wrapper, move: Move)
    returns (longer: seq<Move>, after: Wrapper)
    requires Plays(w, moves, end) && Allowed(end, move)
    ensures longer == moves + [move] && after == Do(end, move) && Plays(w, longer, after)
    decreases |moves|
  {
    hide Allowed, Do;
    longer, after := moves + [move], Do(end, move);
    if moves == [] {
      assert Plays(Do(w, move), longer[1..], after);
    } else {
      var rest, same := GoOn(Do(w, moves[0]), moves[1..], end, move);
      assert longer[1..] == rest;
    }
  }

  /** An uncancelled call that has come to some point, before anyone settles the continuation. */
  function CallAt(platform: Platform, pc: Pc): Wrapper {
    Start(platform).(phase := Running, handler := Armed, core := Initial(true).(pc := pc))
  }

  lemma CallBegins(platform: Platform) returns (moves: seq<Move>)
    ensures Plays(Start(platform), moves, CallAt(platform, Entry))
  {
    var end;
    moves, end := GoOn(Start(platform), [], Start(platform), Begin);
    hide Plays, Cancellation.Enabled, Cancellation.Apply;
    moves, end := GoOn(Start(platform), moves, end, Register);
  }

  /** One step of an uncancelled call on its way to an outcome. */
  lemma CallGoesOn(platform: Platform, pc: Pc, outcome: Outcome) returns (next: Pc)
    requires outcome != Failed(Cancelled) && !pc.Returned? && MayEndIn(Initial(true).(pc := pc), outcome)
    ensures var step := StepTowards(Initial(true).(pc := pc), outcome);
            && Allowed(CallAt(platform, pc), Prove(step))
            && Do(CallAt(platform, pc), Prove(step)) == CallAt(platform, next)
            && Rank(next) < Rank(pc) && MayEndIn(Initial(true).(pc := next), outcome)
  {
    var s := Initial(true).(pc := pc);
    StepTowardsIsOne(s, outcome);
    next := Apply(s, StepTowards(s, outcome)).pc;
  }

  lemma {:induction false} CallReturns(platform: Platform, moves: seq<Move>, pc: Pc, outcome: Outcome)
    returns (longer: seq<Move>)
    requires Plays(Start(platform), moves, CallAt(platform, pc))
    requires outcome != Failed(Cancelled) && MayEndIn(Initial(true).(pc := pc), outcome)
    ensures Plays(Start(platform), longer, CallAt(platform, Returned(outcome)))
    decreases Rank(pc)
  {
    hide Plays, Allowed, Do;
    if pc.Returned? {
      longer := moves;
    } else {
      var next := CallGoesOn(platform, pc, outcome);
      var step := StepTowards(Initial(true).(pc := pc), outcome);
      var after;
      longer, after := GoOn(Start(platform), moves, CallAt(platform, pc), Prove(step));
      longer := CallReturns(platform, longer, next, outcome);
    }
  }

  /** The call has settled the continuation. */
  function Settling(platform: Platform, outcome: Outcome): Wrapper {
    CallAt(platform, Returned(outcome)).(slot := Completed(outcome), caller := Won)
  }

  lemma CallSettles(platform: Platform, outcome: Outcome) returns (moves: seq<Move>)
    requires outcome != Failed(Cancelled)
    ensures Plays(Start(platform), moves, Settling(platform, outcome))
  {
    hide Plays, Cancellation.Enabled, Cancellation.Apply;
    var end;
    moves := CallBegins(platform);
    moves := CallReturns(platform, moves, Entry, outcome);
    moves, end := GoOn(Start(platform), moves, CallAt(platform, Returned(outcome)), TryResume);
  }

  lemma UncancelledDelivers(platform: Platform, outcome: Outcome) returns (moves: seq<Move>, end: Wrapper)
    requires outcome != Failed(Cancelled)
    ensures Plays(Start(platform), moves, end) && end.delivered == [Value(outcome)]
  {
    hide Plays, Cancellation.Enabled, Cancellation.Apply;
    moves := CallSettles(platform, outcome);
    moves, end := GoOn(Start(platform), moves, Settling(platform, outcome), CallerMeets);
    moves, end := GoOn(Start(platform), moves, end, Await);
  }

  /** A Kotlin call has settled first, and its caller was cancelled after that. */
  function CancelledAfter(outcome: Outcome): Wrapper {
    Settling(Kotlin, outcome).(cancelled := true, inTime := true, canceller := Trying)
  }

  /** An error outlives a cancellation: the caller, cancelled before the delivery, still gets it. */
  lemma ErrorOutlivesCancellation(error: ProveError) returns (moves: seq<Move>, end: Wrapper)
    requires error != ProveError.Cancelled
    ensures Plays(Start(Kotlin), moves, end)
    ensures end.inTime && end.delivered == [Value(Failed(error))]
  {
    hide Plays, Cancellation.Enabled, Cancellation.Apply;
    moves := CallSettles(Kotlin, Failed(error));
    moves, end := GoOn(Start(Kotlin), moves, Settling(Kotlin, Failed(error)), Cancel);
    assert end == CancelledAfter(Failed(error));
    moves, end := GoOn(Start(Kotlin), moves, end, CallerMeets);
    moves, end := GoOn(Start(Kotlin), moves, end, Await);
  }

  /** A Kotlin caller cancelled before the block begins. */
  lemma RefusedRun() returns (moves: seq<Move>, end: Wrapper)
    ensures Plays(Start(Kotlin), moves, end) && end.delivered == [CancellationException]
  {
    moves, end := GoOn(Start(Kotlin), [], Start(Kotlin), Cancel);
    hide Plays, Cancellation.Enabled, Cancellation.Apply;
    moves, end := GoOn(Start(Kotlin), moves, end, Begin);
  }

  /** A Swift caller cancelled from the start: its handler runs late, and then the call. */
  function LateSwift(handler: Handler, core: State): Wrapper {
    Start(Swift).(phase := Running, cancelled := true, inTime := true, late := true, handler := handler, core := core)
  }

  lemma LateSwiftBegins() returns (moves: seq<Move>)
    ensures Plays(Start(Swift), moves, LateSwift(StoringOuter, Initial(true)))
  {
    var end;
    moves, end := GoOn(Start(Swift), [], Start(Swift), Begin);
    hide Plays, Cancellation.Enabled, Cancellation.Apply;
    moves, end := GoOn(Start(Swift), moves, end, Cancel);
    moves, end := GoOn(Start(Swift), moves, end, Register);
  }

  lemma LateSwiftRequests() returns (moves: seq<Move>)
    ensures Plays(Start(Swift), moves, LateSwift(Fired, State(true, true, true, 0, Entry)))
  {
    hide Plays;
    var end;
    moves := LateSwiftBegins();
    moves, end := GoOn(Start(Swift), moves, LateSwift(StoringOuter, Initial(true)), HandlerOuter);
    assert end == LateSwift(StoringInner, State(true, true, false, 1, Entry));
    moves, end := GoOn(Start(Swift), moves, end, HandlerInner);
  }

  lemma LateSwiftReturns() returns (moves: seq<Move>, end: Wrapper)
    ensures Plays(Start(Swift), moves, end)
    ensures end == LateSwift(Fired, State(true, true, true, 0, Returned(Failed(Cancelled))))
                   .(slot := Completed(Failed(Cancelled)), caller := Won)
  {
    hide Plays;
    moves := LateSwiftRequests();
    moves, end := GoOn(Start(Swift), moves, LateSwift(Fired, State(true, true, true, 0, Entry)), Prove(CheckEntry));
    moves, end := GoOn(Start(Swift), moves, end, TryResume);
  }

  lemma LateSwiftDelivers() returns (moves: seq<Move>, end: Wrapper)
    ensures Plays(Start(Swift), moves, end) && end.delivered == [Value(Failed(Cancelled))]
  {
    hide Plays, Cancellation.Enabled, Cancellation.Apply;
    moves, end := LateSwiftReturns();
    moves, end := GoOn(Start(Swift), moves, end, CallerMeets);
    moves, end := GoOn(Start(Swift), moves, end, Await);
  }

  ghost predicate Delivers(platform: Platform, moves: seq<Move>, end: Wrapper, d: Delivery) {
    Plays(Start(platform), moves, end) && end.delivered == [d]
  }

  /** What a caller can get: in Kotlin a cancelled call shows as a CancellationException and never as its own error. */
  predicate MayBeDelivered(platform: Platform, d: Delivery) {
    match d
    case Value(outcome) => platform == Kotlin ==> outcome != Failed(Cancelled)
    case CancellationException => platform == Kotlin
    case Nothing => false
  }

  /** The deliveries some run makes are exactly these. */
  lemma DeliveriesExactly(platform: Platform, d: Delivery)
    ensures MayBeDelivered(platform, d) <==> exists moves, end :: Delivers(platform, moves, end, d)
  {
    hide Plays, WrapperInvariant;
    if moves, end :| Delivers(platform, moves, end, d) {
      InvariantAtEnd(platform, moves, end);
      RightDelivery(end, d);
    }
    if MayBeDelivered(platform, d) {
      var moves, end;
      if d.CancellationException? {
        moves, end := RefusedRun();
      } else if d.outcome == Failed(Cancelled) {
        moves, end := LateSwiftDelivers();
      } else {
        moves, end := UncancelledDelivers(platform, d.outcome);
      }
      assert Delivers(platform, moves, end, d);
    }
  }

  lemma RightDelivery(w: Wrapper, d: Delivery)
    requires WrapperInvariant(w) && w.delivered == [d]
    ensures MayBeDelivered(w.platform, d)
  {}

  /** A caller already cancelled when the handler is registered never gets a proof. */
  lemma LateRegistrationCancels(platform: Platform, moves: seq<Move>, end: Wrapper)
    requires Plays(Start(platform), moves, end)
    requires end.late && end.delivered != []
    ensures end.delivered == [if platform == Swift then Value(Failed(Cancelled)) else CancellationException]
  {
    InvariantAtEnd(platform, moves, end);
  }

  /** A Kotlin caller cancelled before its block begins: no call is made, and the token is never asked for anything. */
  lemma RefusedRunsDoNothing(platform: Platform, moves: seq<Move>, end: Wrapper)
    requires Plays(Start(platform), moves, end) && end.phase == Refused
    ensures platform == Kotlin && end.delivered == [CancellationException]
    ensures end.core == Initial(true)
  {
    InvariantAtEnd(platform, moves, end);
  }

  function HandlerRank(handler: Handler): nat {
    match handler
    case Unregistered => 4
    case Armed => 3
    case StoringOuter => 2
    case StoringInner => 1
    case Fired => 0
    case Dropped => 0
  }

  function ContenderRank(contender: Contender): nat {
    match contender
    case Idle => 2
    case Trying => 2
    case Won => 1
    case Finished => 0
  }

  function One(b: bool): nat {
    if b then 1 else 0
  }

  lemma HandlerOnlyFalls(handler: Handler)
    ensures HandlerRank(RunHandler(handler)) <= HandlerRank(handler)
    ensures HandlerRank(Dropped) <= HandlerRank(handler)
  {}

  /** How many moves a run has left at most. */
  function MovesLeft(w: Wrapper): nat {
    One(!w.cancelled) + One(w.phase == Fresh) + One(!w.awaited)
    + HandlerRank(w.handler) + Rank(w.core.pc) + ContenderRank(w.canceller) + ContenderRank(w.caller)
  }

  lemma CallMakesProgress(s: State, step: Step)
    requires Enabled(s, step)
    ensures if IsRequestStep(step) then Apply(s, step).pc == s.pc else Rank(Apply(s, step).pc) < Rank(s.pc)
  {}

  /** Every count of one state is at most that of another. */
  predicate RanksFall(w: Wrapper, t: Wrapper) {
    && One(!t.cancelled) <= One(!w.cancelled) && One(t.phase == Fresh) <= One(w.phase == Fresh)
    && One(!t.awaited) <= One(!w.awaited) && HandlerRank(t.handler) <= HandlerRank(w.handler)
    && Rank(t.core.pc) <= Rank(w.core.pc)
    && ContenderRank(t.canceller) <= ContenderRank(w.canceller) && ContenderRank(t.caller) <= ContenderRank(w.caller)
  }

  lemma DeliveryKeepsRanks(w: Wrapper)
    ensures RanksFall(w, Deliver(w)) && RanksFall(w, Meet(w))
    ensures Deliver(w).awaited == w.awaited
    ensures Meet(w).canceller == w.canceller && Meet(w).caller == w.caller
  {
    HandlerOnlyFalls(w.handler);
    hide Rank, HandlerRank, ContenderRank, One, Seen;
  }

  lemma TryCancelMakesProgress(w: Wrapper)
    requires Allowed(w, TryCancel)
    ensures RanksFall(w, Do(w, TryCancel))
    ensures ContenderRank(Do(w, TryCancel).canceller) < ContenderRank(w.canceller)
  {
    HandlerOnlyFalls(w.handler);
    hide Rank, HandlerRank;
  }

  lemma TryResumeMakesProgress(w: Wrapper)
    requires Allowed(w, TryResume)
    ensures RanksFall(w, Do(w, TryResume))
    ensures ContenderRank(Do(w, TryResume).caller) < ContenderRank(w.caller)
  {
    hide Rank, HandlerRank;
  }

  lemma MeetingMakesProgress(w: Wrapper, move: Move)
    requires Allowed(w, move) && (move.CancellerMeets? || move.CallerMeets? || move.Await?)
    ensures RanksFall(w, Do(w, move))
    ensures move.CancellerMeets? ==> ContenderRank(Do(w, move).canceller) < ContenderRank(w.canceller)
    ensures move.CallerMeets? ==> ContenderRank(Do(w, move).caller) < ContenderRank(w.caller)
    ensures move.Await? ==> One(!Do(w, move).awaited) < One(!w.awaited)
  {
    DeliveryKeepsRanks(w);
    DeliveryKeepsRanks(w.(awaited := true));
    hide Rank, HandlerRank, Deliver, Meet, Cancellation.Enabled, Cancellation.Apply;
  }

  lemma OtherMoveMakesProgress(w: Wrapper, move: Move)
    requires Allowed(w, move) && !IsRaceMove(move) && (move.Cancel? ==> w.canceller == Idle)
    ensures RanksFall(w, Do(w, move))
    ensures move.Cancel? ==> One(!Do(w, move).cancelled) < One(!w.cancelled)
    ensures move.Begin? ==> One(Do(w, move).phase == Fresh) < One(w.phase == Fresh)
    ensures move.Register? || move.HandlerOuter? || move.HandlerInner? ==>
      HandlerRank(Do(w, move).handler) < HandlerRank(w.handler)
    ensures move.Prove? ==> Rank(Do(w, move).core.pc) < Rank(w.core.pc)
  {
    hide Rank, Deliver, Meet, Cancellation.Enabled, Cancellation.Apply;
    match move
    case Prove(step) => CallMakesProgress(w.core, step);
    case HandlerOuter => CallMakesProgress(w.core, StoreOuter);
    case HandlerInner => CallMakesProgress(w.core, StoreInner);
    case _ =>
  }

  lemma MoveMakesProgress(w: Wrapper, move: Move)
    requires WrapperInvariant(w) && Allowed(w, move)
    ensures MovesLeft(Do(w, move)) < MovesLeft(w)
  {
    assert move == Cancel ==> w.canceller == Idle;
    hide WrapperInvariant, Allowed, Do, One, HandlerRank, ContenderRank, Rank;
    if move == TryCancel {
      TryCancelMakesProgress(w);
    } else if move == TryResume {
      TryResumeMakesProgress(w);
    } else if IsRaceMove(move) {
      MeetingMakesProgress(w, move);
    } else {
      OtherMoveMakesProgress(w, move);
    }
  }

  /** No run is longer than this. */
  lemma {:induction false} RunsAreBounded(w: Wrapper, moves: seq<Move>, end: Wrapper)
    requires WrapperInvariant(w) && Plays(w, moves, end)
    ensures |moves| + MovesLeft(end) <= MovesLeft(w)
    decreases |moves|
  {
    hide WrapperInvariant, MovesLeft;
    if moves != [] {
      StepKeepsInvariant(w, moves[0]);
      MoveMakesProgress(w, moves[0]);
      RunsAreBounded(Do(w, moves[0]), moves[1..], end);
    }
  }

  /** The run is over: nothing can happen but a caller cancelling too late. */
  ghost predicate IsOver(w: Wrapper) {
    forall move :: Allowed(w, move) ==> move == Cancel
  }

  lemma CallCanMove(w: Wrapper)
    requires MayProve(w) && !w.core.pc.Returned?
    ensures exists step :: Allowed(w, Prove(step))
  {
    var step := match w.core.pc
      case Entry => CheckEntry
      case Building => Build(None)
      case PostWitness => CheckPostWitness
      case SettingUp => SetUp(None)
      case _ => NativeEnds(Proof);
    assert Allowed(w, Prove(step));
  }

  lemma NotOverUntilDelivered(w: Wrapper)
    requires WrapperInvariant(w) && IsOver(w)
    ensures w.delivered != [] && w.handler !in {StoringOuter, StoringInner}
    ensures w.phase == Running ==> w.handler != Unregistered
  {
    assert !Allowed(w, Begin) && !Allowed(w, Register) && !Allowed(w, HandlerOuter) && !Allowed(w, HandlerInner);
    assert !Allowed(w, TryResume) && !Allowed(w, CallerMeets) && !Allowed(w, CancellerMeets) && !Allowed(w, Await);
    if w.phase == Running && !w.core.pc.Returned? {
      CallCanMove(w);
    }
  }

  /**
   * Every finished run has delivered exactly one outcome, and the token was asked
   * to cancel, both flags, exactly when the caller was cancelled in time in Swift,
   * and when the cancellation settled the continuation in Kotlin.
   */
  lemma FinishedRunsDeliverOnce(platform: Platform, moves: seq<Move>, end: Wrapper)
    requires Plays(Start(platform), moves, end) && IsOver(end)
    ensures |end.delivered| == 1 && |moves| <= 16
    ensures end.core.requested <==> if platform == Swift then end.inTime else end.slot == CancelledFirst
    ensures end.core.inner == end.core.requested
  {
    InvariantAtEnd(platform, moves, end);
    NotOverUntilDelivered(end);
    RunsAreBounded(Start(platform), moves, end);
  }
}
