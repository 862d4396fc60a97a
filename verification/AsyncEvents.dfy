/**
 * A one-shot event: waiters queue under a lock until a signal takes the whole
 * queue; continuations are resumed outside the lock.
 */
module AsyncEvents {

  type Waiter = nat

  /**
   * The object. Its critical sections are methods of their own, each one step of
   * the machine below; `resumed` stands for the continuations' own record of being
   * resumed.
   */
  class AsyncEvent {
    var continuations: seq<Waiter>
    var fired: bool
    var resumed: multiset<Waiter>

    constructor ()
      ensures Shows(Initial())
    {
      continuations, fired, resumed := [], false, multiset{};
    }

    /** The object holds what the machine's state says of it. */
    ghost predicate Shows(s: State)
      reads this
    {
      continuations == s.queue && fired == s.fired && resumed == s.resumed
    }

    /** What a signal does under the lock: it takes every waiter, to resume them afterwards. */
    method TakeWaiters(ghost s: State) returns (waiters: seq<Waiter>)
      requires Shows(s)
      modifies this
      ensures Shows(Apply(s, Step.Signal)) && waiters == s.queue
    {
      waiters := continuations;
      continuations := [];
      fired := true;
    }

    /** What a wait does under the lock: it queues, or is told to resume itself. */
    method Enter(waiter: Waiter, ghost s: State) returns (resumeNow: bool)
      requires Shows(s) && Enabled(s, Step.Wait(waiter))
      modifies this
      ensures Shows(Apply(s, Step.Wait(waiter)))
      ensures Apply(s, Step.Wait(waiter)).selfResuming
              == if resumeNow then s.selfResuming + multiset{waiter} else s.selfResuming
    {
      resumeNow := fired;
      if !fired {
        continuations := continuations + [waiter];
      }
    }

    /** The last part of either method, outside the lock. */
    method Resume(waiter: Waiter, ghost s: State, ghost step: Step)
      requires Shows(s) && Enabled(s, step)
      requires (step.ResumeNext? && s.signals[step.signal][0] == waiter) || step == ResumeSelf(waiter)
      modifies this
      ensures Shows(Apply(s, step))
    {
      resumed := resumed + multiset{waiter};
    }

    /** A whole signal that no other thread interrupts: it leaves nothing of its own to resume. */
    method Signal(ghost s: State) returns (ghost steps: seq<Step>, ghost end: State)
      requires Shows(s)
      modifies this
      ensures Shows(end) && Runs(s, steps, end)
      ensures end == Resuming(s, |s.queue|)
      ensures end == s.(queue := [], fired := true, signals := s.signals + [[]],
                        resumed := s.resumed + multiset(s.queue))
    {
      var waiters := TakeWaiters(s);
      ghost var step := ResumeNext(|s.signals|);
      steps, end := [Step.Signal], Apply(s, Step.Signal);
      OneMoreStep(s, [], s, Step.Signal);
      ResumingStartsAndEnds(s);
      for i := 0 to |waiters|
        invariant Shows(end) && Runs(s, steps, end) && end == Resuming(s, i)
      {
        hide Runs, Resuming;
        ResumingGoesOn(s, i);
        Resume(waiters[i], end, step);
        OneMoreStep(s, steps, end, step);
        steps, end := steps + [step], Apply(end, step);
      }
    }

    /** A whole wait that no other thread interrupts: queued before the event fired, resumed after. */
    method Wait(waiter: Waiter, ghost s: State) returns (ghost steps: seq<Step>, ghost end: State)
      requires Shows(s) && Enabled(s, Step.Wait(waiter))
      modifies this
      ensures Shows(end) && Runs(s, steps, end)
      ensures end == if s.fired then s.(entered := s.entered + {waiter}, resumed := s.resumed + multiset{waiter})
                     else s.(entered := s.entered + {waiter}, queue := s.queue + [waiter])
    {
      var resumeNow := Enter(waiter, s);
      steps, end := [Step.Wait(waiter)], Apply(s, Step.Wait(waiter));
      OneMoreStep(s, [], s, Step.Wait(waiter));
      if resumeNow {
        Resume(waiter, end, ResumeSelf(waiter));
        OneMoreStep(s, steps, end, ResumeSelf(waiter));
        steps, end := steps + [ResumeSelf(waiter)], Apply(end, ResumeSelf(waiter));
      }
    }
  }

  /**
   * Any number of threads inside the event: the queue and the flag, the waiters
   * each signal still has to resume, those that must resume themselves, and how
   * often each has been resumed.
   */
  datatype State = State(
    queue: seq<Waiter>,
    fired: bool,
    signals: seq<seq<Waiter>>,
    selfResuming: multiset<Waiter>,
    resumed: multiset<Waiter>,
    entered: set<Waiter>)

  datatype Step =
    | Wait(waiter: Waiter)
    | Signal
    | ResumeNext(signal: nat)
    | ResumeSelf(waiter: Waiter)

  function Initial(): State {
    State([], false, [], multiset{}, multiset{}, {})
  }

  /** Every wait makes a continuation of its own. */
  predicate Enabled(s: State, step: Step) {
    match step
    case Wait(waiter) => waiter !in s.entered
    case Signal => true
    case ResumeNext(i) => i < |s.signals| && s.signals[i] != []
    case ResumeSelf(waiter) => waiter in s.selfResuming
  }

  function Apply(s: State, step: Step): State
    requires Enabled(s, step)
  {
    match step
    case Wait(waiter) =>
      var t := s.(entered := s.entered + {waiter});
      if s.fired then t.(selfResuming := s.selfResuming + multiset{waiter}) else t.(queue := s.queue + [waiter])
    case Signal => s.(queue := [], fired := true, signals := s.signals + [s.queue])
    case ResumeNext(i) =>
      s.(signals := s.signals[i := s.signals[i][1..]], resumed := s.resumed + multiset{s.signals[i][0]})
    case ResumeSelf(waiter) =>
      s.(selfResuming := s.selfResuming - multiset{waiter}, resumed := s.resumed + multiset{waiter})
  }

  ghost predicate Runs(s: State, steps: seq<Step>, end: State)
    decreases |steps|
  {
    if steps == [] then s == end
    else Enabled(s, steps[0]) && Runs(Apply(s, steps[0]), steps[1..], end)
  }

  /** Inside a signal that has resumed its first i waiters. */
  ghost function Resuming(s: State, i: nat): State
    requires i <= |s.queue|
  {
    s.(queue := [], fired := true, signals := s.signals + [s.queue[i..]], resumed := s.resumed + multiset(s.queue[..i]))
  }

  lemma ResumingStartsAndEnds(s: State)
    ensures Resuming(s, 0) == Apply(s, Signal)
    ensures Resuming(s, |s.queue|)
         == s.(queue := [], fired := true, signals := s.signals + [[]], resumed := s.resumed + multiset(s.queue))
  {
    var n := |s.queue|;
    assert s.queue[0..] == s.queue && s.queue[..0] == [] && s.queue[n..] == [] && s.queue[..n] == s.queue;
    assert s.resumed + multiset(s.queue[..0]) == s.resumed;
  }

  lemma ResumingGoesOn(s: State, i: nat)
    requires i < |s.queue|
    ensures var step := ResumeNext(|s.signals|);
            && Enabled(Resuming(s, i), step)
            && Resuming(s, i).signals[|s.signals|][0] == s.queue[i]
            && Apply(Resuming(s, i), step) == Resuming(s, i + 1)
  {
    var n, t := |s.signals|, Resuming(s, i);
    assert s.queue[i..][1..] == s.queue[i + 1..] && s.queue[i..][0] == s.queue[i];
    assert t.signals[n := t.signals[n][1..]] == s.signals + [s.queue[i + 1..]];
    assert s.queue[..i + 1] == s.queue[..i] + [s.queue[i]];
    assert t.resumed + multiset{s.queue[i]} == s.resumed + multiset(s.queue[..i + 1]);
  }

  lemma {:induction false} OneMoreStep(s: State, steps: seq<Step>, end: State, step: Step)
    requires Runs(s, steps, end) && Enabled(end, step)
    ensures Runs(s, steps + [step], Apply(end, step))
    decreases |steps|
  {
    var all := steps + [step];
    if steps == [] {
      assert Runs(Apply(s, step), all[1..], Apply(end, step));
    } else {
      OneMoreStep(Apply(s, steps[0]), steps[1..], end, step);
      assert all[1..] == steps[1..] + [step];
    }
  }

  /** The waiters some signal has taken and not yet resumed. */
  function Taken(signals: seq<seq<Waiter>>): multiset<Waiter> {
    if signals == [] then multiset{} else Taken(signals[..|signals| - 1]) + multiset(signals[|signals| - 1])
  }

  lemma {:induction false} TakenLosesOne(signals: seq<seq<Waiter>>, i: nat)
    requires i < |signals| && signals[i] != []
    ensures Taken(signals) == Taken(signals[i := signals[i][1..]]) + multiset{signals[i][0]}
  {
    var after := signals[i := signals[i][1..]];
    var last := |signals| - 1;
    if i < last {
      TakenLosesOne(signals[..last], i);
      assert after[..last] == signals[..last][i := signals[i][1..]];
    } else {
      assert after[..last] == signals[..last];
      HeadAndTail(signals[i]);
    }
  }

  lemma HeadAndTail(waiters: seq<Waiter>)
    requires waiters != []
    ensures multiset(waiters) == multiset(waiters[1..]) + multiset{waiters[0]}
  {
    assert waiters == [waiters[0]] + waiters[1..];
  }

  /**
   * Conservation: every waiter that entered is in exactly one place, once: queued,
   * taken by a signal, resuming itself, or resumed.
   */
  ghost predicate Invariant(s: State) {
    && multiset(s.queue) + Taken(s.signals) + s.selfResuming + s.resumed == multiset(s.entered)
    && (s.fired ==> s.queue == [])
    && (!s.fired ==> s.signals == [] && s.selfResuming == multiset{} && s.resumed == multiset{})
  }

  lemma WaitKeepsInvariant(s: State, waiter: Waiter)
    requires Invariant(s) && Enabled(s, Wait(waiter))
    ensures Invariant(Apply(s, Wait(waiter)))
  {
    hide Taken;
    assert multiset(s.entered + {waiter}) == multiset(s.entered) + multiset{waiter};
    assert multiset(s.queue + [waiter]) == multiset(s.queue) + multiset{waiter};
  }

  lemma SignalKeepsInvariant(s: State)
    requires Invariant(s)
    ensures Invariant(Apply(s, Signal))
  {
    var t := Apply(s, Signal);
    assert t.signals[..|s.signals|] == s.signals;
    assert Taken(t.signals) == Taken(s.signals) + multiset(s.queue);
  }

  lemma ResumeKeepsInvariant(s: State, step: Step)
    requires Invariant(s) && Enabled(s, step) && (step.ResumeNext? || step.ResumeSelf?)
    ensures Invariant(Apply(s, step))
  {
    hide Taken;
    var t := Apply(s, step);
    if step.ResumeNext? {
      TakenLosesOne(s.signals, step.signal);
    } else {
      assert s.selfResuming == t.selfResuming + multiset{step.waiter};
    }
  }

  lemma StepKeepsInvariant(s: State, step: Step)
    requires Invariant(s) && Enabled(s, step)
    ensures Invariant(Apply(s, step)) && (s.fired ==> Apply(s, step).fired)
  {
    hide Invariant;
    match step
    case Wait(waiter) => WaitKeepsInvariant(s, waiter);
    case Signal => SignalKeepsInvariant(s);
    case ResumeNext(i) => ResumeKeepsInvariant(s, step);
    case ResumeSelf(waiter) => ResumeKeepsInvariant(s, step);
  }

  lemma {:induction false} InvariantHolds(s: State, steps: seq<Step>, end: State)
    requires Invariant(s) && Runs(s, steps, end)
    ensures Invariant(end) && (s.fired ==> end.fired)
    decreases |steps|
  {
    if steps != [] {
      StepKeepsInvariant(s, steps[0]);
      InvariantHolds(Apply(s, steps[0]), steps[1..], end);
    }
  }

  /** No thread has a resumption left to do. */
  predicate AllDone(s: State) {
    (forall i :: 0 <= i < |s.signals| ==> s.signals[i] == []) && s.selfResuming == multiset{}
  }

  lemma {:induction false} NothingTaken(signals: seq<seq<Waiter>>)
    requires forall i :: 0 <= i < |signals| ==> signals[i] == []
    ensures Taken(signals) == multiset{}
  {
    if signals != [] {
      NothingTaken(signals[..|signals| - 1]);
    }
  }

  /**
   * In every interleaving of waits and signals: a waiter is resumed at most once,
   * and only after the event fired; no waiter stays queued once it has; and when
   * it has and every thread is done, each waiter that entered was resumed exactly
   * once, whether it came before or after the signal.
   */
  lemma WaitersResumeExactlyOnce(steps: seq<Step>, end: State)
    requires Runs(Initial(), steps, end)
    ensures forall waiter :: end.resumed[waiter] <= 1
    ensures forall waiter :: waiter in end.resumed ==> waiter in end.entered && end.fired
    ensures end.fired ==> end.queue == []
    ensures end.fired && AllDone(end) ==> end.resumed == multiset(end.entered)
    ensures !end.fired ==> multiset(end.queue) == multiset(end.entered)
  {
    assert Invariant(Initial());
    InvariantHolds(Initial(), steps, end);
    forall waiter
      ensures end.resumed[waiter] <= 1
      ensures waiter in end.resumed ==> waiter in end.entered
    {
      assert end.resumed[waiter] <= multiset(end.entered)[waiter];
    }
    if AllDone(end) {
      NothingTaken(end.signals);
    }
  }

  /** While a resumption is left to do, some thread can do it. */
  lemma SomeThreadCanResume(s: State)
    requires !AllDone(s)
    ensures exists step :: Enabled(s, step) && (step.ResumeNext? || step.ResumeSelf?)
  {
    if i :| 0 <= i < |s.signals| && s.signals[i] != [] {
      assert Enabled(s, ResumeNext(i));
    } else {
      var waiter :| waiter in s.selfResuming;
      assert Enabled(s, ResumeSelf(waiter));
    }
  }

  /** The resumptions left to do. */
  function ResumptionsLeft(s: State): nat {
    |Taken(s.signals)| + |s.selfResuming|
  }

  lemma ResumingLeavesFewer(s: State, step: Step)
    requires Enabled(s, step) && (step.ResumeNext? || step.ResumeSelf?)
    ensures ResumptionsLeft(Apply(s, step)) < ResumptionsLeft(s) && Apply(s, step).entered == s.entered
  {
    hide Taken;
    if step.ResumeNext? {
      TakenLosesOne(s.signals, step.signal);
    }
  }

  ghost predicate ResumesAll(s: State, steps: seq<Step>, end: State) {
    && Runs(s, steps, end)
    && end.fired && AllDone(end) && end.entered == s.entered
    && end.resumed == multiset(s.entered)
  }

  /** Any waiters may enter, in some run. */
  lemma {:induction false} AnyoneMayEnter(waiters: set<Waiter>) returns (steps: seq<Step>, end: State)
    ensures Runs(Initial(), steps, end) && end.entered == waiters
  {
    if waiters == {} {
      steps, end := [], Initial();
    } else {
      var waiter :| waiter in waiters;
      steps, end := AnyoneMayEnter(waiters - {waiter});
      OneMoreStep(Initial(), steps, end, Wait(waiter));
      steps, end := steps + [Wait(waiter)], Apply(end, Wait(waiter));
    }
  }

  /** From any state one signal, and threads that go on, resume everyone who entered. */
  lemma {:induction false} EveryoneCanBeResumed(s: State) returns (steps: seq<Step>, end: State)
    requires Invariant(s)
    ensures ResumesAll(s, steps, end)
    decreases !s.fired, ResumptionsLeft(s)
  {
    hide Taken, Invariant;
    if s.fired && AllDone(s) {
      steps, end := [], s;
      DoneResumesAll(s);
    } else {
      var step := Signal;
      if s.fired {
        SomeThreadCanResume(s);
        step :| Enabled(s, step) && (step.ResumeNext? || step.ResumeSelf?);
        ResumingLeavesFewer(s, step);
      }
      StepKeepsInvariant(s, step);
      var rest;
      rest, end := EveryoneCanBeResumed(Apply(s, step));
      steps := [step] + rest;
      assert steps[1..] == rest;
    }
  }

  lemma DoneResumesAll(s: State)
    requires Invariant(s) && s.fired && AllDone(s)
    ensures s.resumed == multiset(s.entered)
  {
    NothingTaken(s.signals);
  }
}
