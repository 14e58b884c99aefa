/**
 * Waiting until a publisher emits a wanted value, against a timer: a buffered stream, a task that consumes it, a task
 * that sleeps, and a group that reports the first of the two to end. Every step of either side is atomic.
 */
module WaitFor {
  import opened Common

  datatype Completion = Finished | Failed(code: int)

  datatype WaitError = TimedOut | WrongValue | PublisherFailed(code: int)

  /** How a task ends. */
  datatype Ending = Returned | Threw(error: WaitError)

  /** `emitted` and `consumed` are the history; `ready` are the ended tasks the group has not looked at yet. */
  datatype State<V> = State(
    emitted: seq<V>,
    completion: Option<Completion>,
    buffer: seq<V>,
    consumed: seq<V>,
    consuming: bool,
    sleeping: bool,
    ready: seq<Ending>,
    outcome: Option<Ending>)

  function Initial<V>(): State<V> {
    State([], None, [], [], true, true, [], None)
  }

  /**
   * The publisher emits or completes; the consumer takes its next step, if it has one; the timer elapses; the group
   * returns its first result, which also cancels both tasks; the consumer notices the cancellation.
   */
  datatype Event<V> = Emit(value: V) | Complete(completion: Completion) | Consume | Elapse | Report | Cancel

  function EndConsumer<V>(s: State<V>, ending: Ending): State<V> {
    s.(consuming := false, ready := s.ready + [ending])
  }

  function ConsumeStep<V>(s: State<V>, wanted: V -> bool): State<V> {
    if s.buffer != [] then
      var taken := s.(consumed := s.consumed + [s.buffer[0]], buffer := s.buffer[1..]);
      if wanted(s.buffer[0]) then EndConsumer(taken, Returned) else taken
    else match s.completion
      case None => s
      case Some(Finished) => EndConsumer(s, Threw(WrongValue))
      case Some(Failed(code)) => EndConsumer(s, Threw(PublisherFailed(code)))
  }

  /** A cancelled stream just ends, so the consumer falls out of its loop as if the publisher had finished. */
  function Step<V>(s: State<V>, wanted: V -> bool, e: Event<V>): State<V> {
    match e
    case Emit(value) =>
      if s.completion.Some? then s else s.(emitted := s.emitted + [value], buffer := s.buffer + [value])
    case Complete(completion) => if s.completion.Some? then s else s.(completion := Some(completion))
    case Consume => if s.consuming then ConsumeStep(s, wanted) else s
    case Elapse => if s.sleeping then s.(sleeping := false, ready := s.ready + [Threw(TimedOut)]) else s
    case Report =>
      if s.outcome.None? && s.ready != [] then s.(outcome := Some(s.ready[0]), ready := s.ready[1..]) else s
    case Cancel => if s.outcome.Some? && s.consuming then EndConsumer(s, Threw(WrongValue)) else s
  }

  function Run<V>(wanted: V -> bool, events: seq<Event<V>>): State<V> {
    if events == [] then Initial()
    else Step(Run(wanted, events[..|events| - 1]), wanted, events[|events| - 1])
  }

  /** From `a` to `s`, the consumer has only taken values, none of them wanted unless it has ended with the last. */
  ghost predicate Searched<V>(a: State<V>, s: State<V>, wanted: V -> bool) {
    && (s.emitted, s.completion, s.sleeping, s.outcome) == (a.emitted, a.completion, a.sleeping, a.outcome)
    && s.consumed + s.buffer == a.consumed + a.buffer && a.consumed <= s.consumed
    && (forall k | |a.consumed| <= k < |s.consumed| - 1 :: !wanted(s.consumed[k]))
    && if s.consuming then s.ready == a.ready && LastUnwanted(a, s, wanted)
       else |s.ready| == |a.ready| + 1 && s.ready[..|a.ready|] == a.ready
            && match s.ready[|a.ready|]
               case Returned => |s.consumed| > |a.consumed| && wanted(s.consumed[|s.consumed| - 1])
               case Threw(error) =>
                 LastUnwanted(a, s, wanted) && s.buffer == [] && (error.WrongValue? ==> s.completion == Some(Finished))
  }

  predicate LastUnwanted<V>(a: State<V>, s: State<V>, wanted: V -> bool) {
    |a.consumed| < |s.consumed| ==> !wanted(s.consumed[|s.consumed| - 1])
  }

  lemma StepSearches<V>(a: State<V>, s: State<V>, wanted: V -> bool)
    requires Searched(a, s, wanted) && s.consuming && s.completion.Some?
    ensures var t := ConsumeStep(s, wanted); Searched(a, t, wanted) && (t.consuming ==> |t.buffer| < |s.buffer|)
  {
    if s.buffer != [] {
      assert [s.buffer[0]] + s.buffer[1..] == s.buffer;
      assert s.consumed + [s.buffer[0]] + s.buffer[1..] == s.consumed + s.buffer;
    }
  }

  lemma SearchFinds<V>(a: State<V>, s: State<V>, wanted: V -> bool)
    requires Searched(a, s, wanted) && !s.consuming
    ensures s.ready[|a.ready|] == Returned <==> exists v :: v in a.buffer && wanted(v)
  {
    var all := s.consumed + s.buffer;
    assert forall k | 0 <= k < |a.buffer| :: a.buffer[k] == all[|a.consumed| + k];
    assert forall k | 0 <= k < |s.consumed| :: s.consumed[k] == all[k];
  }

  /** The race as an object; each method is one atomic step and keeps `Valid`. */
  class Race<V> {
    const wanted: V -> bool
    var emitted: seq<V>
    var completion: Option<Completion>
    var buffer: seq<V>
    var consumed: seq<V>
    var consuming: bool
    var sleeping: bool
    var ready: seq<Ending>
    var outcome: Option<Ending>

    ghost function Value(): State<V>
      reads this
    {
      State(emitted, completion, buffer, consumed, consuming, sleeping, ready, outcome)
    }

    /** Whatever was or will be reported is the right outcome. */
    ghost predicate Valid()
      reads this
    {
      Safe(Value(), wanted)
    }

    constructor (wanted: V -> bool)
      ensures this.wanted == wanted && Value() == Initial() && Valid()
    {
      this.wanted := wanted;
      emitted, completion, buffer, consumed := [], None, [], [];
      consuming, sleeping, ready, outcome := true, true, [], None;
    }

    /** The stream's side of the subscription: unbounded buffering. */
    method Yield(value: V)
      requires Valid()
      modifies this
      ensures Valid()
      ensures Value() == Step(old(Value()), wanted, Emit(value))
    {
      if completion.None? {
        emitted, buffer := emitted + [value], buffer + [value];
      }
      StepIsSafe(old(Value()), wanted, Emit(value));
    }

    method Finish(end: Completion)
      requires Valid()
      modifies this
      ensures Valid()
      ensures Value() == Step(old(Value()), wanted, Complete(end))
    {
      if completion.None? {
        completion := Some(end);
      }
      StepIsSafe(old(Value()), wanted, Complete(end));
    }

    method Timeout()
      requires Valid()
      modifies this
      ensures Valid()
      ensures Value() == Step(old(Value()), wanted, Elapse)
    {
      if sleeping {
        sleeping, ready := false, ready + [Threw(TimedOut)];
      }
      StepIsSafe(old(Value()), wanted, Elapse);
    }

    /** The group's `next`, and the cancellation that follows it. */
    method Next()
      requires Valid()
      modifies this
      ensures Valid()
      ensures Value() == Step(old(Value()), wanted, Report)
    {
      if outcome.None? && ready != [] {
        outcome, ready := Some(ready[0]), ready[1..];
      }
      StepIsSafe(old(Value()), wanted, Report);
    }

    method ConsumeOne()
      requires Valid() && consuming
      modifies this
      ensures Valid()
      ensures Value() == Step(old(Value()), wanted, Consume)
      ensures old(buffer) != [] ==>
                && consumed == old(consumed) + [old(buffer)[0]] && buffer == old(buffer)[1..]
                && ready == old(ready) + (if wanted(old(buffer)[0]) then [Returned] else [])
                && (consuming <==> !wanted(old(buffer)[0]))
    {
      if buffer != [] {
        var value := buffer[0];
        consumed, buffer := consumed + [value], buffer[1..];
        if wanted(value) {
          consuming, ready := false, ready + [Returned];
        }
      } else if completion == Some(Finished) {
        consuming, ready := false, ready + [Threw(WrongValue)];
      } else if completion.Some? {
        consuming, ready := false, ready + [Threw(PublisherFailed(completion.value.code))];
      }
      StepIsSafe(old(Value()), wanted, Consume);
    }

    /**
     * The consuming loop, once the publisher has completed and nothing else intervenes: it ends with the first wanted
     * value left in the buffer, or at the end of the stream.
     */
    method ConsumeAll()
      requires Valid() && consuming && completion.Some?
      modifies this
      ensures Valid()
      ensures !consuming && (emitted, completion, sleeping, outcome) == old((emitted, completion, sleeping, outcome))
      ensures consumed + buffer == old(consumed + buffer) && old(consumed) <= consumed
      ensures |ready| == |old(ready)| + 1 && ready[..|old(ready)|] == old(ready)
      ensures ready[|old(ready)|] == Returned <==> exists v :: v in old(buffer) && wanted(v)
      ensures ready[|old(ready)|] == Threw(WrongValue) ==> completion == Some(Finished)
      ensures forall k | |old(consumed)| <= k < |consumed| - 1 :: !wanted(consumed[k])
      ensures ready[|old(ready)|] == Returned ==> consumed != [] && wanted(consumed[|consumed| - 1])
    {
      hide Safe, ConsumeStep;
      while consuming
        invariant Valid() && completion.Some?
        invariant Searched(old(Value()), Value(), wanted)
        decreases consuming, |buffer|
      {
        hide Searched;
        StepSearches(old(Value()), Value(), wanted);
        ConsumeOne();
      }
      SearchFinds(old(Value()), Value(), wanted);
    }
  }

  // ---------------------------------------------------------------- safety over all interleavings

  predicate NoneWanted<V>(values: seq<V>, wanted: V -> bool) {
    forall k | 0 <= k < |values| :: !wanted(values[k])
  }

  /** What it means for the consumer to end one way or the other before any cancellation. */
  predicate Justified<V>(s: State<V>, wanted: V -> bool, ending: Ending) {
    match ending
    case Returned =>
      && s.consumed != [] && wanted(s.consumed[|s.consumed| - 1])
      && NoneWanted(s.consumed[..|s.consumed| - 1], wanted)
    case Threw(WrongValue) => s.completion == Some(Finished) && NoneWanted(s.emitted, wanted)
    case Threw(PublisherFailed(code)) => s.completion == Some(Failed(code)) && NoneWanted(s.emitted, wanted)
    case Threw(TimedOut) => !s.sleeping
  }

  ghost predicate Safe<V>(s: State<V>, wanted: V -> bool) {
    && s.consumed + s.buffer == s.emitted
    && (s.consuming ==> NoneWanted(s.consumed, wanted))
    && (s.outcome.None? ==> forall k | 0 <= k < |s.ready| :: Justified(s, wanted, s.ready[k]))
    && (s.outcome.Some? ==> Justified(s, wanted, s.outcome.value))
  }

  lemma TakeIsSafe<V>(s: State<V>, wanted: V -> bool)
    requires Safe(s, wanted) && s.consuming && s.buffer != []
    ensures Safe(ConsumeStep(s, wanted), wanted)
  {
    var value, t := s.buffer[0], ConsumeStep(s, wanted);
    assert t.consumed == s.consumed + [value] && t.buffer == s.buffer[1..];
    assert t.consumed[..|t.consumed| - 1] == s.consumed;
    assert t.consumed + t.buffer == s.consumed + s.buffer;
    assert value == s.emitted[|s.consumed|];
    forall ending | Justified(s, wanted, ending) ensures Justified(t, wanted, ending) {
      ConsumingIsUnjustified(s, wanted, ending);
    }
  }

  /** While the consumer runs, only a timeout can have been reported. */
  lemma ConsumingIsUnjustified<V>(s: State<V>, wanted: V -> bool, ending: Ending)
    requires NoneWanted(s.consumed, wanted) && Justified(s, wanted, ending)
    ensures ending != Returned
  {
  }

  lemma EndIsSafe<V>(s: State<V>, wanted: V -> bool)
    requires Safe(s, wanted) && s.consuming && s.buffer == []
    ensures Safe(ConsumeStep(s, wanted), wanted)
  {
    assert s.emitted == s.consumed;
  }

  lemma EmitIsSafe<V>(s: State<V>, wanted: V -> bool, value: V)
    requires Safe(s, wanted) && s.completion.None?
    ensures Safe(s.(emitted := s.emitted + [value], buffer := s.buffer + [value]), wanted)
  {
    assert s.consumed + (s.buffer + [value]) == (s.consumed + s.buffer) + [value];
  }

  lemma StepIsSafe<V>(s: State<V>, wanted: V -> bool, e: Event<V>)
    requires Safe(s, wanted)
    ensures Safe(Step(s, wanted, e), wanted)
    ensures s.outcome.Some? ==> Step(s, wanted, e).outcome == s.outcome
  {
    match e
    case Emit(value) =>
      if s.completion.None? {
        EmitIsSafe(s, wanted, value);
      }
    case Consume =>
      if s.consuming && s.buffer != [] {
        TakeIsSafe(s, wanted);
      } else if s.consuming {
        EndIsSafe(s, wanted);
      }
    case _ => hide ConsumeStep, NoneWanted;
  }

  /**
   * Over all interleavings, the report of `events` is the right one: success means the last value consumed, and only
   * that one, was wanted; a wrong value means the publisher finished without any; a publisher's failure is its own,
   * again without any; values are consumed in the order of emission with none skipped.
   */
  lemma {:induction false} RunIsSafe<V>(wanted: V -> bool, events: seq<Event<V>>)
    ensures Safe(Run(wanted, events), wanted)
  {
    if events != [] {
      RunIsSafe(wanted, events[..|events| - 1]);
      StepIsSafe(Run(wanted, events[..|events| - 1]), wanted, events[|events| - 1]);
    }
  }

  predicate Ended<V>(s: State<V>) {
    !s.sleeping || !s.consuming
  }

  /** The group has its result, or can have it. */
  predicate Reportable<V>(s: State<V>) {
    s.outcome.Some? || s.ready != []
  }

  lemma StepKeepsReportable<V>(s: State<V>, wanted: V -> bool, e: Event<V>)
    requires Ended(s) <==> Reportable(s)
    ensures var t := Step(s, wanted, e); Ended(t) <==> Reportable(t)
  {
  }

  lemma {:induction false} EndedIsReportable<V>(wanted: V -> bool, events: seq<Event<V>>)
    ensures var s := Run(wanted, events); Ended(s) <==> Reportable(s)
  {
    if events != [] {
      hide Ended, Reportable, Step;
      EndedIsReportable(wanted, events[..|events| - 1]);
      StepKeepsReportable(Run(wanted, events[..|events| - 1]), wanted, events[|events| - 1]);
    }
  }

  lemma {:induction false} OutcomeStays<V>(wanted: V -> bool, events: seq<Event<V>>, more: seq<Event<V>>)
    requires Run(wanted, events).outcome.Some?
    ensures Run(wanted, events + more).outcome == Run(wanted, events).outcome
  {
    if more == [] {
      assert events + more == events;
    } else {
      var all := events + more;
      OutcomeStays(wanted, events, more[..|more| - 1]);
      assert all[..|all| - 1] == events + more[..|more| - 1];
    }
  }

  /**
   * There is exactly one report: the group's next result is there exactly if one of the tasks has ended, and whatever
   * comes later, it stays.
   */
  lemma OneOutcome<V>(wanted: V -> bool, events: seq<Event<V>>, more: seq<Event<V>>)
    ensures var s, t := Run(wanted, events), Run(wanted, events + [Report]);
            && (t.outcome.Some? <==> Ended(s))
            && (s.outcome.Some? ==> t.outcome == s.outcome)
            && (Ended(s) ==> Run(wanted, events + [Report] + more).outcome == t.outcome)
  {
    var all := events + [Report];
    assert all[..|all| - 1] == events;
    EndedIsReportable(wanted, events);
    if Ended(Run(wanted, events)) {
      OutcomeStays(wanted, all, more);
    }
  }

  /** A wanted value in the stream is not lost: the consumer can no longer end with a wrong value, only be too late. */
  lemma TransientIsNotSkipped<V>(wanted: V -> bool, events: seq<Event<V>>, k: nat)
    requires var s := Run(wanted, events);
             k < |s.emitted| && wanted(s.emitted[k]) && s.outcome.Some?
    ensures Run(wanted, events).outcome.value in {Returned, Threw(TimedOut)}
  {
    RunIsSafe(wanted, events);
  }

  // ---------------------------------------------------------------- what the events alone decide

  /** How the publisher completed, and what it emitted until then. */
  function CompletionIn<V>(events: seq<Event<V>>): Option<Completion> {
    if events == [] then None
    else
      var before, e := CompletionIn(events[..|events| - 1]), events[|events| - 1];
      if before.None? && e.Complete? then Some(e.completion) else before
  }

  function EmittedIn<V>(events: seq<Event<V>>): seq<V> {
    if events == [] then []
    else
      var before, e := events[..|events| - 1], events[|events| - 1];
      EmittedIn(before) + if e.Emit? && CompletionIn(before).None? then [e.value] else []
  }

  /** How many steps the consumer was given. */
  function Turns<V>(events: seq<Event<V>>): nat {
    if events == [] then 0 else Turns(events[..|events| - 1]) + if events[|events| - 1].Consume? then 1 else 0
  }

  predicate InTime<V>(events: seq<Event<V>>) {
    forall k | 0 <= k < |events| :: !events[k].Elapse?
  }

  lemma StepPublishes<V>(s: State<V>, wanted: V -> bool, e: Event<V>)
    ensures var t := Step(s, wanted, e);
            && t.emitted == s.emitted + (if e.Emit? && s.completion.None? then [e.value] else [])
            && t.completion == (if s.completion.None? && e.Complete? then Some(e.completion) else s.completion)
            && (t.sleeping <==> s.sleeping && !e.Elapse?)
  {
  }

  lemma {:induction false} RunPublishes<V>(wanted: V -> bool, events: seq<Event<V>>)
    ensures var s := Run(wanted, events);
            && s.emitted == EmittedIn(events) && s.completion == CompletionIn(events)
            && (s.sleeping <==> InTime(events))
  {
    if events != [] {
      hide Step;
      var n := |events| - 1;
      RunPublishes(wanted, events[..n]);
      StepPublishes(Run(wanted, events[..n]), wanted, events[n]);
      assert InTime(events) <==> InTime(events[..n]) && !events[n].Elapse? by {
        assert forall k | 0 <= k < n :: events[k] == events[..n][k];
      }
    }
  }

  /** The task that ended first, whether or not the group has looked at it. */
  function First<V>(s: State<V>): Option<Ending> {
    if s.outcome.Some? then s.outcome else if s.ready != [] then Some(s.ready[0]) else None
  }

  lemma {:induction false} FirstStays<V>(wanted: V -> bool, events: seq<Event<V>>, more: seq<Event<V>>)
    requires First(Run(wanted, events)).Some?
    ensures First(Run(wanted, events + more)) == First(Run(wanted, events))
  {
    if more == [] {
      assert events + more == events;
    } else {
      var all := events + more;
      FirstStays(wanted, events, more[..|more| - 1]);
      assert all[..|all| - 1] == events + more[..|more| - 1];
      hide ConsumeStep;
      StepKeepsFirst(Run(wanted, all[..|all| - 1]), wanted, all[|all| - 1]);
    }
  }

  lemma StepKeepsFirst<V>(s: State<V>, wanted: V -> bool, e: Event<V>)
    requires First(s).Some?
    ensures First(Step(s, wanted, e)) == First(s)
  {
  }

  lemma ReportsFirst<V>(wanted: V -> bool, events: seq<Event<V>>)
    ensures Run(wanted, events + [Report]).outcome == First(Run(wanted, events))
  {
    var all := events + [Report];
    assert all[..|all| - 1] == events;
  }

  /** While the timer runs, the consumer either still runs, or is the only task that has ended. */
  ghost predicate Alone<V>(s: State<V>) {
    if s.consuming then s.ready == [] && s.outcome == None
    else if s.outcome.Some? then s.ready == [] else |s.ready| == 1
  }

  /** How far the consumer has got with this many turns. */
  ghost predicate Paced<V>(s: State<V>, turns: nat) {
    && Alone(s)
    && |s.consumed| <= turns
    && (!s.consuming ==> First(s) == Some(Returned) || (s.completion.Some? && |s.consumed| == |s.emitted| < turns))
  }

  lemma StepIsPaced<V>(s: State<V>, wanted: V -> bool, e: Event<V>, turns: nat)
    requires Paced(s, turns) && Safe(s, wanted) && !e.Elapse?
    ensures Paced(Step(s, wanted, e), turns + if e.Consume? then 1 else 0)
  {
  }

  lemma {:induction false} RunIsPaced<V>(wanted: V -> bool, events: seq<Event<V>>)
    requires InTime(events)
    ensures Paced(Run(wanted, events), Turns(events))
  {
    if events != [] {
      var n := |events| - 1;
      RunIsPaced(wanted, events[..n]);
      RunIsSafe(wanted, events[..n]);
      hide Paced, Step;
      StepIsPaced(Run(wanted, events[..n]), wanted, events[n], Turns(events[..n]));
    }
  }

  /** A consumer that still runs has used all its turns, except those it had nothing to take in. */
  ghost predicate Busy<V>(s: State<V>, turns: nat, offered: nat, completed: bool) {
    && offered <= |s.emitted| && (completed ==> s.completion.Some? && |s.emitted| == offered)
    && (s.consuming ==> |s.consumed| >= turns || (|s.consumed| >= offered && !completed))
  }

  lemma StepIsBusy<V>(s: State<V>, wanted: V -> bool, e: Event<V>, turns: nat, offered: nat, completed: bool)
    requires Busy(s, turns, offered, completed) && Safe(s, wanted)
    ensures Busy(Step(s, wanted, e), turns + (if e.Consume? then 1 else 0), offered, completed)
  {
    assert |s.consumed| + |s.buffer| == |s.consumed + s.buffer|;
  }

  lemma {:induction false} RunIsBusy<V>(wanted: V -> bool, before: seq<Event<V>>, after: seq<Event<V>>)
    ensures Busy(Run(wanted, before + after), Turns(after), |EmittedIn(before)|, CompletionIn(before).Some?)
  {
    RunPublishes(wanted, before);
    if after == [] {
      assert before + after == before;
    } else {
      var n, all := |after| - 1, before + after;
      RunIsBusy(wanted, before, after[..n]);
      assert all[..|all| - 1] == before + after[..n];
      RunIsSafe(wanted, before + after[..n]);
      hide Busy, Step;
      StepIsBusy(Run(wanted, before + after[..n]), wanted, after[n], Turns(after[..n]), |EmittedIn(before)|,
                 CompletionIn(before).Some?);
    }
  }

  /** What the group reports in the end, whatever else happens before it looks. */
  function Verdict<V>(wanted: V -> bool, events: seq<Event<V>>, more: seq<Event<V>>): Option<Ending> {
    Run(wanted, events + more + [Report]).outcome
  }

  lemma VerdictIsFirst<V>(wanted: V -> bool, events: seq<Event<V>>, more: seq<Event<V>>)
    requires First(Run(wanted, events)).Some?
    ensures Verdict(wanted, events, more) == First(Run(wanted, events))
  {
    FirstStays(wanted, events, more);
    ReportsFirst(wanted, events + more);
  }

  /** A publisher that has completed leaves this to a consumer that found nothing. */
  function Failure(completion: Completion): Ending {
    match completion
    case Finished => Threw(WrongValue)
    case Failed(code) => Threw(PublisherFailed(code))
  }

  lemma TimelyEnding<V>(wanted: V -> bool, events: seq<Event<V>>)
    requires InTime(events) && !Run(wanted, events).consuming
    ensures var s := Run(wanted, events);
            && First(s).Some? && Justified(s, wanted, First(s).value) && First(s).value != Threw(TimedOut)
  {
    RunIsSafe(wanted, events);
    RunIsPaced(wanted, events);
    RunPublishes(wanted, events);
  }

  lemma TakenWereEmitted<V>(s: State<V>, wanted: V -> bool)
    requires Safe(s, wanted)
    ensures |s.consumed| <= |s.emitted| && forall k | 0 <= k < |s.consumed| :: s.consumed[k] == s.emitted[k]
  {
    assert |s.consumed + s.buffer| == |s.consumed| + |s.buffer|;
    assert forall k | 0 <= k < |s.consumed| :: (s.consumed + s.buffer)[k] == s.consumed[k];
  }

  /** A busy consumer has found the wanted value. */
  lemma BusyFinds<V>(s: State<V>, wanted: V -> bool, turns: nat, offered: nat, completed: bool, k: nat)
    requires Safe(s, wanted) && Busy(s, turns, offered, completed)
    requires k < offered && k < turns && wanted(s.emitted[k])
    ensures !s.consuming
  {
    TakenWereEmitted(s, wanted);
  }

  lemma BusyEnds<V>(s: State<V>, wanted: V -> bool, turns: nat, offered: nat)
    requires Safe(s, wanted) && Busy(s, turns, offered, true) && turns > offered
    ensures !s.consuming
  {
    TakenWereEmitted(s, wanted);
  }

  /** What a task can have ended with, according to what was emitted. */
  lemma JustifiedByEmitted<V>(s: State<V>, wanted: V -> bool, ending: Ending)
    requires Safe(s, wanted) && Justified(s, wanted, ending) && ending != Threw(TimedOut)
    ensures NoneWanted(s.emitted, wanted) ==> s.completion.Some? && ending == Failure(s.completion.value)
    ensures !NoneWanted(s.emitted, wanted) ==> ending == Returned
  {
    TakenWereEmitted(s, wanted);
  }

  lemma ConsumerSucceeds<V>(wanted: V -> bool, before: seq<Event<V>>, after: seq<Event<V>>, k: nat)
    requires InTime(before + after)
    requires k < |EmittedIn(before)| && k < Turns(after) && wanted(EmittedIn(before)[k])
    ensures First(Run(wanted, before + after)) == Some(Returned)
  {
    var s := Run(wanted, before + after);
    RunIsBusy(wanted, before, after);
    RunIsSafe(wanted, before + after);
    EmittedGrows(before, after);
    RunPublishes(wanted, before + after);
    assert wanted(s.emitted[k]);
    hide Safe, Busy, Run, Justified, First;
    BusyFinds(s, wanted, Turns(after), |EmittedIn(before)|, CompletionIn(before).Some?, k);
    TimelyEnding(wanted, before + after);
    JustifiedByEmitted(s, wanted, First(s).value);
  }

  lemma ConsumerFails<V>(wanted: V -> bool, before: seq<Event<V>>, after: seq<Event<V>>)
    requires InTime(before + after) && CompletionIn(before).Some?
    requires NoneWanted(EmittedIn(before), wanted) && Turns(after) > |EmittedIn(before)|
    ensures First(Run(wanted, before + after)) == Some(Failure(CompletionIn(before).value))
  {
    var s := Run(wanted, before + after);
    RunIsBusy(wanted, before, after);
    RunIsSafe(wanted, before + after);
    EmittedGrows(before, after);
    RunPublishes(wanted, before + after);
    hide Safe, Busy, Run, Justified, First;
    BusyEnds(s, wanted, Turns(after), |EmittedIn(before)|);
    TimelyEnding(wanted, before + after);
    JustifiedByEmitted(s, wanted, First(s).value);
  }

  /**
   * The consumer decides, if the timer leaves it the turns: it succeeds as soon as it has had one for each value up
   * to a wanted one, be the publisher still alive or not, and fails with the publisher once it has had one more than
   * there are values, if none is wanted and the publisher has completed.
   */
  lemma ConsumerDecides<V>(wanted: V -> bool, before: seq<Event<V>>, after: seq<Event<V>>, more: seq<Event<V>>)
    requires InTime(before + after)
    ensures var values, completion := EmittedIn(before), CompletionIn(before);
            && ((exists k :: 0 <= k < |values| && k < Turns(after) && wanted(values[k])) ==>
                  Verdict(wanted, before + after, more) == Some(Returned))
            && (completion.Some? && NoneWanted(values, wanted) && Turns(after) > |values| ==>
                  Verdict(wanted, before + after, more) == Some(Failure(completion.value)))
  {
    var values, completion := EmittedIn(before), CompletionIn(before);
    hide Run, Verdict, First;
    if k :| 0 <= k < |values| && k < Turns(after) && wanted(values[k]) {
      ConsumerSucceeds(wanted, before, after, k);
      VerdictIsFirst(wanted, before + after, more);
    }
    if completion.Some? && NoneWanted(values, wanted) && Turns(after) > |values| {
      ConsumerFails(wanted, before, after);
      VerdictIsFirst(wanted, before + after, more);
    }
  }

  lemma {:induction false} EmittedGrows<V>(before: seq<Event<V>>, after: seq<Event<V>>)
    ensures EmittedIn(before) <= EmittedIn(before + after)
    ensures CompletionIn(before).Some? ==>
              EmittedIn(before + after) == EmittedIn(before) && CompletionIn(before + after) == CompletionIn(before)
  {
    if after == [] {
      assert before + after == before;
    } else {
      var n, all := |after| - 1, before + after;
      EmittedGrows(before, after[..n]);
      assert all[..|all| - 1] == before + after[..n];
    }
  }

  /** The timer decides, if it elapses while the consumer cannot have had the turns it needs. */
  lemma TimerDecides<V>(wanted: V -> bool, before: seq<Event<V>>, more: seq<Event<V>>)
    requires InTime(before)
    requires forall k | 0 <= k < |EmittedIn(before)| && wanted(EmittedIn(before)[k]) :: Turns(before) <= k
    requires CompletionIn(before).Some? ==> Turns(before) <= |EmittedIn(before)|
    ensures Verdict(wanted, before + [Elapse], more) == Some(Threw(TimedOut))
  {
    var s, all := Run(wanted, before), before + [Elapse];
    RunIsPaced(wanted, before);
    RunIsSafe(wanted, before);
    RunPublishes(wanted, before);
    if !s.consuming {
      TimelyEnding(wanted, before);
      TakenWereEmitted(s, wanted);
      assert false;
    }
    assert all[..|all| - 1] == before;
    VerdictIsFirst(wanted, all, more);
  }

  /** Nothing is taken from the stream once the group has reported and the consumer has noticed the cancellation. */
  lemma {:induction false} CancelStops<V>(wanted: V -> bool, events: seq<Event<V>>, more: seq<Event<V>>)
    requires Run(wanted, events).outcome.Some?
    ensures var s, t := Run(wanted, events), Run(wanted, events + [Cancel] + more);
            !t.consuming && t.consumed == s.consumed
  {
    var e := events + [Cancel];
    assert e[..|e| - 1] == events;
    if more == [] {
      assert e + more == e;
    } else {
      var all := e + more;
      CancelStops(wanted, events, more[..|more| - 1]);
      assert all[..|all| - 1] == e + more[..|more| - 1];
    }
  }
}
