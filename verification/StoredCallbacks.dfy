/** A callback slot that remembers the last call it missed and replays it to the next callback set. */
module StoredCallbacks {
  import opened Common

  datatype Event<C, A> = Set(callback: Option<C>) | Call(arg: A)

  /** `delivered` lists the calls that reached a callback: which callback, and with what argument. */
  datatype State<C, A> = State(callback: Option<C>, stored: Option<A>, delivered: seq<(C, A)>)

  function Initial<C, A>(): State<C, A> {
    State(None, None, [])
  }

  function Step<C, A>(s: State<C, A>, e: Event<C, A>): State<C, A> {
    match e
    case Set(callback) =>
      if callback.Some? && s.stored.Some?
      then State(callback, None, s.delivered + [(callback.value, s.stored.value)])
      else s.(callback := callback)
    case Call(arg) =>
      match s.callback
      case Some(c) => s.(delivered := s.delivered + [(c, arg)])
      case None => s.(stored := Some(arg))
  }

  class SynchronizedStoredCallback<C, A> {
    var callback: Option<C>
    var stored: Option<A>
    var delivered: seq<(C, A)>

    ghost function Value(): State<C, A>
      reads this
    {
      State(callback, stored, delivered)
    }

    constructor ()
      ensures Value() == Initial()
    {
      callback, stored, delivered := None, None, [];
    }

    /** Invoking the function that was set. */
    method Invoke(c: C, arg: A)
      modifies this`delivered
      ensures delivered == old(delivered) + [(c, arg)]
    {
      delivered := delivered + [(c, arg)];
    }

    method Assign(func: Option<C>)
      modifies this
      ensures Value() == Step(old(Value()), Set(func))
    {
      callback := func;
      if func.Some? && stored.Some? {
        Invoke(func.value, stored.value);
        stored := None;
      }
    }

    method Call(arg: A) returns (r: bool)
      modifies this
      ensures r && Value() == Step(old(Value()), Event.Call(arg))
    {
      if callback.Some? {
        Invoke(callback.value, arg);
      } else {
        stored := Some(arg);
      }
      return true;
    }
  }

  /** The state after the first n events. */
  function After<C, A>(events: seq<Event<C, A>>, n: nat): State<C, A>
    requires n <= |events|
  {
    if n == 0 then Initial() else Step(After(events, n - 1), events[n - 1])
  }

  // ---------------------------------------------------------------- the specification: calls by their position

  /** The callback in force when event n comes. */
  function Handler<C, A>(events: seq<Event<C, A>>, n: nat): Option<C>
    requires n <= |events|
  {
    if n == 0 then None
    else if events[n - 1].Set? then events[n - 1].callback
    else Handler(events, n - 1)
  }

  /** Call i found no callback, and since then there has been neither another call nor a callback. */
  predicate Pending<C, A>(events: seq<Event<C, A>>, i: nat, n: nat)
    requires n <= |events|
  {
    && i < n && events[i].Call? && Handler(events, i).None?
    && forall j | i < j < n :: events[j].Set? && events[j].callback.None?
  }

  /** Call i reaches a callback within the first n events: at once, or replayed to the next callback set. */
  predicate Reaches<C, A>(events: seq<Event<C, A>>, i: nat, n: nat)
    requires n <= |events|
  {
    && i < n && events[i].Call?
    && (|| Handler(events, i).Some?
        || exists k :: i < k < n && events[k].Set? && events[k].callback.Some? && Pending(events, i, k))
  }

  ghost predicate HasPending<C, A>(events: seq<Event<C, A>>, n: nat)
    requires n <= |events|
  {
    exists i: nat :: Pending(events, i, n)
  }

  ghost function LastMissed<C, A>(events: seq<Event<C, A>>, n: nat): (i: nat)
    requires n <= |events| && HasPending(events, n)
    ensures Pending(events, i, n)
  {
    var i: nat :| Pending(events, i, n);
    i
  }

  /** The positions of the calls that reached a callback, in order of delivery, each with its callback. */
  ghost function Deliveries<C, A>(events: seq<Event<C, A>>, n: nat): seq<(C, nat)>
    requires n <= |events|
  {
    if n == 0 then []
    else
      var before, e := Deliveries(events, n - 1), events[n - 1];
      match e
      case Call(_) =>
        (match Handler(events, n - 1)
         case Some(c) => before + [(c, n - 1)]
         case None => before)
      case Set(callback) =>
        if callback.Some? && HasPending(events, n - 1) then before + [(callback.value, LastMissed(events, n - 1))]
        else before
  }

  lemma PendingIsUnique<C, A>(events: seq<Event<C, A>>, i: nat, j: nat, n: nat)
    requires n <= |events| && Pending(events, i, n) && Pending(events, j, n)
    ensures i == j
  {
  }

  lemma {:induction false} QuietKeepsHandler<C, A>(events: seq<Event<C, A>>, i: nat, n: nat)
    requires n <= |events| && Pending(events, i, n)
    ensures Handler(events, n).None?
  {
    if n > i + 1 {
      QuietKeepsHandler(events, i, n - 1);
    }
  }

  ghost predicate Refines<C, A>(s: State<C, A>, events: seq<Event<C, A>>, n: nat)
    requires n <= |events|
  {
    && s.callback == Handler(events, n)
    && (s.stored.Some? ==> s.callback.None?)
    && (forall i: nat | Pending(events, i, n) :: s.stored == Some(events[i].arg))
    && (s.stored.Some? ==> HasPending(events, n))
    && |s.delivered| == |Deliveries(events, n)|
    && (forall k | 0 <= k < |s.delivered| ::
          var (c, i) := Deliveries(events, n)[k]; i < n && events[i].Call? && s.delivered[k] == (c, events[i].arg))
  }

  /** Pending one event later: call n itself was missed, or event n left an earlier missed call pending. */
  predicate PendingNext<C, A>(events: seq<Event<C, A>>, i: nat, n: nat)
    requires n < |events|
  {
    match events[n]
    case Call(_) => i == n && Handler(events, n).None?
    case Set(callback) => callback.None? && Pending(events, i, n)
  }

  lemma PendingStepAt<C, A>(events: seq<Event<C, A>>, i: nat, n: nat)
    requires n < |events|
    ensures Pending(events, i, n + 1) <==> PendingNext(events, i, n)
  {
    if i < n && Pending(events, i, n + 1) {
      assert events[n].Set? && events[n].callback.None?;
    }
  }

  lemma PendingStep<C, A>(events: seq<Event<C, A>>, n: nat)
    requires 0 < n <= |events|
    ensures forall i: nat :: Pending(events, i, n) <==> PendingNext(events, i, n - 1)
  {
    forall i: nat ensures Pending(events, i, n) <==> PendingNext(events, i, n - 1) {
      PendingStepAt(events, i, n - 1);
    }
  }

  /**
   * Over every sequence of assignments and calls, what has been delivered is exactly the calls of `Deliveries`, and a
   * call is stored only while no callback is set: the last missed one.
   */
  lemma {:induction false} DeliveryRefines<C, A>(events: seq<Event<C, A>>, n: nat)
    requires n <= |events|
    ensures Refines(After(events, n), events, n)
  {
    if n > 0 {
      DeliveryRefines(events, n - 1);
      PendingStep(events, n);
      var e := events[n - 1];
      if HasPending(events, n - 1) {
        QuietKeepsHandler(events, LastMissed(events, n - 1), n - 1);
        assert e == Set(None) ==> Pending(events, LastMissed(events, n - 1), n);
      }
      assert e.Call? && Handler(events, n - 1).None? ==> Pending(events, n - 1, n);
    }
  }

  /** Strictly increasing positions, all below n. */
  predicate Increasing<C>(deliveries: seq<(C, nat)>, n: nat) {
    && (forall k | 0 <= k < |deliveries| :: deliveries[k].1 < n)
    && (forall k, l | 0 <= k < l < |deliveries| :: deliveries[k].1 < deliveries[l].1)
  }

  lemma IncreasingAppended<C>(deliveries: seq<(C, nat)>, d: (C, nat), i: nat, n: nat)
    requires Increasing(deliveries, i) && d.1 == i < n
    ensures Increasing(deliveries + [d], n)
  {
  }

  /** Deliveries are duplicate-free and in the order of the calls, and a pending call is later than all of them. */
  lemma {:induction false} DeliveriesInOrder<C, A>(events: seq<Event<C, A>>, n: nat)
    requires n <= |events|
    ensures Increasing(Deliveries(events, n), n)
    ensures forall i: nat | Pending(events, i, n) :: Increasing(Deliveries(events, n), i)
  {
    if n > 0 {
      DeliveriesInOrder(events, n - 1);
      PendingStep(events, n);
      var before, now, e := Deliveries(events, n - 1), Deliveries(events, n), events[n - 1];
      if e.Call? && Handler(events, n - 1).Some? {
        IncreasingAppended(before, (Handler(events, n - 1).value, n - 1), n - 1, n);
      } else if e.Set? && e.callback.Some? && HasPending(events, n - 1) {
        var i := LastMissed(events, n - 1);
        IncreasingAppended(before, (e.callback.value, i), i, n);
      } else {
        assert now == before;
      }
      forall i: nat | Pending(events, i, n) ensures Increasing(now, i) {
        assert PendingNext(events, i, n - 1) && now == before;
      }
    }
  }

  ghost predicate Occurs<C>(deliveries: seq<(C, nat)>, i: nat) {
    exists k :: 0 <= k < |deliveries| && deliveries[k].1 == i
  }

  lemma OccursAppended<C>(deliveries: seq<(C, nat)>, d: (C, nat), i: nat)
    ensures Occurs(deliveries + [d], i) <==> Occurs(deliveries, i) || d.1 == i
  {
    var all := deliveries + [d];
    assert all[|deliveries|] == d;
    if Occurs(deliveries, i) {
      var k :| 0 <= k < |deliveries| && deliveries[k].1 == i;
      assert all[k].1 == i;
    }
  }

  lemma ReachesStep<C, A>(events: seq<Event<C, A>>, i: nat, n: nat)
    requires n < |events|
    ensures Reaches(events, i, n + 1) <==>
              || Reaches(events, i, n)
              || (i == n && events[n].Call? && Handler(events, n).Some?)
              || (events[n].Set? && events[n].callback.Some? && Pending(events, i, n))
  {
  }

  /** Which calls are delivered: those made while a callback was set, and those still pending when one is set next. */
  lemma {:induction false} DeliveriesAreExact<C, A>(events: seq<Event<C, A>>, n: nat, i: nat)
    requires n <= |events|
    ensures Occurs(Deliveries(events, n), i) <==> Reaches(events, i, n)
  {
    if n > 0 {
      hide Reaches, Occurs, Pending;
      DeliveriesAreExact(events, n - 1, i);
      ReachesStep(events, i, n - 1);
      var before, e := Deliveries(events, n - 1), events[n - 1];
      if e.Call? && Handler(events, n - 1).Some? {
        OccursAppended(before, (Handler(events, n - 1).value, n - 1), i);
      } else if e.Set? && e.callback.Some? {
        PendingAtMostOne(events, i, n - 1);
        if HasPending(events, n - 1) {
          OccursAppended(before, (e.callback.value, LastMissed(events, n - 1)), i);
        }
      }
    }
  }

  lemma PendingAtMostOne<C, A>(events: seq<Event<C, A>>, i: nat, n: nat)
    requires n <= |events|
    ensures Pending(events, i, n) <==> HasPending(events, n) && LastMissed(events, n) == i
  {
    if Pending(events, i, n) {
      PendingIsUnique(events, i, LastMissed(events, n), n);
    }
  }
}
