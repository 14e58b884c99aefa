/** What a peer is after a run, in terms of the run's events alone: a specification that its steps refine. */
module PeerHistory {
  import opened Common
  import opened Peers
  import PayloadTypes

  // ---------------------------------------------------------------- the specification: only the history counts

  /** The codec configurations asked for, in order. */
  function Keys(events: seq<Event>): seq<PayloadTypes.Key> {
    if events == [] then []
    else
      var e := events[|events| - 1];
      Keys(events[..|events| - 1]) + if e.CreatedTrack? then [e.request.key] else []
  }

  /** Event i is a track creation that got a payload type. */
  predicate Numbered(events: seq<Event>, i: nat)
    requires i < |events|
  {
    events[i].CreatedTrack? && events[i].request.key in PayloadTypes.After(Keys(events[..i + 1])).table
  }

  /** Event i makes this handle known: an answered creation, or an announcement. */
  predicate Names(events: seq<Event>, i: nat, id: int)
    requires i < |events|
  {
    match events[i]
    case CreatedData(code, _) => code == id && code >= 0
    case CreatedTrack(_, _, reply, _) => reply.Added? && reply.id == id && Numbered(events, i)
    case AnnouncedData(c) => c.id == id
    case AnnouncedTrack(_, c) => c.id == id
    case Closed(_) => false
  }

  /** The first event from i on that does so. */
  function FirstNaming(events: seq<Event>, id: int, i: nat): (k: nat)
    requires i <= |events|
    ensures i <= k <= |events|
    ensures k < |events| ==> Names(events, k, id)
    ensures forall j | i <= j < k :: !Names(events, j, id)
    decreases |events| - i
  {
    if i == |events| || Names(events, i, id) then i else FirstNaming(events, id, i + 1)
  }

  /** Event i puts this SSRC to use: that of a numbered creation, or one of a newly announced track. */
  predicate Brings(events: seq<Event>, i: nat, ssrc: uint32)
    requires i < |events|
  {
    match events[i]
    case CreatedTrack(request, drawn, _, _) =>
      Numbered(events, i) && ssrc == if request.ssrc.Some? then request.ssrc.value else drawn
    case AnnouncedTrack(_, c) => c.info.TrackInfo? && ssrc in c.info.ssrcs && FirstNaming(events, c.id, 0) == i
    case _ => false
  }

  predicate Closes(events: seq<Event>, i: nat, id: int)
    requires i < |events|
  {
    events[i].Closed? && events[i].c.id == id
  }

  predicate ClosedBefore(events: seq<Event>, n: nat, id: int)
    requires n <= |events|
  {
    exists i :: 0 <= i < n && Closes(events, i, id)
  }

  predicate BroughtBefore(events: seq<Event>, n: nat, ssrc: uint32)
    requires n <= |events|
  {
    exists i :: 0 <= i < n && Brings(events, i, ssrc)
  }

  /** Every handle named by the first n events points to the wrapper of the event that named it first. */
  ghost predicate PointersReflect(p: PeerState, events: seq<Event>, n: nat)
    requires n <= |events|
  {
    && (forall id :: id in p.pointers <==> FirstNaming(events, id, 0) < n)
    && (forall id | id in p.pointers :: p.pointers[id] == events[FirstNaming(events, id, 0)].c)
  }

  /** The handles they closed. */
  ghost predicate RetiredReflect(p: PeerState, events: seq<Event>, n: nat)
    requires n <= |events|
  {
    forall id :: id in p.retired <==> ClosedBefore(events, n, id)
  }

  /** The wrapper of a handle is registered, in the set of its kind, until it is closed, and no other is. */
  ghost predicate Registered(p: PeerState) {
    && (forall c | c in p.channels :: c.id in p.pointers && p.pointers[c.id] == c && c.id !in p.retired)
    && (forall id | id in p.pointers && id !in p.retired :: p.pointers[id].id == id && p.pointers[id] in p.channels)
    && p.dataChannels == (set c | c in p.channels && c.info.DataInfo?)
    && p.tracks == (set c | c in p.channels && c.info.TrackInfo?)
  }

  /** The SSRCs they put to use. */
  ghost predicate SsrcsReflect(p: PeerState, events: seq<Event>, n: nat)
    requires n <= |events|
  {
    forall ssrc :: ssrc in p.ssrcs <==> BroughtBefore(events, n, ssrc)
  }

  /** The peer after the first n events. */
  ghost predicate Reflects(p: PeerState, events: seq<Event>, n: nat)
    requires n <= |events|
  {
    && PointersReflect(p, events, n) && RetiredReflect(p, events, n) && Registered(p) && SsrcsReflect(p, events, n)
    && p.payloadTypes == PayloadTypes.After(Keys(events[..n]))
  }

  // ---------------------------------------------------------------- one step

  /** Whether the event makes a handle known that was not known before. */
  ghost predicate NamesNew(p: PeerState, e: Event) {
    && (match e
        case CreatedData(code, _) => code >= 0
        case CreatedTrack(request, _, reply, _) =>
          reply.Added? && PayloadTypes.Request(p.payloadTypes, request.key).1.Some?
        case Closed(_) => false
        case _ => true)
    && e.c.id !in p.pointers
  }

  lemma StepEffect(p: PeerState, e: Event)
    requires Consistent(p) && Fits(p, e) && Step(p, e).Some?
    ensures var q := Step(p, e).value;
            && q.pointers == (if NamesNew(p, e) then p.pointers[e.c.id := e.c] else p.pointers)
            && q.retired == p.retired + (if e.Closed? then {e.c.id} else {})
            && q.payloadTypes
               == (if e.CreatedTrack? then PayloadTypes.Request(p.payloadTypes, e.request.key).0 else p.payloadTypes)
  {
    assert !HasId(p.channels, e.c.id) && e.c.id !in p.retired ==> e.c.id !in p.pointers;
    assert e.c.id !in p.pointers ==> !HasId(p.channels, e.c.id);
  }

  lemma StepReserves(p: PeerState, e: Event)
    requires Consistent(p) && Fits(p, e) && Step(p, e).Some?
    ensures var q := Step(p, e).value;
            forall x :: x in q.ssrcs <==>
              || x in p.ssrcs
              || (e.CreatedTrack? && PayloadTypes.Request(p.payloadTypes, e.request.key).1.Some?
                  && x == if e.request.ssrc.Some? then e.request.ssrc.value else e.drawn)
              || (e.AnnouncedTrack? && NamesNew(p, e) && x in e.c.info.ssrcs)
  {
    assert !HasId(p.channels, e.c.id) && e.c.id !in p.retired ==> e.c.id !in p.pointers;
    assert e.c.id !in p.pointers ==> !HasId(p.channels, e.c.id);
  }

  lemma KeysStep(events: seq<Event>, n: nat)
    requires n < |events|
    ensures var before, after := PayloadTypes.After(Keys(events[..n])), PayloadTypes.After(Keys(events[..n + 1]));
            if events[n].CreatedTrack? then
              && after == PayloadTypes.Request(before, events[n].request.key).0
              && (Numbered(events, n) <==> PayloadTypes.Request(before, events[n].request.key).1.Some?)
            else after == before
  {
    assert events[..n + 1][..n] == events[..n];
    var keys := Keys(events[..n + 1]);
    if events[n].CreatedTrack? {
      assert keys[..|keys| - 1] == Keys(events[..n]);
    } else {
      assert keys == Keys(events[..n]);
    }
  }

  /** The handle that event n names, if it names one, and that it is the first to do so exactly for a new handle. */
  lemma NamingStep(p: PeerState, events: seq<Event>, n: nat)
    requires n < |events| && Consistent(p) && Reflects(p, events, n) && Fits(p, events[n]) && Step(p, events[n]).Some?
    ensures var e := events[n];
            && (NamesNew(p, e) <==> Names(events, n, e.c.id) && e.c.id !in p.pointers)
            && forall id :: FirstNaming(events, id, 0) == n <==> NamesNew(p, e) && id == e.c.id
  {
    var e := events[n];
    KeysStep(events, n);
    hide Keys, PayloadTypes.After, PayloadTypes.Request, Consistent;
    assert Names(events, n, e.c.id) <==> NamesNew(p, e) || (e.c.id in p.pointers && Names(events, n, e.c.id));
    forall id ensures FirstNaming(events, id, 0) == n <==> Names(events, n, id) && id !in p.pointers {
    }
    assert forall id | Names(events, n, id) :: id == e.c.id;
  }

  lemma ClosedStep(events: seq<Event>, n: nat, id: int)
    requires n < |events|
    ensures ClosedBefore(events, n + 1, id) <==> ClosedBefore(events, n, id) || Closes(events, n, id)
  {
  }

  lemma BroughtStep(events: seq<Event>, n: nat, ssrc: uint32)
    requires n < |events|
    ensures BroughtBefore(events, n + 1, ssrc) <==> BroughtBefore(events, n, ssrc) || Brings(events, n, ssrc)
  {
    hide Brings;
  }

  lemma ConsistentIsRegistered(p: PeerState)
    requires Consistent(p)
    ensures Registered(p)
  {
  }

  lemma PointersStep(p: PeerState, events: seq<Event>, n: nat)
    requires n < |events| && Consistent(p) && Reflects(p, events, n) && Fits(p, events[n]) && Step(p, events[n]).Some?
    ensures PointersReflect(Step(p, events[n]).value, events, n + 1)
  {
    NamingStep(p, events, n);
    StepEffect(p, events[n]);
    hide Step, Fits, Consistent, NamesNew, Registered, SsrcsReflect, RetiredReflect, PayloadTypes.Request;
  }

  lemma RetiredStep(p: PeerState, events: seq<Event>, n: nat)
    requires n < |events| && Consistent(p) && RetiredReflect(p, events, n) && Fits(p, events[n])
    requires Step(p, events[n]).Some?
    ensures RetiredReflect(Step(p, events[n]).value, events, n + 1)
  {
    var e := events[n];
    StepEffect(p, e);
    hide Step, Fits, Consistent, NamesNew, PayloadTypes.Request, ClosedBefore;
    forall id ensures id in Step(p, e).value.retired <==> ClosedBefore(events, n + 1, id) {
      ClosedStep(events, n, id);
    }
  }

  lemma SsrcsStep(p: PeerState, events: seq<Event>, n: nat)
    requires n < |events| && Consistent(p) && Reflects(p, events, n) && Fits(p, events[n]) && Step(p, events[n]).Some?
    ensures SsrcsReflect(Step(p, events[n]).value, events, n + 1)
  {
    var e, q := events[n], Step(p, events[n]).value;
    NamingStep(p, events, n);
    KeysStep(events, n);
    StepReserves(p, e);
    assert e.AnnouncedTrack? ==> e.c.info.TrackInfo?;
    hide Step, Fits, Consistent, NamesNew, Registered, PointersReflect, RetiredReflect, PayloadTypes.Request, Names,
      Numbered, Keys, PayloadTypes.After, BroughtBefore;
    forall x ensures x in q.ssrcs <==> BroughtBefore(events, n + 1, x) {
      BroughtStep(events, n, x);
    }
  }

  lemma StepReflects(p: PeerState, events: seq<Event>, n: nat)
    requires n < |events| && Consistent(p) && Reflects(p, events, n) && Fits(p, events[n]) && Step(p, events[n]).Some?
    ensures Consistent(Step(p, events[n]).value) && Reflects(Step(p, events[n]).value, events, n + 1)
  {
    PointersStep(p, events, n);
    RetiredStep(p, events, n);
    SsrcsStep(p, events, n);
    KeysStep(events, n);
    StepEffect(p, events[n]);
    StepKeeps(p, events[n]);
    ConsistentIsRegistered(Step(p, events[n]).value);
    hide Step, Fits, Consistent, NamesNew, Registered, PointersReflect, RetiredReflect, SsrcsReflect;
  }

  /** The last step of a run. */
  lemma RunEnds(events: seq<Event>, n: nat)
    requires n < |events| && Admissible(INITIAL, events) && Run(INITIAL, events).Some?
    ensures Admissible(INITIAL, events[..n]) && Run(INITIAL, events[..n]).Some?
    ensures Admissible(INITIAL, events[..n + 1])
    ensures var p := Run(INITIAL, events[..n]).value;
            Fits(p, events[n]) && Step(p, events[n]).Some? && Run(INITIAL, events[..n + 1]) == Step(p, events[n])
  {
    hide Fits, Step;
    var last := [events[n]];
    assert events == events[..n + 1] + events[n + 1..] && events[..n + 1] == events[..n] + last;
    RunSplits(INITIAL, events[..n + 1], events[n + 1..]);
    RunSplits(INITIAL, events[..n], last);
    assert last[0] == events[n] && last[1..] == [];
  }

  lemma {:induction false} PrefixReflects(events: seq<Event>, n: nat)
    requires n <= |events| && Admissible(INITIAL, events) && Run(INITIAL, events).Some?
    ensures Admissible(INITIAL, events[..n]) && Run(INITIAL, events[..n]).Some?
    ensures var p := Run(INITIAL, events[..n]).value; Consistent(p) && Reflects(p, events, n)
  {
    if n == 0 {
      assert events[..0] == [];
      NothingReflects(events);
    } else {
      PrefixReflects(events, n - 1);
      RunEnds(events, n - 1);
      hide Consistent, Reflects, Fits, Step, Admissible, Run;
      StepReflects(Run(INITIAL, events[..n - 1]).value, events, n - 1);
    }
  }

  lemma NothingReflects(events: seq<Event>)
    ensures Consistent(INITIAL) && Reflects(INITIAL, events, 0)
  {
    assert events[..0] == [];
  }

  /**
   * Whatever the application, the native library and the order of events, the registry, the user pointers and both
   * allocators are what the history says.
   */
  lemma PeerReflectsHistory(events: seq<Event>)
    requires Admissible(INITIAL, events) && Run(INITIAL, events).Some?
    ensures Reflects(Run(INITIAL, events).value, events, |events|)
  {
    PrefixReflects(events, |events|);
    assert events[..|events|] == events;
  }

  /** In particular, a handle that was once named is registered until it is closed, and a track's SSRCs stay taken. */
  lemma NamedIsRegistered(events: seq<Event>, i: nat, id: int)
    requires Admissible(INITIAL, events) && Run(INITIAL, events).Some? && i < |events| && Names(events, i, id)
    ensures var q := Run(INITIAL, events).value;
            && id in q.pointers && q.pointers[id] == events[FirstNaming(events, id, 0)].c && q.pointers[id].id == id
            && (var c := q.pointers[id];
                && (c in q.channels <==> !ClosedBefore(events, |events|, id))
                && (c in q.tracks <==> c in q.channels && c.info.TrackInfo?)
                && (c in q.dataChannels <==> c in q.channels && c.info.DataInfo?)
                && (c in q.tracks ==> forall x | x in c.info.ssrcs :: x in q.ssrcs))
  {
    PeerReflectsHistory(events);
    EveryRunIsConsistent(events);
  }
}
