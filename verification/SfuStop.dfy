/** Stopping a unit: it is final, idempotent, and leaves the other units on the peer alone. */
module SfuStop {
  import opened Common
  import opened Sfu
  import F = Forwarding
  import ForwardingObjects
  import P = Peers
  import Ssrcs

  // ---------------------------------------------------------------- final and idempotent

  /** Unit u is stopped, with these figures. */
  ghost predicate Silent(s: System, u: nat, unit: Unit) {
    u < |s.units| && s.units[u] == unit && !unit.forwarder.subscribed
  }

  lemma StepStaysSilent(s: System, e: Event, u: nat, unit: Unit)
    requires Coherent(s) && Fits(s, e) && Step(s, e).Some? && Silent(s, u, unit)
    ensures Silent(Step(s, e).value, u, unit)
  {
    hide P.Consistent, UnitOk, F.Resolve, F.Transmit;
    if e.KeyFrame? {
      var c := s.peer.pointers[e.id];
      assert c in s.handlers ==> s.handlers[c] != u;
    }
  }

  lemma {:induction false} RunStaysSilent(s: System, events: seq<Event>, u: nat, unit: Unit)
    requires Coherent(s) && Admissible(s, events) && Run(s, events).Some? && Silent(s, u, unit)
    ensures Silent(Run(s, events).value, u, unit)
    decreases |events|
  {
    hide Coherent, Step, Fits, Silent;
    if events != [] {
      StepKeeps(s, events[0]);
      StepStaysSilent(s, events[0], u, unit);
      RunStaysSilent(Step(s, events[0]).value, events[1..], u, unit);
    }
  }

  /** Stopping a unit that is stopped already changes nothing. */
  lemma StopAgain(s: System, u: nat, unit: Unit)
    requires Coherent(s) && Silent(s, u, unit)
    ensures Step(s, StopUnit(u)) == Some(s)
    ensures !P.HasId(s.peer.channels, unit.egress.id)
  {
    assert UnitOk(s.peer, s.units[u]);
    var q := P.Close(s.peer, unit.egress);
    assert q.channels == s.peer.channels && q.dataChannels == s.peer.dataChannels && q.tracks == s.peer.tracks;
    assert q.retired == s.peer.retired && q == s.peer;
    assert s.handlers - {unit.egress} == s.handlers;
    assert s.units[u := unit] == s.units;
  }

  /**
   * Stop is final: after it, whatever happens, the unit sends nothing more and asks for no key frame, its egress track
   * is in none of the registry's sets, the invariant holds, and stopping once more changes nothing.
   */
  lemma StopIsFinal(s: System, u: nat, events: seq<Event>)
    requires Coherent(s) && u < |s.units|
    requires Admissible(StopStep(s, u), events) && Run(StopStep(s, u), events).Some?
    ensures var stopped, t := StopStep(s, u).units[u], Run(StopStep(s, u), events).value;
            && u < |t.units| && t.units[u] == stopped
            && stopped.forwarder.sent == s.units[u].forwarder.sent && stopped.requests == s.units[u].requests
            && !P.HasId(t.peer.channels, stopped.egress.id)
            && stopped.egress !in t.peer.channels && stopped.egress !in t.peer.tracks
            && Coherent(t)
            && Step(t, StopUnit(u)) == Some(t)
  {
    var s1 := StopStep(s, u);
    StopKeeps(s, u);
    RunStaysSilent(s1, events, u, s1.units[u]);
    RunKeeps(s1, events);
    var t := Run(s1, events).value;
    StopAgain(t, u, s1.units[u]);
  }

  // ---------------------------------------------------------------- closing commutes with everything else

  lemma RemoveInsert(s: set<Channel>, c: Channel, id: int)
    requires c.id != id
    ensures P.Remove(P.Insert(s, c), id) == P.Insert(P.Remove(s, id), c)
    ensures P.HasId(P.Remove(s, id), c.id) == P.HasId(s, c.id)
  {
    RemoveKeepsOthers(s, c.id, id);
  }

  lemma RemoveKeepsOthers(s: set<Channel>, other: int, id: int)
    requires other != id
    ensures P.HasId(P.Remove(s, id), other) == P.HasId(s, other)
  {
    if P.HasId(s, other) {
      var c :| c in s && c.id == other;
      assert c in P.Remove(s, id);
    }
  }

  lemma BuildCommutes(p: P.PeerState, closed: Channel, c: Channel)
    requires c.id != closed.id
    ensures P.BuildData(P.Close(p, closed), c) == P.Close(P.BuildData(p, c), closed)
    ensures P.BuildTrack(P.Close(p, closed), c) == P.Close(P.BuildTrack(p, c), closed)
  {
    hide P.Remove, P.Insert, P.HasId;
    RemoveInsert(p.channels, c, closed.id);
    RemoveInsert(p.dataChannels, c, closed.id);
    RemoveInsert(p.tracks, c, closed.id);
  }

  lemma SameHandles(p: P.PeerState, closed: Channel, id: int)
    requires id != closed.id
    ensures var q := P.Close(p, closed);
            && P.HasId(q.channels, id) == P.HasId(p.channels, id)
            && P.HasId(q.dataChannels, id) == P.HasId(p.dataChannels, id)
            && P.HasId(q.tracks, id) == P.HasId(p.tracks, id)
  {
    RemoveKeepsOthers(p.channels, id, closed.id);
    RemoveKeepsOthers(p.dataChannels, id, closed.id);
    RemoveKeepsOthers(p.tracks, id, closed.id);
  }

  lemma AnnounceTrackCommutes(p: P.PeerState, closed: Channel, description: string, c: Channel)
    requires c.id != closed.id && c.info.TrackInfo?
    ensures var q := P.Close(p, closed);
            match P.AnnounceTrack(p, description, c)
            case None => P.AnnounceTrack(q, description, c) == None
            case Some(r) => P.AnnounceTrack(q, description, c) == Some(P.Close(r, closed))
  {
    SameHandles(p, closed, c.id);
    BuildCommutes(p, closed, c);
  }

  lemma FinishCommutes(p: P.PeerState, closed: Channel, c: Channel)
    requires P.Consistent(p) && P.Wrapped(p, closed) && c.id != closed.id
    ensures P.FinishTrack(P.Close(p, closed), c) == (P.Close(P.FinishTrack(p, c).0, closed), P.FinishTrack(p, c).1)
  {
    var q := P.Close(p, closed);
    SameHandles(p, closed, c.id);
    BuildCommutes(p, closed, c);
    if P.HasId(p.tracks, c.id) {
      var a, b := P.WithId(p.tracks, c.id), P.WithId(q.tracks, c.id);
      assert a in p.channels && b in p.channels;
      P.RegistryPartition(p);
    }
  }

  lemma BeginCommutes(p: P.PeerState, closed: Channel, request: P.TrackRequest, drawn: Ssrcs.Draw)
    ensures var q := P.Close(p, closed);
            match P.BeginTrack(p, request, drawn)
            case None => P.BeginTrack(q, request, drawn) == None
            case Some(b) => P.BeginTrack(q, request, drawn) == Some(b.(after := P.Close(b.after, closed)))
  {
  }

  lemma CreateTrackCommutes(p: P.PeerState, closed: Channel, request: P.TrackRequest, drawn: Ssrcs.Draw,
                            reply: P.AddReply, c: Channel)
    requires P.Consistent(p) && P.Wrapped(p, closed) && P.FitsRequest(p, request, drawn, reply, c)
    requires reply.Added? ==> c.id != closed.id
    ensures var q := P.Close(p, closed);
            match P.CreateTrack(p, request, drawn, reply, c)
            case Trapped => P.CreateTrack(q, request, drawn, reply, c) == P.Trapped
            case Failed(after, error) =>
              P.CreateTrack(q, request, drawn, reply, c) == P.Failed(P.Close(after, closed), error)
            case Made(after, chan) =>
              P.CreateTrack(q, request, drawn, reply, c) == P.Made(P.Close(after, closed), chan)
  {
    BeginCommutes(p, closed, request, drawn);
    var begun := P.BeginTrack(p, request, drawn);
    if begun.Some? && reply.Added? {
      var b := begun.value.after;
      P.BeginKeeps(p, request, drawn);
      if reply.announced.Some? {
        AnnounceTrackCommutes(b, closed, reply.announced.value, c);
      }
      var r := P.AnnouncedMeanwhile(b, reply.announced, c);
      if r.Some? {
        if reply.announced.Some? {
          P.AnnounceTrackKeeps(b, reply.announced.value, c);
        }
        FinishCommutes(r.value, closed, c);
      }
    }
  }

  lemma CloseCommutes(p: P.PeerState, closed: Channel, c: Channel)
    ensures P.Close(P.Close(p, closed), c) == P.Close(P.Close(p, c), closed)
  {
    assert P.Close(P.Close(p, closed), c).channels == P.Close(P.Close(p, c), closed).channels;
    assert P.Close(P.Close(p, closed), c).dataChannels == P.Close(P.Close(p, c), closed).dataChannels;
    assert P.Close(P.Close(p, closed), c).tracks == P.Close(P.Close(p, c), closed).tracks;
    assert P.Close(P.Close(p, closed), c).retired == P.Close(P.Close(p, c), closed).retired;
  }

  /** A wrapper may be closed before or after any step of the registry that the environment allows in both orders. */
  lemma PeerStepCommutes(p: P.PeerState, closed: Channel, e: P.Event)
    requires P.Consistent(p) && P.Wrapped(p, closed) && P.Fits(p, e) && P.Fits(P.Close(p, closed), e)
    ensures var q := P.Close(p, closed);
            match P.Step(p, e)
            case None => P.Step(q, e) == None
            case Some(r) => P.Step(q, e) == Some(P.Close(r, closed))
  {
    match e
    case CreatedData(code, c) =>
      if code >= 0 {
        SameHandles(p, closed, c.id);
        BuildCommutes(p, closed, c);
      }
    case CreatedTrack(request, drawn, reply, c) => CreateTrackCommutes(p, closed, request, drawn, reply, c);
    case AnnouncedData(c) =>
      SameHandles(p, closed, c.id);
      BuildCommutes(p, closed, c);
    case AnnouncedTrack(description, c) => AnnounceTrackCommutes(p, closed, description, c);
    case Closed(c) => CloseCommutes(p, closed, c);
  }

  // ---------------------------------------------------------------- a stop leaves the other units alone

  /** A unit on this track traps on what it would forward. */
  predicate NoSsrc(c: Channel) {
    !c.info.TrackInfo? || c.info.ssrcs == []
  }

  /**
   * `b` is `a` as it would be had unit u been stopped: its egress wrapper is closed and reports to no one. Every unit
   * with a different egress track is the same. If moreover the native library said the `same` in both, the closing of
   * the track included, every other unit has sent and recorded the same.
   */
  ghost predicate Twin(a: System, b: System, u: nat, same: bool) {
    && u < |a.units| && |b.units| == |a.units|
    && (var closed := a.units[u].egress;
        && b.peer == P.Close(a.peer, closed)
        && b.open - {closed} == a.open - {closed} && (same ==> b.open == a.open)
        && b.handlers == a.handlers - {closed}
        && b.units[u].egress == closed && !b.units[u].forwarder.subscribed
        && forall v | 0 <= v < |a.units| && v != u :: SameUnit(a.units[v], b.units[v], closed, same))
  }

  ghost predicate SameUnit(x: Unit, y: Unit, closed: Channel, same: bool) {
    && (y.egress, y.own, y.payloadType) == (x.egress, x.own, x.payloadType)
    && (x.egress != closed ==> y == x)
    && y.forwarder.subscribed == x.forwarder.subscribed
    && (same || NoSsrc(closed) ==> y.forwarder == x.forwarder)
  }

  lemma StopMakesTwin(s: System, u: nat, same: bool)
    requires u < |s.units|
    ensures Twin(s, StopStep(s, u), u, same)
  {
  }

  lemma AppendKeepsTwin(a: System, b: System, u: nat, same: bool, after: P.PeerState, unit: Unit)
    requires Twin(a, b, u, same) && unit.egress != a.units[u].egress
    ensures Twin(System(after, a.open, a.handlers[unit.egress := |a.units|], a.units + [unit]),
                 System(P.Close(after, a.units[u].egress), b.open, b.handlers[unit.egress := |b.units|],
                        b.units + [unit]), u, same)
  {
    hide P.Close;
    var x := System(after, a.open, a.handlers[unit.egress := |a.units|], a.units + [unit]);
    var y := System(P.Close(after, a.units[u].egress), b.open, b.handlers[unit.egress := |b.units|], b.units + [unit]);
    assert y.handlers == x.handlers - {a.units[u].egress};
    forall v | 0 <= v < |x.units| && v != u ensures SameUnit(x.units[v], y.units[v], a.units[u].egress, same) {
      assert v < |a.units| ==> SameUnit(a.units[v], b.units[v], a.units[u].egress, same);
    }
  }

  lemma PeerKeepsTwin(a: System, b: System, u: nat, same: bool, after: P.PeerState)
    requires Twin(a, b, u, same)
    ensures Twin(a.(peer := after), b.(peer := P.Close(after, a.units[u].egress)), u, same)
  {
    hide P.Close;
  }

  lemma StartKeepsTwin(a: System, b: System, u: nat, same: bool, request: P.TrackRequest, drawn: Ssrcs.Draw,
                       reply: P.AddReply, session: Option<int>, c: Channel)
    requires P.Consistent(a.peer) && u < |a.units| && Twin(a, b, u, same) && P.Wrapped(a.peer, a.units[u].egress)
    requires c.info.TrackInfo?
    requires P.FitsRequest(a.peer, request, drawn, reply, c) && P.FitsRequest(b.peer, request, drawn, reply, c)
    requires StartStep(a, request, drawn, reply, session, c).Some?
    ensures StartStep(b, request, drawn, reply, session, c).Some?
    ensures Twin(StartStep(a, request, drawn, reply, session, c).value,
                 StartStep(b, request, drawn, reply, session, c).value, u, same)
  {
    hide Twin, P.Consistent, P.Wrapped, P.FitsRequest, P.CreateTrack, P.Close;
    var closed := a.units[u].egress;
    var o := P.CreateTrack(a.peer, request, drawn, reply, c);
    assert b.peer == P.Close(a.peer, closed) by {
      TwinPeers(a, b, u, same);
    }
    ClosedHandleIsGone(a.peer, closed, request, drawn, reply, c);
    CreateTrackCommutes(a.peer, closed, request, drawn, reply, c);
    PeerKeepsTwin(a, b, u, same, o.after);
    if o.Made? && session.None? {
      BeginCommutes(a.peer, closed, request, drawn);
      CreatedIsNotClosed(a.peer, closed, request, drawn, reply, c);
      var pt := P.BeginTrack(a.peer, request, drawn).value.payloadType;
      AppendKeepsTwin(a, b, u, same, o.after, Unit(o.chan, o.chan !in a.peer.tracks, pt, F.FRESH, 0));
    }
  }

  lemma TwinPeers(a: System, b: System, u: nat, same: bool)
    requires Twin(a, b, u, same)
    ensures u < |a.units| && b.peer == P.Close(a.peer, a.units[u].egress)
  {
  }

  lemma ClosedHandleIsGone(p: P.PeerState, closed: Channel, request: P.TrackRequest, drawn: Ssrcs.Draw,
                           reply: P.AddReply, c: Channel)
    requires P.FitsRequest(P.Close(p, closed), request, drawn, reply, c)
    ensures reply.Added? ==> c.id != closed.id
  {
  }

  lemma CreatedIsNotClosed(p: P.PeerState, closed: Channel, request: P.TrackRequest, drawn: Ssrcs.Draw,
                           reply: P.AddReply, c: Channel)
    requires c.info.TrackInfo? && P.CreateTrack(p, request, drawn, reply, c).Made?
    requires reply.Added? ==> c.id != closed.id
    ensures P.BeginTrack(p, request, drawn).Some?
    ensures var chan := P.CreateTrack(p, request, drawn, reply, c).chan;
            chan != closed && (chan in P.Close(p, closed).tracks <==> chan in p.tracks)
  {
  }

  /** What the native library answers to the same packet may differ, for a unit on the closed track. */
  lemma DeliverKeepsTwin(a: System, b: System, u: nat, same: bool, v: nat, message: Option<Bytes>, x: Answers,
                         y: Answers)
    requires Twin(a, b, u, same) && v < |a.units| && (same || a.units[v].egress != a.units[u].egress ==> x == y)
    requires DeliverStep(a, v, message, x.lookup, x.sendError).Some?
    requires same || !NoSsrc(a.units[u].egress) || DeliverStep(b, v, message, y.lookup, y.sendError).Some?
    ensures DeliverStep(b, v, message, y.lookup, y.sendError).Some?
    ensures Twin(DeliverStep(a, v, message, x.lookup, x.sendError).value,
                 DeliverStep(b, v, message, y.lookup, y.sendError).value, u, same)
  {
    hide P.Close, F.Resolve, F.Transmit;
    var closed, c := a.units[u].egress, a.units[v].egress;
    assert c != closed ==> (c in a.open - {closed} <==> c in b.open - {closed});
    assert v != u ==> SameUnit(a.units[v], b.units[v], closed, same);
    if !NoSsrc(c) {
      F.MessageKeepsSubscription(a.units[v].forwarder, c.info.ssrcs,
                                 F.Message(message, c in a.open, x.lookup, x.sendError));
      F.MessageKeepsSubscription(b.units[v].forwarder, c.info.ssrcs,
                                 F.Message(message, c in b.open, y.lookup, y.sendError));
      hide F.Step;
    }
  }

  datatype Answers = Answers(lookup: Result<seq<byte>, int>, sendError: Option<int>)

  lemma KeyFrameKeepsTwin(a: System, b: System, u: nat, same: bool, c: Channel)
    requires HandlersOk(a) && Twin(a, b, u, same)
    ensures var x := if c in a.handlers then a.(units := Asked(a.units, a.handlers[c])) else a;
            var y := if c in b.handlers then b.(units := Asked(b.units, b.handlers[c])) else b;
            Twin(x, y, u, same)
  {
    hide P.Close;
  }

  lemma StopKeepsTwin(a: System, b: System, u: nat, same: bool, v: nat)
    requires Twin(a, b, u, same) && v < |a.units|
    ensures Twin(StopStep(a, v), StopStep(b, v), u, same)
  {
    CloseCommutes(a.peer, a.units[u].egress, a.units[v].egress);
    hide P.Close;
    assert v != u ==> SameUnit(a.units[v], b.units[v], a.units[u].egress, same);
    assert b.units[v].egress == a.units[v].egress;
    assert a.handlers - {a.units[u].egress} - {a.units[v].egress}
        == a.handlers - {a.units[v].egress} - {a.units[u].egress};
  }

  lemma OpenKeepsTwin(a: System, b: System, u: nat, same: bool, c: Channel, open: bool)
    requires Twin(a, b, u, same)
    ensures Twin(a.(open := if open then a.open + {c} else a.open - {c}),
                 b.(open := if open then b.open + {c} else b.open - {c}), u, same)
  {
    hide P.Close, SameUnit;
    var closed := a.units[u].egress;
    forall d | d != closed ensures d in a.open <==> d in b.open {
      assert d in a.open - {closed} <==> d in b.open - {closed};
    }
  }

  lemma StepKeepsTwin(a: System, b: System, u: nat, same: bool, e: Event)
    requires Coherent(a) && Twin(a, b, u, same) && Fits(a, e) && Fits(b, e) && Step(a, e).Some?
    requires same || !NoSsrc(a.units[u].egress) || Step(b, e).Some?
    ensures Step(b, e).Some? && Twin(Step(a, e).value, Step(b, e).value, u, same)
  {
    hide P.Consistent, DeliverStep, StopStep, StartStep, HandlersOk;
    assert UnitOk(a.peer, a.units[u]);
    match e
    case Local(event) => PeerStepCommutes(a.peer, a.units[u].egress, event);
    case Opened(id, open) => OpenKeepsTwin(a, b, u, same, a.peer.pointers[id], open);
    case Start(fromClientId, ingress, drawn, reply, session, c) =>
      StartKeepsTwin(a, b, u, same, ForwardingObjects.EgressRequest(fromClientId, ingress), drawn, reply, session, c);
    case Deliver(v, message, lookup, sendError) =>
      DeliverKeepsTwin(a, b, u, same, v, message, Answers(lookup, sendError), Answers(lookup, sendError));
    case KeyFrame(id, _) => KeyFrameKeepsTwin(a, b, u, same, a.peer.pointers[id]);
    case StopUnit(v) => StopKeepsTwin(a, b, u, same, v);
  }

  lemma {:induction false} RunKeepsTwin(a: System, b: System, u: nat, events: seq<Event>)
    requires Coherent(a) && Twin(a, b, u, true)
    requires Admissible(a, events) && Admissible(b, events) && Run(a, events).Some?
    ensures Run(b, events).Some? && Twin(Run(a, events).value, Run(b, events).value, u, true)
    decreases |events|
  {
    hide Coherent, Step, Fits, Twin;
    if events != [] {
      StepKeeps(a, events[0]);
      StepKeepsTwin(a, b, u, true, events[0]);
      RunKeepsTwin(Step(a, events[0]).value, Step(b, events[0]).value, u, events[1..]);
    }
  }

  // ---------------------------------------------------------------- what the native library makes of the stop

  /** The units on one track. */
  function On(s: System, c: Channel): set<nat> {
    set v: nat | v < |s.units| && s.units[v].egress == c
  }

  function StripOne(e: Event, id: int, about: set<nat>): seq<Event> {
    match e
    case Opened(i, _) => if i == id then [] else [e]
    case Deliver(v, message, _, _) => if v in about then [Deliver(v, message, Err(0), None)] else [e]
    case _ => [e]
  }

  /**
   * A stop closes the native track, which the library reports back and which makes calls on the track fail. This is
   * what is left of the events without that: without the callbacks that say whether the handle `id` is open, and
   * without the answers to the units on that track.
   */
  function Stripped(events: seq<Event>, id: int, about: set<nat>): seq<Event> {
    if events == [] then [] else StripOne(events[0], id, about) + Stripped(events[1..], id, about)
  }

  lemma CallbackKeepsTwin(a: System, b: System, u: nat, e: Event)
    requires Coherent(a) && Twin(a, b, u, false) && e.Opened? && e.id == a.units[u].egress.id
    ensures Fits(a, e) ==> Step(a, e).Some? && Twin(Step(a, e).value, b, u, false)
    ensures Fits(b, e) ==> Step(b, e).Some? && Twin(a, Step(b, e).value, u, false)
  {
    hide P.Consistent, HandlersOk, Separate, SameUnit;
    assert UnitOk(a.peer, a.units[u]);
  }

  lemma AlikeKeepsTwin(a: System, b: System, u: nat, e: Event, f: Event, about: set<nat>)
    requires Coherent(a) && Twin(a, b, u, false) && Fits(a, e) && Fits(b, f) && Step(a, e).Some?
    requires forall v | v in about :: v < |a.units| && a.units[v].egress == a.units[u].egress
    requires var id := a.units[u].egress.id; StripOne(e, id, about) == StripOne(f, id, about) != []
    requires !NoSsrc(a.units[u].egress) || Step(b, f).Some?
    ensures Step(b, f).Some? && Twin(Step(a, e).value, Step(b, f).value, u, false)
  {
    if e == f {
      StepKeepsTwin(a, b, u, false, e);
    } else {
      hide Coherent, NoSsrc, Twin, DeliverStep;
      DeliverKeepsTwin(a, b, u, false, e.u, e.message, Answers(e.lookup, e.sendError), Answers(f.lookup, f.sendError));
    }
  }

  lemma {:induction false} RunKeepsLooseTwin(a: System, b: System, u: nat, going: seq<Event>, stopped: seq<Event>,
                                             about: set<nat>)
    requires Coherent(a) && Twin(a, b, u, false)
    requires forall v | v in about :: v < |a.units| && a.units[v].egress == a.units[u].egress
    requires Admissible(a, going) && Admissible(b, stopped) && Run(a, going).Some?
    requires var id := a.units[u].egress.id; Stripped(going, id, about) == Stripped(stopped, id, about)
    requires !NoSsrc(a.units[u].egress) || Run(b, stopped).Some?
    ensures Run(b, stopped).Some? && Twin(Run(a, going).value, Run(b, stopped).value, u, false)
    decreases |going| + |stopped|
  {
    hide Coherent, Step, Fits, Twin, NoSsrc;
    TwinPeers(a, b, u, false);
    var id := a.units[u].egress.id;
    if going != [] && StripOne(going[0], id, about) == [] {
      var e := going[0];
      CallbackKeepsTwin(a, b, u, e);
      StepKeeps(a, e);
      KeepsEgresses(a, e, u, about);
      RunKeepsLooseTwin(Step(a, e).value, b, u, going[1..], stopped, about);
    } else if stopped != [] && StripOne(stopped[0], id, about) == [] {
      var f := stopped[0];
      CallbackKeepsTwin(a, b, u, f);
      RunKeepsLooseTwin(a, Step(b, f).value, u, going, stopped[1..], about);
    } else if going != [] && stopped != [] {
      var e, f := going[0], stopped[0];
      assert Stripped(going, id, about)[0] == Stripped(stopped, id, about)[0];
      assert Stripped(going, id, about)[1..] == Stripped(going[1..], id, about);
      assert Stripped(stopped, id, about)[1..] == Stripped(stopped[1..], id, about);
      AlikeKeepsTwin(a, b, u, e, f, about);
      StepKeeps(a, e);
      KeepsEgresses(a, e, u, about);
      RunKeepsLooseTwin(Step(a, e).value, Step(b, f).value, u, going[1..], stopped[1..], about);
    }
  }

  lemma KeepsEgresses(s: System, e: Event, u: nat, about: set<nat>)
    requires Fits(s, e) && Step(s, e).Some? && u < |s.units|
    requires forall v | v in about :: v < |s.units| && s.units[v].egress == s.units[u].egress
    ensures var t := Step(s, e).value;
            && u < |t.units| && t.units[u].egress == s.units[u].egress
            && forall v | v in about :: v < |t.units| && t.units[v].egress == t.units[u].egress
  {
    hide Step, Fits;
    StepKeepsEgress(s, e, u);
    forall v | v in about
      ensures v < |Step(s, e).value.units| && Step(s, e).value.units[v].egress == s.units[v].egress
    {
      StepKeepsEgress(s, e, v);
    }
  }

  /** The same calls and packets, with whatever the native library says and answers about the track of unit u. */
  ghost predicate Comparable(s: System, u: nat, going: seq<Event>, stopped: seq<Event>)
    requires u < |s.units|
  {
    var c := s.units[u].egress;
    && Admissible(s, going) && Run(s, going).Some? && Admissible(StopStep(s, u), stopped)
    && Stripped(going, c.id, On(s, c)) == Stripped(stopped, c.id, On(s, c))
    && (going == stopped || !NoSsrc(c) || Run(StopStep(s, u), stopped).Some?)
  }

  /**
   * With the same calls and packets, stopped or not, every unit on another egress track ends the same, down to its
   * log and its key-frame requests, whatever the native library makes of the closed track. Should it say and answer
   * the same even about that track, a unit on it also ends with the same log, count and numbers.
   */
  lemma StopLeavesOthersAlone(s: System, u: nat, going: seq<Event>, stopped: seq<Event>, v: nat)
    requires Coherent(s) && u < |s.units| && v != u && Comparable(s, u, going, stopped)
    ensures Run(StopStep(s, u), stopped).Some?
    ensures var x, y := Run(s, going).value, Run(StopStep(s, u), stopped).value;
            && u < |x.units| == |y.units|
            && (v < |x.units| ==>
                  && y.units[v].egress == x.units[v].egress
                  && (x.units[v].egress != x.units[u].egress ==> y.units[v] == x.units[v])
                  && (going == stopped || NoSsrc(x.units[u].egress) ==> y.units[v].forwarder == x.units[v].forwarder))
  {
    var b := StopStep(s, u);
    if going == stopped {
      StopMakesTwin(s, u, true);
      RunKeepsTwin(s, b, u, going);
    } else {
      hide Coherent, Step, Fits, NoSsrc;
      StopMakesTwin(s, u, false);
      RunKeepsLooseTwin(s, b, u, going, stopped, On(s, s.units[u].egress));
    }
  }

  /**
   * Sharing is what makes the difference: a request that would have reached another unit over the same egress track
   * reaches no one after the stop.
   */
  lemma SharedHandlerIsLost(s: System, u: nat, v: nat, id: int)
    requires Coherent(s) && u < |s.units| && v < |s.units| && v != u
    requires id in s.peer.pointers && s.peer.pointers[id] in s.handlers && s.handlers[s.peer.pointers[id]] == v
    ensures Fits(s, KeyFrame(id, true)) && Fits(StopStep(s, u), KeyFrame(id, true))
    ensures Step(s, KeyFrame(id, true)).value.units[v].requests == s.units[v].requests + 1
    ensures Step(StopStep(s, u), KeyFrame(id, true)).value.units[v].requests
            == s.units[v].requests + (if s.units[u].egress == s.units[v].egress then 0 else 1)
  {
  }
}
