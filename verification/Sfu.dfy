/**
 * A whole egress peer with everything that happens on it: application calls, native callbacks, and any number of
 * forwarding units started, fed and stopped in any order.
 */
module Sfu {
  import opened Common
  import F = Forwarding
  import ForwardingObjects
  import P = Peers
  import Rtp
  import Ssrcs

  type Channel = P.Channel

  /**
   * A unit on this peer. `own` records that its egress track was built by the unit's own track creation and not
   * found already registered; `payloadType` is the number that creation was made with.
   */
  datatype Unit = Unit(egress: Channel, own: bool, payloadType: int, forwarder: F.Forwarder, requests: nat)

  /** `open` are the wrappers whose channel is open; `handlers` maps an egress wrapper to the unit it reports to. */
  datatype System = System(peer: P.PeerState, open: set<Channel>, handlers: map<Channel, nat>, units: seq<Unit>)

  const INITIAL := System(P.INITIAL, {}, map[], [])

  datatype Event =
    | Local(event: P.Event)
    | Opened(id: int, open: bool)
    | Start(fromClientId: string, ingress: P.Info, drawn: Ssrcs.Draw, reply: P.AddReply, session: Option<int>,
            c: Channel)
    | Deliver(u: nat, message: Option<Bytes>, lookup: Result<seq<byte>, int>, sendError: Option<int>)
    | KeyFrame(id: int, ingressOpen: bool)
    | StopUnit(u: nat)

  ghost predicate Fits(s: System, e: Event) {
    match e
    case Local(event) => P.Fits(s.peer, event)
    case Opened(id, _) => id in s.peer.pointers
    case Start(fromClientId, ingress, drawn, reply, _, c) =>
      && ingress.TrackInfo?
      && P.FitsRequest(s.peer, ForwardingObjects.EgressRequest(fromClientId, ingress), drawn, reply, c)
    case Deliver(u, _, _, _) => u < |s.units|
    case KeyFrame(id, _) => id in s.peer.pointers
    case StopUnit(u) => u < |s.units|
  }

  function Asked(units: seq<Unit>, u: nat): seq<Unit> {
    if u < |units| then units[u := units[u].(requests := units[u].requests + 1)] else units
  }

  ghost function StartStep(s: System, request: P.TrackRequest, drawn: Ssrcs.Draw, reply: P.AddReply,
                           session: Option<int>, c: Channel): Option<System>
    requires c.info.TrackInfo?
  {
    match P.CreateTrack(s.peer, request, drawn, reply, c)
    case Trapped => None
    case Failed(after, _) => Some(s.(peer := after))
    case Made(after, chan) =>
      if session.Some? then Some(s.(peer := after))
      else
        var pt := P.BeginTrack(s.peer, request, drawn).value.payloadType;
        Some(System(after, s.open, s.handlers[chan := |s.units|],
                    s.units + [Unit(chan, chan !in s.peer.tracks, pt, F.FRESH, 0)]))
  }

  /** A unit whose egress track has no SSRC traps on the first packet it would forward. */
  ghost function DeliverStep(s: System, u: nat, message: Option<Bytes>, lookup: Result<seq<byte>, int>,
                             sendError: Option<int>): Option<System>
    requires u < |s.units|
  {
    var unit := s.units[u];
    var ssrcs := if unit.egress.info.TrackInfo? then unit.egress.info.ssrcs else [];
    var event := F.Message(message, unit.egress in s.open, lookup, sendError);
    if ssrcs == [] then
      if unit.forwarder.subscribed && F.Deliverable(event) then None else Some(s)
    else
      Some(s.(units := s.units[u := unit.(forwarder := F.Step(unit.forwarder, ssrcs, event))]))
  }

  /** The native library reports the closing of the track, if it does, by a callback of its own. */
  ghost function StopStep(s: System, u: nat): System
    requires u < |s.units|
  {
    var unit := s.units[u];
    System(P.Close(s.peer, unit.egress), s.open, s.handlers - {unit.egress},
           s.units[u := unit.(forwarder := unit.forwarder.(subscribed := false))])
  }

  /** `None`: the process trapped. */
  ghost function Step(s: System, e: Event): Option<System>
    requires Fits(s, e)
  {
    match e
    case Local(event) =>
      (match P.Step(s.peer, event)
       case None => None
       case Some(q) => Some(s.(peer := q)))
    case Opened(id, open) =>
      var c := s.peer.pointers[id];
      Some(s.(open := if open then s.open + {c} else s.open - {c}))
    case Start(fromClientId, ingress, drawn, reply, session, c) =>
      StartStep(s, ForwardingObjects.EgressRequest(fromClientId, ingress), drawn, reply, session, c)
    case Deliver(u, message, lookup, sendError) => DeliverStep(s, u, message, lookup, sendError)
    case KeyFrame(id, ingressOpen) =>
      var c := s.peer.pointers[id];
      Some(if c in s.handlers && ingressOpen then s.(units := Asked(s.units, s.handlers[c])) else s)
    case StopUnit(u) => Some(StopStep(s, u))
  }

  ghost predicate Admissible(s: System, events: seq<Event>)
    decreases |events|
  {
    events != [] ==>
      && Fits(s, events[0])
      && (Step(s, events[0]).Some? ==> Admissible(Step(s, events[0]).value, events[1..]))
  }

  ghost function Run(s: System, events: seq<Event>): Option<System>
    requires Admissible(s, events)
    decreases |events|
  {
    if events == [] then Some(s)
    else match Step(s, events[0])
      case None => None
      case Some(t) => Run(t, events[1..])
  }

  // ---------------------------------------------------------------- the invariant

  ghost predicate UnitOk(peer: P.PeerState, unit: Unit) {
    && unit.egress.info.TrackInfo? && P.Wrapped(peer, unit.egress)
    && (unit.egress.info.ssrcs == [] ==> unit.forwarder.sent == [] && unit.forwarder.count == 0)
    && (unit.egress.info.ssrcs != [] ==> F.Steady(unit.forwarder, unit.egress.info.ssrcs))
    && (unit.own ==> |unit.egress.info.ssrcs| == 1 && unit.egress.info.ssrcs[0] in peer.ssrcs)
    && ForwardingObjects.OPUS in peer.payloadTypes.table
    && peer.payloadTypes.table[ForwardingObjects.OPUS] == unit.payloadType
    && (!unit.forwarder.subscribed ==> unit.egress.id in peer.retired)
  }

  ghost predicate HandlersOk(s: System) {
    && (forall c | c in s.handlers :: s.handlers[c] < |s.units| && s.units[s.handlers[c]].egress == c)
    && (forall u | 0 <= u < |s.units| && !s.units[u].forwarder.subscribed :: s.units[u].egress !in s.handlers)
  }

  /** Units that made their own egress tracks have different SSRCs. */
  ghost predicate Separate(units: seq<Unit>) {
    forall u, v | 0 <= u < v < |units| && units[u].own && units[v].own ::
      units[u].egress.info.TrackInfo? && units[v].egress.info.TrackInfo?
      && units[u].egress.info.ssrcs != units[v].egress.info.ssrcs
  }

  ghost predicate Coherent(s: System) {
    && P.Consistent(s.peer)
    && (forall u | 0 <= u < |s.units| :: UnitOk(s.peer, s.units[u]))
    && HandlersOk(s)
    && Separate(s.units)
  }

  lemma UnitOkGrows(p: P.PeerState, q: P.PeerState, unit: Unit)
    requires UnitOk(p, unit) && P.Grows(p, q)
    ensures UnitOk(q, unit)
  {
  }

  lemma UnitsOkGrow(s: System, q: P.PeerState)
    requires Coherent(s) && P.Grows(s.peer, q) && P.Consistent(q)
    ensures Coherent(s.(peer := q))
  {
    hide P.Consistent, P.Grows, UnitOk;
    forall u | 0 <= u < |s.units| ensures UnitOk(q, s.units[u]) {
      UnitOkGrows(s.peer, q, s.units[u]);
    }
  }

  /** What a unit's track creation establishes for it. */
  lemma CreationFits(p: P.PeerState, request: P.TrackRequest, drawn: Ssrcs.Draw, reply: P.AddReply, c: Channel)
    requires P.Consistent(p) && request.ssrc == None && P.FitsRequest(p, request, drawn, reply, c)
    requires P.CreateTrack(p, request, drawn, reply, c).Made?
    ensures var Made(q, chan) := P.CreateTrack(p, request, drawn, reply, c);
            && P.Consistent(q) && P.Grows(p, q)
            && chan in q.tracks && P.Wrapped(q, chan) && chan.id !in q.retired
            && request.key in q.payloadTypes.table
            && q.payloadTypes.table[request.key] == P.BeginTrack(p, request, drawn).value.payloadType
            && (chan !in p.tracks ==> chan.info.TrackInfo? && chan.info.ssrcs == [drawn] && drawn in q.ssrcs)
            && drawn !in p.ssrcs
            && chan.id == c.id
  {
    var e := P.CreatedTrack(request, drawn, reply, c);
    P.StepKeeps(p, e);
    P.StepGrows(p, e);
    P.AllocationIsRecorded(p, e);
  }

  lemma StartKeeps(s: System, request: P.TrackRequest, drawn: Ssrcs.Draw, reply: P.AddReply, session: Option<int>,
                   c: Channel)
    requires Coherent(s) && request.ssrc == None && request.key == ForwardingObjects.OPUS
    requires P.FitsRequest(s.peer, request, drawn, reply, c)
    requires StartStep(s, request, drawn, reply, session, c).Some?
    ensures Coherent(StartStep(s, request, drawn, reply, session, c).value)
    ensures P.Grows(s.peer, StartStep(s, request, drawn, reply, session, c).value.peer)
  {
    var e := P.CreatedTrack(request, drawn, reply, c);
    var q := P.Step(s.peer, e).value;
    P.StepKeeps(s.peer, e);
    P.StepGrows(s.peer, e);
    UnitsOkGrow(s, q);
    var o := P.CreateTrack(s.peer, request, drawn, reply, c);
    if o.Made? && session.None? {
      CreationFits(s.peer, request, drawn, reply, c);
      NewUnitKeeps(s, o.after, o.chan, drawn, P.BeginTrack(s.peer, request, drawn).value.payloadType);
    }
  }

  lemma NewUnitKeeps(s: System, q: P.PeerState, chan: Channel, drawn: Ssrcs.Draw, pt: int)
    requires Coherent(s) && Coherent(s.(peer := q))
    requires chan in q.tracks && P.Wrapped(q, chan) && chan.id !in q.retired
    requires ForwardingObjects.OPUS in q.payloadTypes.table && q.payloadTypes.table[ForwardingObjects.OPUS] == pt
    requires chan !in s.peer.tracks ==> chan.info.TrackInfo? && chan.info.ssrcs == [drawn] && drawn in q.ssrcs
    requires drawn !in s.peer.ssrcs
    ensures Coherent(System(q, s.open, s.handlers[chan := |s.units|],
                            s.units + [Unit(chan, chan !in s.peer.tracks, pt, F.FRESH, 0)]))
  {
    var unit := Unit(chan, chan !in s.peer.tracks, pt, F.FRESH, 0);
    var t := System(q, s.open, s.handlers[chan := |s.units|], s.units + [unit]);
    assert UnitOk(q, unit);
    forall u | 0 <= u < |t.units| ensures UnitOk(q, t.units[u]) {
      assert u < |s.units| ==> t.units[u] == s.units[u];
    }
    forall u, v | 0 <= u < v < |t.units| && t.units[u].own && t.units[v].own
      ensures t.units[u].egress.info.TrackInfo? && t.units[v].egress.info.TrackInfo?
              && t.units[u].egress.info.ssrcs != t.units[v].egress.info.ssrcs
    {
      assert UnitOk(s.peer, s.units[u]);
    }
    forall u | 0 <= u < |t.units| && !t.units[u].forwarder.subscribed ensures t.units[u].egress !in t.handlers {
      assert UnitOk(q, s.units[u]);
    }
  }

  lemma DeliverKeeps(s: System, u: nat, message: Option<Bytes>, lookup: Result<seq<byte>, int>,
                     sendError: Option<int>)
    requires Coherent(s) && u < |s.units| && DeliverStep(s, u, message, lookup, sendError).Some?
    ensures Coherent(DeliverStep(s, u, message, lookup, sendError).value)
  {
    hide P.Consistent, F.Step, F.Steady;
    var unit := s.units[u];
    assert UnitOk(s.peer, unit);
    if unit.egress.info.ssrcs != [] {
      F.StepKeeps(unit.forwarder, unit.egress.info.ssrcs,
                  F.Message(message, unit.egress in s.open, lookup, sendError));
      F.MessageKeepsSubscription(unit.forwarder, unit.egress.info.ssrcs,
                                 F.Message(message, unit.egress in s.open, lookup, sendError));
    }
  }

  lemma StopKeeps(s: System, u: nat)
    requires Coherent(s) && u < |s.units|
    ensures Coherent(StopStep(s, u)) && P.Grows(s.peer, StopStep(s, u).peer)
  {
    var unit, q := s.units[u], P.Close(s.peer, s.units[u].egress);
    assert UnitOk(s.peer, unit);
    P.StepKeeps(s.peer, P.Closed(unit.egress));
    P.StepGrows(s.peer, P.Closed(unit.egress));
    UnitsOkGrow(s, q);
    SilenceKeeps(s.(peer := q), u);
  }

  lemma SilenceKeeps(s: System, u: nat)
    requires Coherent(s) && u < |s.units| && s.units[u].egress.id in s.peer.retired
    ensures var unit := s.units[u];
            Coherent(System(s.peer, s.open, s.handlers - {unit.egress},
                            s.units[u := unit.(forwarder := unit.forwarder.(subscribed := false))]))
  {
    hide P.Consistent;
    assert UnitOk(s.peer, s.units[u]);
  }

  lemma KeyFrameKeeps(s: System, u: nat)
    requires Coherent(s)
    ensures Coherent(s.(units := Asked(s.units, u)))
  {
    hide P.Consistent, F.Steady;
    assert u < |s.units| ==> UnitOk(s.peer, s.units[u]);
  }

  lemma OpenKeeps(s: System, open: set<Channel>)
    requires Coherent(s)
    ensures Coherent(s.(open := open))
  {
    hide P.Consistent, UnitOk, Separate;
  }

  lemma GrowsReflexive(p: P.PeerState)
    ensures P.Grows(p, p)
  {
  }

  /** Every event on the peer keeps the invariant, and takes back no number and no wrapper. */
  lemma StepKeeps(s: System, e: Event)
    requires Coherent(s) && Fits(s, e) && Step(s, e).Some?
    ensures Coherent(Step(s, e).value) && P.Grows(s.peer, Step(s, e).value.peer)
  {
    hide P.Fits, P.FitsRequest, P.Step, P.Consistent, P.Grows, UnitOk, HandlersOk, Separate, StartStep, StopStep;
    GrowsReflexive(s.peer);
    match e
    case Local(event) =>
      P.StepKeeps(s.peer, event);
      P.StepGrows(s.peer, event);
      UnitsOkGrow(s, P.Step(s.peer, event).value);
    case Opened(_, _) => OpenKeeps(s, Step(s, e).value.open);
    case Start(fromClientId, ingress, drawn, reply, session, c) =>
      StartKeeps(s, ForwardingObjects.EgressRequest(fromClientId, ingress), drawn, reply, session, c);
    case Deliver(u, message, lookup, sendError) => DeliverKeeps(s, u, message, lookup, sendError);
    case KeyFrame(id, _) =>
      var c := s.peer.pointers[id];
      if c in s.handlers {
        KeyFrameKeeps(s, s.handlers[c]);
      }
    case StopUnit(u) => StopKeeps(s, u);
  }

  lemma {:induction false} RunKeeps(s: System, events: seq<Event>)
    requires Coherent(s) && Admissible(s, events) && Run(s, events).Some?
    ensures Coherent(Run(s, events).value) && P.Grows(s.peer, Run(s, events).value.peer)
    decreases |events|
  {
    hide Coherent, Step, Fits;
    if events != [] {
      StepKeeps(s, events[0]);
      RunKeeps(Step(s, events[0]).value, events[1..]);
    }
  }

  // ---------------------------------------------------------------- open or not

  /** What the last open or closed callback of a handle said, if there was one. */
  function LastCallback(events: seq<Event>, id: int, before: bool): bool {
    if events == [] then before
    else
      var e := events[|events| - 1];
      if e.Opened? && e.id == id then e.open else LastCallback(events[..|events| - 1], id, before)
  }

  lemma {:induction false} LastCallbackPrepend(e: Event, events: seq<Event>, id: int, before: bool)
    ensures LastCallback([e] + events, id, before)
            == LastCallback(events, id, if e.Opened? && e.id == id then e.open else before)
  {
    if events == [] {
      assert [e] + events == [e] && [e][..0] == [];
    } else {
      var n := |events| - 1;
      assert ([e] + events)[..n + 1] == [e] + events[..n];
      LastCallbackPrepend(e, events[..n], id, before);
    }
  }

  /** Because a handle keeps its wrapper, a wrapper is open exactly as the last callback of its handle said. */
  lemma {:induction false} OpenIsLastCallback(s: System, events: seq<Event>, c: Channel)
    requires Coherent(s) && P.Wrapped(s.peer, c) && Admissible(s, events) && Run(s, events).Some?
    ensures P.Wrapped(Run(s, events).value.peer, c)
    ensures c in Run(s, events).value.open <==> LastCallback(events, c.id, c in s.open)
    decreases |events|
  {
    if events != [] {
      var t := Step(s, events[0]).value;
      StepKeeps(s, events[0]);
      StepOpens(s, events[0], c);
      hide Coherent, Step, Fits;
      OpenIsLastCallback(t, events[1..], c);
      LastCallbackPrepend(events[0], events[1..], c.id, c in s.open);
      assert events == [events[0]] + events[1..];
    }
  }

  lemma StepOpens(s: System, e: Event, c: Channel)
    requires P.Consistent(s.peer) && P.Wrapped(s.peer, c) && Fits(s, e) && Step(s, e).Some?
    ensures c in Step(s, e).value.open <==> if e.Opened? && e.id == c.id then e.open else c in s.open
  {
    hide P.Fits, P.FitsRequest, P.Step, P.CreateTrack, F.Step;
  }

  // ---------------------------------------------------------------- each unit refines its specification

  /** What the sink of unit u sees of one event. */
  ghost function ViewOf(s: System, e: Event, u: nat): seq<F.Event>
    requires u < |s.units|
  {
    match e
    case Deliver(v, message, lookup, sendError) =>
      if v == u then [F.Message(message, s.units[u].egress in s.open, lookup, sendError)] else []
    case StopUnit(v) => if v == u then [F.Stop] else []
    case _ => []
  }

  ghost function View(s: System, events: seq<Event>, u: nat): seq<F.Event>
    requires Admissible(s, events) && Run(s, events).Some? && u < |s.units|
    decreases |events|
  {
    if events == [] then []
    else
      var t := Step(s, events[0]).value;
      ViewOf(s, events[0], u) + if u < |t.units| then View(t, events[1..], u) else []
  }

  lemma StepFollowsView(s: System, e: Event, u: nat)
    requires Coherent(s) && Fits(s, e) && Step(s, e).Some? && u < |s.units|
    requires s.units[u].egress.info.TrackInfo? && s.units[u].egress.info.ssrcs != []
    ensures var t, view := Step(s, e).value, ViewOf(s, e, u);
            && |s.units| <= |t.units|
            && t.units[u].egress == s.units[u].egress && t.units[u].own == s.units[u].own
            && |view| <= 1
            && t.units[u].forwarder
               == (if view == [] then s.units[u].forwarder
                   else F.Step(s.units[u].forwarder, s.units[u].egress.info.ssrcs, view[0]))
  {
    hide P.Consistent, F.Resolve, F.Transmit;
  }

  /** Whatever else happens on the peer, a unit's state is the run of its own view of the events. */
  lemma {:induction false} UnitFollowsItsView(s: System, events: seq<Event>, u: nat)
    requires Coherent(s) && Admissible(s, events) && Run(s, events).Some? && u < |s.units|
    requires s.units[u].egress.info.TrackInfo? && s.units[u].egress.info.ssrcs != []
    ensures var t := Run(s, events).value;
            && u < |t.units| && t.units[u].egress == s.units[u].egress && t.units[u].own == s.units[u].own
            && t.units[u].forwarder
               == F.Run(s.units[u].forwarder, s.units[u].egress.info.ssrcs, View(s, events, u))
    decreases |events|
  {
    hide Coherent, Step, Fits, ViewOf, F.Step;
    if events != [] {
      var t := Step(s, events[0]).value;
      var view := ViewOf(s, events[0], u);
      StepKeeps(s, events[0]);
      StepFollowsView(s, events[0], u);
      UnitFollowsItsView(t, events[1..], u);
      if view == [] {
        assert View(s, events, u) == View(t, events[1..], u);
      } else {
        assert view == [view[0]];
        F.RunPrepend(s.units[u].forwarder, s.units[u].egress.info.ssrcs, view[0], View(t, events[1..], u));
      }
    }
  }

  /** Hence, from its start on, the unit's log is the one its specification gives for what it saw. */
  lemma UnitRefines(s: System, events: seq<Event>, u: nat)
    requires Coherent(s) && Admissible(s, events) && Run(s, events).Some? && u < |s.units|
    requires s.units[u].egress.info.TrackInfo? && s.units[u].egress.info.ssrcs != [] && s.units[u].forwarder == F.FRESH
    ensures var t, view := Run(s, events).value, View(s, events, u);
            u < |t.units| && F.Refines(t.units[u].forwarder, view, s.units[u].egress.info.ssrcs[0], |view|)
  {
    UnitFollowsItsView(s, events, u);
    F.ForwardingRefines(View(s, events, u), s.units[u].egress.info.ssrcs);
  }

  /** And its packets parse as those that arrived on its ingress track, under the SSRC of its egress track. */
  lemma UnitConveys(s: System, events: seq<Event>, u: nat)
    requires Coherent(s) && Admissible(s, events) && Run(s, events).Some? && u < |s.units|
    requires s.units[u].egress.info.TrackInfo? && s.units[u].egress.info.ssrcs != [] && s.units[u].forwarder == F.FRESH
    ensures var t := Run(s, events).value;
            u < |t.units| && F.Conveys(t.units[u].forwarder.sent, View(s, events, u), s.units[u].egress.info.ssrcs[0])
  {
    UnitRefines(s, events, u);
    F.RefinementConveys(Run(s, events).value.units[u].forwarder, View(s, events, u), s.units[u].egress.info.ssrcs[0]);
  }

  // ---------------------------------------------------------------- the peer underneath

  /** What one event means for the peer alone. */
  ghost function PeerViewOf(s: System, e: Event): seq<P.Event>
    requires Fits(s, e)
  {
    match e
    case Local(event) => [event]
    case Start(fromClientId, ingress, drawn, reply, _, c) =>
      [P.CreatedTrack(ForwardingObjects.EgressRequest(fromClientId, ingress), drawn, reply, c)]
    case StopUnit(u) => [P.Closed(s.units[u].egress)]
    case _ => []
  }

  ghost function PeerView(s: System, events: seq<Event>): seq<P.Event>
    requires Admissible(s, events) && Run(s, events).Some?
    decreases |events|
  {
    if events == [] then [] else PeerViewOf(s, events[0]) + PeerView(Step(s, events[0]).value, events[1..])
  }

  lemma StepFollowsPeer(s: System, e: Event)
    requires Coherent(s) && Fits(s, e) && Step(s, e).Some?
    ensures var view, q := PeerViewOf(s, e), Step(s, e).value.peer;
            if view == [] then q == s.peer
            else |view| == 1 && P.Fits(s.peer, view[0]) && P.Step(s.peer, view[0]) == Some(q)
  {
    hide P.Consistent, P.FitsRequest, P.CreateTrack, F.Step;
    if e.StopUnit? {
      assert UnitOk(s.peer, s.units[e.u]);
    }
  }

  /** Units or not, the peer is what its own calls, callbacks and the units' starts and stops make of it. */
  lemma {:induction false} PeerFollowsItsView(s: System, events: seq<Event>)
    requires Coherent(s) && Admissible(s, events) && Run(s, events).Some?
    ensures P.Admissible(s.peer, PeerView(s, events))
    ensures P.Run(s.peer, PeerView(s, events)) == Some(Run(s, events).value.peer)
    decreases |events|
  {
    if events != [] {
      var t, view := Step(s, events[0]).value, PeerViewOf(s, events[0]);
      StepKeeps(s, events[0]);
      StepFollowsPeer(s, events[0]);
      hide Coherent, Step, Fits, PeerViewOf, P.Fits, P.Step;
      PeerFollowsItsView(t, events[1..]);
      var rest := PeerView(t, events[1..]);
      if view == [] {
        assert view + rest == rest;
      } else {
        assert (view + rest)[0] == view[0] && (view + rest)[1..] == rest;
      }
    }
  }

  // ---------------------------------------------------------------- streams stay separable

  /**
   * In every reachable state, two units that made their own egress tracks never send packets with the same SSRC, and
   * all units were set up with one and the same payload type.
   */
  lemma StreamsAreSeparable(events: seq<Event>, u: nat, v: nat, i: nat, j: nat)
    requires Admissible(INITIAL, events) && Run(INITIAL, events).Some?
    requires var units := Run(INITIAL, events).value.units;
             && u < |units| && v < |units| && u != v
             && i < |units[u].forwarder.sent| && |units[u].forwarder.sent[i]| >= Rtp.HEADER_SIZE
             && j < |units[v].forwarder.sent| && |units[v].forwarder.sent[j]| >= Rtp.HEADER_SIZE
    ensures var units := Run(INITIAL, events).value.units;
            && units[u].payloadType == units[v].payloadType
            && (units[u].own && units[v].own ==>
                  Rtp.SsrcField(units[u].forwarder.sent[i]) != Rtp.SsrcField(units[v].forwarder.sent[j]))
  {
    RunKeeps(INITIAL, events);
    var t := Run(INITIAL, events).value;
    hide Run, Admissible, P.Consistent, F.Steady;
    SentSsrcs(t, u, i);
    SentSsrcs(t, v, j);
    assert UnitOk(t.peer, t.units[u]) && UnitOk(t.peer, t.units[v]);
    if t.units[u].own && t.units[v].own {
      var a, b := if u < v then u else v, if u < v then v else u;
      assert t.units[a].egress.info.ssrcs != t.units[b].egress.info.ssrcs;
      assert t.units[u].egress.info.ssrcs == [t.units[u].egress.info.ssrcs[0]];
      assert t.units[v].egress.info.ssrcs == [t.units[v].egress.info.ssrcs[0]];
    }
  }

  /** The native library gives every track a unit adds a handle of its own. */
  ghost predicate FreshHandles(s: System, events: seq<Event>)
    requires Admissible(s, events)
    decreases |events|
  {
    events != [] ==>
      && (events[0].Start? && events[0].reply.Added? ==> !P.HasId(s.peer.tracks, events[0].reply.id))
      && (Step(s, events[0]).Some? ==> FreshHandles(Step(s, events[0]).value, events[1..]))
  }

  ghost predicate AllOwn(s: System) {
    forall u | 0 <= u < |s.units| :: s.units[u].own
  }

  /** Then every unit makes its own egress track, so that all their streams are separable. */
  lemma {:induction false} FreshHandlesMakeOwnTracks(s: System, events: seq<Event>)
    requires Coherent(s) && AllOwn(s) && Admissible(s, events) && FreshHandles(s, events) && Run(s, events).Some?
    ensures AllOwn(Run(s, events).value)
    decreases |events|
  {
    if events != [] {
      StepKeeps(s, events[0]);
      StepMakesOwnTracks(s, events[0]);
      hide Coherent, Step, Fits, AllOwn;
      FreshHandlesMakeOwnTracks(Step(s, events[0]).value, events[1..]);
    }
  }

  lemma StepMakesOwnTracks(s: System, e: Event)
    requires Coherent(s) && AllOwn(s) && Fits(s, e) && Step(s, e).Some?
    requires e.Start? && e.reply.Added? ==> !P.HasId(s.peer.tracks, e.reply.id)
    ensures AllOwn(Step(s, e).value)
  {
    var t := Step(s, e).value;
    hide P.Consistent, Step, Fits;
    forall u | 0 <= u < |t.units| ensures t.units[u].own {
      if u < |s.units| {
        StepKeepsEgress(s, e, u);
      } else {
        NewUnitIsOwn(s, e);
      }
    }
  }

  lemma NewUnitIsOwn(s: System, e: Event)
    requires P.Consistent(s.peer) && Fits(s, e) && Step(s, e).Some? && |Step(s, e).value.units| > |s.units|
    requires e.Start? && e.reply.Added? ==> !P.HasId(s.peer.tracks, e.reply.id)
    ensures var t := Step(s, e).value; |t.units| == |s.units| + 1 && t.units[|s.units|].own
  {
    hide P.Consistent, F.Step, P.Fits, P.FitsRequest, P.Step, P.CreateTrack;
    var request := ForwardingObjects.EgressRequest(e.fromClientId, e.ingress);
    CreationFits(s.peer, request, e.drawn, e.reply, e.c);
    MadeMeansAdded(s.peer, request, e.drawn, e.reply, e.c);
  }

  lemma MadeMeansAdded(p: P.PeerState, request: P.TrackRequest, drawn: Ssrcs.Draw, reply: P.AddReply, c: Channel)
    requires P.FitsRequest(p, request, drawn, reply, c) && P.CreateTrack(p, request, drawn, reply, c).Made?
    ensures reply.Added? && reply.id == c.id
  {
  }

  lemma SentSsrcs(s: System, u: nat, i: nat)
    requires Coherent(s) && u < |s.units| && i < |s.units[u].forwarder.sent|
    requires |s.units[u].forwarder.sent[i]| >= Rtp.HEADER_SIZE
    ensures s.units[u].egress.info.TrackInfo? && s.units[u].egress.info.ssrcs != []
    ensures Rtp.SsrcField(s.units[u].forwarder.sent[i]) == s.units[u].egress.info.ssrcs[0]
  {
    assert UnitOk(s.peer, s.units[u]);
  }

  /** So with fresh handles, the packets of different units never carry the same SSRC. */
  lemma FreshStreamsAreSeparable(events: seq<Event>, u: nat, v: nat, i: nat, j: nat)
    requires Admissible(INITIAL, events) && FreshHandles(INITIAL, events) && Run(INITIAL, events).Some?
    requires var units := Run(INITIAL, events).value.units;
             && u < |units| && v < |units| && u != v
             && i < |units[u].forwarder.sent| && |units[u].forwarder.sent[i]| >= Rtp.HEADER_SIZE
             && j < |units[v].forwarder.sent| && |units[v].forwarder.sent[j]| >= Rtp.HEADER_SIZE
    ensures var units := Run(INITIAL, events).value.units;
            Rtp.SsrcField(units[u].forwarder.sent[i]) != Rtp.SsrcField(units[v].forwarder.sent[j])
  {
    FreshHandlesMakeOwnTracks(INITIAL, events);
    StreamsAreSeparable(events, u, v, i, j);
  }

  /** Units from number n on that made their own egress tracks stay clear of these SSRCs. */
  ghost predicate Avoids(s: System, n: nat, taken: set<uint32>) {
    && (forall x | x in taken :: x in s.peer.ssrcs)
    && (forall u | n <= u < |s.units| && s.units[u].own ::
          s.units[u].egress.info.TrackInfo? && |s.units[u].egress.info.ssrcs| == 1
          && s.units[u].egress.info.ssrcs[0] !in taken)
  }

  lemma StepKeepsEgress(s: System, e: Event, u: nat)
    requires Fits(s, e) && Step(s, e).Some? && u < |s.units|
    ensures var t := Step(s, e).value;
            && u < |t.units| && t.units[u].egress == s.units[u].egress
            && (t.units[u].own, t.units[u].payloadType) == (s.units[u].own, s.units[u].payloadType)
  {
    hide P.Fits, P.FitsRequest, P.Step, P.CreateTrack, F.Step;
  }

  lemma NewUnitAvoids(s: System, e: Event, u: nat)
    requires P.Consistent(s.peer) && Fits(s, e) && Step(s, e).Some?
    requires |s.units| <= u < |Step(s, e).value.units| && Step(s, e).value.units[u].own
    ensures var unit := Step(s, e).value.units[u];
            unit.egress.info.TrackInfo? && |unit.egress.info.ssrcs| == 1 && unit.egress.info.ssrcs[0] !in s.peer.ssrcs
  {
    hide P.Consistent, P.Fits, P.FitsRequest, P.Step, P.CreateTrack, F.Step;
    var request := ForwardingObjects.EgressRequest(e.fromClientId, e.ingress);
    CreationFits(s.peer, request, e.drawn, e.reply, e.c);
  }

  lemma StepAvoids(s: System, e: Event, n: nat, taken: set<uint32>)
    requires Coherent(s) && Fits(s, e) && Step(s, e).Some? && Avoids(s, n, taken)
    ensures Avoids(Step(s, e).value, n, taken)
  {
    StepKeeps(s, e);
    var t := Step(s, e).value;
    hide P.Consistent, Step, Fits;
    forall u | n <= u < |t.units| && t.units[u].own
      ensures t.units[u].egress.info.TrackInfo? && |t.units[u].egress.info.ssrcs| == 1
              && t.units[u].egress.info.ssrcs[0] !in taken
    {
      if u < |s.units| {
        StepKeepsEgress(s, e, u);
      } else {
        NewUnitAvoids(s, e, u);
      }
    }
  }

  lemma {:induction false} RunAvoids(s: System, events: seq<Event>, n: nat, taken: set<uint32>)
    requires Coherent(s) && Admissible(s, events) && Run(s, events).Some? && Avoids(s, n, taken)
    ensures Avoids(Run(s, events).value, n, taken)
    decreases |events|
  {
    hide Coherent, Step, Fits, Avoids;
    if events != [] {
      StepKeeps(s, events[0]);
      StepAvoids(s, events[0], n, taken);
      RunAvoids(Step(s, events[0]).value, events[1..], n, taken);
    }
  }

  /** What a later unit sends differs from every SSRC reserved or announced on the peer before it. */
  lemma ForwardedAvoidsReserved(s: System, events: seq<Event>, taken: uint32, u: nat, i: nat)
    requires Coherent(s) && Admissible(s, events) && Run(s, events).Some? && taken in s.peer.ssrcs
    requires var units := Run(s, events).value.units;
             && |s.units| <= u < |units| && units[u].own
             && i < |units[u].forwarder.sent| && |units[u].forwarder.sent[i]| >= Rtp.HEADER_SIZE
    ensures Rtp.SsrcField(Run(s, events).value.units[u].forwarder.sent[i]) != taken
  {
    RunKeeps(s, events);
    RunAvoids(s, events, |s.units|, s.peer.ssrcs);
    SentSsrcs(Run(s, events).value, u, i);
  }

  ghost predicate OnlyUnits(events: seq<Event>) {
    forall e | e in events :: e.Local? ==> !e.event.CreatedTrack?
  }

  /** The payload-type table after a run in which only units create tracks. */
  ghost predicate AtMostOpusAdded(p: P.PeerState, q: P.PeerState) {
    || q.payloadTypes == p.payloadTypes
    || (ForwardingObjects.OPUS !in p.payloadTypes.table
        && q.payloadTypes.next == p.payloadTypes.next + 1
        && q.payloadTypes.table == p.payloadTypes.table[ForwardingObjects.OPUS := q.payloadTypes.next])
  }

  /** However many units are started, they consume one payload-type number between them. */
  lemma {:induction false} UnitsShareOneNumber(s: System, events: seq<Event>)
    requires Coherent(s) && Admissible(s, events) && Run(s, events).Some? && OnlyUnits(events)
    ensures AtMostOpusAdded(s.peer, Run(s, events).value.peer)
    decreases |events|
  {
    if events != [] {
      var t := Step(s, events[0]).value;
      StepKeeps(s, events[0]);
      StepAddsAtMostOpus(s, events[0]);
      hide Coherent, Step, Fits;
      UnitsShareOneNumber(t, events[1..]);
    }
  }

  lemma StepAddsAtMostOpus(s: System, e: Event)
    requires Coherent(s) && Fits(s, e) && Step(s, e).Some? && (e.Local? ==> !e.event.CreatedTrack?)
    ensures AtMostOpusAdded(s.peer, Step(s, e).value.peer)
  {
    hide Coherent, F.Step, P.Insert, P.Remove, P.HasId, P.WithId;
  }
}
