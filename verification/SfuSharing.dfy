/** What happens to units that share an egress track: a native answer with a known handle is enough for that. */
module SfuSharing {
  import opened Common
  import opened Sfu
  import opened SfuStop
  import F = Forwarding
  import ForwardingObjects
  import P = Peers
  import PayloadTypes
  import Rtp
  import Ssrcs

  // ---------------------------------------------------------------- when SSRCs collide

  /** No wrapped track has this SSRC. */
  ghost predicate Unclaimed(p: P.PeerState, ssrc: uint32) {
    forall id | id in p.pointers && p.pointers[id].info.TrackInfo? :: ssrc !in p.pointers[id].info.ssrcs
  }

  /** Every track ever wrapped has its SSRCs for itself, and the allocator knows them. */
  ghost predicate Unshared(p: P.PeerState) {
    && (forall id, x | id in p.pointers && p.pointers[id].info.TrackInfo? && x in p.pointers[id].info.ssrcs ::
          x in p.ssrcs)
    && (forall i, j | i in p.pointers && j in p.pointers && i != j
          && p.pointers[i].info.TrackInfo? && p.pointers[j].info.TrackInfo? ::
          forall x | x in p.pointers[i].info.ssrcs :: x !in p.pointers[j].info.ssrcs)
  }

  /** The application and the remote side bring no SSRC that a track already has. */
  ghost predicate BringsNew(p: P.PeerState, e: P.Event) {
    match e
    case CreatedTrack(request, _, _, _) => request.ssrc.Some? ==> Unclaimed(p, request.ssrc.value)
    case AnnouncedTrack(_, c) =>
      c.info.TrackInfo? && !P.HasId(p.channels, c.id) ==> forall x | x in c.info.ssrcs :: Unclaimed(p, x)
    case _ => true
  }

  ghost predicate AllNew(s: System, events: seq<Event>)
    requires Admissible(s, events)
    decreases |events|
  {
    events != [] ==>
      && (events[0].Local? ==> BringsNew(s.peer, events[0].event))
      && (Step(s, events[0]).Some? ==> AllNew(Step(s, events[0]).value, events[1..]))
  }

  /** A step wraps at most one handle, a new one. */
  lemma StepWraps(p: P.PeerState, e: P.Event)
    requires P.Consistent(p) && P.Fits(p, e) && P.Step(p, e).Some?
    ensures var q := P.Step(p, e).value;
            && (forall x | x in p.ssrcs :: x in q.ssrcs)
            && (q.pointers == p.pointers
                || (e.c.id !in p.pointers && q.pointers == p.pointers[e.c.id := e.c]
                    && (e.c.info.TrackInfo? ==>
                          && (forall x | x in e.c.info.ssrcs :: x in q.ssrcs)
                          && (if e.CreatedTrack?
                              then P.Allocates(p, e) && e.c.info.ssrcs == [P.SsrcOf(e.request, e.drawn)]
                              else e.AnnouncedTrack? && !P.HasId(p.channels, e.c.id)))))
  {
    hide PayloadTypes.Injective, PayloadTypes.Request;
    assert !P.HasId(p.channels, e.c.id) && e.c.id !in p.retired ==> e.c.id !in p.pointers;
  }

  lemma PeerStaysUnshared(p: P.PeerState, e: P.Event)
    requires P.Consistent(p) && P.Fits(p, e) && P.Step(p, e).Some? && Unshared(p) && BringsNew(p, e)
    ensures Unshared(P.Step(p, e).value)
  {
    StepWraps(p, e);
    var q := P.Step(p, e).value;
    if q.pointers != p.pointers && e.c.info.TrackInfo? {
      NewIsUnclaimed(p, e);
    }
    hide P.Consistent, P.Fits, P.Step, BringsNew;
  }

  lemma NewIsUnclaimed(p: P.PeerState, e: P.Event)
    requires P.Fits(p, e) && Unshared(p) && BringsNew(p, e) && e.c.info.TrackInfo?
    requires if e.CreatedTrack? then P.Allocates(p, e) && e.c.info.ssrcs == [P.SsrcOf(e.request, e.drawn)]
             else e.AnnouncedTrack? && !P.HasId(p.channels, e.c.id)
    ensures forall x | x in e.c.info.ssrcs :: Unclaimed(p, x)
  {
  }

  lemma StepStaysUnshared(s: System, e: Event)
    requires Coherent(s) && Fits(s, e) && Step(s, e).Some? && Unshared(s.peer)
    requires e.Local? ==> BringsNew(s.peer, e.event)
    ensures Unshared(Step(s, e).value.peer)
  {
    hide P.Consistent, P.Fits, P.FitsRequest, P.CreateTrack, BringsNew, Unshared, F.Step;
    match e
    case Local(event) => PeerStaysUnshared(s.peer, event);
    case Start(fromClientId, ingress, drawn, reply, _, c) =>
      StartStaysUnshared(s.peer, ForwardingObjects.EgressRequest(fromClientId, ingress), drawn, reply, c);
    case StopUnit(u) =>
      assert UnitOk(s.peer, s.units[u]);
      StopStaysUnshared(s.peer, s.units[u].egress);
    case _ =>
  }

  lemma StartStaysUnshared(p: P.PeerState, request: P.TrackRequest, drawn: Ssrcs.Draw, reply: P.AddReply, c: Channel)
    requires P.Consistent(p) && Unshared(p) && request.ssrc == None && P.FitsRequest(p, request, drawn, reply, c)
    ensures var o := P.CreateTrack(p, request, drawn, reply, c); !o.Trapped? ==> Unshared(o.after)
  {
    hide P.Consistent, Unshared;
    var e := P.CreatedTrack(request, drawn, reply, c);
    if !P.CreateTrack(p, request, drawn, reply, c).Trapped? {
      PeerStaysUnshared(p, e);
    }
  }

  lemma StopStaysUnshared(p: P.PeerState, c: Channel)
    requires Unshared(p)
    ensures Unshared(P.Close(p, c))
  {
  }

  lemma {:induction false} RunStaysUnshared(s: System, events: seq<Event>)
    requires Coherent(s) && Admissible(s, events) && AllNew(s, events) && Run(s, events).Some? && Unshared(s.peer)
    ensures Unshared(Run(s, events).value.peer)
    decreases |events|
  {
    if events != [] {
      hide Coherent, Step, Fits, Unshared, BringsNew;
      StepKeeps(s, events[0]);
      StepStaysUnshared(s, events[0]);
      RunStaysUnshared(Step(s, events[0]).value, events[1..]);
    }
  }

  /**
   * In every reachable state, packets of two units collide exactly if their egress tracks have the same first SSRC;
   * and as long as nobody brings an SSRC that a track already has, exactly if the units share one egress track.
   */
  lemma CollisionsExactly(events: seq<Event>, u: nat, v: nat, i: nat, j: nat)
    requires Admissible(INITIAL, events) && Run(INITIAL, events).Some?
    requires var units := Run(INITIAL, events).value.units;
             && u < |units| && v < |units|
             && i < |units[u].forwarder.sent| && |units[u].forwarder.sent[i]| >= Rtp.HEADER_SIZE
             && j < |units[v].forwarder.sent| && |units[v].forwarder.sent[j]| >= Rtp.HEADER_SIZE
    ensures var units := Run(INITIAL, events).value.units;
            var x, y := units[u].egress.info, units[v].egress.info;
            var same := Rtp.SsrcField(units[u].forwarder.sent[i]) == Rtp.SsrcField(units[v].forwarder.sent[j]);
            && x.TrackInfo? && x.ssrcs != [] && y.TrackInfo? && y.ssrcs != []
            && (same <==> x.ssrcs[0] == y.ssrcs[0])
            && (AllNew(INITIAL, events) ==> (same <==> units[u].egress == units[v].egress))
  {
    RunKeeps(INITIAL, events);
    var t := Run(INITIAL, events).value;
    if AllNew(INITIAL, events) {
      RunStaysUnshared(INITIAL, events);
    }
    hide Run, Admissible, AllNew, P.Consistent, F.Steady;
    SentSsrcs(t, u, i);
    SentSsrcs(t, v, j);
    assert UnitOk(t.peer, t.units[u]) && UnitOk(t.peer, t.units[v]);
    assert t.units[u].egress.info.ssrcs[0] in t.units[u].egress.info.ssrcs;
    assert t.units[v].egress.info.ssrcs[0] in t.units[v].egress.info.ssrcs;
  }

  // ---------------------------------------------------------------- when a stop is felt

  /** The key-frame handler of the unit's egress track is this unit's. */
  ghost predicate Listens(s: System, v: nat)
    requires v < |s.units|
  {
    s.units[v].egress in s.handlers && s.handlers[s.units[v].egress] == v
  }

  lemma StepKeepsDeaf(s: System, e: Event, v: nat)
    requires Coherent(s) && Fits(s, e) && Step(s, e).Some? && v < |s.units| && !Listens(s, v)
    ensures var t := Step(s, e).value;
            v < |t.units| && !Listens(t, v) && t.units[v].requests == s.units[v].requests
  {
    hide P.Consistent, UnitOk, P.Fits, P.FitsRequest, P.Step, P.CreateTrack, F.Step;
  }

  /** A unit that has lost the handler, to a stop or to a later unit on the same track, never hears of a request. */
  lemma {:induction false} RunKeepsDeaf(s: System, events: seq<Event>, v: nat)
    requires Coherent(s) && Admissible(s, events) && Run(s, events).Some? && v < |s.units| && !Listens(s, v)
    ensures var t := Run(s, events).value; v < |t.units| && t.units[v].requests == s.units[v].requests
    decreases |events|
  {
    if events != [] {
      StepKeeps(s, events[0]);
      StepKeepsDeaf(s, events[0], v);
      hide Coherent, Step, Fits, Listens;
      RunKeepsDeaf(Step(s, events[0]).value, events[1..], v);
    }
  }

  /** These two courses of events leave unit v different, depending on whether unit u was stopped before them. */
  ghost predicate Felt(s: System, u: nat, v: nat, going: seq<Event>, stopped: seq<Event>)
    requires u < |s.units|
  {
    && Aftermath(s, u, going, stopped) && Run(StopStep(s, u), stopped).Some?
    && (var x, y := Run(s, going).value, Run(StopStep(s, u), stopped).value;
        v < |x.units| && v < |y.units| && x.units[v] != y.units[v])
  }

  /**
   * How the two runs can differ: a stop makes the native library say something else about the track only if it is
   * what closes it. A track that was closed before stays as it was.
   */
  ghost predicate Aftermath(s: System, u: nat, going: seq<Event>, stopped: seq<Event>)
    requires u < |s.units|
  {
    Comparable(s, u, going, stopped) && (s.units[u].egress.id in s.peer.retired ==> going == stopped)
  }

  /**
   * A stop can be felt by another unit exactly if the two share an egress track that the stop closes, and the track
   * can carry packets at all, or if the other one holds the key-frame handler of their track.
   */
  lemma StopIsFeltExactly(s: System, u: nat, v: nat)
    requires Coherent(s) && u < |s.units| && v < |s.units| && v != u
    ensures (exists going, stopped :: Felt(s, u, v, going, stopped))
            <==> && s.units[v].egress == s.units[u].egress
                 && (Listens(s, v) || (!NoSsrc(s.units[u].egress) && s.units[u].egress.id !in s.peer.retired))
  {
    if exists going, stopped :: Felt(s, u, v, going, stopped) {
      var going, stopped :| Felt(s, u, v, going, stopped);
      FeltOnlyBySharing(s, u, v, going, stopped);
    }
    if s.units[v].egress == s.units[u].egress {
      if Listens(s, v) {
        RequestIsFelt(s, u, v);
      } else if !NoSsrc(s.units[u].egress) && s.units[u].egress.id !in s.peer.retired {
        ClosingIsFelt(s, u, v);
      }
    }
  }

  /** The narrower claim about key-frame requests: only the unit that holds the handler loses any. */
  lemma RequestsAreLostExactly(s: System, u: nat, v: nat)
    requires Coherent(s) && u < |s.units| && v < |s.units| && v != u
    ensures (exists going, stopped :: LosesRequests(s, u, v, going, stopped))
            <==> s.units[v].egress == s.units[u].egress && Listens(s, v)
  {
    if exists going, stopped :: LosesRequests(s, u, v, going, stopped) {
      var going, stopped :| LosesRequests(s, u, v, going, stopped);
      StaysDeaf(s, u, v, going, stopped);
      StopLeavesOthersAlone(s, u, going, stopped, v);
      RunKeepsIdentity(s, going, u);
      RunKeepsIdentity(s, going, v);
    }
    if s.units[v].egress == s.units[u].egress && Listens(s, v) {
      RequestIsFelt(s, u, v);
    }
  }

  ghost predicate LosesRequests(s: System, u: nat, v: nat, going: seq<Event>, stopped: seq<Event>)
    requires u < |s.units|
  {
    && Felt(s, u, v, going, stopped)
    && Run(s, going).value.units[v].requests != Run(StopStep(s, u), stopped).value.units[v].requests
  }

  /** Without the handler, a unit hears of no request in either course of events. */
  lemma StaysDeaf(s: System, u: nat, v: nat, going: seq<Event>, stopped: seq<Event>)
    requires Coherent(s) && u < |s.units| && v < |s.units| && v != u
    requires Aftermath(s, u, going, stopped) && Run(StopStep(s, u), stopped).Some?
    ensures v < |Run(s, going).value.units| && v < |Run(StopStep(s, u), stopped).value.units|
    ensures !Listens(s, v) ==>
              Run(s, going).value.units[v].requests == Run(StopStep(s, u), stopped).value.units[v].requests
  {
    hide Coherent, Step, Fits, Admissible, Run, Listens;
    var b := StopStep(s, u);
    RunKeepsIdentity(s, going, v);
    RunKeepsIdentity(b, stopped, v);
    if !Listens(s, v) {
      StopKeeps(s, u);
      assert !Listens(b, v) && b.units[v] == s.units[v] by {
        StopKeepsDeaf(s, u, v);
      }
      RunKeepsDeaf(s, going, v);
      RunKeepsDeaf(b, stopped, v);
    }
  }

  lemma FeltOnlyBySharing(s: System, u: nat, v: nat, going: seq<Event>, stopped: seq<Event>)
    requires Coherent(s) && u < |s.units| && v < |s.units| && v != u && Felt(s, u, v, going, stopped)
    ensures s.units[v].egress == s.units[u].egress
    ensures Listens(s, v) || (!NoSsrc(s.units[u].egress) && s.units[u].egress.id !in s.peer.retired)
  {
    hide Coherent, Step, Fits, Admissible, Run, Listens, NoSsrc, Comparable;
    var b := StopStep(s, u);
    StopLeavesOthersAlone(s, u, going, stopped, v);
    StaysDeaf(s, u, v, going, stopped);
    assert Admissible(s, going) && Run(s, going).Some? && Admissible(b, stopped) by {
      ComparableRuns(s, u, going, stopped);
    }
    RunKeepsIdentity(s, going, u);
    RunKeepsIdentity(s, going, v);
    RunKeepsIdentity(b, stopped, v);
    assert b.units[v].own == s.units[v].own && b.units[v].payloadType == s.units[v].payloadType;
  }

  lemma ComparableRuns(s: System, u: nat, going: seq<Event>, stopped: seq<Event>)
    requires u < |s.units| && Comparable(s, u, going, stopped)
    ensures Admissible(s, going) && Run(s, going).Some? && Admissible(StopStep(s, u), stopped)
  {
  }

  lemma StopKeepsDeaf(s: System, u: nat, v: nat)
    requires u < |s.units| && v < |s.units| && v != u && !Listens(s, v)
    ensures !Listens(StopStep(s, u), v) && StopStep(s, u).units[v] == s.units[v]
  {
  }

  lemma {:induction false} RunKeepsIdentity(s: System, events: seq<Event>, u: nat)
    requires Admissible(s, events) && Run(s, events).Some? && u < |s.units|
    ensures var t := Run(s, events).value;
            && u < |t.units| && t.units[u].egress == s.units[u].egress
            && (t.units[u].own, t.units[u].payloadType) == (s.units[u].own, s.units[u].payloadType)
    decreases |events|
  {
    hide Step, Fits;
    if events != [] {
      StepKeepsEgress(s, events[0], u);
      RunKeepsIdentity(Step(s, events[0]).value, events[1..], u);
    }
  }

  lemma RequestIsFelt(s: System, u: nat, v: nat)
    requires Coherent(s) && u < |s.units| && v < |s.units| && v != u
    requires s.units[v].egress == s.units[u].egress && Listens(s, v)
    ensures var events := [KeyFrame(s.units[v].egress.id, true)]; LosesRequests(s, u, v, events, events)
  {
    var e := KeyFrame(s.units[v].egress.id, true);
    assert UnitOk(s.peer, s.units[v]);
    SharedHandlerIsLost(s, u, v, e.id);
    RunOne(s, e);
    RunOne(StopStep(s, u), e);
  }

  /** The track closes, and a packet for the other unit is not forwarded any more. */
  lemma ClosingIsFelt(s: System, u: nat, v: nat)
    requires Coherent(s) && u < |s.units| && v < |s.units| && v != u && s.units[v].egress == s.units[u].egress
    requires !NoSsrc(s.units[u].egress) && s.units[u].egress.id !in s.peer.retired
    ensures var id, packet := s.units[u].egress.id, Packet(v, [0], 0);
            Felt(s, u, v, [Opened(id, true), packet], [Opened(id, false), packet])
  {
    var c, b := s.units[u].egress, StopStep(s, u);
    var e, f, packet := Opened(c.id, true), Opened(c.id, false), Packet(v, [0], 0);
    assert UnitOk(s.peer, s.units[u]) && UnitOk(s.peer, s.units[v]);
    var ready, closed := Step(s, e).value, Step(b, f).value;
    PacketIsCounted(ready, v);
    PacketIsIgnored(closed, v);
    hide Coherent, F.Step;
    assert On(s, c) >= {v} && Stripped([packet], c.id, On(s, c)) == [Deliver(v, Some([0]), Err(0), None)] by {
      assert [packet][1..] == [];
    }
    RunOne(ready, packet);
    RunOne(closed, packet);
    RunPrepend(s, e, [packet]);
    RunPrepend(b, f, [packet]);
    assert [e] + [packet] == [e, packet] && [f] + [packet] == [f, packet];
    assert [e, packet][1..] == [packet] && [f, packet][1..] == [packet];
  }

  lemma PacketIsCounted(s: System, v: nat)
    requires v < |s.units| && !NoSsrc(s.units[v].egress) && s.units[v].egress in s.open
    requires s.units[v].forwarder.subscribed
    ensures Fits(s, Packet(v, [0], 0)) && Step(s, Packet(v, [0], 0)).Some?
    ensures Step(s, Packet(v, [0], 0)).value.units[v].forwarder.count == s.units[v].forwarder.count + 1
  {
  }

  lemma PacketIsIgnored(s: System, v: nat)
    requires v < |s.units| && s.units[v].egress !in s.open
    ensures Fits(s, Packet(v, [0], 0)) && Step(s, Packet(v, [0], 0)).Some?
    ensures Step(s, Packet(v, [0], 0)).value.units[v].forwarder.count == s.units[v].forwarder.count
  {
  }

  function Packet(u: nat, message: Bytes, pt: byte): Event {
    Deliver(u, Some(message), Ok([pt]), None)
  }

  lemma RunOne(s: System, e: Event)
    requires Fits(s, e)
    ensures Admissible(s, [e]) && Run(s, [e]) == Step(s, e)
  {
    hide Fits, Step;
    assert [e][1..] == [];
  }

  lemma RunPrepend(s: System, e: Event, events: seq<Event>)
    requires Fits(s, e) && Step(s, e).Some? && Admissible(Step(s, e).value, events)
    ensures Admissible(s, [e] + events) && Run(s, [e] + events) == Run(Step(s, e).value, events)
  {
    hide Fits, Step;
    assert ([e] + events)[1..] == events;
  }

  // ---------------------------------------------------------------- both happen

  /** A wrapper that the first unit on a new peer makes for itself. */
  predicate FirstTrack(client: string, ingress: P.Info, drawn: Ssrcs.Draw, c: Channel) {
    && ingress.TrackInfo? && c.id >= 0
    && (var request := ForwardingObjects.EgressRequest(client, ingress);
        !P.HasSpace(request) && P.Carries(c, P.Requested(request)) && c.info.ssrcs == [drawn])
  }

  /** The native library answers a start with this handle. */
  function Started(client: string, ingress: P.Info, drawn: Ssrcs.Draw, c: Channel): Event {
    Start(client, ingress, drawn, P.Added(c.id, None), None, c)
  }

  /** The peer with that one track. */
  function OneTrack(c: Channel, ssrcs: set<uint32>, units: seq<Unit>): System
    requires units != []
  {
    var payloadTypes := PayloadTypes.State(97, map[ForwardingObjects.OPUS := 97]);
    System(P.PeerState({c}, {}, {c}, payloadTypes, ssrcs, map[c.id := c], {}), {}, map[c := |units| - 1], units)
  }

  function Fresh(c: Channel, own: bool): Unit {
    Unit(c, own, 97, F.FRESH, 0)
  }

  lemma FirstStart(client: string, ingress: P.Info, drawn: Ssrcs.Draw, c: Channel)
    requires FirstTrack(client, ingress, drawn, c)
    ensures Fits(INITIAL, Started(client, ingress, drawn, c))
    ensures Step(INITIAL, Started(client, ingress, drawn, c)) == Some(OneTrack(c, {drawn}, [Fresh(c, true)]))
  {
    var t := Step(INITIAL, Started(client, ingress, drawn, c)).value;
    var s := OneTrack(c, {drawn}, [Fresh(c, true)]);
    assert t.peer.channels == s.peer.channels && t.peer.tracks == s.peer.tracks && t.peer.ssrcs == s.peer.ssrcs;
    assert t.peer.payloadTypes == s.peer.payloadTypes;
    assert t.peer.pointers == s.peer.pointers && t.peer == s.peer;
    assert t.units == s.units && t.handlers == s.handlers;
  }

  /** An answer that names a registered track puts the unit on that track. */
  lemma StartOnKnown(s: System, client: string, ingress: P.Info, drawn: Ssrcs.Draw, c: Channel)
    requires P.Consistent(s.peer) && c in s.peer.tracks && c.id >= 0 && drawn !in s.peer.ssrcs
    requires ingress.TrackInfo? && !P.HasSpace(ForwardingObjects.EgressRequest(client, ingress))
    requires ForwardingObjects.OPUS in s.peer.payloadTypes.table
    ensures Fits(s, Started(client, ingress, drawn, c))
    ensures var p := s.peer.(ssrcs := s.peer.ssrcs + {drawn});
            var unit := Unit(c, false, p.payloadTypes.table[ForwardingObjects.OPUS], F.FRESH, 0);
            Step(s, Started(client, ingress, drawn, c))
            == Some(System(p, s.open, s.handlers[c := |s.units|], s.units + [unit]))
  {
    assert P.HasId(s.peer.tracks, c.id) && P.WithId(s.peer.tracks, c.id) == c;
    assert !P.HasId(s.peer.dataChannels, c.id);
  }

  lemma SecondStart(client: string, ingress: P.Info, drawn: Ssrcs.Draw, second: Ssrcs.Draw, c: Channel)
    requires FirstTrack(client, ingress, drawn, c) && drawn != second
    ensures var s := OneTrack(c, {drawn}, [Fresh(c, true)]);
            && Fits(s, Started(client, ingress, second, c))
            && Step(s, Started(client, ingress, second, c))
               == Some(OneTrack(c, {drawn, second}, [Fresh(c, true), Fresh(c, false)]))
  {
    var s := OneTrack(c, {drawn}, [Fresh(c, true)]);
    StartOnKnown(s, client, ingress, second, c);
    assert {drawn} + {second} == {drawn, second};
    assert map[c := 0][c := 1] == map[c := 1];
    assert [Fresh(c, true)] + [Fresh(c, false)] == [Fresh(c, true), Fresh(c, false)];
  }

  /** Two units come to share a track when the native library names the same handle twice. */
  lemma SharingIsReached(client: string, ingress: P.Info, drawn: Ssrcs.Draw, second: Ssrcs.Draw, c: Channel)
    requires FirstTrack(client, ingress, drawn, c) && drawn != second
    ensures var events := [Started(client, ingress, drawn, c), Started(client, ingress, second, c)];
            && Admissible(INITIAL, events)
            && Run(INITIAL, events) == Some(OneTrack(c, {drawn, second}, [Fresh(c, true), Fresh(c, false)]))
  {
    var e, f := Started(client, ingress, drawn, c), Started(client, ingress, second, c);
    hide Fits, Step, OneTrack;
    FirstStart(client, ingress, drawn, c);
    SecondStart(client, ingress, drawn, second, c);
    RunOne(OneTrack(c, {drawn}, [Fresh(c, true)]), f);
    RunPrepend(INITIAL, e, [f]);
    assert [e] + [f] == [e, f];
  }

  lemma {:induction false} RunAppend(s: System, events: seq<Event>, more: seq<Event>)
    requires Admissible(s, events) && Run(s, events).Some? && Admissible(Run(s, events).value, more)
    ensures Admissible(s, events + more) && Run(s, events + more) == Run(Run(s, events).value, more)
    decreases |events|
  {
    hide Fits, Step;
    if events == [] {
      assert events + more == more;
    } else {
      RunAppend(Step(s, events[0]).value, events[1..], more);
      assert (events + more)[1..] == events[1..] + more;
    }
  }

  function Sent(c: Channel, own: bool, ssrc: uint32, pt: byte, message: Bytes): Unit {
    Unit(c, own, 97, F.Forwarder(Some(ssrc), Some(pt), 1, None, true, [Rtp.Rewrite(message, ssrc, pt)]), 0)
  }

  lemma FirstPacket(ssrc: uint32, message: Bytes, pt: byte)
    ensures F.Step(F.FRESH, [ssrc], F.Message(Some(message), true, Ok([pt]), None))
            == F.Forwarder(Some(ssrc), Some(pt), 1, None, true, [Rtp.Rewrite(message, ssrc, pt)])
  {
    hide Rtp.Rewrite;
  }

  /** Both tracks open, and each of the two units gets a packet. */
  function Traffic(c: Channel, d: Channel, m: Bytes, n: Bytes, pt: byte): seq<Event> {
    [Opened(c.id, true), Opened(d.id, true), Packet(0, m, pt), Packet(1, n, pt)]
  }

  lemma OpenAndDeliver(s: System, ssrc: uint32, c: Channel, d: Channel, own: bool, m: Bytes, n: Bytes, pt: byte)
    requires s.units == [Fresh(c, own), Fresh(d, false)] && P.Wrapped(s.peer, c) && P.Wrapped(s.peer, d)
    requires c.info.TrackInfo? && c.info.ssrcs == [ssrc] && d.info.TrackInfo? && d.info.ssrcs == [ssrc]
    ensures Admissible(s, Traffic(c, d, m, n, pt))
    ensures Run(s, Traffic(c, d, m, n, pt))
            == Some(s.(open := s.open + {c} + {d},
                       units := [Sent(c, own, ssrc, pt, m), Sent(d, false, ssrc, pt, n)]))
  {
    var one := s.(open := s.open + {c});
    var ready := s.(open := s.open + {c} + {d});
    var first := ready.(units := [Sent(c, own, ssrc, pt, m), Fresh(d, false)]);
    var both := ready.(units := [Sent(c, own, ssrc, pt, m), Sent(d, false, ssrc, pt, n)]);
    FirstPacket(ssrc, m, pt);
    FirstPacket(ssrc, n, pt);
    hide F.Step;
    assert Step(s, Opened(c.id, true)) == Some(one) && Step(one, Opened(d.id, true)) == Some(ready);
    assert ready.units[0 := Sent(c, own, ssrc, pt, m)] == first.units;
    assert Step(ready, Packet(0, m, pt)) == Some(first);
    assert first.units[1 := Sent(d, false, ssrc, pt, n)] == both.units;
    assert Step(first, Packet(1, n, pt)) == Some(both);
    hide Step;
    var e, f, g, h := Opened(c.id, true), Opened(d.id, true), Packet(0, m, pt), Packet(1, n, pt);
    RunOne(first, h);
    RunPrepend(ready, g, [h]);
    RunPrepend(one, f, [g] + [h]);
    RunPrepend(s, e, [f] + ([g] + [h]));
    assert [e] + ([f] + ([g] + [h])) == Traffic(c, d, m, n, pt);
  }

  /** The two units have sent one packet each, under the same SSRC. */
  ghost predicate Collided(t: System) {
    && |t.units| == 2 && |t.units[0].forwarder.sent| == 1 && |t.units[1].forwarder.sent| == 1
    && (var a, b := t.units[0].forwarder.sent[0], t.units[1].forwarder.sent[0];
        |a| >= Rtp.HEADER_SIZE && |b| >= Rtp.HEADER_SIZE && Rtp.SsrcField(a) == Rtp.SsrcField(b))
  }

  lemma TrafficCollides(events: seq<Event>, c: Channel, d: Channel, own: bool, ssrc: uint32, m: Bytes, n: Bytes,
                        pt: byte)
    requires Admissible(INITIAL, events) && Run(INITIAL, events).Some?
    requires var s := Run(INITIAL, events).value;
             s.units == [Fresh(c, own), Fresh(d, false)] && P.Wrapped(s.peer, c) && P.Wrapped(s.peer, d)
    requires c.info.TrackInfo? && c.info.ssrcs == [ssrc] && d.info.TrackInfo? && d.info.ssrcs == [ssrc]
    requires |m| >= Rtp.HEADER_SIZE && |n| >= Rtp.HEADER_SIZE
    ensures var all := events + Traffic(c, d, m, n, pt);
            && Admissible(INITIAL, all) && Run(INITIAL, all).Some? && Collided(Run(INITIAL, all).value)
            && Run(INITIAL, all).value.units[0].egress == c && Run(INITIAL, all).value.units[1].egress == d
  {
    hide Fits, Step, Admissible, Run, Rtp.Rewrite, Rtp.SsrcField, Traffic;
    OpenAndDeliver(Run(INITIAL, events).value, ssrc, c, d, own, m, n, pt);
    RunAppend(INITIAL, events, Traffic(c, d, m, n, pt));
    Rtp.RewriteSetsSsrcField(m, ssrc, pt);
    Rtp.RewriteSetsSsrcField(n, ssrc, pt);
  }

  /** Such a run ends with two units on one track, sending the same SSRC, whatever they forward. */
  lemma StreamsCollide(client: string, ingress: P.Info, drawn: Ssrcs.Draw, second: Ssrcs.Draw, c: Channel, m: Bytes,
                       n: Bytes, pt: byte)
    requires FirstTrack(client, ingress, drawn, c) && drawn != second
    requires |m| >= Rtp.HEADER_SIZE && |n| >= Rtp.HEADER_SIZE
    ensures var events := [Started(client, ingress, drawn, c), Started(client, ingress, second, c)]
                          + Traffic(c, c, m, n, pt);
            && Admissible(INITIAL, events) && Run(INITIAL, events).Some? && Collided(Run(INITIAL, events).value)
            && Run(INITIAL, events).value.units[0].egress == Run(INITIAL, events).value.units[1].egress
  {
    hide Fits, Step, Admissible, Run;
    SharingIsReached(client, ingress, drawn, second, c);
    TrafficCollides([Started(client, ingress, drawn, c), Started(client, ingress, second, c)], c, c, true, drawn, m, n,
                    pt);
  }

  lemma RequestsOfSharing(c: Channel, ssrcs: set<uint32>)
    ensures var t, e := OneTrack(c, ssrcs, [Fresh(c, true), Fresh(c, false)]), KeyFrame(c.id, true);
            var b := StopStep(t, 0);
            && Fits(t, e) && Step(t, e).Some?
            && |Step(t, e).value.units| == 2 && Step(t, e).value.units[1].requests == 1
            && Fits(t, StopUnit(0)) && Step(t, StopUnit(0)) == Some(b)
            && Fits(b, e) && Step(b, e).Some?
            && |Step(b, e).value.units| == 2 && Step(b, e).value.units[1].requests == 0
  {
    hide P.Remove;
  }

  /** And stopping the first unit takes the key-frame requests from the second. */
  lemma StopLosesRequest(client: string, ingress: P.Info, drawn: Ssrcs.Draw, second: Ssrcs.Draw, c: Channel)
    requires FirstTrack(client, ingress, drawn, c) && drawn != second
    ensures var starts := [Started(client, ingress, drawn, c), Started(client, ingress, second, c)];
            var going, stopped := starts + [KeyFrame(c.id, true)], starts + [StopUnit(0), KeyFrame(c.id, true)];
            && Admissible(INITIAL, going) && Run(INITIAL, going).Some?
            && Admissible(INITIAL, stopped) && Run(INITIAL, stopped).Some?
            && |Run(INITIAL, going).value.units| == |Run(INITIAL, stopped).value.units| == 2
            && Run(INITIAL, going).value.units[1].requests == 1
            && Run(INITIAL, stopped).value.units[1].requests == 0
  {
    var starts := [Started(client, ingress, drawn, c), Started(client, ingress, second, c)];
    var t := OneTrack(c, {drawn, second}, [Fresh(c, true), Fresh(c, false)]);
    var e := KeyFrame(c.id, true);
    SharingIsReached(client, ingress, drawn, second, c);
    RequestsOfSharing(c, {drawn, second});
    hide Fits, Step, Admissible, Run, OneTrack, StopStep;
    RunOne(t, e);
    RunOne(StopStep(t, 0), e);
    RunPrepend(t, StopUnit(0), [e]);
    assert [StopUnit(0)] + [e] == [StopUnit(0), e];
    RunAppend(INITIAL, starts, [e]);
    RunAppend(INITIAL, starts, [StopUnit(0), e]);
  }

  lemma SilenceOfSharing(s: System, drawn: Ssrcs.Draw, c: Channel, m: Bytes, pt: byte)
    requires s.units == [Fresh(c, true), Fresh(c, false)] && P.Wrapped(s.peer, c)
    requires c.info.TrackInfo? && c.info.ssrcs == [drawn]
    ensures var going, stopped := [Opened(c.id, true), Packet(0, m, pt)],
                                  [Opened(c.id, true), StopUnit(1), Opened(c.id, false), Packet(0, m, pt)];
            && Admissible(s, going) && Run(s, going).Some?
            && Run(s, going).value.units == [Sent(c, true, drawn, pt, m), Fresh(c, false)]
            && Admissible(s, stopped) && Run(s, stopped).Some?
            && |Run(s, stopped).value.units| == 2 && Run(s, stopped).value.units[0] == Fresh(c, true)
  {
    var open := s.(open := s.open + {c});
    var first := open.(units := [Sent(c, true, drawn, pt, m), Fresh(c, false)]);
    var halted := StopStep(open, 1);
    var closed := halted.(open := halted.open - {c});
    var e, f, g, h := Opened(c.id, true), StopUnit(1), Opened(c.id, false), Packet(0, m, pt);
    FirstPacket(drawn, m, pt);
    assert open.units[0 := Sent(c, true, drawn, pt, m)] == first.units;
    assert Step(s, e) == Some(open) && Step(open, h) == Some(first);
    assert Step(open, f) == Some(halted) && halted.units[0] == Fresh(c, true) && |halted.units| == 2;
    assert Step(halted, g) == Some(closed);
    assert closed.units[0 := Fresh(c, true)] == closed.units && Step(closed, h) == Some(closed);
    hide Step, StopStep;
    RunOne(open, h);
    RunPrepend(s, e, [h]);
    RunOne(closed, h);
    RunPrepend(halted, g, [h]);
    RunPrepend(open, f, [g] + [h]);
    RunPrepend(s, e, [f] + ([g] + [h]));
    assert [e] + [h] == [e, h] && [e] + ([f] + ([g] + [h])) == [e, f, g, h];
  }

  /** And stopping the second unit, which closes their track, silences the first. */
  lemma StopSilencesOther(client: string, ingress: P.Info, drawn: Ssrcs.Draw, second: Ssrcs.Draw, c: Channel, m: Bytes,
                          pt: byte)
    requires FirstTrack(client, ingress, drawn, c) && drawn != second
    ensures var starts := [Started(client, ingress, drawn, c), Started(client, ingress, second, c)];
            var going := starts + [Opened(c.id, true), Packet(0, m, pt)];
            var stopped := starts + [Opened(c.id, true), StopUnit(1), Opened(c.id, false), Packet(0, m, pt)];
            && Admissible(INITIAL, going) && Run(INITIAL, going).Some?
            && Admissible(INITIAL, stopped) && Run(INITIAL, stopped).Some?
            && |Run(INITIAL, going).value.units| == |Run(INITIAL, stopped).value.units| == 2
            && Run(INITIAL, going).value.units[0].forwarder.sent == [Rtp.Rewrite(m, drawn, pt)]
            && Run(INITIAL, stopped).value.units[0].forwarder.sent == []
  {
    var starts := [Started(client, ingress, drawn, c), Started(client, ingress, second, c)];
    SharingIsReached(client, ingress, drawn, second, c);
    SilenceOfSharing(Run(INITIAL, starts).value, drawn, c, m, pt);
    hide Fits, Step, Admissible, Run, OneTrack, Rtp.Rewrite;
    RunAppend(INITIAL, starts, [Opened(c.id, true), Packet(0, m, pt)]);
    RunAppend(INITIAL, starts, [Opened(c.id, true), StopUnit(1), Opened(c.id, false), Packet(0, m, pt)]);
  }

  /** The application creates a track with an SSRC of its own choice. */
  function Chosen(c: Channel, ssrc: Ssrcs.Draw): P.Event
    requires c.info.TrackInfo?
  {
    var request := P.TrackRequest(c.info.streamId, c.info.trackId, None, ForwardingObjects.OPUS, Some(ssrc));
    P.CreatedTrack(request, ssrc, P.Added(c.id, None), c)
  }

  predicate ChosenTrack(c: Channel, ssrc: uint32) {
    && c.info.TrackInfo? && c.info.ssrcs == [ssrc] && c.id >= 0
    && ' ' !in c.info.streamId && ' ' !in c.info.trackId
  }

  function TwoTracks(c: Channel, d: Channel, ssrcs: set<uint32>): P.PeerState {
    P.PeerState({c, d}, {}, {c, d}, PayloadTypes.State(97, map[ForwardingObjects.OPUS := 97]), ssrcs,
                map[c.id := c, d.id := d], {})
  }

  lemma ChooseTwice(c: Channel, d: Channel, ssrc: Ssrcs.Draw)
    requires ChosenTrack(c, ssrc) && ChosenTrack(d, ssrc) && c.id != d.id
    ensures P.Fits(P.INITIAL, Chosen(c, ssrc))
    ensures var p := P.Step(P.INITIAL, Chosen(c, ssrc));
            p == Some(TwoTracks(c, c, {ssrc})) && P.Fits(p.value, Chosen(d, ssrc))
            && P.Step(p.value, Chosen(d, ssrc)) == Some(TwoTracks(c, d, {ssrc}))
  {
    var p := P.Step(P.INITIAL, Chosen(c, ssrc)).value;
    assert p.channels == {c} && p.tracks == {c} && p.ssrcs == {ssrc} && p.pointers == map[c.id := c];
    assert p.payloadTypes.table == map[ForwardingObjects.OPUS := 97];
    assert p == TwoTracks(c, c, {ssrc});
    assert !P.HasId(p.channels, d.id);
    var q := P.Step(p, Chosen(d, ssrc)).value;
    assert q.channels == {c, d} && q.tracks == {c, d} && q.ssrcs == {ssrc};
    assert q.pointers == map[c.id := c, d.id := d];
  }

  lemma TwoTracksAreConsistent(c: Channel, d: Channel, ssrcs: set<uint32>, ssrc: uint32)
    requires ChosenTrack(c, ssrc) && ChosenTrack(d, ssrc) && c.id != d.id && ssrc in ssrcs
    ensures P.Consistent(TwoTracks(c, d, ssrcs))
  {
  }

  /** A unit on each of the two tracks. */
  lemma StartOnBoth(client: string, ingress: P.Info, ssrc: Ssrcs.Draw, c: Channel, d: Channel, x: Ssrcs.Draw,
                    y: Ssrcs.Draw) returns (t: System)
    requires ChosenTrack(c, ssrc) && ChosenTrack(d, ssrc) && c.id != d.id
    requires ingress.TrackInfo? && !P.HasSpace(ForwardingObjects.EgressRequest(client, ingress))
    requires x != ssrc && y != ssrc && x != y
    ensures var s, g, h := INITIAL.(peer := TwoTracks(c, d, {ssrc})), Started(client, ingress, x, c),
                           Started(client, ingress, y, d);
            && Admissible(s, [g] + [h]) && Run(s, [g] + [h]) == Some(t)
            && t.units == [Fresh(c, false), Fresh(d, false)] && P.Wrapped(t.peer, c) && P.Wrapped(t.peer, d)
  {
    var s, g, h := INITIAL.(peer := TwoTracks(c, d, {ssrc})), Started(client, ingress, x, c),
                   Started(client, ingress, y, d);
    var one := System(TwoTracks(c, d, {ssrc} + {x}), {}, map[c := 0], [Fresh(c, false)]);
    TwoTracksAreConsistent(c, d, {ssrc}, ssrc);
    TwoTracksAreConsistent(c, d, {ssrc} + {x}, ssrc);
    hide Fits, Step, P.Consistent;
    StartOnKnown(s, client, ingress, x, c);
    assert [] + [Fresh(c, false)] == [Fresh(c, false)] && Step(s, g) == Some(one);
    StartOnKnown(one, client, ingress, y, d);
    RunOne(one, h);
    RunPrepend(s, g, [h]);
    t := Run(s, [g] + [h]).value;
  }

  lemma RepeatedSsrcIsReached(client: string, ingress: P.Info, ssrc: Ssrcs.Draw, c: Channel, d: Channel,
                              x: Ssrcs.Draw, y: Ssrcs.Draw)
    requires ChosenTrack(c, ssrc) && ChosenTrack(d, ssrc) && c.id != d.id
    requires ingress.TrackInfo? && !P.HasSpace(ForwardingObjects.EgressRequest(client, ingress))
    requires x != ssrc && y != ssrc && x != y
    ensures var events := [Local(Chosen(c, ssrc)), Local(Chosen(d, ssrc)), Started(client, ingress, x, c),
                           Started(client, ingress, y, d)];
            && Admissible(INITIAL, events) && Run(INITIAL, events).Some?
            && (var t := Run(INITIAL, events).value;
                t.units == [Fresh(c, false), Fresh(d, false)] && P.Wrapped(t.peer, c) && P.Wrapped(t.peer, d))
  {
    var e, f := Local(Chosen(c, ssrc)), Local(Chosen(d, ssrc));
    var g, h := Started(client, ingress, x, c), Started(client, ingress, y, d);
    var one, two := INITIAL.(peer := TwoTracks(c, c, {ssrc})), INITIAL.(peer := TwoTracks(c, d, {ssrc}));
    ChooseTwice(c, d, ssrc);
    hide P.Fits, P.Step, TwoTracks, Chosen;
    assert Fits(INITIAL, e) && Step(INITIAL, e) == Some(one) && Fits(one, f) && Step(one, f) == Some(two);
    hide Step, Fits;
    var t := StartOnBoth(client, ingress, ssrc, c, d, x, y);
    RunPrepend(one, f, [g] + [h]);
    RunPrepend(INITIAL, e, [f] + ([g] + [h]));
    assert [e] + ([f] + ([g] + [h])) == [e, f, g, h];
  }

  /**
   * That nobody brings a used SSRC is needed: with one SSRC chosen for two tracks, and a unit put on each, the units
   * have egress tracks of their own but send the same SSRC.
   */
  lemma RepeatedSsrcCollides(client: string, ingress: P.Info, ssrc: Ssrcs.Draw, c: Channel, d: Channel, x: Ssrcs.Draw,
                             y: Ssrcs.Draw, m: Bytes, n: Bytes, pt: byte)
    requires ChosenTrack(c, ssrc) && ChosenTrack(d, ssrc) && c.id != d.id
    requires ingress.TrackInfo? && !P.HasSpace(ForwardingObjects.EgressRequest(client, ingress))
    requires x != ssrc && y != ssrc && x != y && |m| >= Rtp.HEADER_SIZE && |n| >= Rtp.HEADER_SIZE
    ensures var events := [Local(Chosen(c, ssrc)), Local(Chosen(d, ssrc)), Started(client, ingress, x, c),
                           Started(client, ingress, y, d)] + Traffic(c, d, m, n, pt);
            && Admissible(INITIAL, events) && Run(INITIAL, events).Some? && Collided(Run(INITIAL, events).value)
            && Run(INITIAL, events).value.units[0].egress != Run(INITIAL, events).value.units[1].egress
  {
    hide Fits, Step, Admissible, Run, Chosen;
    RepeatedSsrcIsReached(client, ingress, ssrc, c, d, x, y);
    TrafficCollides([Local(Chosen(c, ssrc)), Local(Chosen(d, ssrc)), Started(client, ingress, x, c),
                     Started(client, ingress, y, d)], c, d, false, ssrc, m, n, pt);
  }
}
