/** The objects behind a `System`: what their methods do to a peer and its units is the system's step. */
module SfuObjects {
  import opened Common
  import opened ForwardingObjects
  import opened Sfu
  import F = Forwarding
  import P = Peers
  import PC = PeerCalls
  import PeerObjects
  import Ssrcs

  type Forwarders = seq<MediaForwardingUnit>

  ghost function Parts(units: Forwarders): set<object>
    reads units
  {
    (set u | 0 <= u < |units| :: units[u].egressTrack as object)
    + set u, i | 0 <= u < |units| && 0 <= i < |units[u].cancellables| :: units[u].cancellables[i] as object
  }

  /** The unit whose callback the track holds, in the system's terms. */
  ghost function HolderOf(units: Forwarders, s: System, c: Channel): object? {
    if c in s.handlers && s.handlers[c] < |units| then units[s.handlers[c]] else null
  }

  ghost predicate Shows(unit: MediaForwardingUnit, u: Unit, open: set<Channel>)
    reads unit, unit.cancellables, unit.egressTrack
  {
    && unit.Valid() && unit.egressTrack == u.egress && unit.State() == u.forwarder && unit.requests == u.requests
    && (unit.egressTrack.isOpen <==> unit.egressTrack in open)
  }

  ghost predicate AllShown(units: Forwarders, s: System)
    reads units, Parts(units)
  {
    |units| == |s.units| && forall u | 0 <= u < |units| :: Shows(units[u], s.units[u], s.open)
  }

  ghost predicate Distinct(units: Forwarders)
    reads units
  {
    && (forall u | 0 <= u < |units| :: |units[u].cancellables| == 1)
    && (forall u, v | 0 <= u < v < |units| ::
          units[u] != units[v] && units[u].cancellables[0] != units[v].cancellables[0])
  }

  ghost predicate AllHeld(units: Forwarders, s: System)
    reads Parts(units), units
  {
    forall u | 0 <= u < |units| :: units[u].egressTrack.keyFrameHandler == HolderOf(units, s, units[u].egressTrack)
  }

  /** The units are different objects, with subscriptions of their own, and hold what the system says. */
  ghost predicate Represents(units: Forwarders, s: System)
    reads units, Parts(units)
  {
    AllShown(units, s) && Distinct(units) && AllHeld(units, s)
  }

  /** A packet on the ingress track of unit u. */
  method Deliver(units: Forwarders, ghost s: System, u: nat, message: Option<Bytes>, lookup: Result<seq<byte>, int>,
                 sendError: Option<int>) returns (trapped: bool)
    requires Represents(units, s) && u < |units|
    modifies units[u]
    ensures trapped <==> Step(s, Sfu.Deliver(u, message, lookup, sendError)).None?
    ensures !trapped ==> Represents(units, Step(s, Sfu.Deliver(u, message, lookup, sendError)).value)
  {
    trapped := units[u].OnMessage(message, lookup, sendError);
  }

  /** Whether the track that would be asked for a key frame is open. */
  ghost predicate IngressOpen(c: Channel)
    reads c, Holder(c), set h | h in Holder(c) :: h.ingressTrack
  {
    forall h | h in Holder(c) :: h.ingressTrack.isOpen
  }

  /** The native key-frame callback of a handle: the unit that holds its track is asked, whichever that is. */
  method KeyFrame(units: Forwarders, ghost s: System, id: int, c: Channel)
    requires Represents(units, s) && Coherent(s) && id in s.peer.pointers && s.peer.pointers[id] == c
    requires forall h | h in Holder(c) :: h.egressTrack == c
    modifies Holder(c)`requests
    ensures Represents(units, Step(s, Sfu.KeyFrame(id, old(IngressOpen(c)))).value)
  {
    hide Step, Fits, Coherent, HandlersOk, P.Consistent, UnitOk, Separate;
    ghost var e := Sfu.KeyFrame(id, IngressOpen(c));
    KeyFrameEffect(s, e);
    ghost var t := Step(s, e).value;
    ghost var v := if c in s.handlers then s.handlers[c] else |units|;
    if v < |units| {
      assert units[v].egressTrack == c && Holder(c) == {units[v]};
    } else {
      assert forall u | 0 <= u < |units| :: units[u] !in Holder(c);
    }
    MediaForwardingUnit.OnKeyFrameRequested(c);
    forall u | 0 <= u < |units| ensures Shows(units[u], t.units[u], t.open) {
      assert old(Shows(units[u], s.units[u], s.open));
    }
  }

  lemma KeyFrameEffect(s: System, e: Event)
    requires Coherent(s) && e.KeyFrame? && e.id in s.peer.pointers
    ensures Fits(s, e)
    ensures var c := s.peer.pointers[e.id];
            && (c in s.handlers ==> s.handlers[c] < |s.units| && s.units[s.handlers[c]].egress == c)
            && Step(s, e)
               == Some(if c in s.handlers && e.ingressOpen then s.(units := Asked(s.units, s.handlers[c])) else s)
  {
  }

  /** An open or closed callback on the handle of a track. */
  method Opened(peer: PeerObjects.Peer, units: Forwarders, ghost s: System, id: int, open: bool)
    requires Represents(units, s) && peer.Valid() && peer.State() == s.peer && id in peer.native.pointers
    modifies peer.native.pointers[id]
    ensures peer.Valid() && peer.State() == s.peer
    ensures Represents(units, Step(s, Sfu.Opened(id, open)).value)
  {
    peer.OnOpen(id, open);
  }

  /** Unit u is stopped. */
  method StopUnit(peer: PeerObjects.Peer, units: Forwarders, ghost s: System, u: nat)
    requires Represents(units, s) && Coherent(s) && peer.Valid() && peer.State() == s.peer && u < |units|
    modifies units[u].cancellables, units[u].egressTrack`keyFrameHandler, peer, peer.native`retired
    ensures peer.Valid() && peer.State() == Step(s, Sfu.StopUnit(u)).value.peer
    ensures Represents(units, Step(s, Sfu.StopUnit(u)).value)
  {
    hide Step, Fits, Coherent, P.Consistent, P.Close, StopStep, HolderOf;
    StopEffect(units, s, u);
    ghost var t := StopStep(s, u);
    assert units[u].Valid() && units[u].egressTrack == s.units[u].egress;
    units[u].StopForwarding(peer);
    assert AllShown(units, t) by {
      hide AllHeld;
      forall v | 0 <= v < |units| ensures Shows(units[v], t.units[v], t.open) {
        assert old(Shows(units[v], s.units[v], s.open));
        if v != u {
          assert units[v].cancellables[0] != units[u].cancellables[0];
        }
      }
    }
    hide AllShown, Shows, P.Wrapped;
    assert AllHeld(units, t);
  }

  lemma StopEffect(units: Forwarders, s: System, u: nat)
    requires Coherent(s) && u < |s.units|
    ensures P.Wrapped(s.peer, s.units[u].egress) && Fits(s, Sfu.StopUnit(u))
    ensures Step(s, Sfu.StopUnit(u)) == Some(StopStep(s, u))
    ensures var t, closed := StopStep(s, u), s.units[u].egress;
            && t.peer == P.Close(s.peer, closed) && t.open == s.open && t.handlers == s.handlers - {closed}
            && t.units == s.units[u := s.units[u].(forwarder := s.units[u].forwarder.(subscribed := false))]
            && forall c :: HolderOf(units, t, c) == if c == closed then null else HolderOf(units, s, c)
  {
    assert UnitOk(s.peer, s.units[u]);
  }

  function Asking(fromClientId: string, ingress: Channel): P.TrackRequest
    requires ingress.info.TrackInfo?
  {
    EgressRequest(fromClientId, ingress.info)
  }

  /** The second session fails, and the system is left with the new track but without a unit. */
  ghost predicate LeavesNoUnit(s: System, fromClientId: string, ingress: Channel, drawn: Ssrcs.Draw, reply: P.AddReply,
                               session: Option<int>, c: Channel, q: P.PeerState)
  {
    var e := Sfu.Start(fromClientId, ingress.info, drawn, reply, session, c);
    Fits(s, e) && Step(s, e) == Some(s.(peer := q))
  }

  lemma StartEffect(units: Forwarders, s: System, fromClientId: string, ingress: Channel, drawn: Ssrcs.Draw,
                    reply: P.AddReply, session: Option<int>, c: Channel, q: P.PeerState)
    requires HandlersOk(s) && |units| == |s.units| && ingress.info.TrackInfo?
    requires PC.Makes(s.peer, Asking(fromClientId, ingress), drawn, reply, c, q)
    ensures var e := Sfu.Start(fromClientId, ingress.info, drawn, reply, session, c);
            && Fits(s, e)
            && (session.Some? ==> LeavesNoUnit(s, fromClientId, ingress, drawn, reply, session, c, q))
            && (session.None? ==>
                  && Step(s, e).Some?
                  && (var t := Step(s, e).value;
                      && t.peer == q && t.open == s.open
                      && |t.units| == |s.units| + 1 && (forall v | 0 <= v < |s.units| :: t.units[v] == s.units[v])
                      && t.units[|s.units|].egress == c && t.units[|s.units|].forwarder == F.FRESH
                      && t.units[|s.units|].requests == 0 && t.handlers == s.handlers[c := |s.units|]))
  {
  }

  lemma HoldersAfterStart(units: Forwarders, unit: MediaForwardingUnit, s: System, t: System, c: Channel, d: Channel)
    requires HandlersOk(s) && |units| == |s.units| && t.handlers == s.handlers[c := |s.units|]
    ensures HolderOf(units + [unit], t, d) == if d == c then unit else HolderOf(units, s, d)
  {
    assert (units + [unit])[|units|] == unit;
  }

  lemma ShownWithOneMore(units: Forwarders, unit: MediaForwardingUnit, s: System, t: System)
    requires AllShown(units, s) && t.open == s.open && |t.units| == |s.units| + 1
    requires forall v | 0 <= v < |s.units| :: t.units[v] == s.units[v]
    requires Shows(unit, t.units[|s.units|], t.open)
    ensures AllShown(units + [unit], t)
  {
    hide Shows;
  }

  lemma HandlersFit(s: System)
    requires Coherent(s)
    ensures HandlersOk(s)
  {
  }

  lemma SameHolders(units: Forwarders, s: System, q: P.PeerState)
    ensures forall d: Channel :: HolderOf(units, s.(peer := q), d) == HolderOf(units, s, d)
  {
  }

  /**
   * A unit is started. If it is returned, the units and it represent the system after the start; if the start throws
   * after the ingress session was installed, they represent the system that a start without a unit leaves.
   */
  method Start(peer: PeerObjects.Peer, units: Forwarders, ghost s: System, ingress: Channel, fromClientId: string,
               random: nat -> Ssrcs.Draw, start: nat, ghost limit: nat, ingressSession: Option<int>,
               reply: P.AddReply, egressSession: Option<int>)
    returns (r: PeerObjects.Reply<MediaForwardingUnit>, ghost drawn: Ssrcs.Draw)
    requires Represents(units, s) && Coherent(s) && peer.Valid() && peer.State() == s.peer
    requires reply.Added? && reply.id in s.peer.pointers ==>
               (s.peer.pointers[reply.id].isOpen <==> s.peer.pointers[reply.id] in s.open)
    requires ingress.info.TrackInfo? && start <= limit
    requires var request := Asking(fromClientId, ingress);
             ingressSession.None? && !P.HasSpace(request) && P.Draws(s.peer, request) ==> random(limit) !in s.peer.ssrcs
    requires reply.Refused? ==> reply.code < 0
    requires reply.Added? ==>
               reply.id >= 0 && reply.id !in s.peer.retired && !P.HasId(s.peer.dataChannels, reply.id)
    modifies peer, peer.pat, peer.sa, peer.native, peer.tracks`keyFrameHandler
    ensures r.Returns? ==>
              var e := Sfu.Start(fromClientId, ingress.info, drawn, reply, None, r.value.egressTrack);
              && Fits(s, e) && Step(s, e).Some?
              && Represents(units + [r.value], Step(s, e).value) && peer.State() == Step(s, e).value.peer
    ensures r.Throws? ==> Represents(units, s.(peer := peer.State()))
    ensures r.Throws? && ingressSession.Some? ==> peer.State() == s.peer
    ensures r.Throws? && ingressSession.None? && reply.Added? && r.error != P.Exhausted ==>
              exists c :: LeavesNoUnit(s, fromClientId, ingress, drawn, reply, egressSession, c, peer.State())
  {
    hide Coherent, Fits, Step, P.Consistent, HolderOf, PC.Makes, LeavesNoUnit, PC.Allocated, PC.Blank, PC.Room,
      PC.Unreadable,
      PC.Adds, P.HasSpace, HandlersOk, P.BeginTrack, PC.SameRegistry, EgressRequest, P.HasId;
    assert HandlersOk(s) by {
      HandlersFit(s);
    }
    r, drawn := MediaForwardingUnit.Start(ingress, fromClientId, peer, random, start, limit, ingressSession, reply,
                                          egressSession);
    assert AllShown(units, s) by {
      hide AllHeld;
      forall v | 0 <= v < |units| ensures Shows(units[v], s.units[v], s.open) {
        assert old(Shows(units[v], s.units[v], s.open));
      }
    }
    if r.Returns? {
      ghost var c := r.value.egressTrack;
      StartEffect(units, s, fromClientId, ingress, drawn, reply, None, c, peer.State());
      ghost var t := Step(s, Sfu.Start(fromClientId, ingress.info, drawn, reply, None, c)).value;
      ghost var all := units + [r.value];
      assert Shows(r.value, t.units[|units|], t.open);
      hide Shows;
      ShownWithOneMore(units, r.value, s, t);
      hide AllShown;
      assert Distinct(all);
      hide Distinct;
      assert AllHeld(all, t) by {
        forall v | 0 <= v < |all|
          ensures all[v].egressTrack.keyFrameHandler == HolderOf(all, t, all[v].egressTrack)
        {
          HoldersAfterStart(units, r.value, s, t, c, all[v].egressTrack);
        }
      }
      hide AllHeld;
    } else if r.Throws? {
      SameHolders(units, s, peer.State());
      hide Shows;
      assert AllShown(units, s.(peer := peer.State()));
      hide AllShown;
      assert Distinct(units);
      hide Distinct;
      assert AllHeld(units, s.(peer := peer.State()));
      hide AllHeld;
      if ingressSession.None? && reply.Added? && r.error != P.Exhausted {
        ghost var c :| c in peer.tracks && c.id == reply.id
          && PC.Makes(s.peer, Asking(fromClientId, ingress), drawn, reply, c, peer.State());
        StartEffect(units, s, fromClientId, ingress, drawn, reply, egressSession, c, peer.State());
      }
    }
  }
}
