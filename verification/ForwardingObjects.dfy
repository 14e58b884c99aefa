/** The forwarding unit as an object: started on an egress peer, fed by its subscription, stopped at the end. */
module ForwardingObjects {
  import opened Common
  import opened Forwarding
  import opened Peers
  import Msid
  import PayloadTypes
  import opened PeerCalls
  import PeerObjects
  import Rtp
  import Ssrcs

  /** The codec configuration every unit asks for. */
  const OPUS := PayloadTypes.Key(PayloadTypes.OPUS, None, 48000, 1)

  function EgressRequest(fromClientId: string, ingress: Info): TrackRequest
    requires ingress.TrackInfo?
  {
    TrackRequest(fromClientId + "." + ingress.streamId, ingress.trackId, None, OPUS, None)
  }

  class Subscription {
    var active: bool

    constructor ()
      ensures active
    {
      active := true;
    }

    method Cancel()
      modifies this
      ensures !active
    {
      active := false;
    }
  }

  /** The unit whose callback is installed on the track, if it is a unit's. */
  function Holder(track: Channel): set<MediaForwardingUnit>
    reads track
  {
    if track.keyFrameHandler is MediaForwardingUnit then {track.keyFrameHandler as MediaForwardingUnit} else {}
  }

  class MediaForwardingUnit {
    const ingressTrack: Channel
    const egressTrack: Channel
    var ssrc: Option<uint32>
    var pt: Option<byte>
    var cancellables: seq<Subscription>
    var forwardedMessageCount: nat
    var lastError: Option<Failure>
    var sent: seq<Bytes>
    var requests: nat

    ghost predicate Valid()
      reads this, cancellables
    {
      && |cancellables| == 1
      && egressTrack.info.TrackInfo? && (egressTrack.info.ssrcs == [] ==> ssrc == None)
    }

    ghost function State(): Forwarder
      requires Valid()
      reads this, cancellables
    {
      Forwarder(ssrc, pt, forwardedMessageCount, lastError, cancellables[0].active, sent)
    }

    constructor (ingressTrack: Channel, egressTrack: Channel)
      requires egressTrack.info.TrackInfo?
      ensures this.ingressTrack == ingressTrack && this.egressTrack == egressTrack
      ensures Valid() && State() == FRESH && requests == 0 && fresh(cancellables)
    {
      this.ingressTrack, this.egressTrack := ingressTrack, egressTrack;
      ssrc, pt, forwardedMessageCount, lastError, sent, requests := None, None, 0, None, [], 0;
      var subscription := new Subscription();
      cancellables := [subscription];
    }

    /**
     * The throwing initializer. The session parameters are the native answers to installing a receiving session on
     * either track. If only the second one fails, no unit exists but the peer keeps the track made for it.
     */
    static method Start(ingress: Channel, fromClientId: string, peer: PeerObjects.Peer,
                        random: nat -> Ssrcs.Draw, start: nat, ghost limit: nat,
                        ingressSession: Option<int>, reply: AddReply, egressSession: Option<int>)
      returns (r: PeerObjects.Reply<MediaForwardingUnit>, ghost drawn: Ssrcs.Draw)
      requires ingress.info.TrackInfo? && peer.Valid() && start <= limit
      requires var request := EgressRequest(fromClientId, ingress.info);
               ingressSession.None? && !HasSpace(request) && Draws(peer.State(), request)
               ==> random(limit) !in peer.sa.used
      requires reply.Refused? ==> reply.code < 0
      requires reply.Added? ==>
                 reply.id >= 0 && reply.id !in peer.native.retired && !HasId(peer.dataChannels, reply.id)
      modifies peer, peer.pat, peer.sa, peer.native, peer.tracks`keyFrameHandler
      ensures !r.Trap? ==> peer.Valid()
      ensures r.Returns? <==>
                && ingressSession.None? && egressSession.None? && !Blank(EgressRequest(fromClientId, ingress.info))
                && Room(old(peer.pat.Value()), OPUS) && reply.Added? && !Unreadable(old(peer.State()), reply)
      ensures r.Trap? <==>
                var request := EgressRequest(fromClientId, ingress.info);
                && ingressSession.None?
                && (Blank(request) || (Room(old(peer.pat.Value()), OPUS) && Unreadable(old(peer.State()), reply)))
      ensures r.Throws? <==>
                || ingressSession.Some?
                || (!Blank(EgressRequest(fromClientId, ingress.info))
                    && (|| !Room(old(peer.pat.Value()), OPUS)
                        || reply.Refused?
                        || (egressSession.Some? && !Unreadable(old(peer.State()), reply))))
      ensures r.Throws? ==>
                r.error == if ingressSession.Some? then Native(ingressSession.value)
                           else if !Room(old(peer.pat.Value()), OPUS) then Exhausted
                           else if reply.Refused? then Native(reply.code)
                           else Native(egressSession.value)
      ensures r.Throws? && (ingressSession.Some? || r.error == Exhausted) ==> peer.State() == old(peer.State())
      ensures r.Throws? && ingressSession.None? && reply.Refused? ==> SameRegistry(old(peer.State()), peer.State())
      ensures r.Throws? ==> forall c | c in old(peer.tracks) :: c.keyFrameHandler == old(c.keyFrameHandler)
      ensures r.Throws? && ingressSession.None? && r.error != Exhausted && reply.Added? ==>
                && drawn !in old(peer.sa.used)
                && exists c :: c in peer.tracks && c.id == reply.id
                     && Makes(old(peer.State()), EgressRequest(fromClientId, ingress.info), drawn, reply, c,
                              peer.State())
      ensures r.Throws? && ingressSession.None? && reply.Refused? && r.error != Exhausted ==>
                && drawn !in old(peer.sa.used)
                && BeginTrack(old(peer.State()), EgressRequest(fromClientId, ingress.info), drawn).Some?
                && BeginTrack(old(peer.State()), EgressRequest(fromClientId, ingress.info), drawn).value.after
                   == peer.State()
      ensures r.Returns? ==>
                var unit, request := r.value, EgressRequest(fromClientId, ingress.info);
                && fresh(unit) && unit.Valid() && unit.State() == FRESH && unit.requests == 0
                && fresh(unit.cancellables[0])
                && unit.ingressTrack == ingress && unit.egressTrack.keyFrameHandler == unit
                && Makes(old(peer.State()), request, drawn, reply, unit.egressTrack, peer.State())
      ensures r.Returns? ==>
                && drawn !in old(peer.sa.used)
                && Allocated(old(peer.State()), peer.State(), PayloadTypes.Key(PayloadTypes.OPUS, None, 48000, 1),
                             drawn)
      ensures r.Returns? ==>
                var c := r.value.egressTrack;
                && c.id == reply.id && c in peer.channels && c in peer.tracks
                && (if reply.id in old(peer.native.pointers)
                    then c == old(peer.native.pointers)[reply.id] && c in old(peer.tracks)
                    else fresh(c) && !c.isOpen && Adds(old(peer.State()), peer.State(), c) && c.info.ssrcs == [drawn])
                && (reply.id !in old(peer.native.pointers) && reply.announced.None? ==>
                      && c.info.streamId == fromClientId + "." + ingress.info.streamId
                      && c.info.trackId == ingress.info.trackId)
                && forall d | d in old(peer.tracks) && d != c :: d.keyFrameHandler == old(d.keyFrameHandler)
    {
      hide Msid.GetMsid, Consistent, Blank, HasSpace, Steps, Adds, CreateTrack, SameRegistry, IsRegistered, Allocated,
        BeginTrack;
      drawn := random(limit);
      if ingressSession.Some? {
        return PeerObjects.Throws(Native(ingressSession.value)), drawn;
      }
      var created, end;
      created, drawn, end := peer.CreateTrack(EgressRequest(fromClientId, ingress.info), random, start, limit, reply);
      if created.Trap? {
        return PeerObjects.Trap, drawn;
      }
      if created.Throws? {
        return PeerObjects.Throws(created.error), drawn;
      }
      var egress := created.value;
      assert egress in peer.tracks;
      if egressSession.Some? {
        return PeerObjects.Throws(Native(egressSession.value)), drawn;
      }
      var unit := new MediaForwardingUnit(ingress, egress);
      egress.keyFrameHandler := unit;
      return PeerObjects.Returns(unit), drawn;
    }

    /** The native send on the egress track. */
    method Send(data: array<byte>, sendError: Option<int>) returns (error: Option<int>)
      modifies this`sent
      ensures error == sendError
      ensures sent == if sendError.None? then old(sent) + [data[..]] else old(sent)
    {
      if sendError.None? {
        sent := sent + [data[..]];
      }
      return sendError;
    }

    /**
     * One value of the ingress track's last message reaches the sink, if the subscription still holds. The first
     * SSRC of the egress track is force-unwrapped, but only once there is something to forward.
     */
    method OnMessage(message: Option<Bytes>, lookup: Result<seq<byte>, int>, sendError: Option<int>)
      returns (trapped: bool)
      requires Valid()
      modifies this
      ensures Valid() && cancellables == old(cancellables) && requests == old(requests)
      ensures trapped <==>
                egressTrack.info.ssrcs == [] && old(State()).subscribed && message.Some? && egressTrack.isOpen
      ensures egressTrack.info.ssrcs == [] ==> State() == old(State())
      ensures egressTrack.info.ssrcs != [] ==>
                State() == Forwarding.Step(old(State()), egressTrack.info.ssrcs,
                                           Message(message, old(egressTrack.isOpen), lookup, sendError))
    {
      if !cancellables[0].active || message.None? || !egressTrack.isOpen {
        return false;
      }
      var data := new byte[|message.value|](i requires 0 <= i < |message.value| => message.value[i]);
      assert data[..] == message.value;
      if ssrc.None? || pt.None? {
        if egressTrack.info.ssrcs == [] {
          return true;
        }
        ssrc := Some(egressTrack.info.ssrcs[0]);
        match lookup {
          case Err(code) =>
            lastError := Some(LookupFailed(code));
            return false;
          case Ok(pts) =>
            pt := if pts == [] then None else Some(pts[0]);
            if pt.None? {
              lastError := Some(NoPayloadType);
              return false;
            }
        }
      }
      Rtp.RewriteSsrc(data, ssrc.value);
      Rtp.RewritePayloadType(data, pt.value);
      var error := Send(data, sendError);
      if error.Some? {
        lastError := Some(SendFailed(error.value));
      } else {
        forwardedMessageCount := forwardedMessageCount + 1;
      }
      return false;
    }

    /** The callback a unit installs on its egress track; `requests` counts what the ingress track is asked for. */
    method AskForKeyFrame()
      modifies this`requests
      ensures requests == old(requests) + if ingressTrack.isOpen then 1 else 0
    {
      if ingressTrack.isOpen {
        requests := requests + 1;
      }
    }

    /** The native key-frame callback of a track runs the callback of the unit that holds it, whichever that is. */
    static method OnKeyFrameRequested(track: Channel)
      modifies Holder(track)`requests
      ensures forall unit | unit in Holder(track) ::
                unit.requests == old(unit.requests) + if unit.ingressTrack.isOpen then 1 else 0
    {
      if track.keyFrameHandler is MediaForwardingUnit {
        var unit := track.keyFrameHandler as MediaForwardingUnit;
        unit.AskForKeyFrame();
      }
    }

    /** Stops for good. Against its comment, this also closes the egress track and drops it from the registry. */
    method StopForwarding(peer: PeerObjects.Peer)
      requires Valid() && peer.Valid() && Wrapped(peer.State(), egressTrack)
      requires cancellables[0] as object !in {peer, peer.pat, peer.sa, peer.native, egressTrack, this}
      modifies cancellables, egressTrack`keyFrameHandler, peer, peer.native`retired
      ensures Valid() && cancellables == old(cancellables)
      ensures State() == old(State()).(subscribed := false)
      ensures egressTrack.keyFrameHandler == null && egressTrack.isOpen == old(egressTrack.isOpen)
      ensures peer.Valid() && peer.State() == Close(old(peer.State()), egressTrack)
    {
      for i := 0 to |cancellables|
        invariant cancellables == old(cancellables)
        invariant forall j | 0 <= j < i :: !cancellables[j].active
        invariant peer.State() == old(peer.State())
        invariant State() == old(State()).(subscribed := cancellables[0].active)
        invariant egressTrack.isOpen == old(egressTrack.isOpen)
      {
        cancellables[i].Cancel();
      }
      egressTrack.keyFrameHandler := null;
      peer.CloseChannel(egressTrack);
    }
  }
}
