/** What each call and each callback does to a peer, told by its effects on the registry and the allocators. */
module PeerCalls {
  import opened Common
  import opened Peers
  import Msid
  import PayloadTypes
  import Ssrcs

  /** The event fits, and takes `p` to `q`. */
  ghost predicate Steps(p: PeerState, e: Event, q: PeerState) {
    Fits(p, e) && Step(p, e) == Some(q)
  }

  /** The creation takes `p` to `q` and returns this track. */
  ghost predicate Makes(p: PeerState, request: TrackRequest, drawn: Ssrcs.Draw, reply: AddReply, c: Channel,
                        q: PeerState)
  {
    && c.info.TrackInfo? && Steps(p, CreatedTrack(request, drawn, reply, c), q)
    && CreateTrack(p, request, drawn, reply, c) == Made(q, c)
  }

  lemma CreationSteps(p: PeerState, request: TrackRequest, drawn: Ssrcs.Draw, reply: AddReply, c: Channel, q: PeerState)
    requires FitsRequest(p, request, drawn, reply, c)
    ensures CreateTrack(p, request, drawn, reply, c) == Made(q, c) ==>
              Steps(p, CreatedTrack(request, drawn, reply, c), q)
  {
  }

  /** `q` is `p` with one more wrapper, in all channels, in the set of its kind, and as its handle's user pointer. */
  ghost predicate Adds(p: PeerState, q: PeerState, c: Channel) {
    && q.channels == p.channels + {c}
    && q.dataChannels == p.dataChannels + (if c.info.DataInfo? then {c} else {})
    && q.tracks == p.tracks + (if c.info.TrackInfo? then {c} else {})
    && q.pointers == p.pointers[c.id := c] && q.retired == p.retired
  }

  ghost predicate SameRegistry(p: PeerState, q: PeerState) {
    && q.channels == p.channels && q.dataChannels == p.dataChannels && q.tracks == p.tracks
    && q.pointers == p.pointers && q.retired == p.retired
  }

  ghost predicate SameNumbers(p: PeerState, q: PeerState) {
    q.ssrcs == p.ssrcs && q.payloadTypes == p.payloadTypes
  }

  /** The wrapper of a handle, in the set of its kind. */
  ghost predicate IsRegistered(p: PeerState, c: Channel) {
    && c in p.channels && c.id in p.pointers && p.pointers[c.id] == c
    && (c in p.dataChannels <==> c.info.DataInfo?) && (c in p.tracks <==> c.info.TrackInfo?)
  }

  lemma KnownIsRegistered(p: PeerState, id: int)
    requires Consistent(p) && id !in p.retired
    ensures id in p.pointers <==> HasId(p.channels, id)
    ensures id in p.pointers ==> p.pointers[id].id == id && IsRegistered(p, p.pointers[id])
    ensures forall c | c in p.channels && c.id == id :: c == p.pointers[id]
  {
  }

  /**
   * A data-channel creation: a negative code is thrown and changes nothing, a known handle gives the wrapper it has,
   * a new one the wrapper built for it, which is then registered; the same answer once more gives it again.
   */
  lemma DataCreated(p: PeerState, code: int, c: Channel)
    requires Consistent(p) && Fits(p, CreatedData(code, c))
    ensures code < 0 ==> CreateData(p, code, c) == Failed(p, Native(code))
    ensures code >= 0 ==>
              && CreateData(p, code, c).Made?
              && (var Made(q, chan) := CreateData(p, code, c);
                  && chan.id == code && chan.info.DataInfo? && IsRegistered(q, chan) && SameNumbers(p, q)
                  && (if code in p.pointers then chan == p.pointers[code] && q == p else chan == c && Adds(p, q, c))
                  && forall d :: CreateData(q, code, d) == Made(q, chan))
  {
    if code >= 0 {
      KnownIsRegistered(p, code);
      if code !in p.pointers {
        BuildKeeps(p, c);
      }
      KnownIsRegistered(CreateData(p, code, c).after, code);
    }
  }

  /** A data-channel callback registers a wrapper exactly for an unknown handle. */
  lemma DataAnnounced(p: PeerState, c: Channel)
    requires Consistent(p) && Fits(p, AnnouncedData(c))
    ensures var q := AnnounceData(p, c);
            SameNumbers(p, q) && if c.id in p.pointers then q == p else Adds(p, q, c) && IsRegistered(q, c)
  {
    KnownIsRegistered(p, c.id);
  }

  /** So does a track callback, which then reserves every SSRC of the track, and traps on a description without ids. */
  lemma TrackAnnounced(p: PeerState, description: string, c: Channel)
    requires Consistent(p) && Fits(p, AnnouncedTrack(description, c))
    ensures c.id in p.pointers ==> AnnounceTrack(p, description, c) == Some(p)
    ensures c.id !in p.pointers ==>
              match AnnounceTrack(p, description, c)
              case None => Msid.GetMsid(description) == None
              case Some(q) =>
                && Msid.GetMsid(description).Some? && Carries(c, Msid.GetMsid(description).value)
                && Adds(p, q, c) && IsRegistered(q, c) && q.payloadTypes == p.payloadTypes
                && forall x :: x in q.ssrcs <==> x in p.ssrcs || x in c.info.ssrcs
  {
    KnownIsRegistered(p, c.id);
    hide Msid.GetMsid;
  }

  predicate Blank(request: TrackRequest) {
    || (exists k :: 0 <= k < |request.streamId| && request.streamId[k] == ' ')
    || (exists k :: 0 <= k < |request.trackId| && request.trackId[k] == ' ')
    || (request.mid.Some? && exists k :: 0 <= k < |request.mid.value| && request.mid.value[k] == ' ')
  }

  lemma BlankIsSpace(request: TrackRequest)
    ensures Blank(request) <==> HasSpace(request)
  {
  }

  /** A payload type is known for the key, or one of the 31 is left. */
  predicate Room(s: PayloadTypes.State, key: PayloadTypes.Key) {
    key in s.table || s.next < 127
  }

  /** The announcement that comes with the answer cannot be turned into a wrapper, and there is none yet. */
  predicate Unreadable(p: PeerState, reply: AddReply) {
    && reply.Added? && reply.id !in p.pointers && reply.announced.Some?
    && Msid.GetMsid(reply.announced.value) == None
  }

  /** The SSRC the caller chose, or the one drawn. */
  function Wanted(request: TrackRequest, drawn: Ssrcs.Draw): uint32 {
    if request.ssrc.Some? then request.ssrc.value else drawn
  }

  lemma SsrcIsWanted(request: TrackRequest, drawn: Ssrcs.Draw)
    ensures SsrcOf(request, drawn) == Wanted(request, drawn)
  {
  }

  ghost predicate Allocated(p: PeerState, q: PeerState, key: PayloadTypes.Key, ssrc: uint32) {
    && (forall x :: x in q.ssrcs <==> x in p.ssrcs || x == ssrc)
    && (forall k :: k in q.payloadTypes.table <==> k in p.payloadTypes.table || k == key)
  }

  /** The numbers a creation hands to the native library, and leaves allocated. */
  lemma NumbersHandedOut(p: PeerState, request: TrackRequest, drawn: Ssrcs.Draw)
    requires Consistent(p)
    ensures var begun := BeginTrack(p, request, drawn);
            && (begun.Some? <==> Room(p.payloadTypes, request.key))
            && (begun.Some? ==>
                  var Begun(q, payloadType, ssrc) := begun.value;
                  && ssrc == Wanted(request, drawn) && Allocated(p, q, request.key, ssrc) && SameRegistry(p, q)
                  && q.payloadTypes.table[request.key] == payloadType && 97 <= payloadType <= 127)
  {
    assert Consistent(p) && Room(p.payloadTypes, request.key) ==> Consistent(BeginTrack(p, request, drawn).value.after)
    by {
      if Room(p.payloadTypes, request.key) {
        BeginKeeps(p, request, drawn);
      }
    }
  }

  lemma TrackFails(p: PeerState, request: TrackRequest, drawn: Ssrcs.Draw, reply: AddReply, c: Channel)
    requires Consistent(p) && FitsRequest(p, request, drawn, reply, c)
    ensures var o, room := CreateTrack(p, request, drawn, reply, c), Room(p.payloadTypes, request.key);
            && (o.Trapped? <==> Blank(request) || (room && Unreadable(p, reply)))
            && (o.Failed? <==> !Blank(request) && (!room || reply.Refused?))
            && (o.Failed? && !room ==> o.error == Exhausted && o.after == p)
            && (o.Failed? && room ==>
                  && o.error == Native(reply.code) && SameRegistry(p, o.after)
                  && Allocated(p, o.after, request.key, Wanted(request, drawn)))
  {
    assert Blank(request) <==> HasSpace(request);
    hide Msid.GetMsid, HasSpace, Blank, Allocated, FinishTrack, BuildTrack;
    NumbersHandedOut(p, request, drawn);
    if reply.Added? {
      KnownIsRegistered(p, reply.id);
    }
  }

  lemma TrackMade(p: PeerState, request: TrackRequest, drawn: Ssrcs.Draw, reply: AddReply, c: Channel)
    requires Consistent(p) && FitsRequest(p, request, drawn, reply, c)
    requires CreateTrack(p, request, drawn, reply, c).Made?
    ensures var o, ssrc := CreateTrack(p, request, drawn, reply, c), Wanted(request, drawn);
            && reply.Added? && o.chan.id == reply.id && o.chan.info.TrackInfo? && IsRegistered(o.after, o.chan)
            && Allocated(p, o.after, request.key, ssrc)
            && if reply.id in p.pointers then o.chan == p.pointers[reply.id] && SameRegistry(p, o.after)
               else o.chan == c && Adds(p, o.after, c) && c.info.ssrcs == [ssrc]
  {
    var o, b := CreateTrack(p, request, drawn, reply, c), BeginTrack(p, request, drawn).value.after;
    CreateTrackKeeps(p, request, drawn, reply, c);
    NumbersHandedOut(p, request, drawn);
    BeginKeeps(p, request, drawn);
    hide Msid.GetMsid, HasSpace, BeginTrack, Allocated;
    KnownIsRegistered(p, reply.id);
    KnownIsRegistered(b, reply.id);
    assert Allocated(p, o.after, request.key, Wanted(request, drawn)) by {
      SameAllocated(p, b, o.after, request.key, Wanted(request, drawn));
    }
    KnownIsRegistered(o.after, reply.id);
  }

  lemma SameAllocated(p: PeerState, b: PeerState, q: PeerState, key: PayloadTypes.Key, ssrc: uint32)
    requires Allocated(p, b, key, ssrc)
    requires q.payloadTypes == b.payloadTypes
    requires forall x :: x in q.ssrcs ==> x in b.ssrcs || x == ssrc
    requires forall x | x in b.ssrcs :: x in q.ssrcs
    ensures Allocated(p, q, key, ssrc)
  {
  }

  /**
   * A track creation: when it traps, when it throws which error with what left allocated, and what it registers and
   * returns otherwise.
   */
  lemma TrackCreated(p: PeerState, request: TrackRequest, drawn: Ssrcs.Draw, reply: AddReply, c: Channel)
    requires Consistent(p) && FitsRequest(p, request, drawn, reply, c)
    ensures var o, room := CreateTrack(p, request, drawn, reply, c), Room(p.payloadTypes, request.key);
            match o
            case Trapped => Blank(request) || (room && Unreadable(p, reply))
            case Failed(q, error) =>
              && !Blank(request) && (!room || reply.Refused?)
              && if !room then error == Exhausted && q == p
                 else error == Native(reply.code) && SameRegistry(p, q)
                      && Allocated(p, q, request.key, Wanted(request, drawn))
            case Made(q, chan) =>
              && !Blank(request) && room && reply.Added? && !Unreadable(p, reply)
              && chan.id == reply.id && chan.info.TrackInfo? && IsRegistered(q, chan)
              && Allocated(p, q, request.key, Wanted(request, drawn))
              && if reply.id in p.pointers then chan == p.pointers[reply.id] && SameRegistry(p, q)
                 else chan == c && Adds(p, q, c) && c.info.ssrcs == [Wanted(request, drawn)]
  {
    TrackFails(p, request, drawn, reply, c);
    if CreateTrack(p, request, drawn, reply, c).Made? {
      TrackMade(p, request, drawn, reply, c);
    }
    hide CreateTrack, Consistent, FitsRequest, Blank, Unreadable, Allocated, IsRegistered, Adds, SameRegistry;
  }
}
