/** The peer object itself: its methods run the steps of `Peers` on mutable fields. */
module PeerObjects {
  import opened Common
  import opened Peers
  import Msid
  import PayloadTypes
  import opened PeerCalls
  import Ssrcs

  /** What the native library keeps about the handles of one peer. */
  class NativeHandles {
    var pointers: map<int, Channel>
    var retired: set<int>

    constructor ()
      ensures pointers == map[] && retired == {}
    {
      pointers, retired := map[], {};
    }
  }

  datatype Reply<T> = Trap | Throws(error: Error) | Returns(value: T)

  class Peer {
    var channels: set<Channel>
    var dataChannels: set<Channel>
    var tracks: set<Channel>
    const pat: PayloadTypes.PayloadTypeAllocator
    const sa: Ssrcs.SsrcAllocator
    const native: NativeHandles

    ghost function State(): PeerState
      reads this, pat, sa, native
    {
      PeerState(channels, dataChannels, tracks, pat.Value(), sa.used, native.pointers, native.retired)
    }

    ghost predicate Valid()
      reads this, pat, sa, native
    {
      Consistent(State())
    }

    constructor ()
      ensures State() == INITIAL && Valid() && fresh(pat) && fresh(sa) && fresh(native)
    {
      channels, dataChannels, tracks := {}, {}, {};
      pat := new PayloadTypes.PayloadTypeAllocator();
      sa := new Ssrcs.SsrcAllocator();
      native := new NativeHandles();
    }

    /** `first(where:)` on one of the sets. */
    method Find(s: set<Channel>, id: int) returns (c: Option<Channel>)
      ensures c.Some? <==> HasId(s, id)
      ensures c.Some? ==> c.value in s && c.value.id == id
    {
      if exists d :: d in s && d.id == id {
        var d :| d in s && d.id == id;
        return Some(d);
      }
      return None;
    }

    /** The initializer of a wrapper hands the native library a pointer to it. */
    method Wrap(id: int, info: Info) returns (c: Channel)
      modifies native`pointers
      ensures fresh(c) && c.id == id && c.info == info && !c.isOpen && c.keyFrameHandler == null
      ensures native.pointers == old(native.pointers)[id := c]
    {
      c := new Channel(id, info);
      native.pointers := native.pointers[id := c];
    }

    method InsertChannel(c: Channel)
      modifies this`channels
      ensures channels == Insert(old(channels), c)
    {
      var existing := Find(channels, c.id);
      if existing.None? {
        channels := channels + {c};
      }
    }

    method InsertDataChannel(c: Channel)
      modifies this`dataChannels
      ensures dataChannels == Insert(old(dataChannels), c)
    {
      var existing := Find(dataChannels, c.id);
      if existing.None? {
        dataChannels := dataChannels + {c};
      }
    }

    method InsertTrack(c: Channel)
      modifies this`tracks
      ensures tracks == Insert(old(tracks), c)
    {
      var existing := Find(tracks, c.id);
      if existing.None? {
        tracks := tracks + {c};
      }
    }

    method CreateDataChannel(code: int, stream: int, name: string) returns (r: Reply<Channel>)
      requires Valid()
      requires code >= 0 ==> code !in native.retired && !HasId(tracks, code)
      modifies this, native
      ensures Valid()
      ensures code < 0 <==> r == Throws(Native(code)) && State() == old(State())
      ensures code >= 0 ==> r.Returns? && CreateData(old(State()), code, r.value) == Made(State(), r.value)
      ensures code >= 0 ==>
                && r.value.id == code && IsRegistered(State(), r.value)
                && r.value in channels && r.value in dataChannels && native.pointers[code] == r.value
                && Steps(old(State()), CreatedData(code, r.value), State())
      ensures code >= 0 && code in old(native.pointers) ==>
                r.value == old(native.pointers)[code] && State() == old(State())
      ensures code >= 0 && code !in old(native.pointers) ==>
                && fresh(r.value) && r.value.info == DataInfo(stream, name)
                && Adds(old(State()), State(), r.value) && SameNumbers(old(State()), State())
    {
      if code < 0 {
        return Throws(Native(code));
      }
      var existing := Find(dataChannels, code);
      KnownIsRegistered(State(), code);
      if existing.Some? {
        assert existing.value == WithId(dataChannels, code);
        return Returns(existing.value);
      }
      ghost var before := State();
      var chan := Wrap(code, DataInfo(stream, name));
      InsertChannel(chan);
      InsertDataChannel(chan);
      BuildKeeps(before, chan);
      return Returns(chan);
    }

    /** The native data-channel callback. */
    method OnDataChannel(id: int, stream: int, name: string) returns (built: Option<Channel>)
      requires Valid() && id !in native.retired
      modifies this, native
      ensures Valid()
      ensures match built
              case None => State() == old(State()) && HasId(channels, id)
              case Some(c) => c.id == id && !HasId(old(channels), id) && State() == AnnounceData(old(State()), c)
      ensures built.None? <==> id in old(native.pointers)
      ensures built.Some? ==>
                && fresh(built.value) && built.value.info == DataInfo(stream, name)
                && Adds(old(State()), State(), built.value) && IsRegistered(State(), built.value)
                && SameNumbers(old(State()), State()) && Steps(old(State()), AnnouncedData(built.value), State())
    {
      KnownIsRegistered(State(), id);
      var existing := Find(channels, id);
      if existing.Some? {
        return None;
      }
      ghost var before := State();
      var chan := Wrap(id, DataInfo(stream, name));
      InsertChannel(chan);
      InsertDataChannel(chan);
      BuildKeeps(before, chan);
      return Some(chan);
    }

    method ReserveAll(ssrcs: seq<uint32>)
      modifies sa
      ensures sa.used == old(sa.used) + set s | s in ssrcs
    {
      for i := 0 to |ssrcs|
        invariant sa.used == old(sa.used) + set s | s in ssrcs[..i]
      {
        sa.Reserve(ssrcs[i]);
        assert ssrcs[..i + 1] == ssrcs[..i] + [ssrcs[i]];
      }
      assert ssrcs[..|ssrcs|] == ssrcs;
    }

    /** The native track callback, which traps on a description without ids. */
    method OnTrack(id: int, description: string, ssrcs: seq<uint32>) returns (built: Reply<Option<Channel>>)
      requires Valid() && id !in native.retired
      modifies this, sa, native
      ensures match built
              case Trap => Msid.GetMsid(description).None? && !HasId(old(channels), id)
              case Throws(_) => false
              case Returns(None) => State() == old(State()) && HasId(channels, id)
              case Returns(Some(c)) =>
                && fresh(c) && !c.isOpen && c.keyFrameHandler == null
                && c.id == id && !HasId(old(channels), id) && c.info.TrackInfo? && c.info.ssrcs == ssrcs
                && Msid.GetMsid(description).Some? && Carries(c, Msid.GetMsid(description).value)
                && AnnounceTrack(old(State()), description, c) == Some(State())
      ensures built.Returns? ==> Valid()
      ensures built.Trap? <==> id !in old(native.pointers) && Msid.GetMsid(description).None?
      ensures built == Returns(None) <==> id in old(native.pointers)
      ensures built.Returns? && built.value.Some? ==>
                var c := built.value.value;
                && Adds(old(State()), State(), c) && IsRegistered(State(), c)
                && c in channels && c in tracks && native.pointers[id] == c
                && pat.Value() == old(pat.Value())
                && (forall x :: x in sa.used <==> x in old(sa.used) || x in ssrcs)
                && Steps(old(State()), AnnouncedTrack(description, c), State())
    {
      hide Msid.GetMsid, PayloadTypes.Injective;
      KnownIsRegistered(State(), id);
      var existing := Find(channels, id);
      if existing.Some? {
        return Returns(None);
      }
      var msid := Msid.GetMsid(description);
      if msid.None? {
        return Trap;
      }
      ghost var before := State();
      var track := Wrap(id, TrackInfo(msid.value.streamId, msid.value.trackId, ssrcs));
      InsertChannel(track);
      InsertTrack(track);
      ReserveAll(ssrcs);
      BuildKeeps(before, track);
      return Returns(Some(track));
    }

    /** The allocations of a track creation. */
    method Begin(request: TrackRequest, random: nat -> Ssrcs.Draw, start: nat, ghost limit: nat)
      returns (numbers: Option<(int, uint32)>, ghost drawn: Ssrcs.Draw, end: nat)
      requires Valid() && start <= limit && (Draws(State(), request) ==> random(limit) !in sa.used)
      modifies pat, sa
      ensures Valid() && (old(Draws(State(), request)) ==> drawn !in old(sa.used))
      ensures match BeginTrack(old(State()), request, drawn)
              case None => numbers == None && State() == old(State())
              case Some(b) => numbers == Some((b.payloadType, b.ssrc)) && State() == b.after
      ensures numbers.Some? <==> Room(old(pat.Value()), request.key)
      ensures numbers.Some? ==>
                && numbers.value.1 == Wanted(request, drawn) && 97 <= numbers.value.0 <= 127
                && pat.Value().table[request.key] == numbers.value.0
                && Allocated(old(State()), State(), request.key, numbers.value.1)
    {
      drawn, end := random(limit), start;
      ghost var before := State();
      var pt := pat.PayloadType(request.key);
      if pt.None? {
        return None, drawn, end;
      }
      var ssrc: uint32;
      if request.ssrc.Some? {
        ssrc := request.ssrc.value;
        sa.Reserve(ssrc);
      } else {
        ssrc, end := sa.Next(random, start, limit);
        drawn := ssrc;
      }
      numbers := Some((pt.value, ssrc));
      BeginKeeps(before, request, drawn);
      NumbersHandedOut(before, request, drawn);
    }

    method Finish(id: int, request: TrackRequest, ssrc: uint32) returns (chan: Channel)
      requires Valid() && id !in native.retired && !HasId(dataChannels, id) && ssrc in sa.used
      modifies this, native
      ensures Valid() && chan.id == id && chan.info.TrackInfo? && (fresh(chan) || chan in old(tracks))
      ensures FinishTrack(old(State()), chan) == (State(), chan)
      ensures !HasId(old(tracks), id) ==>
                Carries(chan, Msid.Msid(request.streamId, request.trackId)) && chan.info.ssrcs == [ssrc]
      ensures IsRegistered(State(), chan) && chan in channels && chan in tracks && native.pointers[id] == chan
      ensures id in old(native.pointers) ==> chan == old(native.pointers)[id] && State() == old(State())
      ensures id !in old(native.pointers) ==>
                && fresh(chan) && !chan.isOpen && chan.keyFrameHandler == null
                && chan.info == TrackInfo(request.streamId, request.trackId, [ssrc])
                && Adds(old(State()), State(), chan) && SameNumbers(old(State()), State())
    {
      KnownIsRegistered(State(), id);
      var existing := Find(tracks, id);
      if existing.Some? {
        assert existing.value == WithId(tracks, id);
        return existing.value;
      }
      ghost var before := State();
      assert !HasId(channels, id);
      chan := Wrap(id, TrackInfo(request.streamId, request.trackId, [ssrc]));
      InsertChannel(chan);
      InsertTrack(chan);
      BuildKeeps(before, chan);
    }

    /** The ids of a new wrapper: those asked for, unless the library announces the track meanwhile. */
    static function Named(request: TrackRequest, reply: AddReply): Msid.Msid {
      if reply.Added? && reply.announced.Some? && Msid.GetMsid(reply.announced.value).Some?
      then Msid.GetMsid(reply.announced.value).value
      else Msid.Msid(request.streamId, request.trackId)
    }

    /**
     * A track creation. `reply` is what the native library answers; if it announces the track meanwhile, that
     * callback runs between the allocations and the registration.
     */
    method CreateTrack(request: TrackRequest, random: nat -> Ssrcs.Draw, start: nat, ghost limit: nat, reply: AddReply)
      returns (r: Reply<Channel>, ghost drawn: Ssrcs.Draw, end: nat)
      requires Valid() && start <= limit
      requires !HasSpace(request) && Draws(State(), request) ==> random(limit) !in sa.used
      requires reply.Refused? ==> reply.code < 0
      requires reply.Added? ==> reply.id >= 0 && reply.id !in native.retired && !HasId(dataChannels, reply.id)
      modifies this, pat, sa, native
      ensures !r.Trap? ==> Valid() && (old(Draws(State(), request)) ==> drawn !in old(sa.used))
      ensures match r
              case Trap =>
                || HasSpace(request)
                || (reply.Added? && reply.announced.Some? && Msid.GetMsid(reply.announced.value).None?)
              case Throws(error) =>
                && !HasSpace(request)
                && (match BeginTrack(old(State()), request, drawn)
                    case None => error == Exhausted && State() == old(State())
                    case Some(b) => reply.Refused? && error == Native(reply.code) && State() == b.after)
              case Returns(chan) =>
                && chan.info.TrackInfo? && reply.Added? && chan.id == reply.id
                && (fresh(chan) || chan in old(tracks))
                && Peers.CreateTrack(old(State()), request, drawn, reply, chan) == Made(State(), chan)
      ensures r.Trap? <==>
                Blank(request) || (Room(old(pat.Value()), request.key) && Unreadable(old(State()), reply))
      ensures r.Throws? <==> !Blank(request) && (!Room(old(pat.Value()), request.key) || reply.Refused?)
      ensures r.Throws? ==>
                r.error == if Room(old(pat.Value()), request.key) then Native(reply.code) else Exhausted
      ensures r.Throws? && r.error == Exhausted ==> State() == old(State())
      ensures r.Returns? || (r.Throws? && r.error != Exhausted) ==>
                Allocated(old(State()), State(), request.key, Wanted(request, drawn))
      ensures r.Throws? ==> SameRegistry(old(State()), State())
      ensures r.Returns? ==>
                && IsRegistered(State(), r.value) && r.value in channels && r.value in tracks
                && native.pointers[reply.id] == r.value
                && Steps(old(State()), CreatedTrack(request, drawn, reply, r.value), State())
                && if reply.id in old(native.pointers)
                   then r.value == old(native.pointers)[reply.id] && SameRegistry(old(State()), State())
                   else && fresh(r.value) && !r.value.isOpen && r.value.keyFrameHandler == null
                        && Adds(old(State()), State(), r.value)
                        && r.value.info.ssrcs == [Wanted(request, drawn)]
                        && Carries(r.value, Named(request, reply))
    {
      hide Msid.GetMsid, Consistent, Steps, Allocated, Blank, SsrcOf;
      drawn, end := random(limit), start;
      ghost var before := State();
      assert Blank(request) <==> HasSpace(request) by {
        BlankIsSpace(request);
      }
      if HasSpace(request) {
        return Trap, drawn, end;
      }
      var numbers;
      numbers, drawn, end := Begin(request, random, start, limit);
      if numbers.None? {
        return Throws(Exhausted), drawn, end;
      }
      if reply.Refused? {
        return Throws(Native(reply.code)), drawn, end;
      }
      var Added(id, announced) := reply;
      ghost var begun := State();
      if announced.Some? {
        var built := OnTrack(id, announced.value, [numbers.value.1]);
        if built.Trap? {
          return Trap, drawn, end;
        }
      }
      var chan := Finish(id, request, numbers.value.1);
      assert numbers.value.1 == SsrcOf(request, drawn) by {
        SsrcIsWanted(request, drawn);
      }
      CreationSteps(before, request, drawn, reply, chan, State());
      SameAllocated(before, begun, State(), request.key, numbers.value.1);
      r := Returns(chan);
    }

    /** Closing a wrapper takes it out of the registry and retires its handle. */
    method CloseChannel(c: Channel)
      requires Valid() && Wrapped(State(), c)
      modifies this, native`retired
      ensures Valid() && State() == Close(old(State()), c) && Steps(old(State()), Closed(c), State())
      ensures native.retired == old(native.retired) + {c.id} && native.pointers == old(native.pointers)
      ensures channels == old(channels) - {c} && SameNumbers(old(State()), State())
      ensures c !in channels && c !in dataChannels && c !in tracks
    {
      ghost var before := State();
      native.retired := native.retired + {c.id};
      channels := set d | d in channels && d.id != c.id;
      if c.info.DataInfo? {
        dataChannels := set d | d in dataChannels && d.id != c.id;
      } else {
        tracks := set d | d in tracks && d.id != c.id;
      }
      CloseKeeps(before, c);
    }

    /** The native open and closed callbacks reach the registered wrapper of the handle through its user pointer. */
    method OnOpen(id: int, open: bool)
      requires Valid() && id in native.pointers
      modifies native.pointers[id]
      ensures Valid() && State() == old(State())
      ensures forall c | c in channels && c.id == id :: c == native.pointers[id]
      ensures native.pointers[id].isOpen == open
      ensures native.pointers[id].keyFrameHandler == old(native.pointers[id].keyFrameHandler)
    {
      native.pointers[id].isOpen := open;
    }
  }
}
