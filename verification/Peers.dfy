/**
 * One peer connection: its allocators and its registry of channels, driven by local calls and native callbacks, each
 * taken as one atomic step. The native library is an environment; `Fits` states what is assumed of it.
 */
module Peers {
  import opened Common
  import Msid
  import MsidFeeds
  import MsidText
  import PayloadTypes
  import Ssrcs

  datatype Info =
    | DataInfo(stream: int, name: string)
    | TrackInfo(streamId: string, trackId: string, ssrcs: seq<uint32>)

  /** A wrapper object around one native handle. */
  class Channel {
    const id: int
    const info: Info
    var isOpen: bool
    /** Whoever set the key-frame callback last, if anyone holds it. */
    var keyFrameHandler: object?

    constructor (id: int, info: Info)
      ensures this.id == id && this.info == info && !isOpen && keyFrameHandler == null
    {
      this.id, this.info, this.isOpen, this.keyFrameHandler := id, info, false, null;
    }
  }

  // ---------------------------------------------------------------- sets of wrappers: equality is equality of ids

  ghost predicate HasId(s: set<Channel>, id: int) {
    exists c :: c in s && c.id == id
  }

  ghost function WithId(s: set<Channel>, id: int): (c: Channel)
    requires HasId(s, id)
    ensures c in s && c.id == id
  {
    var c :| c in s && c.id == id;
    c
  }

  ghost function Insert(s: set<Channel>, c: Channel): set<Channel> {
    if HasId(s, c.id) then s else s + {c}
  }

  ghost function Remove(s: set<Channel>, id: int): set<Channel> {
    set c | c in s && c.id != id
  }

  ghost function Ids(s: set<Channel>): set<int> {
    set c | c in s :: c.id
  }

  // ---------------------------------------------------------------- state

  /** `pointers` and `retired` are the native side: the user pointer of each handle, and the handles closed so far. */
  datatype PeerState = PeerState(
    channels: set<Channel>,
    dataChannels: set<Channel>,
    tracks: set<Channel>,
    payloadTypes: PayloadTypes.State,
    ssrcs: set<uint32>,
    pointers: map<int, Channel>,
    retired: set<int>)

  const INITIAL := PeerState({}, {}, {}, PayloadTypes.INITIAL, {}, map[], {})

  datatype TrackRequest = TrackRequest(
    streamId: string,
    trackId: string,
    mid: Option<string>,
    key: PayloadTypes.Key,
    ssrc: Option<uint32>)

  /** The native answer to adding a track; the track callback may already run for it before the call returns. */
  datatype AddReply = Refused(code: int) | Added(id: int, announced: Option<string>)

  datatype Error = Exhausted | Native(code: int)

  datatype Outcome =
    | Trapped
    | Failed(after: PeerState, error: Error)
    | Made(after: PeerState, chan: Channel)

  // ---------------------------------------------------------------- steps

  ghost function BuildData(p: PeerState, c: Channel): PeerState {
    p.(channels := Insert(p.channels, c), dataChannels := Insert(p.dataChannels, c), pointers := p.pointers[c.id := c])
  }

  ghost function BuildTrack(p: PeerState, c: Channel): PeerState {
    p.(channels := Insert(p.channels, c), tracks := Insert(p.tracks, c), pointers := p.pointers[c.id := c])
  }

  ghost function CreateData(p: PeerState, code: int, c: Channel): Outcome {
    if code < 0 then Failed(p, Native(code))
    else if HasId(p.dataChannels, code) then Made(p, WithId(p.dataChannels, code))
    else Made(BuildData(p, c), c)
  }

  ghost function AnnounceData(p: PeerState, c: Channel): PeerState {
    if HasId(p.channels, c.id) then p else BuildData(p, c)
  }

  /** `None`: the description holds no ids, and the forced unwrapping of the parse traps. */
  ghost function AnnounceTrack(p: PeerState, description: string, c: Channel): Option<PeerState>
    requires c.info.TrackInfo?
  {
    if HasId(p.channels, c.id) then Some(p)
    else if Msid.GetMsid(description).None? then None
    else Some(BuildTrack(p, c).(ssrcs := p.ssrcs + set s | s in c.info.ssrcs))
  }

  predicate HasSpace(request: TrackRequest) {
    ' ' in request.streamId || ' ' in request.trackId || (request.mid.Some? && ' ' in request.mid.value)
  }

  datatype Begun = Begun(after: PeerState, payloadType: int, ssrc: uint32)

  function SsrcOf(request: TrackRequest, drawn: Ssrcs.Draw): uint32 {
    match request.ssrc
    case Some(ssrc) => ssrc
    case None => drawn
  }

  /** Whether these allocations take a number from the generator. */
  ghost predicate Draws(p: PeerState, request: TrackRequest) {
    request.ssrc.None? && PayloadTypes.Request(p.payloadTypes, request.key).1.Some?
  }

  /** The allocations a track creation makes before it asks the native library; `None`: payload types exhausted. */
  ghost function BeginTrack(p: PeerState, request: TrackRequest, drawn: Ssrcs.Draw): Option<Begun> {
    var (payloadTypes, pt) := PayloadTypes.Request(p.payloadTypes, request.key);
    if pt.None? then None
    else
      var ssrc := SsrcOf(request, drawn);
      Some(Begun(p.(payloadTypes := payloadTypes, ssrcs := p.ssrcs + {ssrc}), pt.value, ssrc))
  }

  /** The registration it makes afterwards, unless the wrapper already exists. */
  ghost function FinishTrack(p: PeerState, c: Channel): (r: (PeerState, Channel)) {
    if HasId(p.tracks, c.id) then (p, WithId(p.tracks, c.id)) else (BuildTrack(p, c), c)
  }

  ghost function AnnouncedMeanwhile(p: PeerState, announced: Option<string>, c: Channel): Option<PeerState>
    requires c.info.TrackInfo?
  {
    match announced
    case None => Some(p)
    case Some(description) => AnnounceTrack(p, description, c)
  }

  ghost function CreateTrack(p: PeerState, request: TrackRequest, drawn: Ssrcs.Draw, reply: AddReply, c: Channel)
    : Outcome
    requires c.info.TrackInfo?
  {
    if HasSpace(request) then Trapped
    else match BeginTrack(p, request, drawn)
      case None => Failed(p, Exhausted)
      case Some(begun) =>
        match reply
        case Refused(code) => Failed(begun.after, Native(code))
        case Added(_, announced) =>
          match AnnouncedMeanwhile(begun.after, announced, c)
          case None => Trapped
          case Some(q) => var (after, chan) := FinishTrack(q, c); Made(after, chan)
  }

  ghost function Close(p: PeerState, c: Channel): PeerState {
    p.(channels := Remove(p.channels, c.id),
       dataChannels := if c.info.DataInfo? then Remove(p.dataChannels, c.id) else p.dataChannels,
       tracks := if c.info.TrackInfo? then Remove(p.tracks, c.id) else p.tracks,
       retired := p.retired + {c.id})
  }

  /** Every event names the wrapper that is built for its handle, should the step build one. */
  datatype Event =
    | CreatedData(code: int, c: Channel)
    | CreatedTrack(request: TrackRequest, drawn: Ssrcs.Draw, reply: AddReply, c: Channel)
    | AnnouncedData(c: Channel)
    | AnnouncedTrack(description: string, c: Channel)
    | Closed(c: Channel)

  /** `None`: the process trapped. */
  ghost function Step(p: PeerState, e: Event): Option<PeerState>
    requires Fits(p, e)
  {
    match e
    case CreatedData(code, c) => Some(CreateData(p, code, c).after)
    case CreatedTrack(request, drawn, reply, c) =>
      (match CreateTrack(p, request, drawn, reply, c)
       case Trapped => None
       case Failed(after, _) => Some(after)
       case Made(after, _) => Some(after))
    case AnnouncedData(c) => Some(AnnounceData(p, c))
    case AnnouncedTrack(description, c) => AnnounceTrack(p, description, c)
    case Closed(c) => Some(Close(p, c))
  }

  /**
   * What is assumed of the native library: a handle is never of both kinds, a closed handle does not come back, and
   * a locally added track reports exactly its own SSRC. The other conditions say what the named wrapper looks like
   * and that a drawn number is one `Ssrcs.SsrcAllocator.Next` can return.
   */
  ghost predicate Fits(p: PeerState, e: Event) {
    match e
    case CreatedData(code, c) =>
      code >= 0 ==> c.id == code && c.info.DataInfo? && code !in p.retired && !HasId(p.tracks, code)
    case CreatedTrack(request, drawn, reply, c) => FitsRequest(p, request, drawn, reply, c)
    case AnnouncedData(c) => c.info.DataInfo? && c.id !in p.retired
    case AnnouncedTrack(description, c) =>
      && c.info.TrackInfo? && c.id !in p.retired
      && (var id := Msid.GetMsid(description); id.Some? ==> Carries(c, id.value))
    case Closed(c) => Wrapped(p, c)
  }

  /** The peer built this wrapper, so its handle's user pointer is this object. */
  predicate Wrapped(p: PeerState, c: Channel) {
    c.id in p.pointers && p.pointers[c.id] == c
  }

  predicate Carries(c: Channel, id: Msid.Msid) {
    c.info.TrackInfo? && c.info.streamId == id.streamId && c.info.trackId == id.trackId
  }

  ghost predicate FitsRequest(p: PeerState, request: TrackRequest, drawn: Ssrcs.Draw, reply: AddReply, c: Channel) {
    && c.info.TrackInfo?
    && (!HasSpace(request) && Draws(p, request) ==> drawn !in p.ssrcs)
    && match reply
       case Refused(code) => code < 0
       case Added(id, announced) =>
         && id >= 0 && c.id == id && id !in p.retired && !HasId(p.dataChannels, id)
         && (!HasId(p.tracks, id) ==>
               && c.info.ssrcs == [SsrcOf(request, drawn)]
               && (match announced
                   case None => Carries(c, Msid.Msid(request.streamId, request.trackId))
                   case Some(description) =>
                     var parsed := Msid.GetMsid(description);
                     parsed.Some? ==> Carries(c, parsed.value)))
  }

  // ---------------------------------------------------------------- the invariant

  ghost predicate Consistent(p: PeerState) {
    && p.channels == p.dataChannels + p.tracks
    && (forall c | c in p.dataChannels :: c.info.DataInfo?)
    && (forall c | c in p.tracks :: c.info.TrackInfo? && forall s | s in c.info.ssrcs :: s in p.ssrcs)
    && (forall c | c in p.channels :: c.id in p.pointers && p.pointers[c.id] == c && c.id !in p.retired)
    && (forall id | id in p.pointers :: p.pointers[id].id == id && (p.pointers[id] in p.channels || id in p.retired))
    && PayloadTypes.Injective(p.payloadTypes)
  }

  /** The invariant in the registry's own terms. */
  lemma RegistryPartition(p: PeerState)
    requires Consistent(p)
    ensures Ids(p.channels) == Ids(p.dataChannels) + Ids(p.tracks) && Ids(p.dataChannels) !! Ids(p.tracks)
    ensures forall c, d | c in p.channels && d in p.channels && c.id == d.id :: c == d
    ensures forall c | c in p.channels :: c.id in p.pointers && p.pointers[c.id] == c
    ensures forall c | c in p.dataChannels || c in p.tracks :: c in p.channels
  {
    assert forall c, d | c in p.channels && d in p.channels && c.id == d.id ::
      c == p.pointers[c.id] && d == p.pointers[d.id];
  }

  lemma BuildKeeps(p: PeerState, c: Channel)
    requires Consistent(p) && !HasId(p.channels, c.id) && c.id !in p.retired
    ensures c.info.DataInfo? ==> Consistent(BuildData(p, c))
    ensures c.info.TrackInfo? ==>
              var q := BuildTrack(p, c).(ssrcs := p.ssrcs + set s | s in c.info.ssrcs); Consistent(q)
    ensures c.info.TrackInfo? && (forall s | s in c.info.ssrcs :: s in p.ssrcs) ==> Consistent(BuildTrack(p, c))
    ensures c.id !in p.pointers
  {
    assert c.id !in p.pointers;
    assert c in {c};
  }

  lemma CloseKeeps(p: PeerState, c: Channel)
    requires Consistent(p) && Wrapped(p, c)
    ensures Consistent(Close(p, c)) && !HasId(Close(p, c).channels, c.id)
  {
    var q := Close(p, c);
    forall d | d in p.channels && d.id == c.id ensures d == c {
    }
    assert q.channels == q.dataChannels + q.tracks;
  }

  lemma BeginKeeps(p: PeerState, request: TrackRequest, drawn: Ssrcs.Draw)
    requires Consistent(p) && BeginTrack(p, request, drawn).Some?
    ensures Consistent(BeginTrack(p, request, drawn).value.after)
  {
    PayloadTypes.RequestKeeps(p.payloadTypes, request.key);
  }

  lemma AnnounceTrackKeeps(p: PeerState, description: string, c: Channel)
    requires Consistent(p) && c.info.TrackInfo? && c.id !in p.retired
    requires AnnounceTrack(p, description, c).Some?
    ensures var q := AnnounceTrack(p, description, c).value;
            Consistent(q) && (HasId(q.dataChannels, c.id) ==> HasId(p.dataChannels, c.id))
  {
    hide Consistent;
    if !HasId(p.channels, c.id) {
      BuildKeeps(p, c);
    }
  }

  lemma CreateTrackKeeps(p: PeerState, request: TrackRequest, drawn: Ssrcs.Draw, reply: AddReply, c: Channel)
    requires Consistent(p) && FitsRequest(p, request, drawn, reply, c)
    ensures var o := CreateTrack(p, request, drawn, reply, c); !o.Trapped? ==> Consistent(o.after)
  {
    var begun := BeginTrack(p, request, drawn);
    if begun.Some? {
      var b := begun.value.after;
      BeginKeeps(p, request, drawn);
      if reply.Added? {
        var q := AnnouncedMeanwhile(b, reply.announced, c);
        if q.Some? {
          if reply.announced.Some? {
            AnnounceTrackKeeps(b, reply.announced.value, c);
          }
          if !HasId(q.value.tracks, c.id) {
            assert !HasId(q.value.channels, c.id);
            BuildKeeps(q.value, c);
          }
        }
      }
    }
  }

  /** Every atomic step keeps the invariant, whatever the native library answers. */
  lemma StepKeeps(p: PeerState, e: Event)
    requires Consistent(p) && Fits(p, e) && Step(p, e).Some?
    ensures Consistent(Step(p, e).value)
  {
    match e
    case CreatedData(code, c) =>
      if code >= 0 && !HasId(p.dataChannels, code) {
        assert !HasId(p.channels, c.id);
        BuildKeeps(p, c);
      }
    case CreatedTrack(request, drawn, reply, c) => CreateTrackKeeps(p, request, drawn, reply, c);
    case AnnouncedData(c) =>
      if !HasId(p.channels, c.id) {
        BuildKeeps(p, c);
      }
    case AnnouncedTrack(description, c) => AnnounceTrackKeeps(p, description, c);
    case Closed(c) => CloseKeeps(p, c);
  }

  // ---------------------------------------------------------------- runs

  /** What no step takes back: SSRCs and payload types stay allocated, a handle keeps its first wrapper. */
  ghost predicate Grows(p: PeerState, q: PeerState) {
    && (forall s | s in p.ssrcs :: s in q.ssrcs)
    && (forall k | k in p.payloadTypes.table ::
          k in q.payloadTypes.table && q.payloadTypes.table[k] == p.payloadTypes.table[k])
    && (forall id | id in p.pointers :: id in q.pointers && q.pointers[id] == p.pointers[id])
    && (forall id | id in p.retired :: id in q.retired)
  }

  lemma StepGrows(p: PeerState, e: Event)
    requires Consistent(p) && Fits(p, e) && Step(p, e).Some?
    ensures Grows(p, Step(p, e).value)
  {
    hide PayloadTypes.Injective, PayloadTypes.Request;
    if e.CreatedTrack? {
      PayloadTypes.RequestKeeps(p.payloadTypes, e.request.key);
    }
    assert !HasId(p.channels, e.c.id) && e.c.id !in p.retired ==> e.c.id !in p.pointers;
  }

  /** The environment's answers fit along the whole run, up to a trap if there is one. */
  ghost predicate Admissible(p: PeerState, events: seq<Event>)
    decreases |events|
  {
    events != [] ==>
      && Fits(p, events[0])
      && (Step(p, events[0]).Some? ==> Admissible(Step(p, events[0]).value, events[1..]))
  }

  ghost function Run(p: PeerState, events: seq<Event>): Option<PeerState>
    requires Admissible(p, events)
    decreases |events|
  {
    if events == [] then Some(p)
    else match Step(p, events[0])
      case None => None
      case Some(q) => Run(q, events[1..])
  }

  /** The registry invariant holds after every run, and nothing allocated or wrapped on the way is ever taken back. */
  lemma {:induction false} RunKeeps(p: PeerState, events: seq<Event>)
    requires Consistent(p) && Admissible(p, events) && Run(p, events).Some?
    ensures Consistent(Run(p, events).value) && Grows(p, Run(p, events).value)
    decreases |events|
  {
    hide Consistent, Step, Fits;
    if events != [] {
      StepKeeps(p, events[0]);
      StepGrows(p, events[0]);
      RunKeeps(Step(p, events[0]).value, events[1..]);
    }
  }

  lemma EveryRunIsConsistent(events: seq<Event>)
    requires Admissible(INITIAL, events) && Run(INITIAL, events).Some?
    ensures Consistent(Run(INITIAL, events).value)
  {
    RunKeeps(INITIAL, events);
  }

  // ---------------------------------------------------------------- failures

  /**
   * A failed creation leaves the registry and every user pointer alone. Exhaustion changes nothing at all; a refusal
   * keeps the numbers it was made with allocated.
   */
  lemma FailureLeavesRegistry(p: PeerState, request: TrackRequest, drawn: Ssrcs.Draw, reply: AddReply, c: Channel)
    requires c.info.TrackInfo? && CreateTrack(p, request, drawn, reply, c).Failed?
    ensures var Failed(after, error) := CreateTrack(p, request, drawn, reply, c);
            && (after.channels, after.dataChannels, after.tracks, after.pointers, after.retired)
               == (p.channels, p.dataChannels, p.tracks, p.pointers, p.retired)
            && (error.Exhausted? <==> PayloadTypes.Request(p.payloadTypes, request.key).1.None?)
            && (error.Exhausted? ==> after == p)
            && (error.Native? ==> SsrcOf(request, drawn) in after.ssrcs && request.key in after.payloadTypes.table)
  {
  }

  /** The numbers a creation is made with, whether or not the native library then refuses it. */
  ghost predicate Allocates(p: PeerState, e: Event) {
    e.CreatedTrack? && !HasSpace(e.request) && BeginTrack(p, e.request, e.drawn).Some?
  }

  ghost predicate Fails(p: PeerState, e: Event)
    requires Fits(p, e)
  {
    match e
    case CreatedData(code, c) => CreateData(p, code, c).Failed?
    case CreatedTrack(request, drawn, reply, c) => CreateTrack(p, request, drawn, reply, c).Failed?
    case _ => false
  }

  /** A run of creations, none of which succeeds. */
  ghost predicate OnlyFailures(p: PeerState, events: seq<Event>)
    requires Admissible(p, events)
    decreases |events|
  {
    events != [] ==> Fails(p, events[0]) && OnlyFailures(Step(p, events[0]).value, events[1..])
  }

  /** Those among them that had numbers allocated when the native library refused the track. */
  ghost function Refusals(p: PeerState, events: seq<Event>): seq<Event>
    requires Admissible(p, events) && OnlyFailures(p, events)
    decreases |events|
  {
    if events == [] then []
    else (if Allocates(p, events[0]) then [events[0]] else []) + Refusals(Step(p, events[0]).value, events[1..])
  }

  /**
   * However many creations fail, the registry and all user pointers stay as they were; the SSRCs and payload types
   * of the refused ones are all that remains, so that running out of payload types costs no SSRC.
   */
  lemma {:induction false} FailuresLeaveRegistry(p: PeerState, events: seq<Event>)
    requires Admissible(p, events) && OnlyFailures(p, events)
    ensures Run(p, events).Some?
    ensures var q, refused := Run(p, events).value, Refusals(p, events);
            && (q.channels, q.dataChannels, q.tracks, q.pointers, q.retired)
               == (p.channels, p.dataChannels, p.tracks, p.pointers, p.retired)
            && (forall e | e in refused :: e.CreatedTrack?)
            && q.ssrcs == p.ssrcs + (set e | e in refused :: SsrcOf(e.request, e.drawn))
            && q.payloadTypes.table.Keys == p.payloadTypes.table.Keys + (set e | e in refused :: e.request.key)
    decreases |events|
  {
    if events != [] {
      var e, q := events[0], Step(p, events[0]).value;
      FailureEffect(p, e);
      hide Fits, Step, Fails, Allocates;
      FailuresLeaveRegistry(q, events[1..]);
      var rest := Refusals(q, events[1..]);
      if Allocates(p, e) {
        assert Refusals(p, events) == [e] + rest;
        assert forall x :: x in [e] + rest <==> x == e || x in rest;
      } else {
        assert Refusals(p, events) == rest;
      }
    }
  }

  lemma FailureEffect(p: PeerState, e: Event)
    requires Fits(p, e) && Fails(p, e)
    ensures Step(p, e).Some?
    ensures var q := Step(p, e).value;
            && (q.channels, q.dataChannels, q.tracks, q.pointers, q.retired)
               == (p.channels, p.dataChannels, p.tracks, p.pointers, p.retired)
            && (Allocates(p, e) ==>
                  && e.CreatedTrack?
                  && q.ssrcs == p.ssrcs + {SsrcOf(e.request, e.drawn)}
                  && q.payloadTypes.table.Keys == p.payloadTypes.table.Keys + {e.request.key})
            && (!Allocates(p, e) ==> q == p)
  {
  }

  /**
   * No number is ever issued twice: with any run between them, two creations draw different SSRCs, and get equal
   * payload types exactly for equal keys, even if the first creation failed.
   */
  lemma NumbersAreNotReissued(p: PeerState, e: Event, events: seq<Event>, f: Event)
    requires Consistent(p) && Admissible(p, [e] + events + [f]) && Run(p, [e] + events + [f]).Some?
    requires Allocates(p, e)
    ensures Admissible(p, [e] + events) && Run(p, [e] + events).Some?
    ensures var q := Run(p, [e] + events).value;
            Allocates(q, f) ==>
              && (f.request.ssrc.None? ==> f.drawn != SsrcOf(e.request, e.drawn))
              && (e.request.key == f.request.key <==>
                    BeginTrack(p, e.request, e.drawn).value.payloadType
                    == BeginTrack(q, f.request, f.drawn).value.payloadType)
  {
    hide Consistent, Fits, Step, BeginTrack;
    RunSplits(p, [e] + events, [f]);
    var q := Run(p, [e] + events).value;
    assert ([e] + events)[1..] == events;
    StepKeeps(p, e);
    AllocationIsRecorded(p, e);
    RunKeeps(Step(p, e).value, events);
    assert Fits(q, f) by {
      assert [f][0] == f;
    }
    if Allocates(q, f) {
      AllocationIsNew(q, f, e.request.key);
    }
  }

  lemma AllocationIsRecorded(p: PeerState, e: Event)
    requires Fits(p, e) && Step(p, e).Some? && Allocates(p, e)
    ensures var q, b := Step(p, e).value, BeginTrack(p, e.request, e.drawn).value;
            && SsrcOf(e.request, e.drawn) in q.ssrcs
            && e.request.key in q.payloadTypes.table
            && q.payloadTypes.table[e.request.key] == b.payloadType
  {
  }

  lemma AllocationIsNew(p: PeerState, e: Event, key: PayloadTypes.Key)
    requires Consistent(p) && Fits(p, e) && Allocates(p, e) && key in p.payloadTypes.table
    ensures e.request.ssrc.None? ==> e.drawn !in p.ssrcs
    ensures BeginTrack(p, e.request, e.drawn).value.payloadType == p.payloadTypes.table[key] <==> e.request.key == key
  {
    PayloadTypes.RequestKeeps(p.payloadTypes, e.request.key);
  }

  lemma {:induction false} RunSplits(p: PeerState, before: seq<Event>, after: seq<Event>)
    requires Admissible(p, before + after) && Run(p, before + after).Some?
    ensures Admissible(p, before) && Run(p, before).Some?
    ensures Admissible(Run(p, before).value, after)
    ensures Run(Run(p, before).value, after) == Run(p, before + after)
    decreases |before|
  {
    hide Fits, Step;
    if before == [] {
      assert before + after == after;
    } else {
      assert (before + after)[1..] == before[1..] + after;
      RunSplits(Step(p, before[0]).value, before[1..], after);
    }
  }

  // ---------------------------------------------------------------- creation and announcement in either order

  /**
   * The native library announces a track while it is being added, or only afterwards. If its description names the
   * requested ids and it reports its own SSRC, both orders end in the same state, with one and the same wrapper.
   */
  lemma CreateAnnounceConfluence(p: PeerState, request: TrackRequest, drawn: Ssrcs.Draw, description: string,
                                 c: Channel)
    requires Consistent(p) && BeginTrack(p, request, drawn).Some? && !HasId(p.channels, c.id)
    requires Msid.GetMsid(description) == Some(Msid.Msid(request.streamId, request.trackId))
    requires Carries(c, Msid.Msid(request.streamId, request.trackId)) && c.info.ssrcs == [SsrcOf(request, drawn)]
    ensures var b := BeginTrack(p, request, drawn).value.after;
            && AnnounceTrack(b, description, c).Some?
            && (var announcedFirst := FinishTrack(AnnounceTrack(b, description, c).value, c);
                var createdFirst := FinishTrack(b, c);
                && AnnounceTrack(createdFirst.0, description, c) == Some(createdFirst.0)
                && createdFirst == announcedFirst && createdFirst.1 == c)
  {
    var b := BeginTrack(p, request, drawn).value.after;
    var a := AnnounceTrack(b, description, c).value;
    assert b.ssrcs + (set s | s in c.info.ssrcs) == b.ssrcs;
    assert a == BuildTrack(b, c);
    assert c in a.tracks && c in a.channels;
    forall d | d in a.tracks && d.id == c.id ensures d == c {
      assert d in p.tracks ==> d in p.channels;
    }
  }

  function Requested(request: TrackRequest): Msid.Msid {
    Msid.Msid(request.streamId, request.trackId)
  }

  /** A description that prints the requested ids on a line of their own, behind other lines and before anything. */
  function Printed(before: seq<Msid.Line>, request: TrackRequest, rest: string): string {
    Msid.Render(before, Msid.MsidLine(Requested(request)) + rest)
  }

  /** In terms of the text: it is enough that the description prints ids that survive. */
  lemma CreateAnnounceByText(p: PeerState, request: TrackRequest, drawn: Ssrcs.Draw, before: seq<Msid.Line>,
                             rest: string, c: Channel)
    requires Consistent(p) && BeginTrack(p, request, drawn).Some? && !HasId(p.channels, c.id)
    requires MsidText.Preamble(before) && MsidFeeds.Follows(rest) && MsidText.Survives(Requested(request), rest)
    requires Carries(c, Requested(request)) && c.info.ssrcs == [SsrcOf(request, drawn)]
    ensures var b, description := BeginTrack(p, request, drawn).value.after, Printed(before, request, rest);
            && AnnounceTrack(b, description, c).Some?
            && FinishTrack(AnnounceTrack(b, description, c).value, c) == FinishTrack(b, c)
            && AnnounceTrack(FinishTrack(b, c).0, description, c) == Some(FinishTrack(b, c).0)
  {
    MsidText.SurvivingIdsAreRead(before, Requested(request), rest);
    CreateAnnounceConfluence(p, request, drawn, Printed(before, request, rest), c);
  }

  /** The track is announced while it is being added, with wrapper `a`, or only later, with wrapper `c` made first. */
  ghost predicate BothOrders(p: PeerState, request: TrackRequest, drawn: Ssrcs.Draw, description: string, a: Channel,
                             c: Channel)
  {
    && Consistent(p) && !HasSpace(request) && BeginTrack(p, request, drawn).Some?
    && !HasId(p.channels, c.id) && a.id == c.id
    && FitsRequest(p, request, drawn, Added(c.id, Some(description)), a)
    && FitsRequest(p, request, drawn, Added(c.id, None), c)
  }

  ghost function AnnouncedFirst(p: PeerState, request: TrackRequest, drawn: Ssrcs.Draw, description: string,
                                a: Channel): Outcome
    requires a.info.TrackInfo?
  {
    CreateTrack(p, request, drawn, Added(a.id, Some(description)), a)
  }

  ghost function CreatedFirst(p: PeerState, request: TrackRequest, drawn: Ssrcs.Draw, c: Channel): Outcome
    requires c.info.TrackInfo?
  {
    CreateTrack(p, request, drawn, Added(c.id, None), c)
  }

  /** On a new peer this is any request that passes the guard, under any answer that names a handle. */
  lemma NewPeerAllowsBothOrders(request: TrackRequest, drawn: Ssrcs.Draw, description: string, a: Channel, c: Channel)
    requires !HasSpace(request) && a.id == c.id && c.id >= 0
    requires Carries(c, Requested(request)) && c.info.ssrcs == [SsrcOf(request, drawn)]
    requires a.info.TrackInfo? && a.info.ssrcs == [SsrcOf(request, drawn)]
    requires var id := Msid.GetMsid(description); id.Some? ==> Carries(a, id.value)
    ensures BothOrders(INITIAL, request, drawn, description, a, c)
  {
    hide Msid.GetMsid;
  }

  /** What either order gives: the wrapper created first has the requested ids, the announced one the parsed ids. */
  lemma OrderOutcomes(p: PeerState, request: TrackRequest, drawn: Ssrcs.Draw, description: string, a: Channel,
                      c: Channel)
    requires BothOrders(p, request, drawn, description, a, c)
    ensures var created, announced := CreatedFirst(p, request, drawn, c),
                                      AnnouncedFirst(p, request, drawn, description, a);
            && created.Made? && created.chan == c && Carries(c, Requested(request))
            && AnnounceTrack(created.after, description, a) == Some(created.after)
            && (match Msid.GetMsid(description)
                case None => announced.Trapped?
                case Some(id) => announced.Made? && announced.chan == a && Carries(a, id))
            && c.info.ssrcs == a.info.ssrcs
  {
    hide Msid.GetMsid;
    var b := BeginTrack(p, request, drawn).value.after;
    assert !HasId(p.tracks, c.id);
    assert c in BuildTrack(b, c).channels;
    if Msid.GetMsid(description).Some? {
      var q := AnnounceTrack(b, description, a).value;
      assert a in q.tracks;
      forall d | d in q.tracks && d.id == a.id ensures d == a {
        assert d in p.tracks ==> d in p.channels;
      }
    }
  }

  /**
   * For a description that prints the requested ids, announcing the track before or after its creation ends gives a
   * wrapper with the same data exactly if these ids come back from the description. The guard of track creation does
   * not see to that. (The text behind the ids matters only if they open with a line break.)
   */
  lemma OrdersAgreeExactly(p: PeerState, request: TrackRequest, drawn: Ssrcs.Draw, before: seq<Msid.Line>,
                           rest: string, a: Channel, c: Channel)
    requires MsidText.Preamble(before) && MsidFeeds.Follows(rest)
    requires BothOrders(p, request, drawn, Printed(before, request, rest), a, c)
    ensures var announced := AnnouncedFirst(p, request, drawn, Printed(before, request, rest), a);
            var created := CreatedFirst(p, request, drawn, c);
            var agree := announced.Made? && announced.chan.info == created.chan.info;
            var id := Requested(request);
            && created.Made?
            && (agree <==> Msid.GetMsid(Printed(before, request, rest)) == Some(id))
            && (!MsidText.Deferred(id) || MsidFeeds.NoStrayReturn(rest) ==> (agree <==> MsidText.ComeBack(id, rest)))
  {
    hide BothOrders, Carries, MsidText.ComeBack, Msid.GetMsid, MsidText.Preamble, MsidFeeds.Follows, CreateTrack,
      MsidFeeds.NoStrayReturn, Msid.ParseSsrcLines;
    var description := Printed(before, request, rest);
    OrderOutcomes(p, request, drawn, description, a, c);
    MsidText.PrintedIdsAreReadExactly(before, Requested(request), rest);
    if Msid.GetMsid(description).Some? {
      SameInfo(a, c, Msid.GetMsid(description).value, Requested(request));
    }
  }

  lemma SameInfo(a: Channel, c: Channel, x: Msid.Msid, y: Msid.Msid)
    requires Carries(a, x) && Carries(c, y) && a.info.ssrcs == c.info.ssrcs
    ensures a.info == c.info <==> x == y
  {
  }

  /** Empty ids pass the guard; announced first, the track makes the process trap, created first it is returned. */
  lemma EmptyIdsTrap(p: PeerState, request: TrackRequest, drawn: Ssrcs.Draw, a: Channel, c: Channel)
    requires Requested(request) == Msid.Msid("", "")
    requires BothOrders(p, request, drawn, Printed([], request, "\r\n"), a, c)
    ensures AnnouncedFirst(p, request, drawn, Printed([], request, "\r\n"), a) == Trapped
    ensures var created := CreatedFirst(p, request, drawn, c);
            && created.Made? && created.chan == c
            && AnnounceTrack(created.after, Printed([], request, "\r\n"), a) == Some(created.after)
  {
    hide BothOrders, Msid.GetMsid, Msid.Render;
    MsidText.EmptyIdsAreLost();
    OrderOutcomes(p, request, drawn, Printed([], request, "\r\n"), a, c);
  }

  /** So does a stream id with a line break; the wrapper announced first then has other ids than the one created. */
  lemma BrokenIdsDiffer(p: PeerState, request: TrackRequest, drawn: Ssrcs.Draw, before: seq<Msid.Line>, rest: string,
                        a: Channel, c: Channel, x: string, y: string)
    requires request.streamId == x + "\r\n" + y && x != "" && Msid.Whole(x) && MsidText.Preamble(before)
    requires BothOrders(p, request, drawn, Printed(before, request, rest), a, c)
    ensures var announced := AnnouncedFirst(p, request, drawn, Printed(before, request, rest), a);
            var created := CreatedFirst(p, request, drawn, c);
            && announced.Made? && Carries(announced.chan, Msid.Msid(x, x))
            && created.Made? && Carries(created.chan, Requested(request))
            && announced.chan.info.streamId != created.chan.info.streamId
  {
    assert ' ' !in x by {
      assert forall i | 0 <= i < |x| :: x[i] == request.streamId[i] && request.streamId[i] in request.streamId;
    }
    hide BothOrders, Msid.GetMsid, Msid.Render, MsidText.Preamble;
    MsidText.BrokenIdsAreCut(before, x, y, request.trackId, rest);
    OrderOutcomes(p, request, drawn, Printed(before, request, rest), a, c);
  }
}
