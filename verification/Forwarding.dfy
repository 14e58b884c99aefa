/** A forwarding unit: it copies the packets of one track to another, under the other track's SSRC and payload type. */
module Forwarding {
  import opened Common
  import Rtp

  datatype Failure = NoPayloadType | LookupFailed(code: int) | SendFailed(code: int)

  /** `sent` is what the native library accepted on the egress track, in order. */
  datatype Forwarder = Forwarder(
    ssrc: Option<uint32>,
    pt: Option<byte>,
    count: nat,
    lastError: Option<Failure>,
    subscribed: bool,
    sent: seq<Bytes>)

  const FRESH := Forwarder(None, None, 0, None, true, [])

  /**
   * One value published by the ingress track (`None` before its first packet), with the answers the egress track
   * gives if it is asked: whether it is open, its payload types for "opus", and the error code of the send, if any.
   */
  datatype Event =
    | Message(message: Option<Bytes>, open: bool, lookup: Result<seq<byte>, int>, sendError: Option<int>)
    | Stop

  /** The lazily resolved numbers; the flag tells whether forwarding can go on. */
  function Resolve(f: Forwarder, ssrcs: seq<uint32>, lookup: Result<seq<byte>, int>): (Forwarder, bool)
    requires ssrcs != []
  {
    if f.ssrc.Some? && f.pt.Some? then (f, true)
    else
      var g := f.(ssrc := Some(ssrcs[0]));
      match lookup
      case Err(code) => (g.(lastError := Some(LookupFailed(code))), false)
      case Ok(pts) =>
        if pts == [] then (g.(pt := None, lastError := Some(NoPayloadType)), false)
        else (g.(pt := Some(pts[0])), true)
  }

  function Transmit(f: Forwarder, message: Bytes, sendError: Option<int>): Forwarder
    requires f.ssrc.Some? && f.pt.Some?
  {
    match sendError
    case Some(code) => f.(lastError := Some(SendFailed(code)))
    case None => f.(count := f.count + 1, sent := f.sent + [Rtp.Rewrite(message, f.ssrc.value, f.pt.value)])
  }

  /** The egress track must have an SSRC: the source force-unwraps the first one. */
  function Step(f: Forwarder, ssrcs: seq<uint32>, e: Event): Forwarder
    requires ssrcs != []
  {
    match e
    case Stop => f.(subscribed := false)
    case Message(message, open, lookup, sendError) =>
      if !f.subscribed || message.None? || !open then f
      else
        var (g, ready) := Resolve(f, ssrcs, lookup);
        if ready then Transmit(g, message.value, sendError) else g
  }

  function Run(f: Forwarder, ssrcs: seq<uint32>, events: seq<Event>): Forwarder
    requires ssrcs != []
  {
    if events == [] then f else Step(Run(f, ssrcs, events[..|events| - 1]), ssrcs, events[|events| - 1])
  }

  lemma {:induction false} RunPrepend(f: Forwarder, ssrcs: seq<uint32>, e: Event, events: seq<Event>)
    requires ssrcs != []
    ensures Run(f, ssrcs, [e] + events) == Run(Step(f, ssrcs, e), ssrcs, events)
  {
    if events == [] {
      assert [e] + events == [e] && [e][..0] == [];
    } else {
      var n := |events| - 1;
      RunPrepend(f, ssrcs, e, events[..n]);
      assert ([e] + events)[..n + 1] == [e] + events[..n];
    }
  }

  // ---------------------------------------------------------------- the specification: only the history counts

  predicate LiveAt(events: seq<Event>, i: nat)
    requires i <= |events|
  {
    forall j | 0 <= j < i :: !events[j].Stop?
  }

  predicate Deliverable(e: Event) {
    e.Message? && e.message.Some? && e.open
  }

  predicate Resolves(e: Event) {
    Deliverable(e) && e.lookup.Ok? && e.lookup.value != []
  }

  /** The first event, before any stop, that arrives while the egress track is open and names a payload type. */
  function Resolution(events: seq<Event>, i: nat): (r: nat)
    requires i <= |events|
    ensures i <= r <= |events|
    ensures r < |events| ==> Resolves(events[r]) && LiveAt(events, r)
    ensures forall j | i <= j < r :: !(Resolves(events[j]) && LiveAt(events, j))
    decreases |events| - i
  {
    if i == |events| || (Resolves(events[i]) && LiveAt(events, i)) then i else Resolution(events, i + 1)
  }

  /** Event i is forwarded: the egress was open, the numbers were resolved by then, and the send succeeded. */
  predicate Forwarded(events: seq<Event>, i: nat)
    requires i < |events|
  {
    Deliverable(events[i]) && LiveAt(events, i) && Resolution(events, 0) <= i && events[i].sendError.None?
  }

  /** The rewrites of exactly the forwarded packets among the first n events, in order, all with the same numbers. */
  function Packets(events: seq<Event>, ssrc: uint32, n: nat): seq<Bytes>
    requires n <= |events|
  {
    if n == 0 then []
    else if !Forwarded(events, n - 1) then Packets(events, ssrc, n - 1)
    else
      var pt := events[Resolution(events, 0)].lookup.value[0];
      Packets(events, ssrc, n - 1) + [Rtp.Rewrite(events[n - 1].message.value, ssrc, pt)]
  }

  /** Why event i, though deliverable, was not forwarded. */
  function FailureAt(events: seq<Event>, i: nat): Option<Failure>
    requires i < |events|
  {
    if !Deliverable(events[i]) || !LiveAt(events, i) then None
    else if Resolution(events, 0) <= i then
      match events[i].sendError
      case None => None
      case Some(code) => Some(SendFailed(code))
    else match events[i].lookup
      case Err(code) => Some(LookupFailed(code))
      case Ok(_) => Some(NoPayloadType)
  }

  function LastFailure(events: seq<Event>, n: nat): Option<Failure>
    requires n <= |events|
  {
    if n == 0 then None
    else if FailureAt(events, n - 1).Some? then FailureAt(events, n - 1)
    else LastFailure(events, n - 1)
  }

  ghost predicate Refines(f: Forwarder, events: seq<Event>, ssrc: uint32, n: nat)
    requires n <= |events|
  {
    var r := Resolution(events, 0);
    && f.subscribed == LiveAt(events, n)
    && f.ssrc == (if exists i :: 0 <= i < n && Deliverable(events[i]) && LiveAt(events, i) then Some(ssrc) else None)
    && f.pt == (if r < n then Some(events[r].lookup.value[0]) else None)
    && f.sent == Packets(events, ssrc, n)
    && f.count == |f.sent|
    && f.lastError == LastFailure(events, n)
  }

  lemma StepRefines(f: Forwarder, events: seq<Event>, ssrcs: seq<uint32>, n: nat)
    requires ssrcs != [] && n < |events| && Refines(f, events, ssrcs[0], n)
    ensures Refines(Step(f, ssrcs, events[n]), events, ssrcs[0], n + 1)
  {
    var e, r := events[n], Resolution(events, 0);
    assert LiveAt(events, n + 1) == (LiveAt(events, n) && !e.Stop?);
    if f.subscribed && Deliverable(e) {
      assert Deliverable(events[n]) && LiveAt(events, n);
      if r < n {
        assert Deliverable(events[r]) && LiveAt(events, r);
        assert f.ssrc == Some(ssrcs[0]);
      } else {
        assert Resolves(e) <==> r == n;
      }
    }
  }

  /**
   * Forwarding refines its specification over every run: the sent log is, in order, the rewrite of exactly the
   * packets that arrived before the stop while the egress was open, from the resolution of the numbers on, and whose
   * send succeeded; the count is its length; the SSRC is the egress track's first and the payload type the first one
   * named, whatever failed and was retried on the way; the last error is the last failure's.
   */
  lemma {:induction false} RunRefines(events: seq<Event>, ssrcs: seq<uint32>, n: nat)
    requires ssrcs != [] && n <= |events|
    ensures Refines(Run(FRESH, ssrcs, events[..n]), events, ssrcs[0], n)
  {
    if n == 0 {
    } else {
      RunRefines(events, ssrcs, n - 1);
      assert events[..n][..n - 1] == events[..n - 1];
      StepRefines(Run(FRESH, ssrcs, events[..n - 1]), events, ssrcs, n - 1);
    }
  }

  lemma ForwardingRefines(events: seq<Event>, ssrcs: seq<uint32>)
    requires ssrcs != []
    ensures Refines(Run(FRESH, ssrcs, events), events, ssrcs[0], |events|)
  {
    RunRefines(events, ssrcs, |events|);
    assert events[..|events|] == events;
  }

  // ---------------------------------------------------------------- what the packets mean

  /** Where the packets in the log come from: the forwarded events among the first n, in order. */
  function Origins(events: seq<Event>, n: nat): seq<nat>
    requires n <= |events|
  {
    if n == 0 then []
    else Origins(events, n - 1) + if Forwarded(events, n - 1) then [n - 1] else []
  }

  lemma {:induction false} OriginsAreForwarded(events: seq<Event>, n: nat)
    requires n <= |events|
    ensures var o := Origins(events, n);
            && (forall k | 0 <= k < |o| :: o[k] < n && Forwarded(events, o[k]))
            && (forall j, k | 0 <= j < k < |o| :: o[j] < o[k])
            && (forall i: nat | i < n && Forwarded(events, i) :: i in o)
  {
    hide Forwarded;
    if n > 0 {
      OriginsAreForwarded(events, n - 1);
      var before, o := Origins(events, n - 1), Origins(events, n);
      assert Forwarded(events, n - 1) ==> o[|before|] == n - 1;
      assert forall k | 0 <= k < |before| :: o[k] == before[k];
    }
  }

  lemma {:induction false} PacketsOriginate(events: seq<Event>, ssrc: uint32, n: nat)
    requires n <= |events|
    ensures var o, sent := Origins(events, n), Packets(events, ssrc, n);
            && |sent| == |o|
            && forall k | 0 <= k < |o| :: o[k] < n && Deliverable(events[o[k]]) && Resolution(events, 0) < |events|
                 && sent[k] == Rtp.Rewrite(events[o[k]].message.value, ssrc, Number(events))
  {
    hide Rtp.Rewrite;
    if n > 0 {
      PacketsOriginate(events, ssrc, n - 1);
    }
  }

  /** The payload type the unit resolves in this history. */
  function Number(events: seq<Event>): byte
    requires Resolution(events, 0) < |events|
  {
    events[Resolution(events, 0)].lookup.value[0]
  }

  /** A packet as a receiver parses it, under another SSRC and payload type. */
  function Renumbered(p: Option<Rtp.Packet>, ssrc: uint32, pt: byte): Option<Rtp.Packet> {
    match p
    case None => None
    case Some(packet) => Some(packet.(ssrc := ssrc, payloadType := pt % 128))
  }

  /** This packet is event i's, but for its SSRC and payload type, or neither parses. */
  ghost predicate Conveyed(packet: Bytes, events: seq<Event>, i: nat, ssrc: uint32) {
    && i < |events| && Deliverable(events[i]) && Resolution(events, 0) < |events|
    && Rtp.Parse(packet) == Renumbered(Rtp.Parse(events[i].message.value), ssrc, Number(events))
  }

  /** The log in a receiver's terms: what each forwarded event brought and nothing else, in the order of arrival. */
  ghost predicate Conveys(sent: seq<Bytes>, events: seq<Event>, ssrc: uint32) {
    var o := Origins(events, |events|);
    && (forall j, k | 0 <= j < k < |o| :: o[j] < o[k])
    && (forall i: nat | i < |events| :: i in o <==> Forwarded(events, i))
    && |sent| == |o| && forall k | 0 <= k < |o| :: Conveyed(sent[k], events, o[k], ssrc)
  }

  lemma RefinementConveys(f: Forwarder, events: seq<Event>, ssrc: uint32)
    requires Refines(f, events, ssrc, |events|)
    ensures Conveys(f.sent, events, ssrc)
  {
    hide Rtp.Parse, Rtp.Rewrite, Forwarded, Packets;
    var o := Origins(events, |events|);
    OriginsAreForwarded(events, |events|);
    PacketsOriginate(events, ssrc, |events|);
    assert forall i: nat | i < |events| :: i in o <==> Forwarded(events, i);
    forall k | 0 <= k < |o| ensures Conveyed(f.sent[k], events, o[k], ssrc) {
      Rtp.RewriteMeaning(events[o[k]].message.value, ssrc, Number(events));
    }
  }

  /** So over every run, what was sent means what arrived. */
  lemma SentMeaning(events: seq<Event>, ssrcs: seq<uint32>)
    requires ssrcs != []
    ensures Conveys(Run(FRESH, ssrcs, events).sent, events, ssrcs[0])
  {
    ForwardingRefines(events, ssrcs);
    RefinementConveys(Run(FRESH, ssrcs, events), events, ssrcs[0]);
  }

  // ---------------------------------------------------------------- what every step keeps

  ghost predicate Steady(f: Forwarder, ssrcs: seq<uint32>)
    requires ssrcs != []
  {
    && (f.pt.Some? ==> f.ssrc.Some?)
    && (f.ssrc.Some? ==> f.ssrc.value == ssrcs[0])
    && f.count == |f.sent|
    && (forall i | 0 <= i < |f.sent| && |f.sent[i]| >= Rtp.HEADER_SIZE :: Rtp.SsrcField(f.sent[i]) == ssrcs[0])
  }

  /** Numbers never change once set, a payload type is never set without an SSRC, and the log only grows. */
  lemma StepKeeps(f: Forwarder, ssrcs: seq<uint32>, e: Event)
    requires ssrcs != [] && Steady(f, ssrcs)
    ensures var g := Step(f, ssrcs, e);
            && Steady(g, ssrcs)
            && (f.ssrc.Some? ==> g.ssrc == f.ssrc)
            && (f.pt.Some? ==> g.pt == f.pt)
            && f.sent <= g.sent
            && (!f.subscribed ==> g == f)
  {
    if e.Message? && Step(f, ssrcs, e).sent != f.sent {
      var g := Step(f, ssrcs, e);
      if |e.message.value| >= Rtp.HEADER_SIZE {
        Rtp.RewriteSetsSsrcField(e.message.value, ssrcs[0], g.pt.value);
      }
    }
  }

  lemma MessageKeepsSubscription(f: Forwarder, ssrcs: seq<uint32>, e: Event)
    requires ssrcs != [] && e.Message?
    ensures Step(f, ssrcs, e).subscribed == f.subscribed
  {
  }
}
