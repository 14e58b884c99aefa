/** The example's forwarding loop: one ingress packet offered to every receiver. */
module FanOut {
  import opened Common
  import Rtp

  const TRACK_SSRC: uint32 := 42

  /** What the loop finds at a receiver: no track yet, or a track that is open or not and answers a send. */
  datatype Receiver = NoTrack | Track(open: bool, sendError: Option<int>)

  datatype Attempt = Attempt(receiver: nat, data: Bytes, error: Option<int>)

  predicate IsOpen(r: Receiver) {
    r.Track? && r.open
  }

  /** Length of the longest prefix of open receivers. */
  function OpenPrefix(receivers: seq<Receiver>): (k: nat)
    ensures k <= |receivers|
    ensures forall i | 0 <= i < k :: IsOpen(receivers[i])
    ensures k < |receivers| ==> !IsOpen(receivers[k])
  {
    if receivers == [] || !IsOpen(receivers[0]) then 0 else 1 + OpenPrefix(receivers[1..])
  }

  /**
   * The sink. A closed receiver, or no message, leaves the whole closure and not just the iteration; a receiver
   * without a track traps. A failed send is only reported.
   */
  method Forward(receivers: seq<Receiver>, message: Option<Bytes>) returns (attempts: seq<Attempt>, trapped: bool)
    ensures message.None? ==> attempts == [] && !trapped
    ensures message.Some? ==>
              && |attempts| == OpenPrefix(receivers)
              && (forall i | 0 <= i < |attempts| ::
                    attempts[i] == Attempt(i, Rtp.WithSsrc(message.value, 42), receivers[i].sendError))
              && (trapped <==> |attempts| < |receivers| && receivers[|attempts|].NoTrack?)
  {
    attempts, trapped := [], false;
    for i := 0 to |receivers|
      invariant i > 0 ==> message.Some?
      invariant |attempts| == i && !trapped
      invariant forall j | 0 <= j < i :: IsOpen(receivers[j])
      invariant forall j | 0 <= j < i ::
          attempts[j] == Attempt(j, Rtp.WithSsrc(message.value, TRACK_SSRC), receivers[j].sendError)
    {
      if message.None? {
        return;
      }
      PrefixIs(receivers, i);
      if receivers[i].NoTrack? {
        trapped := true;
        return;
      }
      if !receivers[i].open {
        return;
      }
      var data := new byte[|message.value|](k requires 0 <= k < |message.value| => message.value[k]);
      assert data[..] == message.value;
      Rtp.RewriteSsrc(data, TRACK_SSRC);
      attempts := attempts + [Attempt(i, data[..], receivers[i].sendError)];
    }
    PrefixIs(receivers, |receivers|);
  }

  lemma PrefixIs(receivers: seq<Receiver>, i: nat)
    requires i <= |receivers| && forall j | 0 <= j < i :: IsOpen(receivers[j])
    ensures OpenPrefix(receivers) >= i
    ensures i < |receivers| && !IsOpen(receivers[i]) ==> OpenPrefix(receivers) == i
    ensures i == |receivers| ==> OpenPrefix(receivers) == i
  {
    var k := OpenPrefix(receivers);
  }

  /** The receivers a packet is meant for. */
  function OpenReceivers(receivers: seq<Receiver>, n: nat): seq<nat>
    requires n <= |receivers|
  {
    if n == 0 then []
    else OpenReceivers(receivers, n - 1) + if IsOpen(receivers[n - 1]) then [n - 1] else []
  }

  function UpTo(n: nat): seq<nat> {
    seq(n, i => i)
  }

  lemma {:induction false} OpenReceiversWithin(receivers: seq<Receiver>, n: nat)
    requires n <= |receivers|
    ensures forall i: nat :: i in OpenReceivers(receivers, n) <==> i < n && IsOpen(receivers[i])
  {
    if n > 0 {
      OpenReceiversWithin(receivers, n - 1);
    }
  }

  lemma {:induction false} OpenReceiversOfPrefix(receivers: seq<Receiver>, k: nat, n: nat)
    requires k <= n <= |receivers|
    requires forall i | 0 <= i < k :: IsOpen(receivers[i])
    requires forall i | k <= i < n :: !IsOpen(receivers[i])
    ensures OpenReceivers(receivers, n) == UpTo(k)
  {
    if n > k {
      OpenReceiversOfPrefix(receivers, k, n - 1);
    } else if n > 0 {
      OpenReceiversOfPrefix(receivers, k - 1, n - 1);
      assert UpTo(n) == UpTo(n - 1) + [n - 1];
    }
  }

  /** No open receiver follows one that is not open. */
  predicate OpenFirst(receivers: seq<Receiver>) {
    forall i, j | 0 <= i < j < |receivers| && IsOpen(receivers[j]) :: IsOpen(receivers[i])
  }

  lemma OpenFirstIsPrefix(receivers: seq<Receiver>, i: nat)
    requires OpenFirst(receivers) && OpenPrefix(receivers) <= i < |receivers|
    ensures !IsOpen(receivers[i])
  {
    var first := receivers[OpenPrefix(receivers)];
    assert !IsOpen(first);
  }

  lemma PrefixIsOpenFirst(receivers: seq<Receiver>)
    requires forall i: nat | i < |receivers| && IsOpen(receivers[i]) :: i < OpenPrefix(receivers)
    ensures OpenFirst(receivers)
  {
  }

  /** The loop serves every open receiver exactly when no open receiver follows one that is not. */
  lemma FanOutIsComplete(receivers: seq<Receiver>)
    ensures UpTo(OpenPrefix(receivers)) == OpenReceivers(receivers, |receivers|) <==> OpenFirst(receivers)
  {
    hide OpenFirst, IsOpen;
    var k := OpenPrefix(receivers);
    if OpenFirst(receivers) {
      forall i | k <= i < |receivers| ensures !IsOpen(receivers[i]) {
        OpenFirstIsPrefix(receivers, i);
      }
      OpenReceiversOfPrefix(receivers, k, |receivers|);
    }
    if UpTo(k) == OpenReceivers(receivers, |receivers|) {
      OpenReceiversWithin(receivers, |receivers|);
      forall i: nat | i < |receivers| && IsOpen(receivers[i]) ensures i < k {
        assert i in UpTo(k);
      }
      PrefixIsOpenFirst(receivers);
    }
  }
}
