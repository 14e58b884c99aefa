/** Drawing source identifiers that no stream of the peer uses yet. */
module Ssrcs {
  import opened Common

  const NON_ZERO := 0xFFFF_FFFF

  /** What the random generator can produce. */
  type Draw = x: int | 1 <= x <= NON_ZERO witness 1

  class SsrcAllocator {
    var used: set<uint32>

    constructor ()
      ensures used == {}
    {
      used := {};
    }

    method Reserve(ssrc: uint32)
      modifies this
      ensures used == old(used) + {ssrc}
    {
      used := used + {ssrc};
    }

    /**
     * Draws until a number is new. The source loops for ever only under a generator that never produces one, so
     * the caller names a draw at which it would; the loop stops there at the latest.
     */
    method Next(random: nat -> Draw, start: nat, ghost limit: nat) returns (ssrc: Draw, end: nat)
      requires start <= limit && random(limit) !in used
      modifies this
      ensures FirstFresh(random, start, old(used), end) && ssrc == random(end) && end <= limit
      ensures used == old(used) + {ssrc}
    {
      end := start;
      while true
        invariant start <= end <= limit
        invariant used == old(used)
        invariant forall i | start <= i < end :: random(i) in used
        decreases limit - end
      {
        var candidate := random(end);
        if candidate !in used {
          used := used + {candidate};
          return candidate, end;
        }
        end := end + 1;
      }
    }
  }

  /** The first draw from `start` on that is not used. */
  ghost predicate FirstFresh(random: nat -> Draw, start: nat, used: set<uint32>, end: nat) {
    start <= end && random(end) !in used && forall i | start <= i < end :: random(i) in used
  }

  function UpTo(n: nat): set<int> {
    if n == 0 then {} else UpTo(n - 1) + {n}
  }

  lemma {:induction false} UpToSize(n: nat)
    ensures |UpTo(n)| == n && forall x: int :: x in UpTo(n) <==> 1 <= x <= n
  {
    if n > 0 {
      UpToSize(n - 1);
    }
  }

  lemma FreshUpTo(used: set<int>, n: nat)
    requires forall x: int | x in used :: 1 <= x <= n
    ensures (exists x: int :: 1 <= x <= n && x !in used) <==> |used| < n
  {
    UpToSize(n);
    var all := UpTo(n);
    forall x: int | x in used ensures x in all {
    }
    SubsetSize(used, all);
    if forall x: int | 1 <= x <= n :: x in used {
      forall x: int | x in all ensures x in used {
      }
      SubsetSize(all, used);
    } else {
      var x: int :| 1 <= x <= n && x !in used;
      assert x in all;
    }
  }

  /** A fresh number exists exactly while fewer than 2^32 - 1 non-zero numbers are used. */
  lemma FreshExists(used: set<uint32>)
    ensures (exists d: Draw :: d !in used) <==> |used - {0}| < NON_ZERO
  {
    FreshUpTo(used - {0}, NON_ZERO);
    if x :| 1 <= x <= NON_ZERO && x !in used - {0} {
      var d: Draw := x;
      assert d !in used;
    }
    if d: Draw :| d !in used {
      assert 1 <= d <= NON_ZERO && d !in used - {0};
    }
  }

  // ---------------------------------------------------------------- runs

  /** What callers ask of the allocator, and what it did. */
  datatype Request = Reservation(ssrc: uint32) | Issue

  datatype Event = Reserve(ssrc: uint32) | Next(ssrc: uint32)

  predicate Answers(request: Request, event: Event) {
    match request
    case Reservation(ssrc) => event == Reserve(ssrc)
    case Issue => event.Next?
  }

  function Used(history: seq<Event>): set<uint32> {
    if history == [] then {} else Used(history[..|history| - 1]) + {history[|history| - 1].ssrc}
  }

  /** Every answer is a number that was not used by then. */
  predicate Possible(history: seq<Event>) {
    forall i | 0 <= i < |history| && history[i].Next? :: history[i].ssrc != 0 && history[i].ssrc !in Used(history[..i])
  }

  lemma {:induction false} UsedIsEverything(history: seq<Event>, i: nat)
    requires i < |history|
    ensures history[i].ssrc in Used(history)
  {
    if i < |history| - 1 {
      UsedIsEverything(history[..|history| - 1], i);
    }
  }

  /** Whatever was reserved or issued before, such an answer is non-zero and different. */
  lemma IssuedIsFresh(history: seq<Event>, i: nat, j: nat)
    requires Possible(history) && i < j < |history| && history[j].Next?
    ensures history[j].ssrc != 0 && history[j].ssrc != history[i].ssrc
  {
    UsedIsEverything(history[..j], i);
    assert history[..j][i] == history[i];
  }

  lemma PossibleGrows(history: seq<Event>, event: Event)
    requires Possible(history) && (event.Next? ==> event.ssrc != 0 && event.ssrc !in Used(history))
    ensures Possible(history + [event]) && Used(history + [event]) == Used(history) + {event.ssrc}
  {
    var longer := history + [event];
    assert longer[..|history|] == history;
    forall i | 0 <= i < |history| ensures longer[..i] == history[..i] && longer[i] == history[i] {
    }
  }

  /** A generator under which every number comes up again and again. */
  ghost predicate Fair(random: nat -> Draw) {
    forall d: Draw, start: nat :: ComesUp(random, d, start)
  }

  ghost predicate ComesUp(random: nat -> Draw, d: Draw, start: nat) {
    exists i: nat :: i >= start && random(i) == d
  }

  lemma CyclingIsFair()
    ensures Fair(i => 1 + i % NON_ZERO)
  {
    var random: nat -> Draw := i => 1 + i % NON_ZERO;
    forall d: Draw, start: nat ensures ComesUp(random, d, start) {
      var i: nat := start * NON_ZERO + (d - 1);
      assert i >= start && random(i) == d;
    }
  }

  lemma FreshComesUp(random: nat -> Draw, start: nat, used: set<uint32>) returns (limit: nat)
    requires Fair(random) && |used - {0}| < NON_ZERO
    ensures start <= limit && random(limit) !in used
  {
    FreshExists(used);
    var d: Draw :| d !in used;
    assert ComesUp(random, d, start);
    limit :| limit >= start && random(limit) == d;
  }

  /**
   * The allocator of one peer, serving requests in any order from one stream of draws: under a fair generator it
   * serves them all, up to the request for a number when none is left, where the source loops for ever. Every number
   * it issues is non-zero and differs from every number reserved or issued before.
   */
  method Serve(requests: seq<Request>, random: nat -> Draw) returns (history: seq<Event>, used: set<uint32>)
    requires Fair(random)
    ensures |history| <= |requests| && forall i | 0 <= i < |history| :: Answers(requests[i], history[i])
    ensures |history| < |requests| ==> requests[|history|].Issue? && forall d: Draw :: d in used
    ensures used == Used(history)
    ensures forall j | 0 <= j < |history| && history[j].Next? :: history[j].ssrc != 0
    ensures forall i, j | 0 <= i < j < |history| && history[j].Next? :: history[j].ssrc != history[i].ssrc
  {
    var allocator := new SsrcAllocator();
    var start: nat := 0;
    history := [];
    while |history| < |requests|
      invariant |history| <= |requests| && forall i | 0 <= i < |history| :: Answers(requests[i], history[i])
      invariant Possible(history) && allocator.used == Used(history)
      invariant fresh(allocator)
      decreases |requests| - |history|
    {
      var event;
      match requests[|history|] {
        case Reservation(ssrc) =>
          allocator.Reserve(ssrc);
          event := Reserve(ssrc);
        case Issue =>
          FreshExists(allocator.used);
          if |allocator.used - {0}| >= NON_ZERO { break; }
          ghost var limit := FreshComesUp(random, start, allocator.used);
          var ssrc, end := allocator.Next(random, start, limit);
          start, event := end + 1, Next(ssrc);
      }
      PossibleGrows(history, event);
      history := history + [event];
    }
    used := allocator.used;
    forall i, j | 0 <= i < j < |history| && history[j].Next? ensures history[j].ssrc != history[i].ssrc {
      IssuedIsFresh(history, i, j);
    }
  }
}
