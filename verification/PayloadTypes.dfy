/** Numbering codec configurations in the dynamic payload-type range (section 6 of RFC 3551). */
module PayloadTypes {
  import opened Common

  datatype Codec = H264 | VP8 | VP9 | H265 | AV1 | OPUS | PCMU | PCMA | AAC | G722

  datatype Key = Key(codec: Codec, profile: Option<string>, clock: int, channels: int)

  const BEFORE_FIRST := 96
  const LAST := 127
  const CAPACITY := 31

  datatype State = State(next: int, table: map<Key, int>)

  const INITIAL := State(BEFORE_FIRST, map[])

  /** One request: a known key is answered from the table, a new one with the next number, if any is left. */
  function Request(s: State, key: Key): (State, Option<int>) {
    if key in s.table then (s, Some(s.table[key]))
    else if s.next >= LAST then (s, None)
    else (State(s.next + 1, s.table[key := s.next + 1]), Some(s.next + 1))
  }

  /** `None` is the source's `exhausted` error. */
  class PayloadTypeAllocator {
    var next: int
    var table: map<Key, int>

    ghost function Value(): State
      reads this
    {
      State(next, table)
    }

    constructor ()
      ensures Value() == INITIAL
    {
      next, table := BEFORE_FIRST, map[];
    }

    method PayloadType(key: Key) returns (pt: Option<int>)
      modifies this
      ensures (Value(), pt) == Request(old(Value()), key)
    {
      if key in table {
        return Some(table[key]);
      }
      if next >= LAST {
        return None;
      }
      next := next + 1;
      table := table[key := next];
      return Some(next);
    }
  }

  // ---------------------------------------------------------------- runs of requests

  /** The allocator after a run of requests. */
  function After(keys: seq<Key>): State {
    if keys == [] then INITIAL else Request(After(keys[..|keys| - 1]), keys[|keys| - 1]).0
  }

  /** How request number i of a run is answered. */
  function Answer(keys: seq<Key>, i: nat): Option<int>
    requires i < |keys|
  {
    Request(After(keys[..i]), keys[i]).1
  }

  function FirstRequest(keys: seq<Key>, key: Key): (i: nat)
    requires key in keys
    ensures i < |keys| && keys[i] == key && forall j | 0 <= j < i :: keys[j] != key
  {
    if keys[0] == key then 0 else 1 + FirstRequest(keys[1..], key)
  }

  function Elements(keys: seq<Key>): set<Key> {
    set key | key in keys
  }

  /** How many distinct keys were requested before this one first was. */
  function Rank(keys: seq<Key>, key: Key): nat
    requires key in keys
  {
    |Elements(keys[..FirstRequest(keys, key)])|
  }

  /** Later requests do not change the rank of an earlier key; a new key ranks behind all the others. */
  lemma RankIsStable(keys: seq<Key>, more: seq<Key>, key: Key)
    requires key in keys
    ensures FirstRequest(keys + more, key) == FirstRequest(keys, key) && Rank(keys + more, key) == Rank(keys, key)
  {
    var i, j := FirstRequest(keys, key), FirstRequest(keys + more, key);
    assert (keys + more)[i] == key && i == j;
    assert (keys + more)[..i] == keys[..i];
  }

  lemma RankOfNewKey(keys: seq<Key>, key: Key)
    requires key !in keys
    ensures Rank(keys + [key], key) == |Elements(keys)|
  {
    var i := FirstRequest(keys + [key], key);
    assert i == |keys|;
    assert (keys + [key])[..i] == keys;
  }

  /** What the allocator holds after a run: every key of rank below the capacity, under its rank. */
  ghost predicate Holds(s: State, keys: seq<Key>) {
    && s.next == BEFORE_FIRST + (if |Elements(keys)| < CAPACITY then |Elements(keys)| else CAPACITY)
    && (forall key :: key in s.table <==> key in keys && Rank(keys, key) < CAPACITY)
    && (forall key | key in s.table :: s.table[key] == BEFORE_FIRST + 1 + Rank(keys, key))
  }

  lemma HoldsAfterRequest(s: State, keys: seq<Key>, key: Key)
    requires Holds(s, keys)
    ensures Holds(Request(s, key).0, keys + [key])
  {
    hide Rank, FirstRequest;
    var all := keys + [key];
    forall k | k in keys ensures Rank(all, k) == Rank(keys, k) {
      RankIsStable(keys, [key], k);
    }
    if key in keys {
      assert Elements(all) == Elements(keys);
      RankBelowSize(keys, key);
    } else {
      assert Elements(all) == Elements(keys) + {key};
      RankOfNewKey(keys, key);
    }
  }

  lemma {:induction false} AfterRun(keys: seq<Key>)
    ensures Holds(After(keys), keys)
  {
    hide Rank, FirstRequest;
    if keys == [] {
      assert Elements(keys) == {};
    } else {
      var before := keys[..|keys| - 1];
      AfterRun(before);
      hide Holds, Elements, Request;
      HoldsAfterRequest(After(before), before, keys[|keys| - 1]);
      assert keys == before + [keys[|keys| - 1]];
    }
  }

  lemma RankBelowSize(keys: seq<Key>, key: Key)
    requires key in keys
    ensures Rank(keys, key) < |Elements(keys)|
  {
    var before := Elements(keys[..FirstRequest(keys, key)]);
    assert key !in before;
    SubsetSize(before + {key}, Elements(keys));
  }

  /**
   * The allocator is "rank of first occurrence": over any run, each request is answered with 97 plus the number of
   * distinct keys first requested before its key when that number is below 31, and with `exhausted` otherwise.
   */
  lemma AnswerIsRank(keys: seq<Key>, i: nat)
    requires i < |keys|
    ensures var rank := Rank(keys, keys[i]); Answer(keys, i) == if rank < 31 then Some(97 + rank) else None
  {
    hide Rank, FirstRequest, Elements;
    var before, key := keys[..i], keys[i];
    AfterRun(before);
    assert keys == (before + [key]) + keys[i + 1..];
    RankIsStable(before + [key], keys[i + 1..], key);
    if key in before {
      RankIsStable(before, [key], key);
      RankBelowSize(before, key);
    } else {
      RankOfNewKey(before, key);
    }
  }

  lemma RankIsInjective(keys: seq<Key>, a: Key, b: Key)
    requires a in keys && b in keys && FirstRequest(keys, a) < FirstRequest(keys, b)
    ensures Rank(keys, a) < Rank(keys, b)
  {
    var i, j := FirstRequest(keys, a), FirstRequest(keys, b);
    assert keys[..j][..i] == keys[..i] && keys[..j][i] == a;
    assert a !in keys[..i];
    SubsetSize(Elements(keys[..i]) + {a}, Elements(keys[..j]));
  }

  /** Hence numbers tell keys apart, stay in the dynamic range, and a known key still succeeds after exhaustion. */
  lemma AnswersSeparateKeys(keys: seq<Key>, i: nat, j: nat)
    requires i < |keys| && j < |keys|
    ensures keys[i] == keys[j] ==> Answer(keys, i) == Answer(keys, j)
    ensures keys[i] != keys[j] && Answer(keys, i).Some? ==> Answer(keys, i) != Answer(keys, j)
    ensures Answer(keys, i).Some? ==> 97 <= Answer(keys, i).value <= 127
  {
    AnswerIsRank(keys, i);
    AnswerIsRank(keys, j);
    if FirstRequest(keys, keys[i]) < FirstRequest(keys, keys[j]) {
      RankIsInjective(keys, keys[i], keys[j]);
    } else if FirstRequest(keys, keys[j]) < FirstRequest(keys, keys[i]) {
      RankIsInjective(keys, keys[j], keys[i]);
    }
  }

  /** What every single request keeps, for arguments that do not start from a fresh allocator. */
  predicate Injective(s: State) {
    && BEFORE_FIRST <= s.next <= LAST
    && (forall a, b | a in s.table && b in s.table && s.table[a] == s.table[b] :: a == b)
    && (forall a | a in s.table :: BEFORE_FIRST < s.table[a] <= s.next)
  }

  lemma RequestKeeps(s: State, key: Key)
    requires Injective(s)
    ensures var (after, answer) := Request(s, key);
            && Injective(after)
            && (forall k | k in s.table :: k in after.table && after.table[k] == s.table[k])
            && (answer.Some? ==> after == Request(after, key).0 && Request(after, key).1 == answer)
  {
  }
}
