/** Sending several buffers as one message: a first pass adds up sizes, a second one copies. */
module GatherSend {
  import opened Common

  /** A buffer of `count` elements of `width` bytes each. */
  datatype Piece = Piece(count: nat, width: nat, bytes: seq<byte>)

  predicate WellSized(p: Piece) {
    p.width >= 1 && |p.bytes| == p.count * p.width
  }

  function Elements(pieces: seq<Piece>): nat {
    if pieces == [] then 0 else Elements(pieces[..|pieces| - 1]) + pieces[|pieces| - 1].count
  }

  function Concatenation(pieces: seq<Piece>): seq<byte> {
    if pieces == [] then [] else Concatenation(pieces[..|pieces| - 1]) + pieces[|pieces| - 1].bytes
  }

  /** No piece that has elements at all has elements wider than a byte. */
  predicate ByteWide(pieces: seq<Piece>) {
    forall p | p in pieces :: p.count == 0 || p.width == 1
  }

  lemma WidthOf(p: Piece)
    requires WellSized(p)
    ensures p.count <= |p.bytes| && (p.count == |p.bytes| <==> p.count == 0 || p.width == 1)
  {
    assert p.count * p.width == p.count + p.count * (p.width - 1);
    if p.count > 0 && p.width > 1 {
      assert p.count * (p.width - 1) > 0;
    }
  }

  /** The first pass counts what the second one copies exactly when elements are one byte wide; else it counts less. */
  lemma {:induction false} SizeIsExact(pieces: seq<Piece>)
    requires forall p | p in pieces :: WellSized(p)
    ensures Elements(pieces) <= |Concatenation(pieces)|
    ensures Elements(pieces) == |Concatenation(pieces)| <==> ByteWide(pieces)
  {
    if pieces != [] {
      var front, last := pieces[..|pieces| - 1], pieces[|pieces| - 1];
      SizeIsExact(front);
      WidthOf(last);
      assert pieces == front + [last];
    }
  }

  lemma {:induction false} PrefixesFit(pieces: seq<Piece>, n: nat)
    requires n <= |pieces|
    ensures |Concatenation(pieces[..n])| <= |Concatenation(pieces)|
    decreases |pieces| - n
  {
    if n == |pieces| {
      assert pieces[..n] == pieces;
    } else {
      PrefixesFit(pieces, n + 1);
      assert pieces[..n + 1][..n] == pieces[..n];
    }
  }

  method Copy(bytes: seq<byte>, buffer: array<byte>, pos: nat) returns (next: nat)
    requires pos + |bytes| <= buffer.Length
    modifies buffer
    ensures next == pos + |bytes|
    ensures buffer[..] == old(buffer[..pos]) + bytes + old(buffer[next..])
  {
    next := pos;
    for i := 0 to |bytes|
      invariant next == pos + i
      invariant buffer[..pos] == old(buffer[..pos])
      invariant forall k | 0 <= k < i :: buffer[pos + k] == bytes[k]
      invariant forall k | pos + i <= k < buffer.Length :: buffer[k] == old(buffer[k])
    {
      buffer[next] := bytes[i];
      next := next + 1;
    }
    assert buffer[pos..next] == bytes;
    assert buffer[next..] == old(buffer[next..]);
    assert buffer[..] == buffer[..pos] + buffer[pos..next] + buffer[next..];
  }

  /**
   * `None` where a copy would leave the buffer, which the source does not define; otherwise the message handed to the
   * send. That is the concatenation of the pieces, it fills the buffer, and it exists exactly for byte-wide elements.
   */
  method SendBuffer(pieces: seq<Piece>) returns (message: Option<seq<byte>>)
    requires forall p | p in pieces :: WellSized(p)
    ensures message.Some? <==> ByteWide(pieces)
    ensures message.Some? ==> message.value == Concatenation(pieces) && |message.value| == Elements(pieces)
  {
    SizeIsExact(pieces);
    var size := 0;
    for i := 0 to |pieces|
      invariant size == Elements(pieces[..i])
    {
      size := size + pieces[i].count;
      assert pieces[..i + 1][..i] == pieces[..i];
    }
    assert pieces[..|pieces|] == pieces;
    var buffer := new byte[size](_ => 0);
    var pos := 0;
    for i := 0 to |pieces|
      invariant pos <= buffer.Length
      invariant buffer[..pos] == Concatenation(pieces[..i])
    {
      var len := |pieces[i].bytes|;
      assert pieces[..i + 1][..i] == pieces[..i];
      PrefixesFit(pieces, i + 1);
      if pos + len > buffer.Length {
        return None;
      }
      ghost var written := buffer[..pos];
      var next := Copy(pieces[i].bytes, buffer, pos);
      assert buffer[..next] == written + pieces[i].bytes;
      pos := next;
    }
    return Some(buffer[..]);
  }
}
