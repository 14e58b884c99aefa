/** RTP packets (section 5.1 of RFC 3550) and the two in-place header edits that forwarding makes. */
module Rtp {
  import opened Common

  const HEADER_SIZE := 12

  // ---------------------------------------------------------------- big-endian words

  function Word16(b: seq<byte>): uint16
    requires |b| == 2
  {
    (b[0] as int) * 0x100 + b[1]
  }

  function Bytes16(w: uint16): (b: seq<byte>)
    ensures |b| == 2
  {
    [w / 0x100, w % 0x100]
  }

  function Word32(b: seq<byte>): uint32
    requires |b| == 4
  {
    (Word16(b[..2]) as int) * 0x1_0000 + Word16(b[2..])
  }

  function Bytes32(w: uint32): (b: seq<byte>)
    ensures |b| == 4
  {
    Bytes16(w / 0x1_0000) + Bytes16(w % 0x1_0000)
  }

  lemma Word16RoundTrip(w: uint16)
    ensures Word16(Bytes16(w)) == w
  {
  }

  lemma Bytes16RoundTrip(b: seq<byte>)
    requires |b| == 2
    ensures Bytes16(Word16(b)) == b
  {
  }

  lemma Word32RoundTrip(w: uint32)
    ensures Word32(Bytes32(w)) == w
  {
    var b := Bytes32(w);
    assert b[..2] == Bytes16(w / 0x1_0000) && b[2..] == Bytes16(w % 0x1_0000);
  }

  lemma Bytes32RoundTrip(b: seq<byte>)
    requires |b| == 4
    ensures Bytes32(Word32(b)) == b
  {
    Bytes16RoundTrip(b[..2]);
    Bytes16RoundTrip(b[2..]);
    var hi, lo := Word16(b[..2]), Word16(b[2..]);
    assert Word32(b) / 0x1_0000 == hi && Word32(b) % 0x1_0000 == lo;
    assert b == b[..2] + b[2..];
  }

  function Words(b: seq<byte>): (ws: seq<uint32>)
    requires |b| % 4 == 0
  {
    if b == [] then [] else [Word32(b[..4])] + Words(b[4..])
  }

  function WordBytes(ws: seq<uint32>): (b: seq<byte>)
    ensures |b| == 4 * |ws|
  {
    if ws == [] then [] else Bytes32(ws[0]) + WordBytes(ws[1..])
  }

  lemma {:induction false} WordsOfBytes(ws: seq<uint32>)
    ensures Words(WordBytes(ws)) == ws
  {
    if ws != [] {
      var b := WordBytes(ws);
      assert b[..4] == Bytes32(ws[0]) && b[4..] == WordBytes(ws[1..]);
      Word32RoundTrip(ws[0]);
      WordsOfBytes(ws[1..]);
    }
  }

  lemma {:induction false} BytesOfWords(b: seq<byte>)
    requires |b| % 4 == 0
    ensures WordBytes(Words(b)) == b && |b| == 4 * |Words(b)|
  {
    if b != [] {
      Bytes32RoundTrip(b[..4]);
      BytesOfWords(b[4..]);
      assert b == b[..4] + b[4..];
    }
  }

  // ---------------------------------------------------------------- packets

  datatype Extension = Extension(profile: uint16, body: seq<byte>)

  /** A parsed packet. `padding` holds the padding octets themselves; it is empty when the P bit is clear. */
  datatype Packet = Packet(
    marker: bool,
    payloadType: int,
    sequenceNumber: uint16,
    timestamp: uint32,
    ssrc: uint32,
    tail: Tail)

  datatype Tail = Tail(
    csrcs: seq<uint32>,
    extension: Option<Extension>,
    payload: seq<byte>,
    padding: seq<byte>)

  predicate ValidExtension(x: Extension) {
    |x.body| % 4 == 0 && |x.body| / 4 < 0x1_0000
  }

  predicate ValidTail(t: Tail) {
    && |t.csrcs| < 16
    && (t.extension.Some? ==> ValidExtension(t.extension.value))
    && (t.padding != [] ==> |t.padding| < 0x100 && t.padding[|t.padding| - 1] == |t.padding|)
  }

  predicate Valid(p: Packet) {
    0 <= p.payloadType < 128 && ValidTail(p.tail)
  }

  function FirstByte(t: Tail): byte
    requires |t.csrcs| < 16
  {
    128 + (if t.padding != [] then 32 else 0) + (if t.extension.Some? then 16 else 0) + |t.csrcs|
  }

  function ExtensionBytes(x: Option<Extension>): seq<byte>
    requires x.Some? ==> ValidExtension(x.value)
  {
    match x
    case None => []
    case Some(e) => Bytes16(e.profile) + Bytes16(|e.body| / 4) + e.body
  }

  function TailBytes(t: Tail): seq<byte>
    requires ValidTail(t)
  {
    WordBytes(t.csrcs) + (ExtensionBytes(t.extension) + (t.payload + t.padding))
  }

  function SecondByte(p: Packet): byte
    requires 0 <= p.payloadType < 128
  {
    (if p.marker then 128 else 0) + p.payloadType
  }

  function Serialize(p: Packet): seq<byte>
    requires Valid(p)
  {
    [FirstByte(p.tail), SecondByte(p)] + Bytes16(p.sequenceNumber) + Bytes32(p.timestamp) + Bytes32(p.ssrc)
      + TailBytes(p.tail)
  }

  lemma FirstByteFields(first: byte, count: nat, extension: bool, padding: bool)
    requires count < 16
    ensures first == 128 + (if padding then 32 else 0) + (if extension then 16 else 0) + count <==>
            first / 64 == 2 && first / 32 % 2 == (if padding then 1 else 0)
            && first / 16 % 2 == (if extension then 1 else 0) && first % 16 == count
  {
  }

  lemma LeadingByteFields(p: Packet)
    requires Valid(p)
    ensures FirstByte(p.tail) / 64 == 2
    ensures (SecondByte(p) / 128 == 1) == p.marker && SecondByte(p) % 128 == p.payloadType
  {
  }

  /** What follows the CSRC list: payload and padding octets. */
  function ParsePadding(hasPadding: bool, b: seq<byte>): Option<(seq<byte>, seq<byte>)> {
    if !hasPadding then Some((b, []))
    else if b == [] || b[|b| - 1] == 0 || b[|b| - 1] > |b| then None
    else Some((b[..|b| - b[|b| - 1]], b[|b| - b[|b| - 1]..]))
  }

  function ParseExtension(hasExtension: bool, b: seq<byte>): Option<(Option<Extension>, seq<byte>)> {
    if !hasExtension then Some((None, b))
    else if |b| < 4 || |b| < 4 + 4 * Word16(b[2..4]) then None
    else
      var end := 4 + 4 * Word16(b[2..4]);
      Some((Some(Extension(Word16(b[..2]), b[4..end])), b[end..]))
  }

  function ParseTail(first: byte, b: seq<byte>): Option<Tail> {
    var n := 4 * (first % 16);
    if |b| < n then None
    else match ParseExtension(first / 16 % 2 == 1, b[n..])
      case None => None
      case Some((extension, rest)) =>
        match ParsePadding(first / 32 % 2 == 1, rest)
        case None => None
        case Some((payload, padding)) => Some(Tail(Words(b[..n]), extension, payload, padding))
  }

  function Parse(b: seq<byte>): Option<Packet> {
    if |b| < HEADER_SIZE || b[0] / 64 != 2 then None
    else match ParseTail(b[0], b[12..])
      case None => None
      case Some(tail) =>
        Some(Packet(b[1] / 128 == 1, b[1] % 128, Word16(b[2..4]), Word32(b[4..8]), Word32(b[8..12]), tail))
  }

  lemma ParsePaddingOfBytes(payload: seq<byte>, padding: seq<byte>)
    requires padding != [] ==> |padding| < 0x100 && padding[|padding| - 1] == |padding|
    ensures ParsePadding(padding != [], payload + padding) == Some((payload, padding))
  {
    var b := payload + padding;
    if padding != [] {
      assert b[|b| - 1] == |padding|;
      assert b[..|payload|] == payload && b[|payload|..] == padding;
    } else {
      assert b == payload;
    }
  }

  lemma ParseExtensionOfBytes(x: Option<Extension>, rest: seq<byte>)
    requires x.Some? ==> ValidExtension(x.value)
    ensures ParseExtension(x.Some?, ExtensionBytes(x) + rest) == Some((x, rest))
  {
    var b := ExtensionBytes(x) + rest;
    match x
    case None => assert b == rest;
    case Some(e) =>
      var n := |e.body| / 4;
      assert b[..2] == Bytes16(e.profile) && b[2..4] == Bytes16(n);
      Word16RoundTrip(e.profile);
      Word16RoundTrip(n);
      assert b[4..4 + 4 * n] == e.body && b[4 + 4 * n..] == rest;
  }

  lemma ParseTailOfBytes(t: Tail)
    requires ValidTail(t)
    ensures ParseTail(FirstByte(t), TailBytes(t)) == Some(t)
  {
    var first, b := FirstByte(t), TailBytes(t);
    var n := 4 * |t.csrcs|;
    FirstByteFields(first, |t.csrcs|, t.extension.Some?, t.padding != []);
    assert b[..n] == WordBytes(t.csrcs) && b[n..] == ExtensionBytes(t.extension) + (t.payload + t.padding);
    WordsOfBytes(t.csrcs);
    ParseExtensionOfBytes(t.extension, t.payload + t.padding);
    ParsePaddingOfBytes(t.payload, t.padding);
  }

  /** Every packet the standard allows is read back from its own bytes. */
  lemma ParseOfSerialize(p: Packet)
    requires Valid(p)
    ensures Parse(Serialize(p)) == Some(p)
  {
    hide Word16, Word32, Bytes16, Bytes32, ParseTail, TailBytes, FirstByte, SecondByte;
    var b := Serialize(p);
    assert b[0] == FirstByte(p.tail) && b[1] == SecondByte(p);
    LeadingByteFields(p);
    assert b[2..4] == Bytes16(p.sequenceNumber) && b[4..8] == Bytes32(p.timestamp) && b[8..12] == Bytes32(p.ssrc);
    assert b[12..] == TailBytes(p.tail);
    Word16RoundTrip(p.sequenceNumber);
    Word32RoundTrip(p.timestamp);
    Word32RoundTrip(p.ssrc);
    ParseTailOfBytes(p.tail);
  }

  lemma BytesOfParsePadding(hasPadding: bool, b: seq<byte>)
    requires ParsePadding(hasPadding, b).Some?
    ensures var (payload, padding) := ParsePadding(hasPadding, b).value;
            && payload + padding == b
            && (padding != []) == hasPadding
            && (hasPadding ==> |padding| < 0x100 && padding[|padding| - 1] == |padding|)
  {
  }

  lemma BytesOfParseExtension(hasExtension: bool, b: seq<byte>)
    requires ParseExtension(hasExtension, b).Some?
    ensures var (x, rest) := ParseExtension(hasExtension, b).value;
            && x.Some? == hasExtension
            && (x.Some? ==> ValidExtension(x.value))
            && ExtensionBytes(x) + rest == b
  {
    hide Word16, Bytes16;
    if hasExtension {
      var n: int := Word16(b[2..4]);
      Bytes16RoundTrip(b[..2]);
      Bytes16RoundTrip(b[2..4]);
      assert |b[4..4 + 4 * n]| / 4 == n;
      assert b == b[..2] + b[2..4] + b[4..4 + 4 * n] + b[4 + 4 * n..];
    }
  }

  lemma BytesOfParseTail(first: byte, b: seq<byte>)
    requires first / 64 == 2 && ParseTail(first, b).Some?
    ensures var t := ParseTail(first, b).value; ValidTail(t) && FirstByte(t) == first && TailBytes(t) == b
  {
    hide Word16, Word32, Bytes16, Bytes32, ParseExtension, ParsePadding, ExtensionBytes, ValidExtension;
    var n := 4 * (first % 16);
    var t := ParseTail(first, b).value;
    BytesOfWords(b[..n]);
    BytesOfParseExtension(first / 16 % 2 == 1, b[n..]);
    var (x, rest) := ParseExtension(first / 16 % 2 == 1, b[n..]).value;
    BytesOfParsePadding(first / 32 % 2 == 1, rest);
    FirstByteFields(first, |t.csrcs|, t.extension.Some?, t.padding != []);
    assert b == b[..n] + b[n..];
  }

  /** Only valid packets are ever read, and each loses none of its bytes. */
  lemma SerializeOfParse(b: seq<byte>)
    requires Parse(b).Some?
    ensures Valid(Parse(b).value) && Serialize(Parse(b).value) == b
  {
    hide Word16, Word32, Bytes16, Bytes32, ParseTail, TailBytes, FirstByte;
    var p := Parse(b).value;
    BytesOfParseTail(b[0], b[12..]);
    Bytes16RoundTrip(b[2..4]);
    Bytes32RoundTrip(b[4..8]);
    Bytes32RoundTrip(b[8..12]);
    assert SecondByte(p) == b[1];
    assert b == [b[0], b[1]] + b[2..4] + b[4..8] + b[8..12] + b[12..];
  }

  // ---------------------------------------------------------------- the layout, octet by octet

  /** Two or four octets from offset k on as a number, the most significant first. */
  function Octets2(b: seq<byte>, k: nat): int
    requires k + 2 <= |b|
  {
    0x100 * (b[k] as int) + b[k + 1]
  }

  function Octets4(b: seq<byte>, k: nat): int
    requires k + 4 <= |b|
  {
    0x100_0000 * (b[k] as int) + 0x1_0000 * (b[k + 1] as int) + 0x100 * (b[k + 2] as int) + b[k + 3]
  }

  lemma WordAt(b: seq<byte>, k: nat)
    ensures k + 2 <= |b| ==> Word16(b[k..k + 2]) == Octets2(b, k)
    ensures k + 4 <= |b| ==> Word32(b[k..k + 4]) == Octets4(b, k)
  {
    if k + 4 <= |b| {
      var w := b[k..k + 4];
      assert w[..2] == b[k..k + 2] && w[2..] == b[k + 2..k + 4];
    }
  }

  lemma {:induction false} WordsAt(b: seq<byte>, k: nat)
    requires 4 * k + 4 <= |b| && |b| % 4 == 0
    ensures k < |Words(b)| && Words(b)[k] == Octets4(b, 4 * k)
  {
    if k == 0 {
      WordAt(b, 0);
      assert b[..4] == b[0..4];
    } else {
      WordsAt(b[4..], k - 1);
    }
  }

  /** The twelve fixed octets of section 5.1 of RFC 3550. */
  lemma FixedLayout(b: seq<byte>)
    requires Parse(b).Some?
    ensures var p := Parse(b).value;
            && |b| >= 12 && b[0] / 64 == 2
            && p.marker == (b[1] >= 128) && p.payloadType == b[1] % 128
            && p.sequenceNumber == Octets2(b, 2) && p.timestamp == Octets4(b, 4) && p.ssrc == Octets4(b, 8)
  {
    WordAt(b, 2);
    WordAt(b, 4);
    WordAt(b, 8);
  }

  lemma CsrcLayout(b: seq<byte>, n: nat)
    requires 12 + 4 * n <= |b|
    ensures var ws := Words(b[12..][..4 * n]); |ws| == n && forall k | 0 <= k < n :: ws[k] == Octets4(b, 12 + 4 * k)
  {
    hide Words, WordBytes;
    var c := b[12..][..4 * n];
    BytesOfWords(c);
    forall k: nat | k < n ensures Words(c)[k] == Octets4(b, 12 + 4 * k) {
      WordsAt(c, k);
      assert forall i | 4 * k <= i < 4 * k + 4 :: c[i] == b[12 + i];
    }
  }

  /** An extension that starts at offset n, if there is one, and where what follows it starts. */
  predicate ExtensionAt(x: Option<Extension>, b: seq<byte>, n: nat, start: nat) {
    match x
    case None => start == n <= |b|
    case Some(Extension(profile, body)) =>
      && n + 4 <= start <= |b| && profile == Octets2(b, n)
      && start == n + 4 + 4 * Octets2(b, n + 2) && body == b[n + 4..start]
  }

  lemma ExtensionLayout(hasExtension: bool, b: seq<byte>, n: nat) returns (start: nat)
    requires n <= |b| && ParseExtension(hasExtension, b[n..]).Some?
    ensures var (x, rest) := ParseExtension(hasExtension, b[n..]).value;
            (x.Some? <==> hasExtension) && ExtensionAt(x, b, n, start) && rest == b[start..]
  {
    start := n;
    if hasExtension {
      var e := b[n..];
      assert e[..2] == b[n..n + 2] && e[2..4] == b[n + 2..n + 4];
      WordAt(b, n);
      WordAt(b, n + 2);
      start := n + 4 + 4 * Octets2(b, n + 2);
    }
  }

  lemma PaddingLayout(hasPadding: bool, b: seq<byte>)
    requires ParsePadding(hasPadding, b).Some?
    ensures var (payload, padding) := ParsePadding(hasPadding, b).value;
            payload + padding == b && (hasPadding ==> b != [])
            && |padding| == if hasPadding then b[|b| - 1] else 0
  {
  }

  /**
   * What follows them: as many CSRC words as the low four bits of the first octet say, an extension if its fourth bit
   * is set, the payload, and padding of the length in the last octet if its third bit is set.
   */
  lemma TailLayout(b: seq<byte>) returns (start: nat)
    requires Parse(b).Some?
    ensures var t, n := Parse(b).value.tail, 12 + 4 * (b[0] % 16);
            && n <= |b| && |t.csrcs| == b[0] % 16
            && (forall k | 0 <= k < |t.csrcs| :: t.csrcs[k] == Octets4(b, 12 + 4 * k))
            && (t.extension.Some? <==> b[0] / 16 % 2 == 1) && ExtensionAt(t.extension, b, n, start)
            && t.payload + t.padding == b[start..]
            && |t.padding| == (if b[0] / 32 % 2 == 1 then b[|b| - 1] else 0)
  {
    hide Words, ExtensionAt, ParseExtension, ParsePadding, Octets4;
    var count := b[0] % 16;
    var n := 12 + 4 * count;
    assert b[12..][4 * count..] == b[n..];
    CsrcLayout(b, count);
    start := ExtensionLayout(b[0] / 16 % 2 == 1, b, n);
    PaddingLayout(b[0] / 32 % 2 == 1, ParseExtension(b[0] / 16 % 2 == 1, b[n..]).value.1);
  }

  // ---------------------------------------------------------------- the header edits

  /** The bytes after the SSRC field has been overwritten, in network byte order. */
  function WithSsrc(b: seq<byte>, ssrc: uint32): (r: seq<byte>)
    ensures |r| == |b|
  {
    if |b| < HEADER_SIZE then b else b[..8] + Bytes32(ssrc) + b[12..]
  }

  /** The bytes after the low seven bits of the second octet have been overwritten; its top bit is the marker. */
  function WithPayloadType(b: seq<byte>, pt: byte): (r: seq<byte>)
    ensures |r| == |b|
  {
    if |b| < HEADER_SIZE then b else b[1 := b[1] / 128 * 128 + pt % 128]
  }

  /** Both edits, in the order the forwarding unit makes them. */
  function Rewrite(b: seq<byte>, ssrc: uint32, pt: byte): seq<byte> {
    WithPayloadType(WithSsrc(b, ssrc), pt)
  }

  /** The C++ helpers: they cast the pointer to the packed header and trust the caller about its length. */
  method StoreSsrc(message: array<byte>, ssrc: uint32)
    requires message.Length >= HEADER_SIZE
    modifies message
    ensures message[..] == WithSsrc(old(message[..]), ssrc)
  {
    var w := Bytes32(ssrc);
    message[8], message[9], message[10], message[11] := w[0], w[1], w[2], w[3];
  }

  method StorePayloadType(message: array<byte>, pt: byte)
    requires message.Length >= HEADER_SIZE
    modifies message
    ensures message[..] == WithPayloadType(old(message[..]), pt)
  {
    message[1] := message[1] / 128 * 128 + pt % 128;
  }

  /** The Swift entry points: they leave anything shorter than a header alone. */
  method RewriteSsrc(data: array<byte>, ssrc: uint32)
    modifies data
    ensures data[..] == WithSsrc(old(data[..]), ssrc)
  {
    if data.Length < HEADER_SIZE {
      return;
    }
    StoreSsrc(data, ssrc);
  }

  method RewritePayloadType(data: array<byte>, pt: byte)
    modifies data
    ensures data[..] == WithPayloadType(old(data[..]), pt)
  {
    if data.Length < HEADER_SIZE {
      return;
    }
    StorePayloadType(data, pt);
  }

  /**
   * Rewriting preserves meaning: a packet parses after both edits exactly when it parsed before them, and the
   * parse differs in the SSRC and the (seven-bit) payload type only.
   */
  lemma RewriteMeaning(b: seq<byte>, ssrc: uint32, pt: byte)
    ensures Parse(Rewrite(b, ssrc, pt)) ==
            match Parse(b)
            case None => None
            case Some(p) => Some(p.(ssrc := ssrc, payloadType := pt % 128))
  {
    if |b| >= HEADER_SIZE {
      var r := Rewrite(b, ssrc, pt);
      assert r[8..12] == Bytes32(ssrc);
      Word32RoundTrip(ssrc);
      assert r[0] == b[0] && r[2..4] == b[2..4] && r[4..8] == b[4..8] && r[12..] == b[12..];
    }
  }

  /** The edited bytes are the ones a serializer would write for the edited packet. */
  lemma RewriteIsReserialize(b: seq<byte>, ssrc: uint32, pt: byte)
    requires Parse(b).Some?
    ensures var q := Parse(b).value.(ssrc := ssrc, payloadType := pt % 128);
            Valid(q) && Rewrite(b, ssrc, pt) == Serialize(q)
  {
    RewriteMeaning(b, ssrc, pt);
    SerializeOfParse(Rewrite(b, ssrc, pt));
  }

  /** The edits commute, each is idempotent, the last value written wins, and a short packet is untouched. */
  lemma RewriteAlgebra(b: seq<byte>, ssrc: uint32, pt: byte, ssrc': uint32, pt': byte)
    ensures WithPayloadType(WithSsrc(b, ssrc), pt) == WithSsrc(WithPayloadType(b, pt), ssrc)
    ensures WithSsrc(WithSsrc(b, ssrc'), ssrc) == WithSsrc(b, ssrc)
    ensures WithPayloadType(WithPayloadType(b, pt'), pt) == WithPayloadType(b, pt)
    ensures |b| < HEADER_SIZE ==> Rewrite(b, ssrc, pt) == b
  {
    if |b| >= HEADER_SIZE {
      assert WithPayloadType(WithSsrc(b, ssrc), pt) == WithSsrc(WithPayloadType(b, pt), ssrc);
      assert WithSsrc(WithSsrc(b, ssrc'), ssrc) == WithSsrc(b, ssrc);
      assert (b[1] / 128 * 128 + pt' % 128) / 128 == b[1] / 128;
    }
  }

  /** The SSRC a receiver reads, whether or not the rest of the packet is well formed. */
  function SsrcField(b: seq<byte>): uint32
    requires |b| >= HEADER_SIZE
  {
    Word32(b[8..12])
  }

  lemma RewriteSetsSsrcField(b: seq<byte>, ssrc: uint32, pt: byte)
    requires |b| >= HEADER_SIZE
    ensures |Rewrite(b, ssrc, pt)| == |b| && SsrcField(Rewrite(b, ssrc, pt)) == ssrc
  {
    assert Rewrite(b, ssrc, pt)[8..12] == Bytes32(ssrc);
    Word32RoundTrip(ssrc);
  }

  /** Octet by octet: 8 to 11 hold the new number, most significant first, 1 the old marker and the new type. */
  lemma RewriteTouches(b: seq<byte>, ssrc: uint32, pt: byte)
    requires |b| >= HEADER_SIZE
    ensures var r := Rewrite(b, ssrc, pt);
            && |r| == |b| && Octets4(r, 8) == ssrc
            && r[1] % 128 == pt % 128 && (r[1] >= 128 <==> b[1] >= 128)
            && forall k | 0 <= k < |b| && k != 1 && !(8 <= k < 12) :: r[k] == b[k]
  {
    var r := Rewrite(b, ssrc, pt);
    RewriteSetsSsrcField(b, ssrc, pt);
    WordAt(r, 8);
  }
}
