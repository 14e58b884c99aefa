/**
 * Reading the stream and track ids out of a media description. Text is ASCII; what is one Swift character is
 * modelled where it matters: a line feed right after a carriage return belongs to that carriage return, so it is
 * not a "\n" to split at.
 */
module Msid {
  import opened Common
  import opened SdpText

  datatype Msid = Msid(streamId: string, trackId: string)

  // ---------------------------------------------------------------- splitting

  predicate SeparatorAt(s: string, separator: char, i: nat)
    requires i < |s|
  {
    s[i] == separator && !(separator == '\n' && i > 0 && s[i - 1] == '\r')
  }

  predicate Unbroken(s: string, separator: char) {
    forall i: nat | i < |s| :: !SeparatorAt(s, separator, i)
  }

  function NextSeparator(s: string, separator: char, i: nat): (k: nat)
    requires i <= |s|
    ensures i <= k <= |s|
    ensures forall j: nat | i <= j < k :: !SeparatorAt(s, separator, j)
    ensures k < |s| ==> SeparatorAt(s, separator, k)
    decreases |s| - i
  {
    if i == |s| || SeparatorAt(s, separator, i) then i else NextSeparator(s, separator, i + 1)
  }

  function NonEmpty(piece: string): seq<string> {
    if piece == [] then [] else [piece]
  }

  /** Swift's `split`: empty pieces are dropped. */
  function Split(s: string, separator: char): seq<string>
    decreases |s|
  {
    var k := NextSeparator(s, separator, 0);
    NonEmpty(s[..k]) + if k == |s| then [] else Split(s[k + 1..], separator)
  }

  /** A piece without a separator, ended by one, is split off as it is. */
  lemma SplitFirst(piece: string, separator: char, rest: string)
    requires Unbroken(piece, separator)
    requires !(separator == '\n' && piece != [] && piece[|piece| - 1] == '\r')
    ensures Split(piece + [separator] + rest, separator) == NonEmpty(piece) + Split(rest, separator)
  {
    var s := piece + [separator] + rest;
    forall i: nat | i < |piece| ensures !SeparatorAt(s, separator, i) {
      assert !SeparatorAt(piece, separator, i);
    }
    assert SeparatorAt(s, separator, |piece|);
    assert s[..|piece|] == piece && s[|piece| + 1..] == rest;
  }

  lemma SplitLast(piece: string, separator: char)
    requires Unbroken(piece, separator)
    ensures Split(piece, separator) == NonEmpty(piece)
  {
    assert piece[..|piece|] == piece;
  }

  /** Where a piece sits in the text: at its start or right behind a separator. */
  predicate PieceAt(s: string, separator: char, piece: string, at: nat) {
    && at + |piece| <= |s|
    && s[at..at + |piece|] == piece
    && (at > 0 ==> s[at - 1] == separator)
  }

  lemma {:induction false} SplitPieces(s: string, separator: char, n: nat) returns (at: nat)
    requires n < |Split(s, separator)|
    ensures var piece := Split(s, separator)[n];
            piece != [] && Unbroken(piece, separator) && PieceAt(s, separator, piece, at)
    decreases |s|
  {
    hide Unbroken, PieceAt, SeparatorAt, NextSeparator;
    var k := NextSeparator(s, separator, 0);
    var head := NonEmpty(s[..k]);
    if n < |head| {
      at := 0;
      FirstPiece(s, separator);
    } else {
      var rest := s[k + 1..];
      assert Split(s, separator) == head + Split(rest, separator);
      var inner := SplitPieces(rest, separator, n - |head|);
      at := k + 1 + inner;
      PieceOfRest(s, separator, k, Split(rest, separator)[n - |head|], inner);
    }
  }

  lemma FirstPiece(s: string, separator: char)
    ensures var piece := s[..NextSeparator(s, separator, 0)];
            Unbroken(piece, separator) && PieceAt(s, separator, piece, 0)
  {
    var k := NextSeparator(s, separator, 0);
    forall i: nat | i < k ensures !SeparatorAt(s[..k], separator, i) {
      assert !SeparatorAt(s, separator, i);
    }
  }

  lemma PieceOfRest(s: string, separator: char, k: nat, piece: string, inner: nat)
    requires k < |s| && SeparatorAt(s, separator, k) && PieceAt(s[k + 1..], separator, piece, inner)
    ensures PieceAt(s, separator, piece, k + 1 + inner)
  {
    var rest, at := s[k + 1..], k + 1 + inner;
    assert s[at..at + |piece|] == rest[inner..inner + |piece|];
    assert inner > 0 ==> s[at - 1] == rest[inner - 1];
  }

  // ---------------------------------------------------------------- the parser

  const MSID_PREFIX := "a=msid:"
  const SSRC_PREFIX := "a=ssrc:"
  const MSID_TOKEN := "msid"

  function FirstMsidLine(lines: seq<string>): (line: Option<string>)
    ensures line.Some? ==> line.value in lines && MSID_PREFIX <= line.value
  {
    if lines == [] then None
    else if MSID_PREFIX <= lines[0] then Some(lines[0])
    else FirstMsidLine(lines[1..])
  }

  function FirstSsrcLine(lines: seq<string>): (line: Option<string>)
    ensures line.Some? ==> line.value in lines && SSRC_PREFIX <= line.value
  {
    if lines == [] then None
    else if Contains(lines[0], " msid ") && SSRC_PREFIX <= lines[0] then Some(lines[0])
    else FirstSsrcLine(lines[1..])
  }

  function FirstIndex(tokens: seq<string>, token: string): (k: nat)
    ensures k <= |tokens| && (k < |tokens| ==> tokens[k] == token)
    ensures forall j | 0 <= j < k :: tokens[j] != token
  {
    if tokens == [] || tokens[0] == token then 0 else 1 + FirstIndex(tokens[1..], token)
  }

  function ParseMsidLine(line: string): Option<Msid>
    requires |MSID_PREFIX| <= |line|
  {
    var parts := Split(line[|MSID_PREFIX|..], ' ');
    if |parts| >= 2 then Some(Msid(parts[0], parts[1]))
    else if |parts| == 1 then Some(Msid(parts[0], parts[0]))
    else None
  }

  function ParseSsrcLine(line: string): Option<Msid> {
    var tokens := Split(line, ' ');
    var k := FirstIndex(tokens, MSID_TOKEN);
    if k + 2 < |tokens| then Some(Msid(tokens[k + 1], tokens[k + 2])) else None
  }

  function ParseLines(lines: seq<string>): Option<Msid> {
    match FirstMsidLine(lines)
    case Some(line) =>
      (match ParseMsidLine(line)
       case Some(msid) => Some(msid)
       case None => ParseSsrcLines(lines))
    case None => ParseSsrcLines(lines)
  }

  function ParseSsrcLines(lines: seq<string>): Option<Msid> {
    match FirstSsrcLine(lines)
    case Some(line) => ParseSsrcLine(line)
    case None => None
  }

  function Normalized(description: string): string {
    ReplaceAll(description, "\r\n", "\n")
  }

  function LinesOf(description: string): seq<string> {
    Split(Normalized(description), '\n')
  }

  /** `None` is the error the source throws. */
  function GetMsid(description: string): Option<Msid> {
    ParseLines(LinesOf(description))
  }

  // ---------------------------------------------------------------- line endings

  lemma {:induction false} ReplaceFromHere(s: string, from: string, to: string, rest: string)
    requires from != [] && from[0] !in s
    ensures ReplaceAll(s + rest, from, to) == s + ReplaceAll(rest, from, to)
  {
    if s == [] {
      assert s + rest == rest;
    } else {
      var whole := s + rest;
      assert whole[0] == s[0] && s[0] in s && whole[1..] == s[1..] + rest;
      ReplaceStep(whole, from, to);
      ReplaceFromHere(s[1..], from, to, rest);
    }
  }

  lemma ReplaceHead(from: string, to: string, rest: string)
    requires from != []
    ensures ReplaceAll(from + rest, from, to) == to + ReplaceAll(rest, from, to)
  {
    assert (from + rest)[|from|..] == rest;
  }

  function ToCrlf(s: string): string {
    ReplaceAll(s, "\n", "\r\n")
  }

  /** Converting line feeds to CRLF is undone by the parser's first step, even where returns were there already. */
  lemma {:induction false} FromCrlfToCrlf(s: string)
    ensures ReplaceAll(ToCrlf(s), "\r\n", "\n") == s
  {
    if s != [] {
      var rest := ToCrlf(s[1..]);
      FromCrlfToCrlf(s[1..]);
      assert s == [s[0]] + s[1..];
      if "\n" <= s {
        ReplaceHead("\r\n", "\n", rest);
      } else {
        NoLeadingLineFeed(s[1..]);
        assert ToCrlf(s) == [s[0]] + rest && ([s[0]] + rest)[1..] == rest;
        ReplaceStep([s[0]] + rest, "\r\n", "\n");
      }
    }
  }

  lemma NoLeadingLineFeed(s: string)
    ensures ToCrlf(s) != [] ==> ToCrlf(s)[0] != '\n'
  {
  }

  /** The convention does not matter: a text without CRLF and its CRLF form give the same ids, or both fail. */
  lemma LineEndingsIgnored(s: string)
    requires !Contains(s, "\r\n")
    ensures GetMsid(ToCrlf(s)) == GetMsid(s)
  {
    FromCrlfToCrlf(s);
    ReplaceNowhere(s, "\r\n", "\n");
  }

  /** A text as a generator writes it: each line with either terminator, and then whatever comes last. */
  datatype Line = Line(text: string, crlf: bool)

  /** What a terminator can follow without changing the text or the terminator. */
  predicate Whole(s: string) {
    '\n' !in s && (s == [] || s[|s| - 1] != '\r')
  }

  function Terminator(crlf: bool): string {
    if crlf then "\r\n" else "\n"
  }

  function Render(lines: seq<Line>, last: string): string {
    if lines == [] then last else lines[0].text + Terminator(lines[0].crlf) + Render(lines[1..], last)
  }

  function Texts(lines: seq<Line>): seq<string> {
    if lines == [] then [] else NonEmpty(lines[0].text) + Texts(lines[1..])
  }

  /** Normalising does not touch a text without line feeds, unless its last return meets a line feed behind it. */
  lemma {:induction false} NormalizePrefix(s: string, rest: string)
    requires '\n' !in s
    requires s == [] || s[|s| - 1] != '\r' || rest == [] || rest[0] != '\n'
    ensures Normalized(s + rest) == s + Normalized(rest)
  {
    if s == [] {
      assert s + rest == rest;
    } else {
      var whole := s + rest;
      assert whole[0] == s[0] && whole[1..] == s[1..] + rest;
      assert forall c | c in s[1..] :: c in s;
      assert |s| > 1 ==> whole[1] == s[1] && s[1] in s;
      ReplaceStep(whole, "\r\n", "\n");
      NormalizePrefix(s[1..], rest);
    }
  }

  lemma NormalizeTerminated(text: string, crlf: bool, rest: string)
    requires Whole(text)
    ensures Normalized(text + Terminator(crlf) + rest) == text + "\n" + Normalized(rest)
  {
    hide ReplaceAll;
    assert text + Terminator(crlf) + rest == text + (Terminator(crlf) + rest);
    if crlf {
      NormalizePrefix(text, "\r\n" + rest);
      ReplaceHead("\r\n", "\n", rest);
    } else {
      NormalizePrefix(text, "\n" + rest);
      ReplaceFromHere("\n", "\r\n", "\n", rest);
    }
  }

  lemma UnbrokenByFeed(text: string)
    requires '\n' !in text
    ensures Unbroken(text, '\n')
  {
    assert forall i | 0 <= i < |text| :: text[i] in text;
  }

  /** The parser sees the non-empty lines of such a text, whatever mixture of terminators it uses. */
  lemma {:induction false} LinesOfRender(lines: seq<Line>, last: string)
    requires forall k | 0 <= k < |lines| :: Whole(lines[k].text)
    ensures LinesOf(Render(lines, last)) == Texts(lines) + LinesOf(last)
  {
    hide Normalized, Split, Unbroken, Terminator, NonEmpty;
    if lines == [] {
      assert Texts(lines) + LinesOf(last) == LinesOf(last);
    } else {
      var text, rest := lines[0].text, Render(lines[1..], last);
      LinesOfRender(lines[1..], last);
      NormalizeTerminated(text, lines[0].crlf, rest);
      UnbrokenByFeed(text);
      SplitFirst(text, '\n', Normalized(rest));
      assert NonEmpty(text) + (Texts(lines[1..]) + LinesOf(last)) == Texts(lines) + LinesOf(last);
    }
  }

  lemma LinesOfLast(last: string)
    requires '\n' !in last
    ensures LinesOf(last) == NonEmpty(last)
  {
    NormalizePrefix(last, "");
    assert last + "" == last;
    UnbrokenByFeed(last);
    SplitLast(last, '\n');
  }

  // ---------------------------------------------------------------- printing and parsing ids

  predicate Token(s: string) {
    s != [] && ' ' !in s
  }

  function MsidLine(id: Msid): string {
    MSID_PREFIX + id.streamId + " " + id.trackId
  }

  lemma SplitToken(first: string, rest: string)
    requires ' ' !in first
    ensures Split(first + " " + rest, ' ') == NonEmpty(first) + Split(rest, ' ')
    ensures Split(first, ' ') == NonEmpty(first)
  {
    hide Split;
    SplitFirst(first, ' ', rest);
    SplitLast(first, ' ');
  }

  lemma SplitTokens(first: string, second: string, rest: string)
    requires Token(first) && Token(second) && (rest == [] || rest[0] == ' ')
    ensures var parts := Split(first + " " + second + rest, ' ');
            |parts| >= 2 && parts[0] == first && parts[1] == second
  {
    hide Split;
    SplitToken(first, second + rest);
    assert first + " " + (second + rest) == first + " " + second + rest;
    if rest == [] {
      assert second + rest == second;
      SplitToken(second, "");
    } else {
      assert second + rest == second + " " + rest[1..];
      SplitToken(second, rest[1..]);
    }
  }

  lemma ParsePrinted(id: Msid, appendix: string)
    requires Token(id.streamId) && Token(id.trackId) && (appendix == [] || appendix[0] == ' ')
    ensures ParseMsidLine(MsidLine(id) + appendix) == Some(id)
  {
    hide Split, Token;
    SplitTokens(id.streamId, id.trackId, appendix);
    var line := MsidLine(id) + appendix;
    var body := id.streamId + " " + id.trackId + appendix;
    assert line == MSID_PREFIX + body;
    assert line[|MSID_PREFIX|..] == body;
  }

  /** Printed ids are read back, from any text whose first msid line is theirs and whatever else that line appends. */
  lemma MsidRoundTrip(description: string, id: Msid, appendix: string)
    requires Token(id.streamId) && Token(id.trackId) && (appendix == [] || appendix[0] == ' ')
    requires FirstMsidLine(LinesOf(description)) == Some(MsidLine(id) + appendix)
    ensures GetMsid(description) == Some(id)
  {
    hide LinesOf, ParseMsidLine, MsidLine;
    ParsePrinted(id, appendix);
  }

  /** A msid line with a single id stands for both; one without any leaves the decision to the older dialect. */
  lemma ShortMsidLine(description: string, id: string, blanks: string)
    requires ' ' !in id && (forall k | 0 <= k < |blanks| :: blanks[k] == ' ')
    requires FirstMsidLine(LinesOf(description)) == Some(MSID_PREFIX + blanks + id)
    ensures GetMsid(description) == if id != "" then Some(Msid(id, id)) else ParseSsrcLines(LinesOf(description))
  {
    hide LinesOf, Split, ParseSsrcLines;
    var line := MSID_PREFIX + blanks + id;
    assert line[|MSID_PREFIX|..] == blanks + id;
    SplitBlanks(blanks, id);
  }

  lemma {:induction false} SplitBlanks(blanks: string, id: string)
    requires ' ' !in id && (forall k | 0 <= k < |blanks| :: blanks[k] == ' ')
    ensures Split(blanks + id, ' ') == NonEmpty(id)
  {
    hide Split;
    if blanks == [] {
      assert blanks + id == id;
      SplitToken(id, "");
    } else {
      assert blanks + id == "" + " " + (blanks[1..] + id);
      SplitToken("", blanks[1..] + id);
      SplitBlanks(blanks[1..], id);
    }
  }

  /** No msid line of the newer dialect, or one without any id. */
  predicate OnlyOlderDialect(lines: seq<string>) {
    match FirstMsidLine(lines)
    case None => true
    case Some(line) => ParseMsidLine(line).None?
  }

  function SsrcHead(source: string): string {
    SSRC_PREFIX + source + " msid "
  }

  lemma SplitSsrcLine(source: string, tail: string)
    requires ' ' !in source
    ensures Split(SsrcHead(source) + tail, ' ') == [SSRC_PREFIX + source, MSID_TOKEN] + Split(tail, ' ')
    ensures forall more :: FirstIndex([SSRC_PREFIX + source, MSID_TOKEN] + more, MSID_TOKEN) == 1
  {
    hide Split;
    var head := SSRC_PREFIX + source;
    SplitToken(head, MSID_TOKEN + " " + tail);
    SplitToken(MSID_TOKEN, tail);
    assert SsrcHead(source) + tail == head + " " + (MSID_TOKEN + " " + tail);
    assert head[1] == SSRC_PREFIX[1] != MSID_TOKEN[1];
  }

  /** The older dialect: one line per source, with the ids behind a "msid" token. */
  lemma SsrcRoundTrip(description: string, source: string, id: Msid, appendix: string)
    requires Token(id.streamId) && Token(id.trackId) && ' ' !in source && (appendix == [] || appendix[0] == ' ')
    requires OnlyOlderDialect(LinesOf(description))
    requires FirstSsrcLine(LinesOf(description))
             == Some(SsrcHead(source) + (id.streamId + " " + id.trackId + appendix))
    ensures GetMsid(description) == Some(id)
  {
    hide LinesOf, Split, SsrcHead;
    SplitSsrcLine(source, id.streamId + " " + id.trackId + appendix);
    SplitTokens(id.streamId, id.trackId, appendix);
  }

  /** Although its comment calls the track id optional, that dialect fails without one. */
  lemma SsrcNeedsTrack(description: string, source: string, streamId: string)
    requires Token(streamId) && ' ' !in source
    requires OnlyOlderDialect(LinesOf(description))
    requires FirstSsrcLine(LinesOf(description)) == Some(SsrcHead(source) + streamId)
    ensures GetMsid(description) == None
  {
    hide LinesOf, Split, SsrcHead;
    SplitSsrcLine(source, streamId);
    SplitToken(streamId, "");
  }

  // ---------------------------------------------------------------- what ids a description can carry

  /** Ids that some description can carry. */
  predicate Expressible(s: string) {
    Token(s) && Unbroken(s, '\n')
  }

  lemma SubstringUnbroken(line: string, piece: string, offset: nat)
    requires offset + |piece| <= |line| && line[offset..offset + |piece|] == piece
    requires Unbroken(line, '\n') && (offset > 0 ==> line[offset - 1] != '\r')
    ensures Unbroken(piece, '\n')
  {
    forall i: nat | i < |piece| ensures !SeparatorAt(piece, '\n', i) {
      assert piece[i] == line[offset + i] && !SeparatorAt(line, '\n', offset + i);
      assert i > 0 ==> piece[i - 1] == line[offset + i - 1];
    }
  }

  lemma UnbrokenBySpace(piece: string)
    requires Unbroken(piece, ' ')
    ensures ' ' !in piece
  {
    if ' ' in piece {
      var i: nat :| i < |piece| && piece[i] == ' ';
      assert SeparatorAt(piece, ' ', i);
    }
  }

  lemma PieceOfLine(line: string, tail: string, n: nat)
    requires Unbroken(line, '\n') && n < |Split(tail, ' ')|
    requires |tail| <= |line| && line[|line| - |tail|..] == tail
    requires |tail| < |line| ==> line[|line| - |tail| - 1] != '\r'
    ensures Expressible(Split(tail, ' ')[n])
  {
    hide Split, Unbroken;
    var at := SplitPieces(tail, ' ', n);
    var piece := Split(tail, ' ')[n];
    var offset := |line| - |tail| + at;
    assert line[offset..offset + |piece|] == tail[at..at + |piece|];
    assert at > 0 ==> line[offset - 1] == tail[at - 1];
    SubstringUnbroken(line, piece, offset);
    UnbrokenBySpace(piece);
  }

  /** Whatever the description, the ids read from it are non-empty, free of spaces, and within one line. */
  lemma ParsedIdsAreExpressible(description: string)
    requires GetMsid(description).Some?
    ensures var id := GetMsid(description).value; Expressible(id.streamId) && Expressible(id.trackId)
  {
    hide Split, Unbroken, Expressible;
    var sdp := ReplaceAll(description, "\r\n", "\n");
    var lines := LinesOf(description);
    forall line | line in lines ensures Unbroken(line, '\n') {
      var n :| 0 <= n < |lines| && lines[n] == line;
      var at := SplitPieces(sdp, '\n', n);
    }
    if FirstMsidLine(lines).Some? && ParseMsidLine(FirstMsidLine(lines).value).Some? {
      var line := FirstMsidLine(lines).value;
      var tail := line[|MSID_PREFIX|..];
      assert line[|MSID_PREFIX| - 1] == MSID_PREFIX[|MSID_PREFIX| - 1];
      forall n: nat | n < |Split(tail, ' ')| ensures Expressible(Split(tail, ' ')[n]) {
        PieceOfLine(line, tail, n);
      }
    } else {
      var line := FirstSsrcLine(lines).value;
      forall n: nat | n < |Split(line, ' ')| ensures Expressible(Split(line, ' ')[n]) {
        PieceOfLine(line, line, n);
      }
    }
  }

  /** Those are exactly the ids that some description carries, though not always the one that prints them. */
  lemma ExpressibleIds(id: Msid)
    ensures (exists description :: GetMsid(description) == Some(id))
            <==> Expressible(id.streamId) && Expressible(id.trackId)
  {
    if exists description :: GetMsid(description) == Some(id) {
      var description :| GetMsid(description) == Some(id);
      ParsedIdsAreExpressible(description);
    }
    if Expressible(id.streamId) && Expressible(id.trackId) {
      OwnLine(id);
      MsidRoundTrip(ToCrlf(MsidLine(id)), id, "");
    }
  }

  lemma OwnLine(id: Msid)
    requires Expressible(id.streamId) && Expressible(id.trackId)
    ensures FirstMsidLine(LinesOf(ToCrlf(MsidLine(id)))) == Some(MsidLine(id) + "")
  {
    hide ReplaceAll, Split;
    var line := MsidLine(id);
    var n := |MSID_PREFIX| + |id.streamId|;
    forall i: nat | i < |line| ensures !SeparatorAt(line, '\n', i) {
      if |MSID_PREFIX| <= i < n {
        assert !SeparatorAt(id.streamId, '\n', i - |MSID_PREFIX|);
      } else if i > n {
        assert !SeparatorAt(id.trackId, '\n', i - n - 1);
      }
    }
    SplitLast(line, '\n');
    FromCrlfToCrlf(line);
    assert LinesOf(ToCrlf(line)) == [line];
    assert MSID_PREFIX <= line && line + "" == line;
  }
}
