/** Which printed ids a whole description gives back, stated on the text itself. */
module MsidText {
  import opened Common
  import opened SdpText
  import opened Msid
  import opened MsidFeeds

  // ---------------------------------------------------------------- the line that prints the ids

  /** No earlier line is a msid line, and terminators do not change any of them. */
  predicate Preamble(before: seq<Line>) {
    forall k | 0 <= k < |before| :: Whole(before[k].text) && !(MSID_PREFIX <= before[k].text)
  }

  /** The condition on the ids, and for a final return on what follows it. */
  predicate Survives(id: Msid, rest: string) {
    && Token(id.streamId) && Token(id.trackId)
    && '\n' !in id.streamId && '\n' !in id.trackId
    && (id.trackId[|id.trackId| - 1] == '\r' ==> rest == [] || rest[0] == ' ')
  }

  /** The one coincidence: the track id is swallowed by the line's end, and the stream id then stands for both. */
  predicate LoneReturns(id: Msid, rest: string) {
    id == Msid("\r", "\r") && "\n" <= rest
  }

  function Ids(id: Msid, rest: string): string {
    id.streamId + " " + (id.trackId + rest)
  }

  /** The part of the normalised text behind the prefix that the parser takes for the line. */
  function Body(id: Msid, rest: string): string {
    var u := Normalized(Ids(id, rest));
    u[..NextSeparator(u, '\n', 0)]
  }

  lemma NextSeparatorIs(s: string, separator: char, k: nat)
    requires k <= |s| && (forall j: nat | j < k :: !SeparatorAt(s, separator, j))
    requires k < |s| ==> SeparatorAt(s, separator, k)
    ensures NextSeparator(s, separator, 0) == k
  {
  }

  lemma {:induction false} NoMsidLine(before: seq<Line>)
    requires Preamble(before)
    ensures FirstMsidLine(Texts(before)) == None
  {
    if before != [] {
      var text, rest := before[0].text, Texts(before[1..]);
      NoMsidLine(before[1..]);
      FirstMsidAfter(NonEmpty(text), rest);
    }
  }

  lemma {:induction false} FirstMsidAfter(lines: seq<string>, more: seq<string>)
    requires FirstMsidLine(lines) == None
    ensures FirstMsidLine(lines + more) == FirstMsidLine(more)
  {
    if lines == [] {
      assert lines + more == more;
    } else {
      assert (lines + more)[1..] == lines[1..] + more;
      FirstMsidAfter(lines[1..], more);
    }
  }

  lemma PrefixedLine(u: string)
    ensures var lines := Split(MSID_PREFIX + u, '\n');
            lines != [] && lines[0] == MSID_PREFIX + u[..NextSeparator(u, '\n', 0)]
  {
    var t, n, k := MSID_PREFIX + u, |MSID_PREFIX|, NextSeparator(u, '\n', 0);
    forall j: nat | j < n + k ensures !SeparatorAt(t, '\n', j) {
      assert j >= n ==> !SeparatorAt(u, '\n', j - n);
    }
    NextSeparatorIs(t, '\n', n + k);
    assert t[..n + k] == MSID_PREFIX + u[..k];
  }

  /** The first msid line the parser finds begins where the ids were printed. */
  lemma FoundLine(before: seq<Line>, id: Msid, rest: string)
    requires Preamble(before)
    ensures FirstMsidLine(LinesOf(Render(before, MsidLine(id) + rest))) == Some(MSID_PREFIX + Body(id, rest))
  {
    hide ReplaceAll, Split, NextSeparator, Render, Whole;
    var text := MsidLine(id) + rest;
    LinesOfRender(before, text);
    NoMsidLine(before);
    FirstMsidAfter(Texts(before), LinesOf(text));
    assert text == MSID_PREFIX + Ids(id, rest);
    NormalizePrefix(MSID_PREFIX, Ids(id, rest));
    PrefixedLine(Normalized(Ids(id, rest)));
    assert MSID_PREFIX <= LinesOf(text)[0];
  }

  // ---------------------------------------------------------------- ids that survive

  lemma NormalizedHead(rest: string)
    requires Follows(rest)
    ensures var n := Normalized(rest);
            && (rest == [] <==> n == [])
            && (rest != [] ==> n[0] == if rest[0] == ' ' then ' ' else '\n')
  {
  }

  /** The line's body is the two ids and perhaps more tokens. */
  lemma SurvivingBody(id: Msid, rest: string) returns (appendix: string)
    requires Survives(id, rest) && Follows(rest)
    ensures appendix == [] || appendix[0] == ' '
    ensures Body(id, rest) == id.streamId + " " + id.trackId + appendix
  {
    hide Normalized, NextSeparator, Follows;
    var head := id.streamId + " " + id.trackId;
    assert Ids(id, rest) == head + rest;
    NormalizedHead(rest);
    assert head[|head| - 1] == id.trackId[|id.trackId| - 1] by {
      TokensEnd(id);
    }
    assert '\n' !in head;
    FollowsFeed(rest);
    NormalizePrefix(head, rest);
    var u, n := head + Normalized(rest), Normalized(rest);
    var k := NextSeparator(u, '\n', 0);
    HeadIsUncut(head, n, k);
    appendix := u[|head|..k];
    assert u[..k] == head + appendix;
  }

  lemma TokensEnd(id: Msid)
    requires id.trackId != []
    ensures var head := id.streamId + " " + id.trackId; head[|head| - 1] == id.trackId[|id.trackId| - 1]
  {
  }

  lemma FollowsFeed(rest: string)
    requires Follows(rest)
    ensures rest != [] && rest[0] != ' ' && rest[0] != '\n' ==> "\r\n" <= rest
  {
  }

  lemma HeadIsUncut(head: string, n: string, k: nat)
    requires '\n' !in head && head != [] && k == NextSeparator(head + n, '\n', 0)
    requires n == [] || n[0] == ' ' || n[0] == '\n'
    requires head[|head| - 1] == '\r' ==> n == [] || n[0] == ' '
    ensures |head| <= k && (k == |head| || n[0] == ' ')
  {
    var u := head + n;
    assert forall i | 0 <= i < |head| :: u[i] == head[i] && head[i] in head;
    assert n != [] && n[0] == '\n' ==> SeparatorAt(u, '\n', |head|);
  }

  lemma SurvivingIdsAreRead(before: seq<Line>, id: Msid, rest: string)
    requires Preamble(before) && Follows(rest) && Survives(id, rest)
    ensures GetMsid(Render(before, MsidLine(id) + rest)) == Some(id)
  {
    hide Normalized, Preamble, Follows, Render, Body, LinesOf, ParseMsidLine;
    FoundLine(before, id, rest);
    var appendix := SurvivingBody(id, rest);
    ParsePrinted(id, appendix);
    assert MSID_PREFIX + (id.streamId + " " + id.trackId + appendix) == MsidLine(id) + appendix;
  }

  // ---------------------------------------------------------------- and no others

  lemma {:induction false} NormalizedSize(s: string)
    ensures |Normalized(s)| <= |s| && (Normalized(s) == [] <==> s == [])
  {
    if |s| < 2 {
    } else if "\r\n" <= s {
      NormalizedSize(s[2..]);
    } else {
      NormalizedSize(s[1..]);
    }
  }

  /** An unbroken text that normalising leaves in place holds no line feed, nor a return that ends the line. */
  lemma {:induction false} NormalAgrees(s: string, rest: string)
    requires Unbroken(s, '\n') && s <= Normalized(s + rest)
    ensures '\n' !in s && (s != [] && s[|s| - 1] == '\r' ==> !("\n" <= rest))
  {
    if s != [] {
      var whole := s + rest;
      assert !SeparatorAt(s, '\n', 0);
      assert !("\r\n" <= whole);
      ReplaceStep(whole, "\r\n", "\n");
      assert whole[1..] == s[1..] + rest;
      TailUnbroken(s);
      NormalAgrees(s[1..], rest);
      assert s == [s[0]] + s[1..];
    }
  }

  lemma TailUnbroken(s: string)
    requires s != [] && Unbroken(s, '\n') && !("\r\n" <= s)
    ensures Unbroken(s[1..], '\n')
  {
    forall i: nat | i < |s[1..]| ensures !SeparatorAt(s[1..], '\n', i) {
      assert !SeparatorAt(s, '\n', i + 1);
    }
  }

  /** A text that starts with a token starts its pieces with that token. */
  lemma HeadPiece(s: string)
    requires s != [] && s[0] != ' '
    ensures var k := NextSeparator(s, ' ', 0); 0 < k && Split(s, ' ') != [] && Split(s, ' ')[0] == s[..k]
  {
  }

  lemma SeparatorAcross(n: string, v: string)
    ensures var k := NextSeparator(n, '\n', 0);
            NextSeparator(n + " " + v, '\n', 0) == if k < |n| then k else |n| + 1 + NextSeparator(v, '\n', 0)
  {
    var u, k, j := n + " " + v, NextSeparator(n, '\n', 0), NextSeparator(v, '\n', 0);
    assert forall i | 0 <= i < |n| :: SeparatorAt(u, '\n', i) == SeparatorAt(n, '\n', i);
    if k < |n| {
      NextSeparatorIs(u, '\n', k);
    } else {
      forall i: nat | |n| < i < |u| ensures SeparatorAt(u, '\n', i) == SeparatorAt(v, '\n', i - |n| - 1) {
      }
      NextSeparatorIs(u, '\n', |n| + 1 + j);
    }
  }

  /** Where the body ends: inside the printed stream id, or only behind the space that follows it. */
  lemma BodySplits(id: Msid, rest: string)
    ensures var n, v := Normalized(id.streamId), Normalized(id.trackId + rest);
            var k := NextSeparator(n, '\n', 0);
            Body(id, rest) == if k < |n| then n[..k] else n + " " + v[..NextSeparator(v, '\n', 0)]
  {
    hide ReplaceAll, NextSeparator;
    var n, v := Normalized(id.streamId), Normalized(id.trackId + rest);
    ReplaceAcross(id.streamId, ' ', id.trackId + rest, "\r\n", "\n");
    SeparatorAcross(n, v);
    assert Normalized(Ids(id, rest)) == n + " " + v;
  }

  lemma LoneToken(body: string)
    requires ' ' !in body
    ensures ParseMsidLine(MSID_PREFIX + body) == if body == [] then None else Some(Msid(body, body))
  {
    hide Split;
    assert (MSID_PREFIX + body)[|MSID_PREFIX|..] == body;
    SplitToken(body, "");
  }

  lemma FirstToken(stream: string, tail: string)
    requires stream != [] && ' ' !in stream
    ensures var parts := Split(tail, ' ');
            ParseMsidLine(MSID_PREFIX + (stream + " " + tail))
            == Some(Msid(stream, if parts == [] then stream else parts[0]))
  {
    hide Split;
    var body := stream + " " + tail;
    assert (MSID_PREFIX + body)[|MSID_PREFIX|..] == body;
    SplitToken(stream, tail);
  }

  /** Reading the ids back from the body means that it is not cut inside the stream id, which stands there unchanged. */
  lemma StreamIsWhole(id: Msid, rest: string)
    requires Expressible(id.streamId) && ParseMsidLine(MSID_PREFIX + Body(id, rest)) == Some(id)
    ensures var v := Normalized(id.trackId + rest);
            Body(id, rest) == id.streamId + " " + v[..NextSeparator(v, '\n', 0)]
    ensures '\n' !in id.streamId
  {
    hide ParseMsidLine, Body, Unbroken, ReplaceAll;
    var n, v := Normalized(id.streamId), Normalized(id.trackId + rest);
    var k := NextSeparator(n, '\n', 0);
    BodySplits(id, rest);
    NormalizedSize(id.streamId);
    ReplaceKeepsOut(' ', id.streamId, "\r\n", "\n");
    if k < |n| {
      LoneToken(n[..k]);
    } else {
      FirstToken(n, v[..NextSeparator(v, '\n', 0)]);
      assert id.streamId + "" == id.streamId;
      NormalAgrees(id.streamId, "");
    }
  }

  lemma TrackHead(track: string, rest: string)
    requires Expressible(track)
    ensures var v, swallowed := Normalized(track + rest), "\r\n" <= track + rest;
            v != [] && v[0] == (if swallowed then '\n' else track[0])
            && (NextSeparator(v, '\n', 0) == 0 <==> swallowed)
  {
    var whole := track + rest;
    assert !SeparatorAt(track, '\n', 0);
    assert whole[0] == track[0];
    if !("\r\n" <= whole) {
      ReplaceStep(whole, "\r\n", "\n");
    }
  }

  /** A return at the end of the track id would merge with the line break behind it, and the token would go on. */
  lemma ReturnGoesOn(track: string, rest: string)
    requires track != [] && '\n' !in track && track[|track| - 1] == '\r' && "\r\n" <= rest
    ensures var v := Normalized(track + rest);
            var tail := v[..NextSeparator(v, '\n', 0)];
            |tail| > |track| && tail[|track|] == '\n' && NextSeparator(tail, ' ', 0) != |track|
  {
    var v, j := Normalized(track + rest), NextSeparator(Normalized(track + rest), '\n', 0);
    NormalizePrefix(track, rest);
    ReplaceHead("\r\n", "\n", rest[2..]);
    assert rest == "\r\n" + rest[2..];
    assert v[|track|] == '\n' && v[|track| - 1] == '\r';
    assert forall i | 0 <= i < |track| :: v[i] == track[i] && track[i] in track;
    assert v[..j][|track|] == v[|track|];
  }

  lemma LoneReturn(track: string, rest: string)
    requires track != [] && '\n' !in track && "\r\n" <= track + rest
    ensures track == "\r" && "\n" <= rest
  {
    var whole := track + rest;
    assert whole[0] == '\r' && whole[1] == '\n';
    assert forall i | 0 <= i < |track| :: whole[i] == track[i] && track[i] in track;
  }

  /** Behind the space stands the track id, or nothing but a line break that swallows it. */
  lemma TrackIsWhole(id: Msid, rest: string)
    requires Survives(Msid(id.streamId, "t"), "") && Expressible(id.trackId) && Follows(rest)
    requires ParseMsidLine(MSID_PREFIX + Body(id, rest)) == Some(id)
    requires var v := Normalized(id.trackId + rest);
             Body(id, rest) == id.streamId + " " + v[..NextSeparator(v, '\n', 0)]
    ensures Survives(id, rest) || LoneReturns(id, rest)
  {
    hide Normalized, Split, Body, ParseMsidLine, Unbroken, Follows;
    var v := Normalized(id.trackId + rest);
    var j := NextSeparator(v, '\n', 0);
    var tail := v[..j];
    FirstToken(id.streamId, tail);
    TrackHead(id.trackId, rest);
    if !("\r\n" <= id.trackId + rest) {
      HeadPiece(tail);
      assert id.trackId <= v by {
        assert id.trackId == tail[..|id.trackId|];
      }
      NormalAgrees(id.trackId, rest);
      FollowsFeed(rest);
      if id.trackId[|id.trackId| - 1] == '\r' && "\r\n" <= rest {
        ReturnGoesOn(id.trackId, rest);
      }
    } else {
      assert tail == [];
      SplitLast("", ' ');
      LoneReturn(id.trackId, rest);
    }
  }

  lemma ReturnsAreRead(before: seq<Line>, id: Msid, rest: string)
    requires Preamble(before) && LoneReturns(id, rest)
    ensures GetMsid(Render(before, MsidLine(id) + rest)) == Some(id)
  {
    hide LinesOf, Render, ReplaceAll;
    FoundLine(before, id, rest);
    var tail := Normalized(rest[1..]);
    assert Normalized("\r" + rest) == "\n" + tail by {
      assert "\r" + rest == "\r\n" + rest[1..];
      ReplaceHead("\r\n", "\n", rest[1..]);
    }
    assert Normalized("\r") == "\r" by {
      NormalizePrefix("\r", "");
      NormalizedSize("");
      assert "\r" + "" == "\r";
    }
    BodySplits(id, rest);
    assert NextSeparator("\r", '\n', 0) == 1 && NextSeparator("\n" + tail, '\n', 0) == 0;
    assert Body(id, rest) == "\r" + " " + "";
    FirstToken("\r", "");
  }

  /** The stream id opens with a line break, so that its msid line is empty and the older dialect decides. */
  predicate Deferred(id: Msid) {
    "\r\n" <= id.streamId
  }

  /** A printed line with no id on it opens with a line break or a space. */
  lemma EmptyBody(id: Msid, rest: string)
    ensures Deferred(id) ==> ParseMsidLine(MSID_PREFIX + Body(id, rest)) == None
    ensures Expressible(id.streamId) && ParseMsidLine(MSID_PREFIX + Body(id, rest)) == None ==> Deferred(id)
  {
    hide ParseMsidLine, Body, Unbroken, ReplaceAll;
    var n, v := Normalized(id.streamId), Normalized(id.trackId + rest);
    BodySplits(id, rest);
    if Deferred(id) {
      assert id.streamId == "\r\n" + id.streamId[2..];
      ReplaceHead("\r\n", "\n", id.streamId[2..]);
      assert SeparatorAt(n, '\n', 0);
      LoneToken("");
    } else if Expressible(id.streamId) {
      TrackHead(id.streamId, "");
      assert id.streamId + "" == id.streamId;
      ReplaceKeepsOut(' ', id.streamId, "\r\n", "\n");
      if NextSeparator(n, '\n', 0) < |n| {
        LoneToken(n[..NextSeparator(n, '\n', 0)]);
      } else {
        FirstToken(n, v[..NextSeparator(v, '\n', 0)]);
      }
    }
  }

  lemma {:induction false} TextsHoldNoFeed(lines: seq<Line>)
    requires forall k | 0 <= k < |lines| :: Whole(lines[k].text)
    ensures forall text | text in Texts(lines) :: '\n' !in text
  {
    if lines != [] {
      TextsHoldNoFeed(lines[1..]);
    }
  }

  lemma TokensHoldNoFeed(line: string, n: nat)
    requires '\n' !in line && n < |Split(line, ' ')|
    ensures '\n' !in Split(line, ' ')[n]
  {
    hide Split;
    var token := Split(line, ' ')[n];
    var at := SplitPieces(line, ' ', n);
    assert forall j | 0 <= j < |token| :: token[j] == line[at..at + |token|][j] && line[at + j] in line;
  }

  lemma SsrcIdsComeThird(line: string)
    requires SSRC_PREFIX <= line
    ensures var tokens := Split(line, ' '); tokens != [] && FirstIndex(tokens, MSID_TOKEN) >= 1
  {
    hide Split;
    HeadPiece(line);
    assert line[0] == SSRC_PREFIX[0] != MSID_TOKEN[0];
  }

  lemma PrintedSpaces(id: Msid)
    requires ' ' !in id.streamId && ' ' !in id.trackId
    ensures Spaces(MsidLine(id)) == 1
  {
    var head := MSID_PREFIX + id.streamId;
    assert MsidLine(id) == head + (" " + id.trackId) && (" " + id.trackId)[1..] == id.trackId;
    SpacesConcat(head, " " + id.trackId);
    NoSpaces(head);
    NoSpaces(id.trackId);
  }

  /** Where nothing strays, a line of the older dialect cannot give a stream id with a line feed. */
  lemma SsrcIdsHoldNoFeed(before: seq<Line>, id: Msid, rest: string)
    requires Preamble(before) && Follows(rest) && NoStrayReturn(rest)
    requires ' ' !in id.streamId && ' ' !in id.trackId
    ensures var parsed := ParseSsrcLines(LinesOf(Render(before, MsidLine(id) + rest)));
            parsed.Some? ==> '\n' !in parsed.value.streamId
  {
    hide Render, Normalized, Split, Follows, NoStrayReturn, Contains, Whole, Unbroken, MsidLine, PieceAt, EarlyFeeds;
    var text := MsidLine(id) + rest;
    var t, lines := Normalized(text), LinesOf(Render(before, text));
    LinesOfRender(before, text);
    TextsHoldNoFeed(before);
    var found := FirstSsrcLine(lines);
    if found.Some? && ParseSsrcLine(found.value).Some? {
      var line := found.value;
      SsrcIdsComeThird(line);
      var k := FirstIndex(Split(line, ' '), MSID_TOKEN) + 1;
      if line in Texts(before) {
        TokensHoldNoFeed(line, k);
      } else {
        var n: nat :| n < |Split(t, '\n')| && Split(t, '\n')[n] == line;
        var at := SplitPieces(t, '\n', n);
        PrintedSpaces(id);
        PrintedFeedsAreEarly(MsidLine(id), rest);
        LaterTokens(t, line, at, k);
      }
    }
  }

  /** What it takes for ids printed before `rest` to come back from the description. */
  predicate ComeBack(id: Msid, rest: string) {
    Survives(id, rest) || LoneReturns(id, rest)
  }

  /**
   * Which printed ids come back, for a description with a line that prints them: those of one line each, without
   * spaces, and with no return just before the end of the line; besides these, by coincidence, two single returns.
   * Ids that open with a line break are left to the older dialect, and it cannot repeat them unless the text behind
   * them has a return too many before a line break.
   */
  lemma PrintedIdsAreReadExactly(before: seq<Line>, id: Msid, rest: string)
    requires Preamble(before) && Follows(rest)
    ensures var d := Render(before, MsidLine(id) + rest);
            && (!Deferred(id) || NoStrayReturn(rest) ==> (GetMsid(d) == Some(id) <==> ComeBack(id, rest)))
            && (Deferred(id) ==> GetMsid(d) == ParseSsrcLines(LinesOf(d)))
  {
    var d := Render(before, MsidLine(id) + rest);
    hide Normalized, Preamble, Follows, Render, Body, LinesOf, ParseMsidLine, ParseSsrcLines, Survives, LoneReturns,
      Expressible, MsidLine, NoStrayReturn;
    FoundLine(before, id, rest);
    EmptyBody(id, rest);
    if Survives(id, rest) {
      SurvivingIdsAreRead(before, id, rest);
    } else if LoneReturns(id, rest) {
      ReturnsAreRead(before, id, rest);
    } else if GetMsid(d) == Some(id) {
      ParsedIdsAreExpressible(d);
      if ParseMsidLine(MSID_PREFIX + Body(id, rest)).Some? {
        StreamIsWhole(id, rest);
        StreamSurvives(id);
        TrackIsWhole(id, rest);
      } else if NoStrayReturn(rest) {
        DeferredHoldsFeed(id);
        SsrcIdsHoldNoFeed(before, id, rest);
      }
    }
  }

  lemma DeferredHoldsFeed(id: Msid)
    ensures Deferred(id) ==> '\n' in id.streamId
    ensures Expressible(id.streamId) && Expressible(id.trackId) ==> ' ' !in id.streamId && ' ' !in id.trackId
  {
    assert Deferred(id) ==> id.streamId[1] == '\n';
  }

  lemma StreamSurvives(id: Msid)
    requires Expressible(id.streamId) && '\n' !in id.streamId
    ensures Survives(Msid(id.streamId, "t"), "")
  {
  }

  // ---------------------------------------------------------------- whole descriptions

  lemma {:induction false} RenderConcat(a: seq<Line>, b: seq<Line>, last: string)
    ensures Render(a + b, last) == Render(a, Render(b, last))
  {
    if a == [] {
      assert a + b == b;
    } else {
      assert (a + b)[1..] == a[1..] + b;
      RenderConcat(a[1..], b, last);
    }
  }

  lemma {:induction false} RenderedStraysNowhere(lines: seq<Line>, last: string)
    requires (forall k | 0 <= k < |lines| :: Whole(lines[k].text)) && '\n' !in last
    ensures NoStrayReturn(Render(lines, last))
  {
    if lines == [] {
      forall i: nat | i <= |last| ensures !OccursAt(last, "\r\r\n", i) {
        assert i + 2 < |last| ==> last[i..][2] == last[i + 2] && last[i + 2] in last;
      }
    } else {
      RenderedStraysNowhere(lines[1..], last);
      LineStraysNowhere(lines[0].text, lines[0].crlf, Render(lines[1..], last));
    }
  }

  lemma LineStraysNowhere(text: string, crlf: bool, rest: string)
    requires Whole(text) && NoStrayReturn(rest)
    ensures NoStrayReturn(text + Terminator(crlf) + rest)
  {
    var head := text + Terminator(crlf);
    var s := head + rest;
    forall i: nat | i <= |s| ensures !OccursAt(s, "\r\r\n", i) {
      if i >= |head| {
        assert s[i..] == rest[i - |head|..] && !OccursAt(rest, "\r\r\n", i - |head|);
      } else if i + 2 < |s| {
        assert s[i..][0] == s[i] && s[i..][1] == s[i + 1] && s[i..][2] == s[i + 2];
        assert i + 2 < |text| ==> text[i + 2] in text;
      }
    }
  }

  lemma TerminatedComesBack(id: Msid, crlf: bool, tail: string)
    ensures var rest := Terminator(crlf) + tail;
            && Follows(rest)
            && (ComeBack(id, rest)
                <==> || (Token(id.streamId) && Token(id.trackId) && '\n' !in id.streamId && Whole(id.trackId))
                     || (id == Msid("\r", "\r") && !crlf))
  {
  }

  lemma LinesStrayNowhere(crlf: bool, after: seq<Line>, last: string)
    requires (forall k | 0 <= k < |after| :: Whole(after[k].text)) && '\n' !in last
    ensures NoStrayReturn(Terminator(crlf) + Render(after, last))
  {
    RenderedStraysNowhere(after, last);
    LineStraysNowhere("", crlf, Render(after, last));
    assert "" + Terminator(crlf) + Render(after, last) == Terminator(crlf) + Render(after, last);
  }

  /** Any text of lines, one of them printing the ids, whatever the terminators and whatever other ids follow. */
  lemma RenderedRoundTrip(before: seq<Line>, id: Msid, crlf: bool, after: seq<Line>, last: string)
    requires Preamble(before)
    requires Deferred(id) ==> (forall k | 0 <= k < |after| :: Whole(after[k].text)) && '\n' !in last
    ensures GetMsid(Render(before + [Line(MsidLine(id), crlf)] + after, last)) == Some(id)
            <==> || (Token(id.streamId) && Token(id.trackId) && '\n' !in id.streamId && Whole(id.trackId))
                 || (id == Msid("\r", "\r") && !crlf)
  {
    hide GetMsid, ParseSsrcLines, NoStrayReturn, Preamble, Deferred, Follows, ComeBack, Token, Whole, MsidLine,
      Terminator;
    var line, rest := Line(MsidLine(id), crlf), Terminator(crlf) + Render(after, last);
    RenderConcat(before, [line] + after, last);
    assert before + [line] + after == before + ([line] + after);
    assert Render([line] + after, last) == MsidLine(id) + rest by {
      assert ([line] + after)[1..] == after;
    }
    if Deferred(id) {
      LinesStrayNowhere(crlf, after, last);
    }
    TerminatedComesBack(id, crlf, Render(after, last));
    PrintedIdsAreReadExactly(before, id, rest);
  }

  lemma LinesAround(before: seq<Line>, line: Line, after: seq<Line>, last: string)
    requires forall k | 0 <= k < |before| :: Whole(before[k].text)
    requires forall k | 0 <= k < |after| :: Whole(after[k].text)
    requires Whole(line.text) && line.text != [] && '\n' !in last
    ensures LinesOf(Render(before + [line] + after, last))
            == Texts(before) + ([line.text] + (Texts(after) + NonEmpty(last)))
  {
    hide Render, LinesOf, Whole;
    var tail := [line] + after;
    assert before + [line] + after == before + tail && tail[1..] == after;
    RenderConcat(before, tail, last);
    LinesOfRender(before, Render(tail, last));
    LinesOfRender(tail, last);
    LinesOfLast(last);
    assert Texts(tail) + NonEmpty(last) == [line.text] + (Texts(after) + NonEmpty(last));
  }

  lemma LoneLine(text: string)
    requires Whole(text) && text != []
    ensures LinesOf(text + "\r\n") == [text]
  {
    hide LinesOf, Whole;
    var line := Line(text, true);
    assert Render([line], "") == text + "\r\n" by {
      assert [line][1..] == [] && text + "\r\n" + "" == text + "\r\n";
    }
    LinesAround([], line, [], "");
    assert [] + [line] + [] == [line];
  }

  lemma NoOlderDialect(line: string)
    requires MSID_PREFIX <= line
    ensures ParseSsrcLines([line]) == None
  {
    assert line[2] == MSID_PREFIX[2] != SSRC_PREFIX[2];
    assert [line][1..] == [];
  }

  /** The space check of track creation lets empty ids through; no description can give them back. */
  lemma EmptyIdsAreLost()
    ensures GetMsid(Render([], MsidLine(Msid("", "")) + "\r\n")) == None
  {
    hide LinesOf, Split, ParseSsrcLines, ParseMsidLine;
    var text := "a=msid: ";
    LoneLine(text);
    assert MSID_PREFIX + " " + "" == text;
    assert FirstMsidLine([text]) == Some(text);
    ShortMsidLine(text + "\r\n", "", " ");
    NoOlderDialect(text);
    assert Render([], MsidLine(Msid("", "")) + "\r\n") == text + "\r\n";
  }

  /** It also lets a line break through, at which the stream id is cut; what is left of it then stands for both. */
  lemma BrokenIdsAreCut(before: seq<Line>, x: string, y: string, track: string, rest: string)
    requires Preamble(before) && Token(x) && Whole(x)
    ensures GetMsid(Render(before, MsidLine(Msid(x + "\r\n" + y, track)) + rest)) == Some(Msid(x, x))
  {
    hide Render, LinesOf, ParseMsidLine, ReplaceAll, NextSeparator, Preamble, MsidLine;
    var id, n := Msid(x + "\r\n" + y, track), Normalized(x + "\r\n" + y);
    FoundLine(before, id, rest);
    BodySplits(id, rest);
    NormalizeTerminated(x, true, y);
    assert n == x + "\n" + Normalized(y);
    assert forall i | 0 <= i < |x| :: n[i] == x[i] && x[i] in x;
    NextSeparatorIs(n, '\n', |x|);
    LoneToken(x);
    assert n[..|x|] == x;
  }

  /** Of two returns before a line feed the first one stays, and keeps the line together. */
  lemma StrayLine(head: string, tail: string)
    requires '\n' !in head && head != [] && head[|head| - 1] == '\r' && Whole(tail) && tail != []
    ensures LinesOf(head + ("\r\n" + (tail + "\r\n"))) == [head + "\n" + tail]
  {
    hide ReplaceAll, Split;
    var line := head + "\n" + tail;
    NormalizePrefix(head, "\r\n" + (tail + "\r\n"));
    NormalizePair(tail + "\r\n");
    NormalizePrefix(tail, "\r\n");
    NormalizePair("");
    assert "\r\n" + "" == "\r\n" && "\n" + "" == "\n";
    assert Normalized(head + ("\r\n" + (tail + "\r\n"))) == head + ("\n" + (tail + "\n"));
    assert head + ("\n" + (tail + "\n")) == line + ['\n'] + "";
    forall i: nat | i < |line| ensures !SeparatorAt(line, '\n', i) {
      assert i < |head| ==> head[i] in head;
      assert i > |head| ==> line[i] == tail[i - |head| - 1] && tail[i - |head| - 1] in tail;
    }
    assert line[|line| - 1] == tail[|tail| - 1];
    SplitFirst(line, '\n', "");
    SplitLast("", '\n');
  }

  /** An older line that repeats ids with a line break, as it must be written to survive normalising. */
  function StrayText(source: string, x: string, track: string): string {
    (SsrcHead(source) + "\r") + ("\r\n" + ((x + " " + track) + "\r\n"))
  }

  lemma StrayLines(source: string, x: string, track: string)
    requires ' ' !in source && '\n' !in source && ' ' !in x && '\n' !in x && Token(track) && Whole(track)
    ensures var d := Render([], MsidLine(Msid("\r\n" + x, track)) + ("\r\n" + StrayText(source, x, track)));
            LinesOf(d) == [MSID_PREFIX, x + " " + track]
                          + [SsrcHead(source) + (("\r\n" + x) + " " + track + "")]
  {
    var first, second := Line(MSID_PREFIX, true), Line(x + " " + track, true);
    var head, last := SsrcHead(source) + "\r", StrayText(source, x, track);
    assert Whole(second.text) && '\n' !in head && head[|head| - 1] == '\r' by {
      SecondIsWhole(x, track);
      HeadEnds(source);
    }
    hide LinesOf, Whole, SsrcHead;
    TwoLines(first, second, last);
    StrayLine(head, second.text);
    Regrouped(MSID_PREFIX, "\r\n", x, " ", track, last);
    RegroupedHead(SsrcHead(source), x, " ", track);
  }

  lemma Regrouped(prefix: string, feed: string, x: string, space: string, track: string, last: string)
    ensures prefix + (feed + x) + space + track + (feed + last) == prefix + feed + ((x + space + track) + feed + last)
  {
  }

  lemma RegroupedHead(head: string, x: string, space: string, track: string)
    ensures (head + "\r") + "\n" + (x + space + track) == head + (("\r\n" + x) + space + track + "")
  {
    assert "\r" + "\n" == "\r\n";
    assert (head + "\r") + "\n" == head + ("\r" + "\n");
  }

  lemma SecondIsWhole(x: string, track: string)
    requires '\n' !in x && Whole(track) && track != []
    ensures Whole(x + " " + track)
  {
    var s := x + " " + track;
    assert s[|s| - 1] == track[|track| - 1];
  }

  lemma HeadEnds(source: string)
    requires '\n' !in source
    ensures var head := SsrcHead(source) + "\r"; '\n' !in head && head[|head| - 1] == '\r'
  {
  }

  /** Texts with such returns are rightly set apart: here deferred ids come back. */
  lemma StrayReturnGivesBack(source: string, x: string, track: string)
    requires ' ' !in source && '\n' !in source && ' ' !in x && '\n' !in x && Token(track) && Whole(track)
    ensures var id, rest := Msid("\r\n" + x, track), "\r\n" + StrayText(source, x, track);
            && Deferred(id) && Follows(rest) && !ComeBack(id, rest)
            && GetMsid(Render([], MsidLine(id) + rest)) == Some(id)
  {
    var id, rest := Msid("\r\n" + x, track), "\r\n" + StrayText(source, x, track);
    var second, tail := x + " " + track, ("\r\n" + x) + " " + track + "";
    var d := Render([], MsidLine(id) + rest);
    DeferredHoldsFeed(id);
    hide LinesOf, Split, ReplaceAll, ParseSsrcLine, Contains, SsrcHead, MsidLine, Spaces, StrayText, Whole, Render,
      FirstSsrcLine;
    StrayLines(source, x, track);
    SecondHasOneSpace(x, track);
    SsrcLineIsOne(source, tail);
    FirstSsrcThird(MSID_PREFIX, second, SsrcHead(source) + tail);
    SsrcLineSays(source, tail);
    SplitTokens("\r\n" + x, track, "");
    PrintedIdsAreReadExactly([], id, rest);
  }

  lemma SecondHasOneSpace(x: string, track: string)
    requires ' ' !in x && ' ' !in track
    ensures !Contains(x + " " + track, " msid ")
  {
    hide Contains;
    SpacesConcat(x, " " + track);
    assert x + " " + track == x + (" " + track) && (" " + track)[1..] == track;
    NoSpaces(x);
    NoSpaces(track);
    MsidTakesSpaces(x + " " + track);
  }

  lemma MsidTakesSpaces(s: string)
    ensures Contains(s, " msid ") ==> Spaces(s) >= 2
  {
    var token := " msid ";
    assert Spaces(token) >= 2 by {
      SpacesConcat(" msid", " ");
      assert " msid" + " " == token && Spaces(" ") == 1 && Spaces(" msid") >= 1;
    }
    hide Spaces;
    forall i: nat | i <= |s| && OccursAt(s, token, i) ensures Spaces(s) >= 2 {
      var rest := s[i..][|token|..];
      assert s == s[..i] + (token + rest);
      SpacesConcat(s[..i], token + rest);
      SpacesConcat(token, rest);
    }
  }

  lemma FirstSsrcThird(first: string, second: string, third: string)
    requires MSID_PREFIX <= first && !Contains(second, " msid ")
    requires SSRC_PREFIX <= third && Contains(third, " msid ")
    ensures FirstSsrcLine([first, second] + [third]) == Some(third)
  {
    hide Contains;
    assert first[2] == MSID_PREFIX[2] != SSRC_PREFIX[2];
    assert FirstSsrcLine([third]) == Some(third);
    assert [second, third][1..] == [third] && FirstSsrcLine([second, third]) == Some(third);
    assert ([first, second] + [third])[1..] == [second, third];
  }

  lemma TwoLines(first: Line, second: Line, last: string)
    requires Whole(first.text) && Whole(second.text) && first.text != [] && second.text != []
    ensures LinesOf(first.text + Terminator(first.crlf) + (second.text + Terminator(second.crlf) + last))
            == [first.text, second.text] + LinesOf(last)
  {
    hide LinesOf;
    var lines := [first, second];
    assert lines[1..] == [second] && lines[1..][1..] == [];
    LinesOfRender(lines, last);
    assert Texts([second]) == [second.text] && Texts(lines) == [first.text] + Texts([second]);
    assert Render([second], last) == second.text + Terminator(second.crlf) + last;
  }

  /** Lines the parser passes over on its way to an id line of the older dialect. */
  predicate NoIds(lines: seq<Line>) {
    && Preamble(lines)
    && forall k | 0 <= k < |lines| :: !(Contains(lines[k].text, " msid ") && SSRC_PREFIX <= lines[k].text)
  }

  lemma {:induction false} NoSsrcLine(lines: seq<Line>)
    requires NoIds(lines)
    ensures FirstSsrcLine(Texts(lines)) == None
  {
    hide Contains;
    if lines != [] {
      NoSsrcLine(lines[1..]);
      FirstSsrcAfter(NonEmpty(lines[0].text), Texts(lines[1..]));
    }
  }

  lemma {:induction false} FirstSsrcAfter(lines: seq<string>, more: seq<string>)
    requires FirstSsrcLine(lines) == None
    ensures FirstSsrcLine(lines + more) == FirstSsrcLine(more)
  {
    hide Contains;
    if lines == [] {
      assert lines + more == more;
    } else {
      assert (lines + more)[1..] == lines[1..] + more;
      FirstSsrcAfter(lines[1..], more);
    }
  }

  /** What one line of the older dialect says: the first two tokens behind its "msid", and nothing if there are less. */
  function IdsBehind(tail: string): Option<Msid> {
    var tokens := Split(tail, ' ');
    if |tokens| >= 2 then Some(Msid(tokens[0], tokens[1])) else None
  }

  lemma SsrcLineSays(source: string, tail: string)
    requires ' ' !in source
    ensures ParseSsrcLine(SsrcHead(source) + tail) == IdsBehind(tail)
  {
    hide Split;
    SplitSsrcLine(source, tail);
  }

  /**
   * The same for the older dialect, in a text that has no line of the newer one: its first id line gives ids exactly
   * if at least two tokens follow the "msid" token, although its comment calls the second one optional.
   */
  lemma SsrcTextExactly(before: seq<Line>, source: string, tail: string, crlf: bool, after: seq<Line>, last: string)
    requires ' ' !in source && Whole(SsrcHead(source) + tail)
    requires NoIds(before) && Preamble(after) && '\n' !in last && !(MSID_PREFIX <= last)
    ensures GetMsid(Render(before + [Line(SsrcHead(source) + tail, crlf)] + after, last)) == IdsBehind(tail)
  {
    hide Contains, Split, Render, SsrcHead, LinesOf, Token, Whole, IdsBehind, ParseSsrcLine;
    var text := SsrcHead(source) + tail;
    SsrcLineIsOne(source, tail);
    LinesAround(before, Line(text, crlf), after, last);
    NoMsidLine(before);
    NoSsrcLine(before);
    NoMsidLine(after);
    FirstMsidAfter(Texts(after), NonEmpty(last));
    var more := Texts(after) + NonEmpty(last);
    assert ([text] + more)[1..] == more;
    FirstMsidAfter(Texts(before), [text] + more);
    FirstSsrcAfter(Texts(before), [text] + more);
    SsrcLineSays(source, tail);
  }

  lemma SsrcRenderedRoundTrip(before: seq<Line>, source: string, id: Msid, appendix: string, crlf: bool,
                              after: seq<Line>, last: string)
    requires Token(id.streamId) && Token(id.trackId) && ' ' !in source && (appendix == [] || appendix[0] == ' ')
    requires Whole(SsrcHead(source) + (id.streamId + " " + id.trackId + appendix))
    requires NoIds(before) && Preamble(after) && '\n' !in last && !(MSID_PREFIX <= last)
    ensures var line := Line(SsrcHead(source) + (id.streamId + " " + id.trackId + appendix), crlf);
            GetMsid(Render(before + [line] + after, last)) == Some(id)
  {
    hide GetMsid, Render, Split, Whole, NoIds, Preamble;
    SsrcTextExactly(before, source, id.streamId + " " + id.trackId + appendix, crlf, after, last);
    SplitTokens(id.streamId, id.trackId, appendix);
  }

  lemma SsrcLineIsOne(source: string, tail: string)
    ensures var text := SsrcHead(source) + tail;
            text != [] && SSRC_PREFIX <= text && Contains(text, " msid ") && !(MSID_PREFIX <= text)
  {
    var text, i := SsrcHead(source) + tail, |SSRC_PREFIX + source|;
    assert text[i..] == " msid " + tail;
    assert OccursAt(text, " msid ", i);
    assert text[2] == SSRC_PREFIX[2] != MSID_PREFIX[2];
  }
}
