/**
 * Where a line feed can stay inside a line: only behind a return, and normalising leaves such a pair only where the
 * text had one more return. In a printed line and what follows it, that is before the second space.
 */
module MsidFeeds {
  import opened SdpText
  import opened Msid

  function Spaces(s: string): nat {
    if s == [] then 0 else (if s[0] == ' ' then 1 else 0) + Spaces(s[1..])
  }

  lemma {:induction false} SpacesConcat(a: string, b: string)
    ensures Spaces(a + b) == Spaces(a) + Spaces(b)
  {
    if a == [] {
      assert a + b == b;
    } else {
      assert (a + b)[1..] == a[1..] + b;
      SpacesConcat(a[1..], b);
    }
  }

  lemma {:induction false} NoSpaces(s: string)
    requires ' ' !in s
    ensures Spaces(s) == 0
  {
    if s != [] {
      NoSpaces(s[1..]);
    }
  }

  lemma {:induction false} NormalizedSpaces(s: string)
    ensures Spaces(Normalized(s)) == Spaces(s)
  {
    if |s| < 2 {
    } else if "\r\n" <= s {
      NormalizedSpaces(s[2..]);
      assert s == "\r\n" + s[2..];
      SpacesConcat("\r\n", s[2..]);
      SpacesConcat("\n", Normalized(s[2..]));
      NoSpaces("\r\n");
      NoSpaces("\n");
    } else {
      NormalizedSpaces(s[1..]);
    }
  }

  lemma NormalizeOne(c: char, s: string)
    requires c != '\r' || s == [] || s[0] != '\n'
    ensures Normalized([c] + s) == [c] + Normalized(s)
  {
    var t := [c] + s;
    assert t[0] == c && t[1..] == s && (s != [] ==> t[1] == s[0]);
    assert "\r\n"[0] == '\r' && "\r\n"[1] == '\n';
    ReplaceStep(t, "\r\n", "\n");
  }

  lemma NormalizePair(s: string)
    ensures Normalized("\r\n" + s) == "\n" + Normalized(s) && Normalized("") == ""
  {
    ReplaceHead("\r\n", "\n", s);
  }

  /** Behind a line feed, normalising starts afresh. */
  lemma {:induction false} NormalizedBehindFeed(s: string, rest: string)
    ensures Normalized(s + "\n" + rest) == Normalized(s + "\n") + Normalized(rest)
  {
    hide Normalized;
    NormalizePair("");
    if s == [] {
      NormalizeOne('\n', rest);
      NormalizeOne('\n', "");
      assert s + "\n" == ['\n'] + "" && s + "\n" + rest == ['\n'] + rest;
    } else if s == "\r" {
      NormalizePair(rest);
      assert s + "\n" == "\r\n" + "" && s + "\n" + rest == "\r\n" + rest;
    } else if "\r\n" <= s {
      var more := s[2..] + "\n";
      NormalizedBehindFeed(s[2..], rest);
      NormalizePair(more);
      NormalizePair(more + rest);
      assert s + "\n" == "\r\n" + more && s + "\n" + rest == "\r\n" + (more + rest);
    } else {
      var more := s[1..] + "\n";
      NormalizedBehindFeed(s[1..], rest);
      assert s + "\n" == [s[0]] + more && s + "\n" + rest == [s[0]] + (more + rest);
      assert s[0] == '\r' && |s| > 1 ==> more[0] == s[1] != '\n';
      NormalizeOne(s[0], more);
      NormalizeOne(s[0], more + rest);
    }
  }

  /** Every line feed is one to split at. */
  predicate AllBare(s: string) {
    forall i: nat | i < |s| && s[i] == '\n' :: SeparatorAt(s, '\n', i)
  }

  /** Nothing in the text normalises to a return before a line feed. */
  predicate NoStrayReturn(s: string) {
    !Contains(s, "\r\r\n")
  }

  lemma StrayReturnTail(s: string, k: nat)
    requires NoStrayReturn(s) && k <= |s|
    ensures NoStrayReturn(s[k..])
  {
    forall i: nat | i <= |s[k..]| ensures !OccursAt(s[k..], "\r\r\n", i) {
      assert s[k..][i..] == s[k + i..] && !OccursAt(s, "\r\r\n", k + i);
    }
  }

  lemma {:induction false} NormalizedIsBare(s: string)
    requires NoStrayReturn(s)
    ensures AllBare(Normalized(s))
  {
    if |s| < 2 {
    } else {
      var k := if "\r\n" <= s then 2 else 1;
      StrayReturnTail(s, k);
      NormalizedIsBare(s[k..]);
      assert !OccursAt(s, "\r\r\n", 0);
      PrependBare(if k == 2 then '\n' else s[0], Normalized(s[k..]));
    }
  }

  lemma PrependBare(c: char, s: string)
    requires AllBare(s) && (c == '\r' ==> s == [] || s[0] != '\n')
    ensures AllBare([c] + s)
  {
    var t := [c] + s;
    forall i: nat | i < |t| && t[i] == '\n' ensures SeparatorAt(t, '\n', i) {
      if i > 0 {
        assert SeparatorAt(s, '\n', i - 1);
      }
    }
  }

  /** What may follow the printed track id: nothing, more tokens, or the end of the line. */
  predicate Follows(rest: string) {
    rest == [] || rest[0] == ' ' || "\n" <= rest || "\r\n" <= rest
  }

  /** A line feed inside a line comes early: there is at most one space before it. */
  predicate EarlyFeeds(t: string) {
    forall i: nat | i < |t| && t[i] == '\n' && !SeparatorAt(t, '\n', i) :: Spaces(t[..i]) <= 1
  }

  lemma EarlyThenBare(a: string, b: string)
    requires Spaces(a) <= 1 && AllBare(b) && (a == [] || a[|a| - 1] == '\n' || b == [] || b[0] != '\n')
    ensures EarlyFeeds(a + b)
  {
    var t := a + b;
    forall i: nat | |a| <= i < |t| && t[i] == '\n' ensures SeparatorAt(t, '\n', i) {
      assert SeparatorAt(b, '\n', i - |a|);
    }
    forall i: nat | i < |a| ensures Spaces(t[..i]) <= 1 {
      assert a == a[..i] + a[i..] && t[..i] == a[..i];
      SpacesConcat(a[..i], a[i..]);
    }
  }

  lemma PrintedFeedsAreEarly(head: string, rest: string)
    requires Spaces(head) <= 1 && Follows(rest) && NoStrayReturn(rest)
    ensures EarlyFeeds(Normalized(head + rest))
  {
    hide EarlyFeeds, AllBare, NoStrayReturn, ReplaceAll;
    if rest == [] || rest[0] == ' ' {
      NormalizedIsBare(rest);
      NormalizedSpaces(head);
      NormalizedBeforeSpace(head, rest);
      EarlyThenBare(Normalized(head), Normalized(rest));
    } else {
      var k := if "\n" <= rest then 1 else 2;
      var line, more := head + rest[..k - 1], rest[k..];
      assert head + rest == line + "\n" + more;
      StrayReturnTail(rest, k);
      NormalizedIsBare(more);
      SpacesConcat(head, rest[..k - 1]);
      SpacesConcat(line, "\n");
      NoSpaces(rest[..k - 1]);
      NoSpaces("\n");
      NormalizedSpaces(line + "\n");
      NormalizedBehindFeed(line, more);
      EndsInFeed(line);
      EarlyThenBare(Normalized(line + "\n"), Normalized(more));
    }
  }

  lemma NormalizedBeforeSpace(head: string, rest: string)
    requires rest == [] || rest[0] == ' '
    ensures Normalized(head + rest) == Normalized(head) + Normalized(rest)
    ensures Normalized(rest) == [] || Normalized(rest)[0] == ' '
  {
    hide ReplaceAll;
    NormalizePair("");
    if rest == [] {
      assert head + rest == head;
    } else {
      var more := rest[1..];
      NormalizeOne(' ', more);
      ReplaceAcross(head, ' ', more, "\r\n", "\n");
      assert rest == [' '] + more && head + rest == head + [' '] + more;
      assert Normalized(head) + [' '] + Normalized(more) == Normalized(head) + ([' '] + Normalized(more));
    }
  }

  lemma {:induction false} EndsInFeed(s: string)
    ensures var n := Normalized(s + "\n"); n != [] && n[|n| - 1] == '\n'
  {
    var line := s + "\n";
    if s == [] {
      assert line == "\n";
    } else if s == "\r" {
      assert line == "\r\n" && line[2..] == [];
    } else if "\r\n" <= s {
      assert line[2..] == s[2..] + "\n";
      EndsInFeed(s[2..]);
    } else {
      assert line[1..] == s[1..] + "\n" && (|s| > 1 ==> line[1] == s[1]);
      EndsInFeed(s[1..]);
      ReplaceStep(line, "\r\n", "\n");
    }
  }

  // ---------------------------------------------------------------- later tokens

  lemma SpacesBehind(s: string, k: nat, inner: nat)
    requires k < |s| && s[k] == ' ' && inner <= |s[k + 1..]|
    ensures Spaces(s[..k + 1 + inner]) >= 1 + Spaces(s[k + 1..][..inner])
  {
    var rest := s[k + 1..][..inner];
    assert s[..k + 1 + inner] == s[..k] + ([' '] + rest) && ([' '] + rest)[1..] == rest;
    SpacesConcat(s[..k], [' '] + rest);
  }

  predicate TokenAt(s: string, token: string, at: nat) {
    at + |token| <= |s| && s[at..at + |token|] == token
  }

  lemma TokenBehind(s: string, k: nat, token: string, inner: nat)
    requires k < |s| && TokenAt(s[k + 1..], token, inner)
    ensures TokenAt(s, token, k + 1 + inner)
  {
    assert s[k + 1 + inner..k + 1 + inner + |token|] == s[k + 1..][inner..inner + |token|];
  }

  lemma SplitOnce(s: string, separator: char)
    ensures var k := NextSeparator(s, separator, 0);
            Split(s, separator) == NonEmpty(s[..k]) + if k == |s| then [] else Split(s[k + 1..], separator)
  {
  }

  /** The n-th token has at least n spaces before it. */
  lemma {:induction false} SplitDepth(s: string, n: nat) returns (at: nat)
    requires n < |Split(s, ' ')|
    ensures TokenAt(s, Split(s, ' ')[n], at) && Spaces(s[..at]) >= n
    decreases |s|
  {
    hide Spaces, TokenAt, NextSeparator, Split;
    SplitOnce(s, ' ');
    var k := NextSeparator(s, ' ', 0);
    var head := NonEmpty(s[..k]);
    if n < |head| {
      at := 0;
      TokenFirst(s, k);
    } else {
      var rest := s[k + 1..];
      var inner := SplitDepth(rest, n - |head|);
      at := k + 1 + inner;
      TokenFits(rest, Split(rest, ' ')[n - |head|], inner);
      TokenBehind(s, k, Split(rest, ' ')[n - |head|], inner);
      SpacesBehind(s, k, inner);
    }
  }

  lemma TokenFirst(s: string, k: nat)
    requires k <= |s|
    ensures TokenAt(s, s[..k], 0)
  {
  }

  lemma TokenFits(s: string, token: string, at: nat)
    requires TokenAt(s, token, at)
    ensures at <= |s|
  {
  }

  /** So from the third token on, the tokens of a line hold no line feed. */
  lemma LaterTokens(t: string, line: string, at: nat, n: nat)
    requires EarlyFeeds(t) && PieceAt(t, '\n', line, at) && Unbroken(line, '\n')
    requires 2 <= n < |Split(line, ' ')|
    ensures '\n' !in Split(line, ' ')[n]
  {
    hide Split;
    var token := Split(line, ' ')[n];
    var p := SplitDepth(line, n);
    forall j | 0 <= j < |token| ensures token[j] != '\n' {
      var i := at + p + j;
      assert line[p + j] == token[j] && t[i] == line[p + j];
      assert !SeparatorAt(line, '\n', p + j);
      assert p + j > 0 ==> t[i - 1] == line[p + j - 1];
      assert t[..i] == t[..at] + line[..p + j] && line[..p + j] == line[..p] + line[p..p + j];
      SpacesConcat(t[..at], line[..p + j]);
      SpacesConcat(line[..p], line[p..p + j]);
    }
  }
}
