/** Substring replacement over SDP text: the address override applied to every description and candidate. */
module SdpText {
  import opened Common

  /** Left-to-right, non-overlapping replacement. An empty `from` matches nowhere. */
  function ReplaceAll(s: string, from: string, to: string): string {
    if from == [] || |s| < |from| then s
    else if from <= s then to + ReplaceAll(s[|from|..], from, to)
    else [s[0]] + ReplaceAll(s[1..], from, to)
  }

  datatype IpOverride = IpOverride(from: string, to: string)

  function Sanitize(ipOverride: Option<IpOverride>, sdp: string): string {
    match ipOverride
    case None => sdp
    case Some(o) => ReplaceAll(sdp, o.from, o.to)
  }

  // ---------------------------------------------------------------- cutting and joining

  predicate OccursAt(s: string, pattern: string, i: nat) {
    i <= |s| && pattern <= s[i..]
  }

  predicate Contains(s: string, pattern: string) {
    exists i: nat :: i <= |s| && OccursAt(s, pattern, i)
  }

  function Join(pieces: seq<string>, glue: string): string
    requires pieces != []
  {
    if |pieces| == 1 then pieces[0] else pieces[0] + glue + Join(pieces[1..], glue)
  }

  /** `pieces` are what remains around the leftmost non-overlapping occurrences of `pattern`. */
  predicate LeftmostCut(pieces: seq<string>, pattern: string) {
    && pieces != []
    && (forall k, i: nat | 0 <= k < |pieces| - 1 && i < |pieces[k]| :: !OccursAt(pieces[k] + pattern, pattern, i))
    && !Contains(pieces[|pieces| - 1], pattern)
  }

  function Cut(s: string, pattern: string): (pieces: seq<string>)
    requires pattern != []
    ensures pieces != []
  {
    if |s| < |pattern| then [s]
    else if pattern <= s then [""] + Cut(s[|pattern|..], pattern)
    else var rest := Cut(s[1..], pattern); [[s[0]] + rest[0]] + rest[1..]
  }

  lemma {:induction false} JoinHead(c: char, pieces: seq<string>, glue: string)
    requires pieces != []
    ensures Join([[c] + pieces[0]] + pieces[1..], glue) == [c] + Join(pieces, glue)
  {
    var extended := [[c] + pieces[0]] + pieces[1..];
    if |pieces| > 1 {
      assert extended[1..] == pieces[1..];
      assert [c] + pieces[0] + glue + Join(pieces[1..], glue) == [c] + (pieces[0] + glue + Join(pieces[1..], glue));
    }
  }

  lemma JoinEmpty(rest: seq<string>, glue: string)
    requires rest != []
    ensures Join([""] + rest, glue) == glue + Join(rest, glue)
  {
    assert ([""] + rest)[1..] == rest;
  }

  /** Cutting loses nothing, and what replacement puts between the same pieces is the new text. */
  lemma JoinOfCut(s: string, from: string, to: string)
    requires from != []
    ensures Join(Cut(s, from), from) == s
    ensures Join(Cut(s, from), to) == ReplaceAll(s, from, to)
  {
    ReplaceIsJoin(s, from, from);
    ReplaceBySelf(s, from);
    ReplaceIsJoin(s, from, to);
  }

  lemma {:induction false} ReplaceIsJoin(s: string, from: string, to: string)
    requires from != []
    ensures Join(Cut(s, from), to) == ReplaceAll(s, from, to)
  {
    if |s| < |from| {
    } else if from <= s {
      ReplaceIsJoin(s[|from|..], from, to);
      JoinEmpty(Cut(s[|from|..], from), to);
    } else {
      ReplaceIsJoin(s[1..], from, to);
      JoinHead(s[0], Cut(s[1..], from), to);
    }
  }

  lemma {:induction false} ReplaceBySelf(s: string, from: string)
    ensures ReplaceAll(s, from, from) == s
  {
    if from == [] || |s| < |from| {
    } else if from <= s {
      ReplaceBySelf(s[|from|..], from);
      assert s == from + s[|from|..];
    } else {
      ReplaceBySelf(s[1..], from);
    }
  }

  /** A leftmost cut of a text is the one `Cut` finds. */
  lemma {:induction false} CutIsUnique(pieces: seq<string>, pattern: string)
    requires pattern != [] && LeftmostCut(pieces, pattern)
    ensures Cut(Join(pieces, pattern), pattern) == pieces
    decreases |Join(pieces, pattern)|
  {
    var s, p := Join(pieces, pattern), pieces[0];
    if |s| < |pattern| {
    } else if p == [] && |pieces| > 1 {
      assert s == pattern + Join(pieces[1..], pattern);
      assert s[|pattern|..] == Join(pieces[1..], pattern);
      CutIsUnique(pieces[1..], pattern);
    } else {
      if |pieces| == 1 {
        assert !OccursAt(p, pattern, 0);
        assert p != [];
      } else {
        assert !OccursAt(p + pattern, pattern, 0);
        assert s == (p + pattern) + Join(pieces[1..], pattern);
      }
      var shorter := [p[1..]] + pieces[1..];
      CutTail(pieces, pattern);
      assert [p[0]] + shorter[0] == p && shorter[1..] == pieces[1..];
      assert [[p[0]] + shorter[0]] + shorter[1..] == pieces;
      JoinHead(p[0], shorter, pattern);
      assert s[1..] == Join(shorter, pattern);
      CutIsUnique(shorter, pattern);
    }
  }

  /** Dropping the first character of the first piece keeps a cut leftmost. */
  lemma CutTail(pieces: seq<string>, pattern: string)
    requires LeftmostCut(pieces, pattern) && pieces[0] != []
    ensures LeftmostCut([pieces[0][1..]] + pieces[1..], pattern)
  {
    var p := pieces[0];
    var shorter := [p[1..]] + pieces[1..];
    if |pieces| == 1 {
      forall i: nat | i <= |p[1..]| ensures !OccursAt(p[1..], pattern, i) {
        assert p[1..][i..] == p[i + 1..] && !OccursAt(p, pattern, i + 1);
      }
    } else {
      assert shorter[|shorter| - 1] == pieces[|pieces| - 1];
      forall k, i: nat | 0 <= k < |shorter| - 1 && i < |shorter[k]|
        ensures !OccursAt(shorter[k] + pattern, pattern, i)
      {
        if k == 0 {
          assert (shorter[0] + pattern)[i..] == (p + pattern)[i + 1..] && !OccursAt(p + pattern, pattern, i + 1);
        } else {
          assert shorter[k] == pieces[k];
        }
      }
    }
  }

  lemma PrependEmpty(rest: seq<string>, pattern: string)
    requires LeftmostCut(rest, pattern)
    ensures LeftmostCut([""] + rest, pattern)
  {
    var pieces := [""] + rest;
    assert pieces[|pieces| - 1] == rest[|rest| - 1];
    forall k, i: nat | 0 <= k < |pieces| - 1 && i < |pieces[k]| ensures !OccursAt(pieces[k] + pattern, pattern, i) {
      assert pieces[k] == rest[k - 1];
    }
  }

  lemma PrependCharacter(c: char, rest: seq<string>, pattern: string)
    requires LeftmostCut(rest, pattern) && !(pattern <= [c] + Join(rest, pattern))
    ensures LeftmostCut([[c] + rest[0]] + rest[1..], pattern)
  {
    var p := [c] + rest[0];
    var pieces := [p] + rest[1..];
    if |rest| == 1 {
      forall i: nat | i <= |p| ensures !OccursAt(p, pattern, i) {
        if i > 0 {
          assert p[i..] == rest[0][i - 1..] && !OccursAt(rest[0], pattern, i - 1);
        }
      }
    } else {
      assert pieces[|pieces| - 1] == rest[|rest| - 1];
      assert [c] + Join(rest, pattern) == (p + pattern) + Join(rest[1..], pattern);
      forall k, i: nat | 0 <= k < |pieces| - 1 && i < |pieces[k]| ensures !OccursAt(pieces[k] + pattern, pattern, i) {
        if k > 0 {
          assert pieces[k] == rest[k];
        } else if i > 0 {
          assert (p + pattern)[i..] == (rest[0] + pattern)[i - 1..] && !OccursAt(rest[0] + pattern, pattern, i - 1);
        }
      }
    }
  }

  lemma {:induction false} CutIsLeftmost(s: string, pattern: string)
    requires pattern != []
    ensures LeftmostCut(Cut(s, pattern), pattern)
  {
    if |s| < |pattern| {
    } else if pattern <= s {
      CutIsLeftmost(s[|pattern|..], pattern);
      PrependEmpty(Cut(s[|pattern|..], pattern), pattern);
    } else {
      CutIsLeftmost(s[1..], pattern);
      JoinOfCut(s[1..], pattern, pattern);
      assert s == [s[0]] + s[1..];
      PrependCharacter(s[0], Cut(s[1..], pattern), pattern);
    }
  }

  /**
   * What replacement means, without saying how it scans: every text has exactly one leftmost cut around `from`,
   * and the result glues the same pieces with `to`.
   */
  lemma ReplaceMeaning(s: string, from: string, to: string, pieces: seq<string>)
    requires from != []
    ensures LeftmostCut(pieces, from) && Join(pieces, from) == s <==> pieces == Cut(s, from)
    ensures pieces == Cut(s, from) ==> ReplaceAll(s, from, to) == Join(pieces, to)
  {
    JoinOfCut(s, from, to);
    CutIsLeftmost(s, from);
    if LeftmostCut(pieces, from) && Join(pieces, from) == s {
      CutIsUnique(pieces, from);
    }
  }

  function TotalLength(pieces: seq<string>): nat {
    if pieces == [] then 0 else |pieces[0]| + TotalLength(pieces[1..])
  }

  lemma {:induction false} JoinLength(pieces: seq<string>, glue: string)
    requires pieces != []
    ensures |Join(pieces, glue)| == TotalLength(pieces) + (|pieces| - 1) * |glue|
  {
    if |pieces| > 1 {
      JoinLength(pieces[1..], glue);
      assert (|pieces| - 1) * |glue| == |glue| + (|pieces| - 2) * |glue|;
    }
  }

  /** Each of the k replacements changes the length by |to| - |from|. */
  lemma ReplaceLength(s: string, from: string, to: string)
    requires from != []
    ensures |ReplaceAll(s, from, to)| == |s| + (|Cut(s, from)| - 1) * (|to| - |from|)
  {
    var pieces := Cut(s, from);
    JoinOfCut(s, from, to);
    JoinLength(pieces, from);
    JoinLength(pieces, to);
    assert (|pieces| - 1) * |to| - (|pieces| - 1) * |from| == (|pieces| - 1) * (|to| - |from|);
  }

  lemma {:induction false} ReplaceNowhere(s: string, from: string, to: string)
    requires from != [] && !Contains(s, from)
    ensures ReplaceAll(s, from, to) == s
  {
    assert !OccursAt(s, from, 0);
    if s != [] {
      forall i: nat | i <= |s[1..]| ensures !OccursAt(s[1..], from, i) {
        assert s[1..][i..] == s[i + 1..] && !OccursAt(s, from, i + 1);
      }
      ReplaceStep(s, from, to);
      ReplaceNowhere(s[1..], from, to);
    }
  }

  lemma OccurrenceCuts(s: string, pattern: string)
    requires pattern != []
    ensures |Cut(s, pattern)| > 1 <==> Contains(s, pattern)
  {
    JoinOfCut(s, pattern, pattern);
    CutIsLeftmost(s, pattern);
    if !Contains(s, pattern) {
      assert LeftmostCut([s], pattern) && Join([s], pattern) == s;
      ReplaceMeaning(s, pattern, pattern, [s]);
    }
  }

  /** Two glues that give the same text between the same two or more pieces are the same. */
  lemma GlueIsUnique(pieces: seq<string>, from: string, to: string)
    requires |pieces| > 1 && Join(pieces, from) == Join(pieces, to)
    ensures from == to
  {
    JoinLength(pieces, from);
    JoinLength(pieces, to);
    var n := |pieces| - 1;
    if |from| < |to| {
      LessTimes(n, |from|, |to|);
    } else if |to| < |from| {
      LessTimes(n, |to|, |from|);
    }
    var p, s := |pieces[0]|, Join(pieces, from);
    assert s[p..p + |from|] == from;
    assert s == pieces[0] + to + Join(pieces[1..], to);
    assert s[p..p + |to|] == to;
  }

  lemma LessTimes(n: int, a: int, b: int)
    requires n > 0 && a < b
    ensures n * a < n * b
  {
  }

  /**
   * When a peer changes a text: never without an override, and with one exactly if the address is there to be
   * replaced by something else.
   */
  lemma SanitizeChanges(ipOverride: Option<IpOverride>, sdp: string)
    ensures Sanitize(ipOverride, sdp) == sdp
            <==> match ipOverride
                 case None => true
                 case Some(o) => o.from == "" || !Contains(sdp, o.from) || o.from == o.to
  {
    if ipOverride.Some? && ipOverride.value.from != "" {
      var IpOverride(from, to) := ipOverride.value;
      if !Contains(sdp, from) {
        ReplaceNowhere(sdp, from, to);
      } else if from == to {
        ReplaceBySelf(sdp, from);
      } else if Sanitize(ipOverride, sdp) == sdp {
        JoinOfCut(sdp, from, to);
        OccurrenceCuts(sdp, from);
        GlueIsUnique(Cut(sdp, from), from, to);
      }
    }
  }

  // ---------------------------------------------------------------- line by line

  function Lines(s: string): (lines: seq<string>)
    ensures lines != []
  {
    Cut(s, "\n")
  }

  function ReplaceEach(lines: seq<string>, from: string, to: string): (r: seq<string>)
    ensures |r| == |lines|
  {
    if lines == [] then [] else [ReplaceAll(lines[0], from, to)] + ReplaceEach(lines[1..], from, to)
  }

  /** No match spans a character that the pattern does not contain. */
  lemma {:induction false} ReplaceAcross(a: string, c: char, b: string, from: string, to: string)
    requires c !in from
    ensures ReplaceAll(a + [c] + b, from, to) == ReplaceAll(a, from, to) + [c] + ReplaceAll(b, from, to)
  {
    var s := a + [c] + b;
    PrefixAcross(a, c, b, from);
    if from == [] {
    } else if a == [] {
      assert s == [c] + b && s[1..] == b;
    } else if from <= a {
      assert s[|from|..] == a[|from|..] + [c] + b;
      ReplaceAcross(a[|from|..], c, b, from, to);
      Regroup(to, ReplaceAll(a[|from|..], from, to), [c], ReplaceAll(b, from, to));
    } else {
      assert s[1..] == a[1..] + [c] + b && s[0] == a[0];
      ReplaceAcross(a[1..], c, b, from, to);
      ReplaceStep(a, from, to);
      ReplaceStep(s, from, to);
      Regroup([a[0]], ReplaceAll(a[1..], from, to), [c], ReplaceAll(b, from, to));
    }
  }

  lemma Regroup(a: string, b: string, c: string, d: string)
    ensures a + (b + c + d) == (a + b) + c + d
  {
  }

  lemma PrefixAcross(a: string, c: char, b: string, pattern: string)
    requires c !in pattern
    ensures pattern <= a + [c] + b <==> pattern <= a
  {
    var s := a + [c] + b;
    assert s[|a|] == c;
    if pattern <= s && |pattern| <= |a| {
      assert pattern == s[..|pattern|] == a[..|pattern|];
    }
  }

  lemma ReplaceStep(s: string, from: string, to: string)
    requires s != [] && !(from <= s)
    ensures ReplaceAll(s, from, to) == [s[0]] + ReplaceAll(s[1..], from, to)
  {
    if |s| < |from| {
      assert s == [s[0]] + s[1..];
    }
  }

  lemma {:induction false} ReplaceJoined(lines: seq<string>, from: string, to: string)
    requires lines != [] && '\n' !in from
    ensures ReplaceAll(Join(lines, "\n"), from, to) == Join(ReplaceEach(lines, from, to), "\n")
  {
    if |lines| > 1 {
      ReplaceAcross(lines[0], '\n', Join(lines[1..], "\n"), from, to);
      ReplaceJoined(lines[1..], from, to);
      assert ReplaceEach(lines, from, to)[1..] == ReplaceEach(lines[1..], from, to);
    }
  }

  lemma {:induction false} ReplaceKeepsOut(c: char, s: string, from: string, to: string)
    requires c !in s && c !in to
    ensures c !in ReplaceAll(s, from, to)
  {
    if from == [] || |s| < |from| {
    } else if from <= s {
      ReplaceKeepsOut(c, s[|from|..], from, to);
    } else {
      ReplaceKeepsOut(c, s[1..], from, to);
    }
  }

  /** A cut around a single character is any list of pieces without it. */
  lemma CutByCharacter(pieces: seq<string>, c: char)
    requires pieces != []
    ensures LeftmostCut(pieces, [c]) <==> forall k | 0 <= k < |pieces| :: c !in pieces[k]
  {
    if LeftmostCut(pieces, [c]) {
      forall k | 0 <= k < |pieces| ensures c !in pieces[k] {
        if c in pieces[k] {
          var i: nat :| i < |pieces[k]| && pieces[k][i] == c;
          assert OccursAt(pieces[k], [c], i) && OccursAt(pieces[k] + [c], [c], i);
        }
      }
    }
    if forall k | 0 <= k < |pieces| :: c !in pieces[k] {
      forall k, i: nat | 0 <= k < |pieces| && i < |pieces[k]|
        ensures !OccursAt(pieces[k] + [c], [c], i) && !OccursAt(pieces[k], [c], i)
      {
        assert (pieces[k] + [c])[i..][0] == pieces[k][i] && pieces[k][i..][0] == pieces[k][i];
        assert pieces[k][i] in pieces[k];
      }
      assert !Contains(pieces[|pieces| - 1], [c]);
    }
  }

  lemma {:induction false} EachReplaced(lines: seq<string>, from: string, to: string)
    requires '\n' !in to && forall k | 0 <= k < |lines| :: '\n' !in lines[k]
    ensures forall k | 0 <= k < |lines| :: '\n' !in ReplaceEach(lines, from, to)[k]
  {
    if lines != [] {
      ReplaceKeepsOut('\n', lines[0], from, to);
      EachReplaced(lines[1..], from, to);
    }
  }

  /** Each text as a peer with this override would hand it on. */
  function SanitizeEach(ipOverride: Option<IpOverride>, lines: seq<string>): (r: seq<string>)
    ensures |r| == |lines|
  {
    if lines == [] then [] else [Sanitize(ipOverride, lines[0])] + SanitizeEach(ipOverride, lines[1..])
  }

  lemma {:induction false} SanitizeEachReplaces(ipOverride: Option<IpOverride>, lines: seq<string>)
    ensures SanitizeEach(ipOverride, lines)
            == match ipOverride
               case None => lines
               case Some(o) => ReplaceEach(lines, o.from, o.to)
  {
    if lines != [] {
      SanitizeEachReplaces(ipOverride, lines[1..]);
    }
  }

  /**
   * A description sanitised whole is its lines sanitised one by one, provided the address holds no newline; if
   * the substitute holds none either, the lines of the result are exactly the sanitised lines. Without an override
   * both are the description and its lines.
   */
  lemma SanitizeByLine(ipOverride: Option<IpOverride>, sdp: string)
    requires ipOverride.Some? ==> '\n' !in ipOverride.value.from
    ensures var whole, each := Sanitize(ipOverride, sdp), SanitizeEach(ipOverride, Lines(sdp));
            && whole == Join(each, "\n")
            && (ipOverride.None? ==> whole == sdp && each == Lines(sdp))
            && (ipOverride.None? || '\n' !in ipOverride.value.to ==> Lines(whole) == each)
  {
    var lines := Lines(sdp);
    SanitizeEachReplaces(ipOverride, lines);
    JoinOfCut(sdp, "\n", "\n");
    if ipOverride.Some? {
      var IpOverride(from, to) := ipOverride.value;
      ReplaceJoined(lines, from, to);
      if '\n' !in to {
        CutIsLeftmost(sdp, "\n");
        CutByCharacter(lines, '\n');
        EachReplaced(lines, from, to);
        CutByCharacter(ReplaceEach(lines, from, to), '\n');
        CutIsUnique(ReplaceEach(lines, from, to), "\n");
      }
    }
  }

  lemma {:induction false} PieceLength(pieces: seq<string>, k: nat)
    requires k < |pieces|
    ensures |pieces[k]| <= TotalLength(pieces)
  {
    if k > 0 {
      PieceLength(pieces[1..], k - 1);
    }
  }

  lemma {:induction false} ReplaceEachUnchanged(lines: seq<string>, from: string, to: string)
    requires from == to || forall k | 0 <= k < |lines| :: |lines[k]| < |from|
    ensures ReplaceEach(lines, from, to) == lines
  {
    if lines != [] {
      if from == to {
        ReplaceBySelf(lines[0], from);
      }
      ReplaceEachUnchanged(lines[1..], from, to);
    }
  }

  /** An address spanning a line break is itself a text that is replaced whole but not line by line. */
  lemma BrokenAddress(from: string, to: string)
    requires '\n' in from
    ensures ReplaceAll(from, from, to) == to && Join(ReplaceEach(Lines(from), from, to), "\n") == from
  {
    var lines := Lines(from);
    assert from[|from|..] == "";
    JoinOfCut(from, "\n", "\n");
    CutIsLeftmost(from, "\n");
    CutByCharacter(lines, '\n');
    JoinLength(lines, "\n");
    forall k | 0 <= k < |lines| ensures |lines[k]| < |from| {
      PieceLength(lines, k);
    }
    ReplaceEachUnchanged(lines, from, to);
  }

  /** The two ways of sanitising agree on every text exactly when no line break hides in a real substitution. */
  lemma SanitizeByLineExactly(ipOverride: Option<IpOverride>)
    ensures (forall sdp :: Sanitize(ipOverride, sdp) == Join(SanitizeEach(ipOverride, Lines(sdp)), "\n"))
            <==> match ipOverride
                 case None => true
                 case Some(o) => '\n' !in o.from || o.from == o.to
  {
    if ipOverride.None? || '\n' !in ipOverride.value.from {
      forall sdp ensures Sanitize(ipOverride, sdp) == Join(SanitizeEach(ipOverride, Lines(sdp)), "\n") {
        SanitizeByLine(ipOverride, sdp);
      }
    } else {
      var IpOverride(from, to) := ipOverride.value;
      if from == to {
        forall sdp ensures Sanitize(ipOverride, sdp) == Join(SanitizeEach(ipOverride, Lines(sdp)), "\n") {
          SanitizeEachReplaces(ipOverride, Lines(sdp));
          ReplaceBySelf(sdp, from);
          JoinOfCut(sdp, "\n", "\n");
          ReplaceEachUnchanged(Lines(sdp), from, to);
        }
      } else {
        SanitizeEachReplaces(ipOverride, Lines(from));
        BrokenAddress(from, to);
        assert Sanitize(ipOverride, from) != Join(SanitizeEach(ipOverride, Lines(from)), "\n");
      }
    }
  }
}
