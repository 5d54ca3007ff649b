/** The spam pass of `extractNewsItems` in daily-notify-rss.js: for every
    promotional keyword, the content is rewritten with
    `replace(new RegExp(`[^\n]*${keyword}[^\n]*`, 'gi'), '')`. */
module Spam {
  import opened Text

  /** The promotional phrases the pass looks for, in the order it applies them. */
  const SpamKeywords: seq<string> := ["微信关注公众号", "何夕2077", "关注公众号", "扫码关注", "二维码"]

  /** A keyword the line-oriented pattern can be built from. */
  predicate IsKeyword(kw: string)
  {
    kw != [] && '\n' !in kw
  }

  lemma SpamKeywordsWellFormed()
    ensures forall i :: 0 <= i < |SpamKeywords| ==> IsKeyword(SpamKeywords[i])
  {
  }

  /** The index of the first line feed of `s`, or `|s|` when there is none. */
  function LineEnd(s: string): (e: nat)
    ensures e <= |s|
    ensures e < |s| ==> s[e] == '\n'
    decreases |s|
  {
    if s == [] || s[0] == '\n' then 0 else 1 + LineEnd(s[1..])
  }

  /** The first line holds no line feed. */
  lemma {:induction false} LineEndNoFeed(s: string)
    ensures '\n' !in s[..LineEnd(s)]
    decreases |s|
  {
    if s != [] && s[0] != '\n' {
      LineEndNoFeed(s[1..]);
      assert s[..LineEnd(s)] == [s[0]] + s[1..][..LineEnd(s[1..])];
    }
  }

  /** The keyword occurs on the line of `s` that starts at index 0. */
  predicate OnFirstLine(s: string, kw: string)
  {
    Contains(s[..LineEnd(s)], kw)
  }

  /** One keyword's `replace`: the engine tries the expression at each position in
      turn. `[^\n]*${kw}[^\n]*` matches at a position exactly when the keyword
      occurs between it and the end of its line; the greedy runs then take the
      match to the end of the line, which is removed, and the scan resumes at the
      line feed. No keyword holds a cased letter, so the `i` flag changes nothing. */
  function ReplaceSpamPattern(s: string, kw: string): string
    requires IsKeyword(kw)
    decreases |s|
  {
    if s == [] then []
    else if OnFirstLine(s, kw) then
      var e := LineEnd(s);
      assert e > 0 by {
        var k: int :| 0 <= k <= e && OccursAt(s[..e], kw, k);
      }
      ReplaceSpamPattern(s[e..], kw)
    else [s[0]] + ReplaceSpamPattern(s[1..], kw)
  }

  /** Some keyword of `kws` occurs in `line`. */
  predicate ContainsAny(line: string, kws: seq<string>)
  {
    exists i :: 0 <= i < |kws| && Contains(line, kws[i])
  }

  /** The lines of `s`, as `s.split('\n')` gives them. */
  function Lines(s: string): (r: seq<string>)
    ensures |r| >= 1
    decreases |s|
  {
    var e := LineEnd(s);
    if e == |s| then [s] else [s[..e]] + Lines(s[e + 1..])
  }

  /** `s` with every line that contains one of `kws` emptied; line feeds stay. */
  function BlankLines(s: string, kws: seq<string>): string
    decreases |s|
  {
    var e := LineEnd(s);
    var out := if ContainsAny(s[..e], kws) then [] else s[..e];
    if e == |s| then out else out + "\n" + BlankLines(s[e + 1..], kws)
  }

  // ---------------------------------------------------------------------------
  // Helper facts about lines

  /** The first line of `line + "\n" + rest` is `line`. */
  lemma {:induction false} LineEndOfJoin(line: string, rest: string)
    requires '\n' !in line
    ensures LineEnd(line + "\n" + rest) == |line|
    ensures (line + "\n" + rest)[..|line|] == line
    ensures (line + "\n" + rest)[|line| + 1..] == rest
  {
    var s := line + "\n" + rest;
    if line != [] {
      assert s[0] == line[0];
      assert s[1..] == line[1..] + "\n" + rest;
      LineEndOfJoin(line[1..], rest);
    }
  }

  /** A line with no line feed is its own first line. */
  lemma {:induction false} LineEndOfLine(line: string)
    requires '\n' !in line
    ensures LineEnd(line) == |line|
  {
    if line != [] {
      assert line[0] != '\n';
      LineEndOfLine(line[1..]);
    }
  }

  /** A keyword without line feeds cannot straddle a line feed. */
  lemma NoKeywordAcrossLineFeed(a: string, b: string, kw: string)
    requires IsKeyword(kw) && !Contains(a, kw) && !Contains(b, kw)
    ensures !Contains(a + "\n" + b, kw)
  {
    var s := a + "\n" + b;
    forall k | 0 <= k <= |s| ensures !OccursAt(s, kw, k) {
      if k + |kw| <= |s| {
        if k + |kw| <= |a| {
          assert s[k..k + |kw|] == a[k..k + |kw|];
          assert !OccursAt(a, kw, k);
        } else if k > |a| {
          assert s[k..k + |kw|] == b[k - |a| - 1..k - |a| - 1 + |kw|];
          assert !OccursAt(b, kw, k - |a| - 1);
        } else {
          assert s[k..k + |kw|][|a| - k] == '\n';
        }
      }
    }
  }

  /** A keyword absent from `s[..j]` is absent from each of its suffixes `s[i..j]`. */
  lemma AbsentFromSuffix(s: string, i: nat, j: nat, kw: string)
    requires i <= j <= |s| && !Contains(s[..j], kw)
    ensures !Contains(s[i..j], kw)
  {
    forall k | 0 <= k <= j - i ensures !OccursAt(s[i..j], kw, k) {
      if k + |kw| <= j - i {
        assert s[..j][i + k..i + k + |kw|] == s[i..j][k..k + |kw|];
        assert !OccursAt(s[..j], kw, i + k);
      }
    }
  }

  /** A line followed by nothing or by a line feed is the first line. */
  lemma {:induction false} LineEndOfPrefix(line: string, rest: string)
    requires '\n' !in line && (rest == [] || rest[0] == '\n')
    ensures LineEnd(line + rest) == |line|
  {
    var s := line + rest;
    if line == [] {
      assert s == rest;
    } else {
      assert s[0] == line[0];
      assert s[1..] == line[1..] + rest;
      LineEndOfPrefix(line[1..], rest);
    }
  }

  // ---------------------------------------------------------------------------
  // The regex replace is whole-line blanking

  /** At the start of a line that holds no keyword the engine does not match:
      it copies one character and moves on. */
  lemma CleanStep(line: string, rest: string, kw: string)
    requires IsKeyword(kw) && line != [] && '\n' !in line && !Contains(line, kw)
    requires rest == [] || rest[0] == '\n'
    ensures ReplaceSpamPattern(line + rest, kw) == [line[0]] + ReplaceSpamPattern(line[1..] + rest, kw)
  {
    var s := line + rest;
    LineEndOfPrefix(line, rest);
    assert s[..|line|] == line;
    assert !OnFirstLine(s, kw);
    assert s[1..] == line[1..] + rest;
  }

  /** Inside a line that holds no keyword the engine never matches: it copies
      the line character by character. */
  lemma {:induction false} CopiesCleanLine(line: string, rest: string, kw: string)
    requires IsKeyword(kw) && '\n' !in line && !Contains(line, kw)
    requires rest == [] || rest[0] == '\n'
    ensures ReplaceSpamPattern(line + rest, kw) == line + ReplaceSpamPattern(rest, kw)
    decreases |line|
  {
    if line == [] {
      assert line + rest == rest;
    } else {
      var r := ReplaceSpamPattern(rest, kw);
      CleanStep(line, rest, kw);
      assert line[..|line|] == line;
      AbsentFromSuffix(line, 1, |line|, kw);
      CopiesCleanLine(line[1..], rest, kw);
      SeqAssoc([line[0]], line[1..], r);
      assert [line[0]] + line[1..] == line;
    }
  }

  /** The engine on the first line: it removes the line when the keyword is on
      it and copies it otherwise, then goes on from the line's end. */
  lemma FirstLineReplaced(s: string, kw: string)
    requires IsKeyword(kw) && s != []
    ensures ReplaceSpamPattern(s, kw)
         == (if OnFirstLine(s, kw) then [] else s[..LineEnd(s)]) + ReplaceSpamPattern(s[LineEnd(s)..], kw)
  {
    var e := LineEnd(s);
    var line, rest := s[..e], s[e..];
    assert s == line + rest;
    if OnFirstLine(s, kw) {
      assert [] + ReplaceSpamPattern(rest, kw) == ReplaceSpamPattern(rest, kw);
    } else {
      LineEndNoFeed(s);
      CopiesCleanLine(line, rest, kw);
    }
  }

  /** One keyword's `replace` empties exactly the lines that contain it. */
  lemma {:induction false} ReplaceSpamPatternBlanksLines(s: string, kw: string)
    requires IsKeyword(kw)
    ensures ReplaceSpamPattern(s, kw) == BlankLines(s, [kw])
    decreases |s|
  {
    var e := LineEnd(s);
    var out := if ContainsAny(s[..e], [kw]) then [] else s[..e];
    ContainsAnySingle(s[..e], kw);
    if s == [] {
      assert BlankLines(s, [kw]) == out == [];
    } else {
      FirstLineReplaced(s, kw);
      AfterLine(s, kw);
      assert out == if OnFirstLine(s, kw) then [] else s[..e];
      if e == |s| {
        assert ReplaceSpamPattern(s, kw) == out + [];
      } else {
        var rest := BlankLines(s[e + 1..], [kw]);
        SeqAssoc(out, "\n", rest);
        assert ReplaceSpamPattern(s, kw) == out + "\n" + rest;
      }
    }
  }

  /** What the engine does from the end of the first line on. */
  lemma {:induction false} AfterLine(s: string, kw: string)
    requires IsKeyword(kw) && s != []
    ensures LineEnd(s) == |s| ==> ReplaceSpamPattern(s[LineEnd(s)..], kw) == []
    ensures LineEnd(s) < |s| ==>
      ReplaceSpamPattern(s[LineEnd(s)..], kw) == "\n" + BlankLines(s[LineEnd(s) + 1..], [kw])
    decreases |s|, 0
  {
    var e := LineEnd(s);
    if e < |s| {
      var t := s[e..];
      assert t[0] == '\n';
      assert LineEnd(t) == 0;
      assert !OnFirstLine(t, kw) by {
        assert t[..0] == [];
        assert !OccursAt(t[..0], kw, 0);
      }
      assert t[1..] == s[e + 1..];
      ReplaceSpamPatternBlanksLines(s[e + 1..], kw);
    }
  }

  /** Blanking for no keyword at all is the identity. */
  lemma {:induction false} BlankLinesNone(s: string)
    ensures BlankLines(s, []) == s
    decreases |s|
  {
    var e := LineEnd(s);
    if e < |s| {
      BlankLinesNone(s[e + 1..]);
      assert s == s[..e] + "\n" + s[e + 1..];
    }
  }

  /** A line holds one of `kws + [kw]` when it holds one of `kws` or `kw`. */
  lemma ContainsAnySnoc(line: string, kws: seq<string>, kw: string)
    ensures ContainsAny(line, kws + [kw]) <==> ContainsAny(line, kws) || Contains(line, kw)
  {
    if ContainsAny(line, kws + [kw]) {
      var i :| 0 <= i < |kws + [kw]| && Contains(line, (kws + [kw])[i]);
      if i < |kws| { assert (kws + [kw])[i] == kws[i]; }
    }
    if ContainsAny(line, kws) {
      var i :| 0 <= i < |kws| && Contains(line, kws[i]);
      assert (kws + [kw])[i] == kws[i];
    }
    if Contains(line, kw) { assert (kws + [kw])[|kws|] == kw; }
  }

  lemma ContainsAnySingle(line: string, kw: string)
    ensures ContainsAny(line, [kw]) <==> Contains(line, kw)
  {
    if Contains(line, kw) { assert [kw][0] == kw; }
  }

  /** A line blanked for `kws` and then for `kw` is blanked for `kws + [kw]`. */
  lemma BlankLineCompose(line: string, kws: seq<string>, kw: string)
    ensures var out := if ContainsAny(line, kws) then [] else line;
            (if ContainsAny(out, [kw]) then [] else out) == (if ContainsAny(line, kws + [kw]) then [] else line)
  {
    var out := if ContainsAny(line, kws) then [] else line;
    ContainsAnySnoc(line, kws, kw);
    ContainsAnySingle(out, kw);
  }

  /** Blanking for `kws`, then for `kw`, is blanking for `kws + [kw]`. */
  lemma {:induction false} BlankLinesCompose(s: string, kws: seq<string>, kw: string)
    ensures BlankLines(BlankLines(s, kws), [kw]) == BlankLines(s, kws + [kw])
    decreases |s|
  {
    var e := LineEnd(s);
    var line := s[..e];
    var out := if ContainsAny(line, kws) then [] else line;
    var merged := if ContainsAny(line, kws + [kw]) then [] else line;
    BlankLineCompose(line, kws, kw);
    LineEndNoFeed(s);
    assert '\n' !in out;
    if e == |s| {
      BlankLinesOfLine(out, [kw]);
    } else {
      var r := BlankLines(s[e + 1..], kws);
      LineEndOfJoin(out, r);
      BlankLinesCompose(s[e + 1..], kws, kw);
    }
  }

  /** A text of one line is blanked as that line. */
  lemma BlankLinesOfLine(line: string, kws: seq<string>)
    requires '\n' !in line
    ensures BlankLines(line, kws) == if ContainsAny(line, kws) then [] else line
  {
    LineEndOfLine(line);
    assert line[..|line|] == line;
  }

  // ---------------------------------------------------------------------------
  // What the pass guarantees

  /** After the pass no keyword occurs anywhere in the content. */
  lemma {:induction false} BlankLinesSpamFree(s: string, kws: seq<string>, i: nat)
    requires i < |kws| && IsKeyword(kws[i])
    ensures !Contains(BlankLines(s, kws), kws[i])
    decreases |s|
  {
    var e := LineEnd(s);
    var line := s[..e];
    var out := if ContainsAny(line, kws) then [] else line;
    if out == [] {
      assert !OccursAt(out, kws[i], 0);
    }
    assert !Contains(out, kws[i]);
    if e < |s| {
      BlankLinesSpamFree(s[e + 1..], kws, i);
      NoKeywordAcrossLineFeed(out, BlankLines(s[e + 1..], kws), kws[i]);
    }
  }

  /** The lines of `line + "\n" + rest` are `line` and then the lines of `rest`. */
  lemma LinesOfJoin(line: string, rest: string)
    requires '\n' !in line
    ensures Lines(line + "\n" + rest) == [line] + Lines(rest)
  {
    LineEndOfJoin(line, rest);
  }

  /** Putting a line blanked for `kws` in front of lines blanked for `kws`
      gives lines blanked for `kws`. */
  lemma BlankedCons(line: string, ls: seq<string>, lb: seq<string>, kws: seq<string>)
    requires |lb| == |ls|
    requires forall i :: 0 <= i < |ls| ==> lb[i] == if ContainsAny(ls[i], kws) then [] else ls[i]
    ensures var out := if ContainsAny(line, kws) then [] else line;
      forall i :: 0 <= i < |[line] + ls| ==>
        ([out] + lb)[i] == if ContainsAny(([line] + ls)[i], kws) then [] else ([line] + ls)[i]
  {
    var out := if ContainsAny(line, kws) then [] else line;
    forall i | 0 < i < |[line] + ls|
      ensures ([out] + lb)[i] == if ContainsAny(([line] + ls)[i], kws) then [] else ([line] + ls)[i]
    {
      assert ([line] + ls)[i] == ls[i - 1];
      assert ([out] + lb)[i] == lb[i - 1];
    }
  }

  /** The pass works line by line: the content keeps its number of lines, a line
      with a keyword becomes empty and every other line is unchanged. */
  lemma {:induction false} BlankLinesPerLine(s: string, kws: seq<string>)
    ensures |Lines(BlankLines(s, kws))| == |Lines(s)|
    ensures forall i :: 0 <= i < |Lines(s)| ==>
              Lines(BlankLines(s, kws))[i] == if ContainsAny(Lines(s)[i], kws) then [] else Lines(s)[i]
    decreases |s|
  {
    var e := LineEnd(s);
    var line := s[..e];
    var out := if ContainsAny(line, kws) then [] else line;
    LineEndNoFeed(s);
    if e == |s| {
      LineEndOfLine(out);
      assert line == s;
      assert Lines(BlankLines(s, kws)) == [out];
    } else {
      var t := s[e + 1..];
      var rest := BlankLines(t, kws);
      BlankLinesPerLine(t, kws);
      LinesOfJoin(out, rest);
      assert Lines(s) == [line] + Lines(t);
      assert BlankLines(s, kws) == out + "\n" + rest;
      BlankedCons(line, Lines(t), Lines(rest), kws);
    }
  }

  /** The pass keeps every line feed: the content has as many as before. */
  lemma {:induction false} BlankLinesKeepsLineFeeds(s: string, kws: seq<string>)
    ensures CountChar(BlankLines(s, kws), '\n') == CountChar(s, '\n')
    decreases |s|
  {
    var e := LineEnd(s);
    var line := s[..e];
    var out := if ContainsAny(line, kws) then [] else line;
    LineEndNoFeed(s);
    CountCharAbsent(out, '\n');
    CountCharAbsent(line, '\n');
    assert CountChar("\n", '\n') == 1 by { assert "\n"[1..] == []; }
    if e < |s| {
      assert BlankLines(s, kws) == out + "\n" + BlankLines(s[e + 1..], kws);
      BlankLinesKeepsLineFeeds(s[e + 1..], kws);
      CountCharConcat(out + "\n", BlankLines(s[e + 1..], kws), '\n');
      CountCharConcat(out, "\n", '\n');
      assert s == line + "\n" + s[e + 1..];
      CountCharConcat(line + "\n", s[e + 1..], '\n');
      CountCharConcat(line, "\n", '\n');
    } else {
      assert line == s;
    }
  }

  /** The spam pass as the script runs it: one `replace` per keyword, each
      reassigning the content, in the order of `SpamKeywords`. */
  method RemoveSpam(content: string) returns (cleaned: string)
    ensures cleaned == BlankLines(content, SpamKeywords)
  {
    cleaned := content;
    BlankLinesNone(content);
    assert SpamKeywords[..0] == [];
    for i := 0 to |SpamKeywords|
      invariant cleaned == BlankLines(content, SpamKeywords[..i])
    {
      var kw := SpamKeywords[i];
      ReplaceSpamPatternBlanksLines(cleaned, kw);
      BlankLinesCompose(content, SpamKeywords[..i], kw);
      cleaned := ReplaceSpamPattern(cleaned, kw);
      assert SpamKeywords[..i] + [kw] == SpamKeywords[..i + 1];
    }
    assert SpamKeywords[..|SpamKeywords|] == SpamKeywords;
  }
}
