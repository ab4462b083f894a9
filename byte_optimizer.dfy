/** `advancedBufferOptimization` (pdf-utils.js): three textual rewrites of
    the buffer read as a latin1 ('binary') string, and the choice of the
    shortest. Latin1 maps each byte to the character with the same code and
    back, and the rewrites only delete characters or insert a space or a line
    feed, so they are stated here directly on bytes. */
module ByteOptimizer {
  import opened ByteText
  import opened JsText

  const Space: Byte := 32
  const LineFeed: Byte := 10
  const CarriageReturn: Byte := 13
  const Percent: Byte := 37

  /** V8's longest string (`buffer.constants.MAX_STRING_LENGTH` on 64-bit
      Node). `toString('binary')` throws on a longer buffer. */
  const MaxStringLength: nat := 536870888

  /** `\s` on a latin1 string: the byte read as a character is white space
      (tab, line feed, vertical tab, form feed, carriage return, space and
      no-break space are the ones below 256). */
  predicate IsSpaceByte(b: Byte)
  {
    IsJsSpace(b as char)
  }

  /** The line terminators `^` and `[\r\n]` see in a latin1 string. */
  predicate IsLineBreak(b: Byte)
  {
    b == LineFeed || b == CarriageReturn
  }

  /** The bytes of `s` that are not in `p`, in order: what a rewrite that
      only touches bytes in `p` must keep. */
  function Kept(s: seq<Byte>, p: Byte -> bool): (v: seq<Byte>)
    ensures |v| <= |s|
  {
    if s == [] then []
    else (if p(s[0]) then [] else [s[0]]) + Kept(s[1..], p)
  }

  lemma {:induction false} KeptAppend(a: seq<Byte>, b: seq<Byte>, p: Byte -> bool)
    ensures Kept(a + b, p) == Kept(a, p) + Kept(b, p)
    decreases |a|
  {
    if a == [] {
      assert a + b == b;
    } else {
      assert (a + b)[0] == a[0];
      assert (a + b)[1..] == a[1..] + b;
      KeptAppend(a[1..], b, p);
    }
  }

  lemma {:induction false} KeptOfRun(s: seq<Byte>, p: Byte -> bool)
    requires forall k :: 0 <= k < |s| ==> p(s[k])
    ensures Kept(s, p) == []
  {
    if s != [] {
      KeptOfRun(s[1..], p);
    }
  }

  /** A run of bytes in `p` at the front contributes nothing kept. */
  lemma KeptSkipsRun(s: seq<Byte>, p: Byte -> bool, n: nat)
    requires n <= |s| && forall k :: 0 <= k < n ==> p(s[k])
    ensures Kept(s, p) == Kept(s[n..], p)
  {
    assert s == s[..n] + s[n..];
    KeptAppend(s[..n], s[n..], p);
    KeptOfRun(s[..n], p);
  }

  /** A byte outside `p` in front is kept. */
  lemma KeptCons(h: Byte, s: seq<Byte>, p: Byte -> bool)
    requires !p(h)
    ensures Kept([h] + s, p) == [h] + Kept(s, p)
  {
    assert ([h] + s)[1..] == s;
  }

  // ---------------------------------------------------------------------
  // Candidate A: content.replace(/\s{2,}/g, ' ')
  // ---------------------------------------------------------------------

  /** Every maximal run of two or more white-space bytes becomes one space;
      a lone white-space byte stays as it is. */
  function CollapseSpaceRuns(s: seq<Byte>): (r: seq<Byte>)
    ensures |r| <= |s|
    ensures s != [] && !IsSpaceByte(s[0]) ==> r != [] && r[0] == s[0]
    decreases |s|
  {
    if s == [] then []
    else if IsSpaceByte(s[0]) then
      var n := RunLength(s, IsSpaceByte);
      (if n >= 2 then [Space] else [s[0]]) + CollapseSpaceRuns(s[n..])
    else [s[0]] + CollapseSpaceRuns(s[1..])
  }

  /** No two neighbouring bytes are both white space. */
  predicate NoAdjacentSpaces(s: seq<Byte>)
  {
    forall i :: 0 <= i < |s| - 1 ==> !(IsSpaceByte(s[i]) && IsSpaceByte(s[i + 1]))
  }

  /** One byte in front of a list without neighbouring white space keeps it
      so, unless both the byte and the list's first byte are white space. */
  lemma NoAdjacentSpacesCons(h: Byte, tail: seq<Byte>)
    requires NoAdjacentSpaces(tail)
    requires tail != [] && IsSpaceByte(h) ==> !IsSpaceByte(tail[0])
    ensures NoAdjacentSpaces([h] + tail)
  {
    var r := [h] + tail;
    forall i | 0 <= i < |r| - 1 ensures !(IsSpaceByte(r[i]) && IsSpaceByte(r[i + 1])) {
      if i > 0 {
        assert r[i] == tail[i - 1] && r[i + 1] == tail[i];
      }
    }
  }

  /** Collapsing keeps every non-white byte, in order, and leaves no two
      white-space bytes side by side. */
  lemma {:induction false} CollapseSpaceRunsSpec(s: seq<Byte>)
    ensures Kept(CollapseSpaceRuns(s), IsSpaceByte) == Kept(s, IsSpaceByte)
    ensures NoAdjacentSpaces(CollapseSpaceRuns(s))
    decreases |s|
  {
    if s == [] {
    } else if IsSpaceByte(s[0]) {
      var n := RunLength(s, IsSpaceByte);
      var h: Byte := if n >= 2 then Space else s[0];
      var tail := CollapseSpaceRuns(s[n..]);
      assert CollapseSpaceRuns(s) == [h] + tail;
      CollapseSpaceRunsSpec(s[n..]);
      KeptAppend([h], tail, IsSpaceByte);
      KeptSkipsRun(s, IsSpaceByte, n);
      NoAdjacentSpacesCons(h, tail);
    } else {
      var tail := CollapseSpaceRuns(s[1..]);
      CollapseSpaceRunsSpec(s[1..]);
      KeptCons(s[0], tail, IsSpaceByte);
      assert s == [s[0]] + s[1..];
      KeptCons(s[0], s[1..], IsSpaceByte);
      NoAdjacentSpacesCons(s[0], tail);
    }
  }

  /** A buffer with no two neighbouring white-space bytes is left as it is. */
  lemma {:induction false} CollapseSpaceRunsFixed(s: seq<Byte>)
    requires NoAdjacentSpaces(s)
    ensures CollapseSpaceRuns(s) == s
    decreases |s|
  {
    if s != [] {
      assert NoAdjacentSpaces(s[1..]) by {
        forall i | 0 <= i < |s[1..]| - 1 ensures !(IsSpaceByte(s[1..][i]) && IsSpaceByte(s[1..][i + 1])) {
          assert s[1..][i] == s[i + 1] && s[1..][i + 1] == s[i + 2];
        }
      }
      CollapseSpaceRunsFixed(s[1..]);
      if IsSpaceByte(s[0]) {
        assert RunLength(s, IsSpaceByte) == 1 by {
          if |s| > 1 {
            assert !IsSpaceByte(s[1]);
          }
        }
      }
    }
  }

  /** Candidate A is idempotent. */
  lemma CollapseSpaceRunsIdempotent(s: seq<Byte>)
    ensures CollapseSpaceRuns(CollapseSpaceRuns(s)) == CollapseSpaceRuns(s)
  {
    CollapseSpaceRunsSpec(s);
    CollapseSpaceRunsFixed(CollapseSpaceRuns(s));
  }

  // ---------------------------------------------------------------------
  // Candidate B: content.replace(/^%[^\r\n]*[\r\n]*/gm, '')
  // ---------------------------------------------------------------------

  predicate NotLineBreak(b: Byte) { !IsLineBreak(b) }

  /** End of the `%[^\r\n]*` part of a comment match at the head of `s`:
      the `%`, then every byte up to the first line break. */
  function CommentTextEnd(s: seq<Byte>): (e: nat)
    requires s != [] && s[0] == Percent
    ensures 1 <= e <= |s|
    ensures forall i :: 1 <= i < e ==> !IsLineBreak(s[i])
    ensures e < |s| ==> IsLineBreak(s[e])
  {
    1 + RunLength(s[1..], NotLineBreak)
  }

  /** Length of the text `%[^\r\n]*[\r\n]*` removes from the head of `s`:
      the comment line and then the whole run of line breaks after it. */
  function CommentLineEnd(s: seq<Byte>): (k: nat)
    requires s != [] && s[0] == Percent
    ensures CommentTextEnd(s) <= k <= |s|
    ensures forall i :: CommentTextEnd(s) <= i < k ==> IsLineBreak(s[i])
    ensures k < |s| ==> !IsLineBreak(s[k])
  {
    var line := CommentTextEnd(s);
    line + RunLength(s[line..], IsLineBreak)
  }

  /** Deletes every line that starts with `%`, together with the run of line
      breaks after it. `atLineStart` says whether `^` holds at the head of
      `s`: at the start of the input or right after a line break. After a
      deletion `^` holds again, because the deleted text either ends with a
      line break or reaches the end of the input. */
  function StripCommentLines(s: seq<Byte>, atLineStart: bool): (r: seq<Byte>)
    ensures |r| <= |s|
    decreases |s|
  {
    if s == [] then []
    else if atLineStart && s[0] == Percent then
      StripCommentLines(s[CommentLineEnd(s)..], true)
    else [s[0]] + StripCommentLines(s[1..], IsLineBreak(s[0]))
  }

  /** Candidate B never starts with the byte `%`: the first byte it keeps
      either opens the input or follows a deleted line, so it is at a line
      start, where a `%` would have been deleted. */
  lemma {:induction false} StripNeverStartsWithPercent(s: seq<Byte>)
    ensures var r := StripCommentLines(s, true); r == [] || r[0] != Percent
    decreases |s|
  {
    if s != [] && s[0] == Percent {
      StripNeverStartsWithPercent(s[CommentLineEnd(s)..]);
    }
  }

  /** A buffer that starts with `%` loses at least that line. */
  lemma StripShortensCommentStart(s: seq<Byte>)
    requires s != [] && s[0] == Percent
    ensures |StripCommentLines(s, true)| < |s|
  {
    var k := CommentLineEnd(s);
    assert |StripCommentLines(s[k..], true)| <= |s| - k;
  }

  /** No `%` at the start of a line: nothing to delete. */
  predicate NoCommentLines(s: seq<Byte>, atLineStart: bool)
  {
    && (s != [] && atLineStart ==> s[0] != Percent)
    && forall i :: 0 < i < |s| && IsLineBreak(s[i - 1]) ==> s[i] != Percent
  }

  /** A buffer without comment lines is left as it is. */
  lemma {:induction false} StripCommentLinesFixed(s: seq<Byte>, atLineStart: bool)
    requires NoCommentLines(s, atLineStart)
    ensures StripCommentLines(s, atLineStart) == s
    decreases |s|
  {
    if s != [] {
      forall i | 0 < i < |s[1..]| && IsLineBreak(s[1..][i - 1]) ensures s[1..][i] != Percent {
        assert s[1..][i] == s[i + 1] && s[1..][i - 1] == s[i];
      }
      StripCommentLinesFixed(s[1..], IsLineBreak(s[0]));
    }
  }

  /** A byte that does not open a comment line is kept; `^` holds after
      it exactly when it is a line break. */
  lemma StripKeepsByte(s: seq<Byte>, atLineStart: bool)
    requires s != [] && !(atLineStart && s[0] == Percent)
    ensures StripCommentLines(s, atLineStart) == [s[0]] + StripCommentLines(s[1..], IsLineBreak(s[0]))
  {
  }

  /** A line that does not start with `%` is kept whole, with its line
      break, and `^` holds after it. */
  lemma {:induction false} StripKeepsPlainLine(x: seq<Byte>, y: seq<Byte>, atLineStart: bool)
    requires x != [] && IsLineBreak(x[|x| - 1])
    requires forall i :: 0 <= i < |x| - 1 ==> !IsLineBreak(x[i])
    requires atLineStart ==> x[0] != Percent
    ensures StripCommentLines(x + y, atLineStart) == x + StripCommentLines(y, true)
    decreases |x|
  {
    var s := x + y;
    assert s[0] == x[0] && s[1..] == x[1..] + y;
    StripKeepsByte(s, atLineStart);
    if |x| == 1 {
      assert x[1..] + y == y;
    } else {
      var t := x[1..];
      assert !IsLineBreak(x[0]);
      assert IsLineBreak(t[|t| - 1]);
      assert forall i :: 0 <= i < |t| - 1 ==> t[i] == x[i + 1];
      StripKeepsPlainLine(t, y, false);
      assert x == [x[0]] + t;
    }
  }

  /** A line that starts with `%` at a line start is deleted together with
      the run of line breaks after it; the next line is at a line start. */
  lemma StripDropsCommentLine(x: seq<Byte>, y: seq<Byte>, j: nat)
    requires 1 <= j <= |x| && x[0] == Percent
    requires forall i :: 1 <= i < j ==> !IsLineBreak(x[i])
    requires forall i :: j <= i < |x| ==> IsLineBreak(x[i])
    requires y == [] || (j < |x| && !IsLineBreak(y[0]))
    ensures StripCommentLines(x + y, true) == StripCommentLines(y, true)
  {
    var s := x + y;
    assert forall i :: 0 <= i < |x| ==> s[i] == x[i];
    assert s[1..][j - 1..] == s[j..];
    RunLengthUnique(s[1..], NotLineBreak, j - 1);
    RunLengthUnique(s[j..], IsLineBreak, |x| - j);
    assert s[CommentLineEnd(s)..] == y;
  }

  // ---------------------------------------------------------------------
  // Candidate C: content.replace(/\r\n|\r|\n/g, '\n').replace(/\n{2,}/g, '\n')
  // ---------------------------------------------------------------------

  /** `\r\n`, a lone `\r` and `\n` each become `\n`; `\r\n` is tried first. */
  function NormalizeLineEndings(s: seq<Byte>): (r: seq<Byte>)
    ensures |r| <= |s|
    ensures forall i :: 0 <= i < |r| ==> r[i] != CarriageReturn
    decreases |s|
  {
    if s == [] then []
    else if s[0] == CarriageReturn && |s| >= 2 && s[1] == LineFeed then [LineFeed] + NormalizeLineEndings(s[2..])
    else if s[0] == CarriageReturn then [LineFeed] + NormalizeLineEndings(s[1..])
    else [s[0]] + NormalizeLineEndings(s[1..])
  }

  predicate IsLineFeed(b: Byte) { b == LineFeed }

  /** Every run of two or more line feeds becomes one. */
  function CollapseLineFeeds(s: seq<Byte>): (r: seq<Byte>)
    ensures |r| <= |s|
    ensures forall i :: 0 <= i < |r| - 1 ==> !(r[i] == LineFeed && r[i + 1] == LineFeed)
    ensures (forall i :: 0 <= i < |s| ==> s[i] != CarriageReturn) ==>
      forall i :: 0 <= i < |r| ==> r[i] != CarriageReturn
    ensures s != [] && s[0] != LineFeed ==> r != [] && r[0] == s[0]
    decreases |s|
  {
    if s == [] then []
    else if s[0] == LineFeed then
      var n := RunLength(s, IsLineFeed);
      [LineFeed] + CollapseLineFeeds(s[n..])
    else [s[0]] + CollapseLineFeeds(s[1..])
  }

  /** Candidate C: Unix line endings, no carriage return, no blank line run. */
  function UnifyLineBreaks(s: seq<Byte>): (r: seq<Byte>)
    ensures |r| <= |s|
    ensures forall i :: 0 <= i < |r| ==> r[i] != CarriageReturn
    ensures forall i :: 0 <= i < |r| - 1 ==> !(r[i] == LineFeed && r[i + 1] == LineFeed)
  {
    CollapseLineFeeds(NormalizeLineEndings(s))
  }

  /** Rewrite C by its meaning: each maximal run of line breaks, whatever
      its mix of CR and LF, becomes one line feed; every other byte stays. */
  function LineBreakRunsToLineFeed(s: seq<Byte>): seq<Byte>
    decreases |s|
  {
    if s == [] then []
    else if IsLineBreak(s[0]) then [LineFeed] + LineBreakRunsToLineFeed(s[RunLength(s, IsLineBreak)..])
    else [s[0]] + LineBreakRunsToLineFeed(s[1..])
  }

  /** How many bytes `\r\n|\r|\n` takes at the head of `s`. */
  function LineBreakWidth(s: seq<Byte>): (k: nat)
    requires s != [] && IsLineBreak(s[0])
    ensures 1 <= k <= |s| && forall i :: 0 <= i < k ==> IsLineBreak(s[i])
    ensures NormalizeLineEndings(s) == [LineFeed] + NormalizeLineEndings(s[k..])
  {
    if s[0] == CarriageReturn && |s| >= 2 && s[1] == LineFeed then 2 else 1
  }

  /** Normalising a run of line breaks gives a non-empty run of line feeds
      in front of the normalised rest. */
  lemma {:induction false} NormalizeBreakRun(s: seq<Byte>)
    requires s != [] && IsLineBreak(s[0])
    ensures var r, rest := NormalizeLineEndings(s), NormalizeLineEndings(s[RunLength(s, IsLineBreak)..]);
      |rest| < |r| && r[|r| - |rest|..] == rest && forall i :: 0 <= i < |r| - |rest| ==> r[i] == LineFeed
    decreases |s|
  {
    var k := LineBreakWidth(s);
    RunLengthSkip(s, IsLineBreak, k);
    if s[k..] != [] && IsLineBreak(s[k]) {
      NormalizeBreakRun(s[k..]);
      assert s[k..][RunLength(s[k..], IsLineBreak)..] == s[RunLength(s, IsLineBreak)..];
    }
  }

  /** A run of line feeds in front of a text not starting with one
      collapses to a single line feed. */
  lemma CollapseLineFeedRun(r: seq<Byte>, rest: seq<Byte>)
    requires |rest| < |r| && r[|r| - |rest|..] == rest
    requires forall i :: 0 <= i < |r| - |rest| ==> r[i] == LineFeed
    requires rest == [] || rest[0] != LineFeed
    ensures CollapseLineFeeds(r) == [LineFeed] + CollapseLineFeeds(rest)
  {
    if rest != [] {
      assert r[|r| - |rest|] == rest[0];
    }
    RunLengthUnique(r, IsLineFeed, |r| - |rest|);
  }

  /** Rewrite C is the replacement of each maximal line-break run by one
      line feed. */
  lemma {:induction false} UnifyLineBreaksSpec(s: seq<Byte>)
    ensures UnifyLineBreaks(s) == LineBreakRunsToLineFeed(s)
    decreases |s|
  {
    if s == [] {
    } else if IsLineBreak(s[0]) {
      var n := RunLength(s, IsLineBreak);
      NormalizeBreakRun(s);
      var rest := NormalizeLineEndings(s[n..]);
      if s[n..] != [] {
        assert rest[0] == s[n];
      }
      CollapseLineFeedRun(NormalizeLineEndings(s), rest);
      UnifyLineBreaksSpec(s[n..]);
    } else {
      var x := NormalizeLineEndings(s[1..]);
      assert NormalizeLineEndings(s) == [s[0]] + x;
      assert ([s[0]] + x)[1..] == x;
      assert CollapseLineFeeds([s[0]] + x) == [s[0]] + CollapseLineFeeds(x);
      UnifyLineBreaksSpec(s[1..]);
    }
  }

  /** Rewrite C keeps every byte that is not a line break, in order. */
  lemma {:induction false} UnifyLineBreaksKeepsText(s: seq<Byte>)
    ensures Kept(UnifyLineBreaks(s), IsLineBreak) == Kept(s, IsLineBreak)
  {
    UnifyLineBreaksSpec(s);
    LineBreakRunsKeepText(s);
  }

  lemma {:induction false} LineBreakRunsKeepText(s: seq<Byte>)
    ensures Kept(LineBreakRunsToLineFeed(s), IsLineBreak) == Kept(s, IsLineBreak)
    decreases |s|
  {
    if s == [] {
    } else if IsLineBreak(s[0]) {
      var n := RunLength(s, IsLineBreak);
      var tail := LineBreakRunsToLineFeed(s[n..]);
      LineBreakRunsKeepText(s[n..]);
      assert ([LineFeed] + tail)[1..] == tail;
      KeptSkipsRun(s, IsLineBreak, n);
    } else {
      LineBreakRunsKeepText(s[1..]);
      KeptCons(s[0], LineBreakRunsToLineFeed(s[1..]), IsLineBreak);
      assert s == [s[0]] + s[1..];
      KeptCons(s[0], s[1..], IsLineBreak);
    }
  }

  /** Normalising line endings keeps every byte that is not a line break,
      in order. */
  lemma {:induction false} NormalizeKeepsText(s: seq<Byte>)
    ensures Kept(NormalizeLineEndings(s), IsLineBreak) == Kept(s, IsLineBreak)
    decreases |s|
  {
    if s != [] {
      var k := if IsLineBreak(s[0]) then LineBreakWidth(s) else 1;
      var tail := NormalizeLineEndings(s[k..]);
      NormalizeKeepsText(s[k..]);
      assert s == s[..k] + s[k..];
      if IsLineBreak(s[0]) {
        assert ([LineFeed] + tail)[1..] == tail;
        KeptSkipsRun(s, IsLineBreak, k);
      } else {
        KeptCons(s[0], tail, IsLineBreak);
        KeptCons(s[0], s[1..], IsLineBreak);
      }
    }
  }

  /** Collapsing line-feed runs keeps every other byte, carriage returns
      included, in order. */
  lemma {:induction false} CollapseLineFeedsKeepsText(s: seq<Byte>)
    ensures Kept(CollapseLineFeeds(s), IsLineFeed) == Kept(s, IsLineFeed)
    decreases |s|
  {
    if s == [] {
    } else if s[0] == LineFeed {
      var n := RunLength(s, IsLineFeed);
      var tail := CollapseLineFeeds(s[n..]);
      CollapseLineFeedsKeepsText(s[n..]);
      assert ([LineFeed] + tail)[1..] == tail;
      KeptSkipsRun(s, IsLineFeed, n);
    } else {
      CollapseLineFeedsKeepsText(s[1..]);
      KeptCons(s[0], CollapseLineFeeds(s[1..]), IsLineFeed);
      assert s == [s[0]] + s[1..];
      KeptCons(s[0], s[1..], IsLineFeed);
    }
  }

  // ---------------------------------------------------------------------
  // Choosing the result
  // ---------------------------------------------------------------------

  /** The three rewrites, in the order the source lists them. */
  function Candidates(s: seq<Byte>): (c: seq<seq<Byte>>)
    ensures |c| == 3
  {
    [CollapseSpaceRuns(s), StripCommentLines(s, true), UnifyLineBreaks(s)]
  }

  /** What the selection loop holds after looking at `cands`: a candidate
      replaces the best so far only when it is strictly shorter. */
  function Best(input: seq<Byte>, cands: seq<seq<Byte>>): seq<Byte>
    decreases |cands|
  {
    if cands == [] then input
    else
      var prev := Best(input, cands[..|cands| - 1]);
      var last := cands[|cands| - 1];
      if |last| < |prev| then last else prev
  }

  /** The selection never lengthens the input; it returns the input when no
      candidate is strictly shorter, and otherwise the first candidate of
      least length. */
  lemma {:induction false} BestIsFirstShortest(input: seq<Byte>, cands: seq<seq<Byte>>)
    ensures |Best(input, cands)| <= |input|
    ensures forall j :: 0 <= j < |cands| ==> |Best(input, cands)| <= |cands[j]|
    ensures (forall j :: 0 <= j < |cands| ==> |cands[j]| >= |input|) ==> Best(input, cands) == input
    ensures (exists j :: 0 <= j < |cands| && |cands[j]| < |input|) ==> |Best(input, cands)| < |input|
    ensures Best(input, cands) == input ||
      exists k :: 0 <= k < |cands| && Best(input, cands) == cands[k] && |cands[k]| < |input| &&
        forall j :: 0 <= j < k ==> |cands[j]| > |cands[k]|
    decreases |cands|
  {
    if cands != [] {
      var init := cands[..|cands| - 1];
      BestIsFirstShortest(input, init);
      var prev := Best(input, init);
      var last := cands[|cands| - 1];
      assert forall j :: 0 <= j < |init| ==> init[j] == cands[j];
      if |last| < |prev| {
        assert Best(input, cands) == cands[|cands| - 1];
      } else if prev != input {
        var k :| 0 <= k < |init| && prev == init[k] && |init[k]| < |input| &&
          forall j :: 0 <= j < k ==> |init[j]| > |init[k]|;
        assert Best(input, cands) == cands[k];
      }
    }
  }

  /** `advancedBufferOptimization(buffer)`: the loop over the three results
      keeps the first one that is strictly shorter than the best so far. A
      buffer longer than V8's longest string makes `toString('binary')`
      throw, and the `catch` hands the buffer back unchanged. */
  method AdvancedBufferOptimization(buffer: seq<Byte>) returns (optimized: seq<Byte>)
    ensures optimized == Optimized(buffer)
  {
    if |buffer| > MaxStringLength {
      return buffer;
    }
    var optimizations := Candidates(buffer);
    var optimizedContent := buffer;
    var bestSize := |buffer|;
    for i := 0 to |optimizations|
      invariant optimizedContent == Best(buffer, optimizations[..i])
      invariant bestSize == |optimizedContent|
    {
      var testBuffer := optimizations[i];
      assert optimizations[..i + 1][..i] == optimizations[..i];
      if |testBuffer| < bestSize {
        optimizedContent := testBuffer;
        bestSize := |testBuffer|;
      }
    }
    assert optimizations[..|optimizations|] == optimizations;
    optimized := optimizedContent;
  }

  /** The optimiser's result, as a function for use in specifications: the
      input itself when it is too long to decode, otherwise the selection. */
  function Optimized(buffer: seq<Byte>): (r: seq<Byte>)
    ensures |r| <= |buffer|
    ensures |buffer| > MaxStringLength ==> r == buffer
  {
    if |buffer| > MaxStringLength then buffer
    else
      BestIsFirstShortest(buffer, Candidates(buffer));
      Best(buffer, Candidates(buffer))
  }

  /** A buffer that starts with `%` and can be decoded is always shortened:
      candidate B is. */
  lemma OptimizedShortensCommentStart(buffer: seq<Byte>)
    requires buffer != [] && buffer[0] == Percent
    requires |buffer| <= MaxStringLength
    ensures |Optimized(buffer)| < |buffer|
  {
    StripShortensCommentStart(buffer);
    var c := Candidates(buffer);
    assert |c[1]| < |buffer|;
    BestIsFirstShortest(buffer, c);
  }
}
