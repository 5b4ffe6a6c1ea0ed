/** highlightDiffs (src/watch.ts): line-by-line comparison of two outputs,
    with changed lines shown in reverse video. In permanent mode the
    indices of every line that has ever changed are remembered across
    calls (the caller's `Set<number>`, threaded through here as a value). */
module Highlight {

  import opened Strings
  import opened Ansi

  const REVERSE: string := [ESC] + "[7m"
  const RESET: string := [ESC] + "[0m"

  /** `lines[i] ?? ""`: positions past the end read as empty lines. */
  function LineAt(lines: seq<string>, i: nat): string {
    if i < |lines| then lines[i] else ""
  }

  function LineCount(oldLines: seq<string>, newLines: seq<string>): nat {
    Max(|oldLines|, |newLines|)
  }

  /** The positions below `bound` whose lines differ. */
  function ChangedBelow(oldLines: seq<string>, newLines: seq<string>, bound: nat): set<nat> {
    set i: nat | i < bound && LineAt(oldLines, i) != LineAt(newLines, i)
  }

  /** The positions, up to the longer of the two outputs, whose lines differ. */
  function ChangedIndices(oldLines: seq<string>, newLines: seq<string>): set<nat> {
    ChangedBelow(oldLines, newLines, LineCount(oldLines, newLines))
  }

  function Reversed(line: string): string {
    REVERSE + line + RESET
  }

  /** Whether line `i` is shown highlighted, given the remembered indices
      after this comparison. */
  predicate ShouldHighlight(oldLines: seq<string>, newLines: seq<string>, permanent: bool,
                            highlights: set<nat>, i: nat)
  {
    if permanent then i in highlights else LineAt(oldLines, i) != LineAt(newLines, i)
  }

  /** Line `i` as displayed: the new line (or `""`), reversed exactly when
      it should be. */
  function Shown(oldLines: seq<string>, newLines: seq<string>, permanent: bool,
                 highlights: set<nat>, i: nat): string
  {
    if ShouldHighlight(oldLines, newLines, permanent, highlights, i)
    then Reversed(LineAt(newLines, i)) else LineAt(newLines, i)
  }

  /** The displayed lines, as a declarative reference: one per position. */
  function Displayed(oldLines: seq<string>, newLines: seq<string>, permanent: bool,
                     highlights: set<nat>): (lines: seq<string>)
    ensures |lines| == LineCount(oldLines, newLines)
  {
    seq(LineCount(oldLines, newLines), i requires 0 <= i => Shown(oldLines, newLines, permanent, highlights, i))
  }

  /** highlightDiffs: compares the lines position by position, adds every
      changed position to the remembered set and joins the displayed lines
      with newlines. */
  method HighlightDiffs(oldLines: seq<string>, newLines: seq<string>, permanent: bool,
                        sticky: set<nat>)
    returns (result: string, highlights: set<nat>)
    ensures highlights == sticky + ChangedIndices(oldLines, newLines)
    ensures result == Join(Displayed(oldLines, newLines, permanent, highlights), NEWLINE)
  {
    var maxLen := LineCount(oldLines, newLines);
    ghost var final := sticky + ChangedIndices(oldLines, newLines);
    var lines: seq<string> := [];
    highlights := sticky;
    var i := 0;
    while i < maxLen
      invariant 0 <= i <= maxLen
      invariant |lines| == i
      invariant highlights == sticky + ChangedBelow(oldLines, newLines, i)
      invariant forall k :: 0 <= k < i ==> lines[k] == Shown(oldLines, newLines, permanent, final, k)
    {
      var oldLine := LineAt(oldLines, i);
      var newLine := LineAt(newLines, i);
      var changed := oldLine != newLine;
      ChangedBelowStep(oldLines, newLines, i);
      if changed {
        highlights := highlights + {i};
      }
      assert i in highlights <==> i in final;
      var shouldHighlight := if permanent then i in highlights else changed;
      if shouldHighlight {
        lines := lines + [REVERSE + newLine + RESET];
      } else {
        lines := lines + [newLine];
      }
      i := i + 1;
    }
    assert lines == Displayed(oldLines, newLines, permanent, final);
    result := Join(lines, NEWLINE);
  }

  /** One more position adds itself exactly when its lines differ. */
  lemma ChangedBelowStep(oldLines: seq<string>, newLines: seq<string>, i: nat)
    ensures ChangedBelow(oldLines, newLines, i + 1)
      == ChangedBelow(oldLines, newLines, i)
         + (if LineAt(oldLines, i) != LineAt(newLines, i) then {i} else {})
  {
  }

  /** Every position that changes in this comparison is highlighted, in
      both modes; outside permanent mode nothing else is. */
  lemma HighlightedLines(oldLines: seq<string>, newLines: seq<string>, permanent: bool,
                         sticky: set<nat>, i: nat)
    requires i < LineCount(oldLines, newLines)
    ensures var h := sticky + ChangedIndices(oldLines, newLines);
      ShouldHighlight(oldLines, newLines, permanent, h, i)
      <==> (i in ChangedIndices(oldLines, newLines) || (permanent && i in sticky))
  {
  }

  /** The remembered set never shrinks, so once a line has changed it stays
      highlighted in permanent mode for as long as the output reaches it. */
  lemma PermanentStaysHighlighted(old1: seq<string>, new1: seq<string>,
                                  old2: seq<string>, new2: seq<string>,
                                  sticky: set<nat>, i: nat)
    requires i in ChangedIndices(old1, new1)
    requires i < LineCount(old2, new2)
    ensures var h1 := sticky + ChangedIndices(old1, new1);
      var h2 := h1 + ChangedIndices(old2, new2);
      ShouldHighlight(old2, new2, true, h2, i)
  {
  }

  /** Newline-free lines come back one per position when the joined
      result is split again, as the display and the tests do. */
  lemma DisplayedSplit(oldLines: seq<string>, newLines: seq<string>, permanent: bool,
                       highlights: set<nat>)
    requires |oldLines| + |newLines| > 0
    requires NoneContains(oldLines, NEWLINE) && NoneContains(newLines, NEWLINE)
    ensures var lines := Displayed(oldLines, newLines, permanent, highlights);
      Split(Join(lines, NEWLINE), NEWLINE) == lines
  {
    var lines := Displayed(oldLines, newLines, permanent, highlights);
    forall k | 0 <= k < |lines| ensures NEWLINE !in lines[k] {
      assert NEWLINE !in LineAt(newLines, k);
      assert NEWLINE !in REVERSE && NEWLINE !in RESET;
    }
    SplitJoin(lines, NEWLINE);
  }

  /** The two permanent-mode calls of the unit tests: line 1 changes, then
      line 0 changes while line 1 reverts; both stay highlighted. */
  method PermanentModeExample() returns (first: string, second: string, highlights: set<nat>)
    ensures highlights == {0, 1}
    ensures Split(second, NEWLINE) == [Reversed("Y"), Reversed("b")]
  {
    var h1, h2;
    assert ChangedIndices(["a", "b"], ["a", "X"]) == {1} by {
      assert LineAt(["a", "b"], 0) == LineAt(["a", "X"], 0);
    }
    first, h1 := HighlightDiffs(["a", "b"], ["a", "X"], true, {});
    assert ChangedIndices(["a", "X"], ["Y", "b"]) == {0, 1};
    second, h2 := HighlightDiffs(["a", "X"], ["Y", "b"], true, h1);
    highlights := h2;
    var lines := Displayed(["a", "X"], ["Y", "b"], true, h2);
    assert lines == [Reversed("Y"), Reversed("b")];
    DisplayedSplit(["a", "X"], ["Y", "b"], true, h2);
  }

  /** A line that disappears shows as an empty reversed line. */
  method RemovedLineExample() returns (result: string)
    ensures Split(result, NEWLINE) == ["line1", Reversed("")]
  {
    var h;
    result, h := HighlightDiffs(["line1", "line2"], ["line1"], false, {});
    var lines := Displayed(["line1", "line2"], ["line1"], false, h);
    assert LineAt(["line1"], 1) == "";
    assert lines == ["line1", Reversed("")];
    DisplayedSplit(["line1", "line2"], ["line1"], false, h);
  }
}
