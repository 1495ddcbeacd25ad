/**
 * Turning the editor's caret (a 1-based line and an offset within it) into
 * an absolute position in a document's text, over the text's table of line
 * starts.
 */
module RoslynVisxHelpers {

  /** A table of line starts: the first line starts at 0, and each line starts after the one before. */
  ghost predicate ValidLineStarts(lineStarts: seq<int>) {
    && |lineStarts| > 0
    && lineStarts[0] == 0
    && forall i, j :: 0 <= i < j < |lineStarts| ==> lineStarts[i] < lineStarts[j]
  }

  /**
   * `GetAbsolutePosition`: the start of line `line - 1` (the line indexer is
   * 0-based) plus `lineCharOffset`, not clamped to the line's length.
   */
  function GetAbsolutePosition(lineStarts: seq<int>, line: int, lineCharOffset: int): (r: int)
    requires 1 <= line <= |lineStarts|
    ensures r - lineCharOffset == lineStarts[line - 1]
  {
    lineStarts[line - 1] + lineCharOffset
  }

  /**
   * The inverse mapping (Roslyn's line lookup): the 0-based index of the line
   * holding `position`, that is, of the last line starting at or before it.
   */
  function LineIndex(lineStarts: seq<int>, position: int): (r: nat)
    requires ValidLineStarts(lineStarts) && 0 <= position
    ensures r < |lineStarts| && lineStarts[r] <= position
    ensures r + 1 < |lineStarts| ==> position < lineStarts[r + 1]
    decreases |lineStarts|
  {
    if |lineStarts| == 1 || lineStarts[|lineStarts| - 1] <= position then |lineStarts| - 1
    else LineIndex(lineStarts[..|lineStarts| - 1], position)
  }

  /** Within a line, the offset is one position per character. */
  lemma OffsetStep(lineStarts: seq<int>, line: int, lineCharOffset: int)
    requires 1 <= line <= |lineStarts|
    ensures GetAbsolutePosition(lineStarts, line, lineCharOffset + 1) == GetAbsolutePosition(lineStarts, line, lineCharOffset) + 1
  {
  }

  /**
   * Round trip from a position: looking up the line of a position and
   * converting back (1-based line, offset from its start) gives the position.
   */
  lemma PositionRoundTrip(lineStarts: seq<int>, position: int)
    requires ValidLineStarts(lineStarts) && 0 <= position
    ensures var line := LineIndex(lineStarts, position) + 1;
            GetAbsolutePosition(lineStarts, line, position - lineStarts[line - 1]) == position
  {
  }

  /**
   * Round trip from a caret: an offset that stays inside its line (the last
   * line is unbounded) converts to a position whose line is `line` again and
   * whose offset from that line's start is `lineCharOffset`. The offset is
   * taken as the formula uses it, counted from 0 at the line's start; which
   * convention the editor's caret offset follows is not part of this model.
   */
  lemma CaretRoundTrip(lineStarts: seq<int>, line: int, lineCharOffset: int)
    requires ValidLineStarts(lineStarts) && 1 <= line <= |lineStarts| && 0 <= lineCharOffset
    requires line < |lineStarts| ==> lineStarts[line - 1] + lineCharOffset < lineStarts[line]
    ensures var p := GetAbsolutePosition(lineStarts, line, lineCharOffset);
            0 <= p && LineIndex(lineStarts, p) == line - 1 && p - lineStarts[LineIndex(lineStarts, p)] == lineCharOffset
  {
  }

  /**
   * No clamping: an offset that runs past the end of its line gives a
   * position on a later line.
   */
  lemma OffsetPastLineEnd(lineStarts: seq<int>, line: int, lineCharOffset: int)
    requires ValidLineStarts(lineStarts) && 1 <= line < |lineStarts|
    requires lineStarts[line - 1] + lineCharOffset >= lineStarts[line]
    ensures LineIndex(lineStarts, GetAbsolutePosition(lineStarts, line, lineCharOffset)) >= line
  {
  }
}
