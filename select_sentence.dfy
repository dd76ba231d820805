/**
 * The editor callback of the `sample-editor-command` command: a backward scan from the
 * cursor over the lines of the buffer, written as the source writes it, with three
 * decrementing column loops inside a line loop that ends on the sentinel column -1.
 */
module SelectSentenceCommand {
  import opened SentenceSpec

  /** Step `from` back while the character before it is not a terminator and it is above 0.
      Used both for the search of the sentence end (loop 1) and for that of its start
      (loop 3, which may start at -1 and then does not move). */
  method ScanToTerminator(line: string, from: int) returns (p: int)
    requires -1 <= from <= |line|
    ensures from <= 0 ==> p == from
    ensures from > 0 ==> 0 <= p <= from && (p == 0 || IsTerminator(line[p - 1]))
    ensures from > 0 ==> forall j :: p <= j < from ==> !IsTerminator(line[j])
    ensures from > 0 ==> p == LastTerminatorBefore(line, from) + 1
  {
    p := from;
    while p > 0 && !IsTerminator(line[p - 1])
      invariant from <= 0 ==> p == from
      invariant from > 0 ==> 0 <= p <= from
      invariant forall j :: p <= j < from ==> !IsTerminator(line[j])
    {
      p := p - 1;
    }
  }

  /** Step `from` back over the run of spaces and tabs just before it (loop 2). */
  method SkipBlanks(line: string, from: int) returns (p: int)
    requires 0 <= from <= |line|
    ensures 0 <= p <= from
    ensures p == 0 || !IsBlank(line[p - 1])
    ensures forall j :: p <= j < from ==> IsBlank(line[j])
    ensures (from == 0 || IsTerminator(line[from - 1])) ==> p == from
  {
    p := from;
    while p > 0 && IsBlank(line[p - 1])
      invariant 0 <= p <= from
      invariant forall j :: p <= j < from ==> IsBlank(line[j])
    {
      p := p - 1;
    }
    if from > 0 && IsTerminator(line[from - 1]) {
      assert !IsBlank(line[from - 1]);
    }
  }

  /**
   * The command: from the cursor (`cursorLine`, `cursorCh`) in `lines`, compute the
   * selection (`selLine`, `head`) to (`selLine`, `anchor`) passed to `setSelection`.
   * `hostLine` is what the host's `getLine` returns for line -1, the one index outside the
   * buffer the scan can ask for. The buffer is only read. The ghost `iterations` counts the
   * passes of the line loop.
   */
  method SelectSentence(lines: seq<string>, cursorLine: int, cursorCh: int, hostLine: string)
    returns (selLine: int, head: int, anchor: int, ghost iterations: nat)
    requires ValidCursor(lines, cursorLine, cursorCh)
    ensures Selection(selLine, head, anchor) == Expected(lines, cursorLine, cursorCh, hostLine)
    ensures 1 <= iterations <= cursorLine + 1
    ensures iterations == cursorLine - selLine + 1
  {
    var linenumber := cursorLine;
    var line := lines[linenumber];
    anchor := cursorCh;
    head := anchor;
    iterations := 0;
    // the loop test runs after the body, as in a do-while: go on while linenumber > 0 and head == -1
    var running := true;
    while running
      invariant -1 <= linenumber <= cursorLine
      invariant iterations == cursorLine - linenumber
      invariant running ==> 0 <= linenumber && line == lines[linenumber] && 0 <= anchor <= |line|
      invariant running && linenumber == cursorLine ==> anchor == cursorCh
      invariant running && linenumber < cursorLine ==>
        1 <= linenumber && anchor == |line| &&
        LastTerminatorBefore(lines[cursorLine], cursorCh) < 0 &&
        PrevTerminatedLine(lines, cursorLine) == PrevTerminatedLine(lines, linenumber + 1)
      invariant !running ==> iterations >= 1
      invariant !running ==>
        Selection(linenumber + 1, head, anchor) == Expected(lines, cursorLine, cursorCh, hostLine)
      decreases linenumber + 1
    {
      ghost var start := anchor;
      // back to just after the nearest terminator before the scan point, or column 0
      anchor := ScanToTerminator(line, anchor);
      // back over blanks before it: never moves, since a terminator or column 0 precedes
      anchor := SkipBlanks(line, anchor);
      assert anchor == LastTerminatorBefore(line, start) + 1;
      // back from the terminator to the one before it, or column 0; -1 when anchor is 0
      head := ScanToTerminator(line, anchor - 1);
      assert head == -1 <==> anchor == 0;
      linenumber := linenumber - 1;
      iterations := iterations + 1;
      if head == -1 {
        line := LineAt(lines, linenumber, hostLine);
        anchor := |line|;
      }
      running := linenumber > 0 && head == -1;
    }
    selLine := linenumber + 1;
  }
}
