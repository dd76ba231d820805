# Select-sentence command of the AIditor editor plugin

This project models the one piece of logic in the plugin: the editor callback of the
`sample-editor-command` command. From the cursor `(line, ch)` it scans backward over the
buffer's lines to find a sentence and hands a selection to the editor's `setSelection`.
Sentences end at `.`, `!` or `?`.

For each line it visits, the scan does four things:
1. It moves `anchor` back to just after the nearest terminator before the scan point, or to column 0.
2. It steps over spaces and tabs before that point. This loop can never move: a terminator or column 0 always precedes `anchor` by then.
3. It moves `head` from `anchor - 1` back to just after the terminator before that, or to column 0. When `anchor` is 0, `head` is the sentinel -1.
4. It decrements `linenumber`. If `head` is -1, it loads that line and restarts from its end, but only while `linenumber > 0`.

It then selects columns `head` to `anchor` on line `linenumber + 1`.

Files:
- `sentence_spec.dfy` (module `SentenceSpec`): the character classes and the nearest-terminator search. It also holds the search for the previous line that has a terminator at all, a closed-form reference `Expected` for the selection, and the lemmas about it.
- `select_sentence.dfy` (module `SelectSentenceCommand`): the scan as the source writes it. Three decrementing column loops sit inside a line loop; the source's `do … while` becomes a `while` with a flag that is re-evaluated after the body. `SelectSentence` is proved equal to `Expected` and its line loop is bounded by a ghost pass counter.

`editor.getLine(i)` becomes `lines[i]`, and the value passed to `setSelection` becomes the
method's results. The buffer is an immutable `seq<string>`, and `SelectSentence` has no `modifies`
clause, so it cannot write the buffer. The scan calls `getLine` with an index outside the buffer
in one case only: `getLine(-1)`, when the cursor is on line 0 with no terminator before it. What
the host returns there is the parameter `hostLine`.

The command's behaviour differs from what its name and comments suggest; the model follows the code:
- The selected span is the last complete sentence that closes before the cursor, not the one the cursor sits in. For `"Hello world. Bye now."` with the cursor at column 15 the result is line 0, columns 0 to 12.
- The span is not trimmed: a blank after the previous terminator is part of it. For `"A. B. C"` with the cursor at 7 the result is columns 2 to 5.
- When no terminator precedes the cursor on its line and none is found on the lines above it (line 0 excluded), the first column is the sentinel -1. With the cursor on line 0, the second column is the length of the text `getLine(-1)` gives back. From any later line, the result is reported on line 1 with the length of line 0 as the second column. The text of line 0 is never scanned from a later line.

These cases are pinned by the `Example…` lemmas.

## Model

| member | source | states |
|---|---|---|
| `SentenceSpec.LastTerminatorBefore` | main.ts:151-158 | the result is -1 or an index below `k` holding a terminator, and no terminator lies after it below `k` (the nearest terminator before the scan point) |
| `SentenceSpec.LastTerminatorFound` | main.ts:151-158 | the search finds a terminator exactly when some character before `k` is one (both directions) |
| `SentenceSpec.PrevTerminatedLine` | main.ts:178-186 | the result is 0 or the largest line index in `[1, n)` whose text holds a terminator; every line strictly between it and `n` has none |
| `SentenceSpec.CursorLineSentence` | main.ts:151-177 | with a terminator before the cursor on its own line: the result is on that line, `0 <= head < anchor <= ch`, `anchor - 1` is the nearest terminator before the cursor, and `head` is just after the previous terminator or 0 with no terminator in between |
| `SentenceSpec.EarlierLineSentence` | main.ts:178-201 | with no terminator before the cursor on its line and no sentinel, the result lies on a line in `[1, cursor.line)`, ends just after that line's last terminator, and no line in between is terminated |
| `SentenceSpec.LineZeroWithoutTerminator` | main.ts:178-201 | with the cursor on line 0 and no terminator before it, in a buffer of any length: line 0, `head == -1`, `anchor` the length of `getLine(-1)` |
| `SentenceSpec.SentinelExactly` | main.ts:169-186 | `head == -1` exactly when no terminator lies before the cursor on its line nor on any line strictly between line 0 and the cursor's line |
| `SentenceSpec.SelectionIsOneSentence` | main.ts:169-201 | whenever `head != -1`, the reported line is at most the cursor's line, `0 <= head < anchor <= length`, and the selected text holds exactly one terminator, as its last character |
| `SentenceSpec.ReportedLineRange` | main.ts:178-201 | the reported line is 0 for a cursor on line 0 and otherwise lies between 1 and the cursor's line |
| `SentenceSpec.WalkReachesLineZero` | main.ts:178-201 | when the walk reaches line 0 without a terminator, the result is line 1, `head == -1`, `anchor == |lines[0]|` |
| `SentenceSpec.PrevTerminatedLineIgnoresLineZero` | main.ts:181-186 | the search for a terminated line depends only on lines 1 and up, below the start line |
| `SentenceSpec.LineZeroNeverScanned` | main.ts:178-186 | from a cursor below line 0, buffers that differ only in the text of line 0, at equal length, give the same selection |
| `SentenceSpec.ExampleSelectsPreviousSentence` | main.ts:151-177 | `"Hello world. Bye now."` at column 15 selects line 0, columns 0 to 12 |
| `SentenceSpec.ExampleKeepsLeadingBlank` | main.ts:161-177 | `"A. B. C"` at column 7 selects columns 2 to 5, keeping the blank |
| `SentenceSpec.ExampleSingleLineNoTerminator` | main.ts:178-201 | one line without terminator: line 0, `head == -1`, `anchor` the length of `getLine(-1)` |
| `SentenceSpec.ExampleSecondLine` | main.ts:178-201 | `["This is one.", "This is two"]` at (1, 11) gives line 1, -1, 12 |
| `SentenceSpec.ExampleNoTerminatorAnywhere` | main.ts:178-201 | `["abc", "def", "ghi"]` at (2, 3) gives line 1, -1, 3 |
| `SelectSentenceCommand.ScanToTerminator` | main.ts:151-158 | from a start of at most 0 nothing moves (the -1 sentinel stays); otherwise the result is at most the start and is 0 or just after a terminator, with no terminator in the span it stepped over |
| `SelectSentenceCommand.SkipBlanks` | main.ts:161-166 | the result steps back over exactly the run of spaces and tabs before the start, and does not move when a terminator or column 0 precedes the start, which is always the case where the command calls it |
| `SelectSentenceCommand.SelectSentence` | main.ts:138-201 | the selection equals the closed-form `Expected`; the line loop makes between 1 and `cursor.line + 1` passes, one per line, ending on the reported line |

## Left out

- The decoration feature (`EmojiWidget.toDOM`, `EmojiListPlugin.buildDecorations` and `update`, main.ts:3-77): DOM construction and a visitor over the editor library's syntax tree, whose behaviour is not visible here.
- The plugin glue in `onload` (ribbon icon, notice, status bar, the two modal commands, the DOM click handler, registering the editor extension), `loadSettings` / `saveSettings`, `SampleModal` and `SampleSettingTab`: host user interface and asynchronous persistence.
- The `console.log` calls inside the scan: logging only.
- How the host treats `getLine(-1)` is not modelled; the host may also raise there. The model takes `hostLine` as the text it returns.
- How the host treats `setSelection` with column -1, or with a column past the end of the reported line, is not modelled. The model returns the raw values.
- Column arithmetic works on Dafny characters, whereas the editor's strings count UTF-16 code units. Characters outside the Basic Multilingual Plane would shift columns; this is not modelled.
- The cursor is required to be on an existing line and within that line, as the host's `getCursor` guarantees.
