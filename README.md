# fmlint `readFileContents` in Dafny

fmlint is a VS Code extension that lints FreeMarker templates embedded in HTML
files. Its whole analysis is the function `readFileContents` in
`src/extension.ts`. This project models that function and proves properties
of the model. The function works in four stages:

1. **Bracket scanner** (`parse`, `findSyntax`, `nextSymbol`, `newLineCheck`).
   - It makes two passes over the document, one for `[`/`]` and one for `{`/`}`.
   - Each pass moves a cursor and keeps line and column counters.
   - It captures every span from an opening delimiter to the first closing
     one, dropping line feeds and carriage returns.
   - The spans of both passes are sorted by (line, column).
2. **Checks.**
   - `validateMatch` reports whether a character does not occur exactly once.
   - `validateOperators` looks for malformed `==`, `!=`, `||` and `&&`.
3. **Classifier.** It gives each span a code:
   - 0: an `#if` opener;
   - 1: a `/#if` closer;
   - 2: a `{...}` with no `$` before it;
   - 3: a malformed directive;
   - 4: a bad operator;
   - -1: ignored.

   Codes 2, 3 and 4 go straight onto the result stack.
4. **Balance checker.**
   - It sorts the classified tokens.
   - A stack machine over them cancels each opener/closer pair.
   - Whatever stays on the stack is sorted by position and returned.

The Dafny modules follow these stages:

- `Positions`: line and column of a document index, and the comparator.
- `Sorting`: the position sort.
- `Scanner`:
  - `Parser` is a class holding the closure state of `parse`: `textToChars`, `textToShift`, `textPos`, `startLine` and `lineNum`;
  - its methods `NextSymbol`, `SkipToOpen`, `CaptureToClose`, `FindSyntax` and `Pass` hold the source's loops;
  - `Parse` runs the two passes.
- `Checks`: `ValidateMatch` and `ValidateOperators`, as loops.
- `Classifier`: `Classify` (the decision table) and the classification loop `ClassifyAll`.
- `BalanceChecker`: the stack loop `CheckBalance` and its specification `Balance`.
- `Analysis`: `ReadFileContents`, and a worked example document.
- `Wrappers`: an `Option` type.

Each loop is a method. Its contract ties what it computes to a specification
function: `SpanFrom`, `ScanFrom`, `ScanAll`, `Strip`, `FirstFrom`,
`WellFormedOperators`, `Classify`, `Tags`, `Errors` and `Balance`. The
properties are lemmas about those functions.

### Behaviour of the code worth knowing

The model follows the code (`src/extension.ts`) as written, including where it
does less or more than its own comments say.

- **Rule 3 (code 2).** The comment at lines 185-187 speaks of template literals with no `$` before `{}`.
  - The code tests whether the captured text contains `{` anywhere (line 195).
  - It looks for `$` just before the span's opening delimiter, not before the `{`.
- **Operator tokens (code 4).** The comment at lines 199-203 lists a `#` count check for if blocks.
  - The code applies it only to codes 0 and 1 (line 204).
  - So a token given code 4 by the operator check stays 4 whatever its `#` count (`Classifier.BadOperatorEscapesHashCount`).
  - Text with code 4 never contains `/#if`, so only the bracket rule can still turn it into 3.
- **Unclosed opener.** A pass goes on while the unscanned rest of the document, from the cursor on, holds both delimiters (line 120).
  - After a closed span the cursor rests on that span's closer (lines 77-95 never step past it), so the guard still sees a closer.
  - So an opener after a closed span is captured up to the end of the document, without a closer. In `[a] [#if x` the `[` pass reports `[#if x` unclosed (`Analysis.UnclosedTailPass`), and that span is Malformed (`Analysis.UnclosedTailIsMalformed`).
  - An opener is dropped only when no closer lies at or after the cursor. For example, a document with no closer at all yields nothing in that pass (`Scanner.PassWithoutDelimiterIsSilent`).
- **`charPosEnd` without a close.** When no closing delimiter is found, `charPosEnd` keeps the cursor value the call started with (lines 58 and 92-95). That value can be smaller than `charPosStart`: it is 2 against 4 in the example above.

## Model

| member | source | states |
|---|---|---|
| Positions.LineOfCountsLineFeeds | src/extension.ts:62-89 | The line the counters assign to an index is the number of line feeds before it. |
| Positions.ColOfIsDistanceToLineStart | src/extension.ts:64-69 | The column is the distance back to the last line feed, or to the start of the document. A carriage return counts as a column. |
| Positions.PosOfAcrossLine | src/extension.ts:64-69 | Over a stretch without line feeds, the line stays fixed and the column grows by one per character. |
| Positions.PosOfStrictlyIncreasing | src/extension.ts:128-134 | A later index has a strictly later (line, column). So spans starting at different indices never tie in the sort. |
| Positions.ComparePositions | src/extension.ts:128-134 | The sort comparator is negative, zero or positive exactly when the first coordinate is before, equal to or after the second in document order. |
| Sorting.SortByPosition | src/extension.ts:128-134 | The result is in (line, column) order and is a permutation of the input. Input already in order comes back unchanged. |
| Sorting.InsertByPosition | src/extension.ts:128-134 | One insertion keeps the order and adds exactly one element. An element not before the last one is appended. |
| Sorting.SortedPermutationUnique | src/extension.ts:128-134 | With pairwise distinct keys, there is only one sorted permutation. So any sort meeting the comparator gives the same result. |
| Sorting.PermutationKeepsKeysDistinct | src/extension.ts:128-134 | Sorting cannot make two elements share a position. |
| Scanner.FirstFromIsFirst | src/extension.ts:62-71 | The skip loop stops on the first occurrence of the delimiter. It reaches the end exactly when the rest of the document has none. |
| Scanner.StripKeepsOtherChars | src/extension.ts:77-89 | The capture keeps every character other than line feeds and carriage returns, with its count. |
| Scanner.StripCons | src/extension.ts:77-89 | Prepending a character to the captured region prepends it to the capture, unless it is a line break. |
| Scanner.StripDropsBreaks | src/extension.ts:79-87 | No line feed or carriage return reaches the captured text. |
| Scanner.StopFrom | src/extension.ts:62-89 | A call moves the cursor forward. When the delimiters differ and an opener is left, it moves strictly forward, so the pass loop terminates. |
| Scanner.SpanFrom | src/extension.ts:53-106 | The value `findSyntax` returns from a cursor: its start index is at or after the cursor and holds the opener when one is left; its end index is either the cursor it started from or an index holding the closer. |
| Scanner.ScanFrom | src/extension.ts:120-125 | The spans the pass loop collects from a cursor: there are at most as many as characters left, since each call moves the cursor forward. |
| Scanner.SpanFromShape | src/extension.ts:53-106 | The captured text is the region from `charPosStart`, with line breaks dropped, plus the closing delimiter when found. Other facts: it starts with the opener, which sits at `text[charPosStart]`; it contains the closer at most once, and only as its last character; when closed, `text[charPosEnd]` is the closer; start and end coordinates are those of the opener and of the stop index. |
| Scanner.ScanFromStarts | src/extension.ts:111-125 | Every span of a pass starts at an opening delimiter and carries that delimiter's line and column. |
| Scanner.ScanFromIncreasing | src/extension.ts:111-125 | The spans of one pass start at strictly increasing indices. |
| Scanner.ScanFromClosedButLast | src/extension.ts:91-95 | Only the last span of a pass can lack its closing delimiter. |
| Scanner.PassWithoutDelimiterIsSilent | src/extension.ts:120-125 | A document lacking either delimiter of a pass yields no span in that pass. |
| Scanner.ScanAllIsBothPasses | src/extension.ts:108-126 | `found` holds the `[` pass followed by the `{` pass. |
| Scanner.ScanAllKeysDistinct | src/extension.ts:108-126 | Every span starts at a `[` or a `{`, and no two spans of the two passes share a (line, column). |
| Scanner.Parser.constructor | src/extension.ts:21-30 | Starts with the cursor at 0, zero counters and the whole text as the unshifted suffix. |
| Scanner.Parser.NextSymbol | src/extension.ts:40-43 | Shifts one character off the suffix and advances the cursor by one. The suffix stays `textToChars[textPos..]`. |
| Scanner.Parser.NewLineCheck | src/extension.ts:45-51 | True exactly when stepping over the character at the cursor starts a new line; false past the end. |
| Scanner.Parser.SkipToOpen | src/extension.ts:61-71 | Moves the cursor to the first opener at or after it. `startLine` and the returned `startPos` stay that index's line and column throughout. |
| Scanner.Parser.CaptureToClose | src/extension.ts:73-89 | Moves the cursor to the first closer. Returns the stripped text passed over and the column reached. `lineNum` grows by the line feeds crossed. |
| Scanner.Parser.FindSyntax | src/extension.ts:53-106 | Returns exactly `SpanFrom` at the starting cursor and leaves the cursor at `StopFrom`. `startLine` and `startLine + lineNum` are the span's start and end lines, so the caller's threading of `end` and `startLine` keeps them on the cursor. |
| Scanner.Parser.Pass | src/extension.ts:111-125 | Resets the cursor and the counters, then runs `findSyntax` while the suffix holds both delimiters, threading `end` and `startLine`. Returns exactly `ScanPass` for the pair. |
| Scanner.Parse | src/extension.ts:18-137 | Returns a permutation of the spans of both passes, sorted by (line, column), with no two at the same coordinate. |
| Checks.ValidateMatch | src/extension.ts:139-148 | True exactly when the character occurs zero times or more than once. |
| Checks.ValidateOperators | src/extension.ts:150-168 | Returns only 0 or 4. It returns 0 exactly when, reading left to right, every `=`, `!`, `\|` and `&` starts an `==`, `!=`, `\|\|` or `&&` that is consumed whole. |
| Checks.NoOperatorCharsIsWellFormed | src/extension.ts:150-168 | Text without operator characters passes the operator check. |
| Checks.WellFormedPrefix | src/extension.ts:150-168 | A well-formed prefix does not change the verdict on what follows it. |
| Checks.PairedOperatorsPass | src/extension.ts:150-168 | `a == b`, `a != b`, `a && b` and `a \|\| b` pass. |
| Checks.LoneOperatorsFail | src/extension.ts:150-168 | `a = b`, `a & b`, `a \| b`, `!x` and `a <= b` fail. |
| Classifier.Classify | src/extension.ts:183-206 | Every code lies between -1 and 4. |
| Classifier.ClassifyTable | src/extension.ts:188-206 | For each code (0, 4, 1, 2, -1) it states exactly when a span gets that code, after first-match-wins and the override to 3. |
| Classifier.ClosingMarkerContainsOpening | src/extension.ts:188-195 | Text containing `/#if` contains `#if`, so rule 3 only sees text without `#if`. |
| Classifier.BadOperatorEscapesHashCount | src/extension.ts:188-206 | An opener-like span with a bad operator and matching brackets is code 4, whatever its `#` count. |
| Classifier.ClassifyMatch | src/extension.ts:181-206 | The classification loop's body computes `Classify` with the two check methods. |
| Classifier.ClassifyAll | src/extension.ts:181-225 | `order` is every span with its code, in scan order. `stack` is exactly the tokens with a code above 1, in the same order. |
| Classifier.Errors | src/extension.ts:222-224 | A token is on the initial stack exactly when it is in `order` with a code above 1. |
| Classifier.TagsKeepOrder | src/extension.ts:208-219 | Tagging keeps each span, its position order and the distinctness of positions. |
| BalanceChecker.Step | src/extension.ts:241-249 | One turn of the stack loop: only an opener or a closer changes the stack; a push appends the current token; a pop happens only for a closer and removes an opener from the top; the height changes by at most one. |
| BalanceChecker.Balance | src/extension.ts:238-250 | The stack after the whole loop: its height differs from the starting height by at most the number of tokens. |
| BalanceChecker.CheckBalance | src/extension.ts:229-260 | `order` is sorted and a permutation of its input, unchanged when already sorted. The result is sorted and a permutation of `Balance` run over the sorted order from the error tokens. |
| BalanceChecker.ErrorsAreLayered | src/extension.ts:222-224 | The initial stack holds only error tokens. |
| BalanceChecker.StepKeepsLayered | src/extension.ts:241-249 | One turn keeps the stack as errors, then closers, then openers. |
| BalanceChecker.BalanceKeepsLayered | src/extension.ts:238-250 | The whole loop keeps that shape, so no opener ever lies below a closer or an error. |
| BalanceChecker.BalanceAppend | src/extension.ts:238-250 | Running over `x + y` is running over `x`, then over `y`. |
| BalanceChecker.BalanceOverOpeners | src/extension.ts:238-250 | Above a run of openers, an order that never closes more than is open leaves the stack below untouched. It leaves only openers above it, as many as the counts say. |
| BalanceChecker.NestedPairsCancel | src/extension.ts:238-250 | Correctly nested openers and closers leave the stack exactly as it was. |
| BalanceChecker.OneUnmatchedOpener | src/extension.ts:238-250 | One extra opener between two well-nested runs is the only thing left. |
| BalanceChecker.OneUnmatchedCloser | src/extension.ts:238-250 | One extra closer between two well-nested runs is the only thing left, over a stack without openers. |
| BalanceChecker.BalanceKeepsBase | src/extension.ts:238-250 | A bottom part without openers is never popped. |
| BalanceChecker.BalanceDrawsFrom | src/extension.ts:238-250 | Everything left was on the starting stack or is an opener or closer of the order. |
| BalanceChecker.ErrorsStayReported | src/extension.ts:222-250 | Every error token stays at the bottom, and no ignored token is ever left on the stack. |
| Analysis.ReadFileContents | src/extension.ts:170-260 | With no editor, or a file not ending in `.html`, the result is empty. Otherwise it states these facts: the spans are the scanned spans, sorted, with distinct positions; the result is sorted and is the balance loop's stack over the classified spans; every error token is reported; every finding is a classified span with a code other than -1. |
| Analysis.FindingsComeFromTokens | src/extension.ts:222-260 | A rearranged final stack includes every error token, and each finding is one of the classified tokens other than an ignored one. |
| Analysis.IsHtml | src/extension.ts:174-177 | A file is analysed exactly when its name is some text followed by `.html`. A name shorter than five characters never is, as `slice(-5)` then returns the whole name. |
| Analysis.NestedBlockScan | src/extension.ts:108-126 | The document `[#if a==b]\nhello\n[/#if]` scans to exactly two spans: the opener at line 0, column 0 and the closer at line 2, column 0. |
| Analysis.NestedBlockSpans | src/extension.ts:128-134 | Any sorted permutation of those spans is the opener followed by the closer. |
| Analysis.NestedBlockOpenerCode | src/extension.ts:188-206 | The opener classifies as code 0. |
| Analysis.NestedBlockCloserCode | src/extension.ts:193-206 | The closer classifies as code 1. |
| Analysis.OpenerThenCloserCancel | src/extension.ts:238-250 | An opener followed by a closer leaves no finding. |
| Analysis.NestedBlockIsClean | src/extension.ts:170-260 | For that document, any result meeting `ReadFileContents`'s contract is empty. |
| Analysis.UnclosedTailPass | src/extension.ts:111-125 | In `[a] [#if x`, the `[` pass reports `[a]` and then `[#if x`, unclosed, with `charPosEnd` 2 below its `charPosStart` 4. |
| Analysis.UnclosedTailIsMalformed | src/extension.ts:204-206 | That unclosed span has a `[` and no `]`, so it gets code 3. |

## Left out

- VS Code activation, command registration and `deactivate` (`activate` and `deactivate` in `src/extension.ts`): host plumbing.
- The hover provider and its message table: user interface.
- Decoration types and `updateDecorations`: user interface.
- The event subscriptions, the try/catch logging and the module-level `results` variable: host events and state.
- The editor is a parameter of `ReadFileContents`: an `Option` holding the file name and the text. `vscode.window.activeTextEditor` and `getText()` calls are not modelled.
- UTF-16 code units: text is a `seq<char>` with one index per character. The difference between `[...text]` (code points) and `text[i]` (code units) for characters outside the Basic Multilingual Plane is not modelled.
- `Array.prototype.sort`: modelled as a stable insertion sort under the source's comparator. Its contract is sorted plus permutation. With distinct positions, every sort meeting that contract gives the same result (`Sorting.SortedPermutationUnique`), and the scanned spans always have distinct positions (`Scanner.ScanAllKeysDistinct`).
- Scanner.Parser.FindSyntax: its two loops are the methods `SkipToOpen` and `CaptureToClose` of the same class. `FindSyntax` calls them in the source's order.
- Scanner.Parser.Pass: returns the spans of one pass and `Parse` appends them to `found`, where the source pushes each span onto `found` as it is made. The resulting sequence is the same.
- Scanner.Parser.NextSymbol: its return value (`++textPos`) is unused at every call site and is not modelled.
- BalanceChecker.CheckBalance: the stack and `order` are sequences that the method reassigns, not shared arrays that other code could alias.
- Out-of-range reads (`text[-1]`, `match[i + 1]` past the end, `textToChars[textPos]` at the end) give `undefined` in the source. They are modelled as a value equal to no character.
