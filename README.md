# firn terminal engine core, modelled in Dafny

This project models the three pieces of the firn terminal engine that turn
text coming out of a child process into a grid of cells:

- **The ECMA-48 node parser** (`src/parser.rs`, module `Parser` in
  `parser.dfy`, with the whole-parser theorems in `parser_properties.dfy`).
  It is a first-match-wins combinator parser over a character cursor. Every
  sub-parser answers `Match(rest, value)`, `NoMatch` or `Indeterminate`.
  `parse` tries seven node parsers in a fixed order and turns the first
  answer other than `NoMatch` into its result. Here a cursor is the remaining
  text. The pure compositions are functions. The loops of the source
  (`skip_delimiter`, `capture_group`, `capture_group_lazy`,
  `capture_character_string`, the loop over `parse_fns`) are methods, each
  proved to compute a closed-form specification function.
- **The cursor-addressed ragged grid** (`src/data.rs`, module `Data` in
  `data.dfy`). `Screen` is the value of the grid: its lines of optional
  graphemes and the active position. For each `&mut self` method there is a
  `Screen` function that states what the method leaves behind. The class
  `DataComponent` has the two fields the source updates in place. Each of its
  methods is proved to move its state exactly as that function says.
  Panics of the source are preconditions: the `assert!`s, indexing a missing
  row or cell, and a `splice` past the end of a line.
- **The translator loop** (`src/translator.rs`, module `Translator` in
  `translator.dfy`). `Drain` is the pure account of the `while let` loop. It
  gives the nodes dispatched, the text each one consumed, and the undecided
  tail kept for the next write. `Translator.Write` is proved against it.

Grapheme segmentation (`graphemes(true)` of the unicode-segmentation crate)
is a parameter `seg`. The facts about it that some proofs use are stated as
`IsSegmentation(seg)`: the segments are non-empty and concatenate to the
input. `usize` is taken to be 64 bits wide.

The code departs from ECMA-48 or from its own test in these places, and the
model follows the code in each:

- EL with argument "1" blanks every cell of the active line
  (data.rs:114-118). Section 8.3.41 of ECMA-48 erases only from the start of
  the line up to and including the active position.
- DCH with a count that runs past the end of the line panics in `splice`
  (data.rs:132). The model makes this a precondition.
- NEL only moves to the first cell of the active line (data.rs:171).
  Section 8.3.86 of ECMA-48 moves to the first position of the following
  line.
- RI moves to the previous line and also sets the column to 0 (data.rs:172,
  data.rs:95-101). Section 8.3.104 of ECMA-48 keeps the character position.
- CUF acts only without parameters, moving one cell right
  (data.rs:173-177). With a count it falls through to the ignored nodes.
  Section 8.3.20 of ECMA-48 moves right by the count.
- After "hello world" is written, `render` appends the cursor marker after the
  last cell (data.rs:154-156). It gives "hello world\_", where the test at
  translator.rs:39 expects "hello world".

## Model

| member | source | states |
|---|---|---|
| `Parser.Optional` | src/parser.rs:70-76 | `optional` never answers NoMatch. It turns NoMatch into a match of nothing at the original cursor (`None`), wraps a match in `Some`, and keeps Indeterminate. |
| `Parser.SkipDelimiter` | src/parser.rs:80-91 | A match consumes exactly the prefix. Indeterminate exactly when the input is a strict prefix of the delimiter. |
| `Parser.SkipDelimiterMismatch` | src/parser.rs:80-91 | `skip_delimiter` answers NoMatch exactly when the input and the delimiter differ at some position they both have. |
| `Parser.CaptureSingle` | src/parser.rs:93-109 | Indeterminate exactly on empty input. A match exactly when the first character is accepted; it is that character, and the rest is what follows it. |
| `Parser.CaptureGroup` | src/parser.rs:111-127 | NoMatch exactly when the first character is rejected. Indeterminate exactly when every character is accepted (the end of input is reached inside the group). Otherwise the match is a non-empty accepted prefix, and the rest starts with a rejected character. |
| `Parser.CaptureGroupLazy` | src/parser.rs:129-148 | Like `capture_group`, except that running out of input ends the group: Indeterminate only on empty input. |
| `Parser.CaptureCharacterString` | src/parser.rs:196-222 | Never NoMatch. Indeterminate exactly when no BEL or ESC \ occurs. A match gives the body before the first terminator, which holds no terminator. The input is body, terminator, rest, and the terminator is not part of the body. |
| `Parser.ParseC0Control` | src/parser.rs:157-160 | A match exactly when the first character is in 0x00-0x1F; it consumes that one character. Indeterminate exactly on empty input. |
| `Parser.ParseC1Control` | src/parser.rs:162-166 | A match exactly on ESC followed by 0x40-0x5F; it consumes the two characters. Indeterminate on empty input or a lone ESC. |
| `Parser.ParseControlSequence` | src/parser.rs:168-183 | Indeterminate exactly when the input is a strict prefix of CSI, or CSI followed only by parameter bytes and then intermediate bytes. A match is a well-formed control sequence that the consumed text spells. |
| `Parser.ParseCsiFields` | src/parser.rs:170-182 | After CSI: Indeterminate exactly when the text is parameter bytes then intermediate bytes. A match reassembles as parameters, intermediates, final byte, rest, with absent groups `None` and never empty. |
| `Parser.ParseCsiTail` | src/parser.rs:172-182 | After the parameters: Indeterminate exactly when only intermediate bytes follow. A match keeps the given parameters and reads a proper intermediate group and a final byte in 0x40-0x7E. |
| `Parser.ParseIndependentControlFunction` | src/parser.rs:185-189 | A match exactly on ESC followed by 0x60-0x7E, consuming two characters. Indeterminate on empty input or a lone ESC. |
| `Parser.ParseControlString` | src/parser.rs:224-242 | NoMatch exactly when the input does not start with ESC, or ESC is followed by a character that is not one of the five openings. Indeterminate exactly on empty input, a lone ESC, or an opening whose terminator has not arrived. A match is a control string with that opening. |
| `Parser.ParseText` | src/parser.rs:244-247 | Indeterminate exactly on empty input; NoMatch exactly when the input starts with a Cc character. A match consumes non-control text and stops at the end of input or before a control character. |
| `Parser.ParseUnknown` | src/parser.rs:249-252 | Decides every non-empty input by consuming its first character. |
| `Parser.Parse` | src/parser.rs:254-274 | Empty input is Indeterminate. Every match consumes at least one character: the rest is a strict suffix, and the consumed text spells the well-formed node. The `unreachable!()` branch is dead. |
| `Parser.FirstAnswerIsParse` | src/parser.rs:264-272 | When the entries of `parse_fns` before k answer NoMatch and entry k answers, that answer is `parse`'s. |
| `Parser.ScanDelimiter` | src/parser.rs:80-91 | The loop of `skip_delimiter`: a match with the rest after the prefix exactly when the input starts with the prefix, Indeterminate exactly when the input is a strict prefix of it, NoMatch otherwise. |
| `Parser.ScanGroup` | src/parser.rs:111-127 | The loop of `capture_group` computes `CaptureGroup`. |
| `Parser.ScanGroupLazy` | src/parser.rs:129-148 | The loop of `capture_group_lazy` computes `CaptureGroupLazy`. |
| `Parser.RunIsMaximal` | src/parser.rs:119-126 | A run of accepted characters that ends at the end of input or at a rejected character is the longest such run. |
| `Parser.ScanCharacterString` | src/parser.rs:196-222 | The loop of `capture_character_string` (try ST, then BEL, then take one character) computes `CaptureCharacterString`. |
| `Parser.ParseNode` | src/parser.rs:254-274 | The loop over `parse_fns` computes `Parse`; it never falls through to `unreachable!()`. |
| `ParserProperties.ParseIndeterminateIff` | src/parser.rs:254-274 | `parse` is Indeterminate exactly on: empty input; a lone ESC; an unterminated control string; or CSI followed by parameter bytes, then intermediate bytes, then nothing. |
| `ParserProperties.TextIsMaximalRun` | src/parser.rs:244-247 | On input starting with a non-Cc character, `parse` gives the maximal run of non-Cc characters as Text, also when the input ends inside the run. |
| `ParserProperties.ControlStringOpeningDecides` | src/parser.rs:224-242 | ESC followed by one of the five openings gives a ControlString or Indeterminate, never a C1 control. The body is everything before the first ST or BEL, and the terminator is consumed. |
| `ParserProperties.OptionalGroupExact` | src/parser.rs:170-173 | An optional group followed by a character outside its class is read back exactly, with an absent group read as `None`. |
| `ParserProperties.CsiTailExact` | src/parser.rs:172-182 | Intermediates and final byte of a well-formed control sequence are read back exactly, whatever follows. |
| `ParserProperties.CsiFieldsExact` | src/parser.rs:170-182 | Parameters, intermediates and final byte of a well-formed control sequence are read back exactly. |
| `ParserProperties.IntroducedByCsi` | src/parser.rs:255-263 | Once CSI is seen and the fields match, `parse` answers with that control sequence: the control-string and independent-function entries before it answer NoMatch. |
| `ParserProperties.ControlSequenceRoundTrip` | src/parser.rs:168-183 | Every well-formed control sequence, spelled out and followed by anything, is parsed back as itself with exactly that rest. |
| `ParserProperties.ControlStringRoundTrip` | src/parser.rs:196-242 | An opening, a body without terminators, then ST or BEL, followed by anything, is parsed back as that control string with exactly that rest. |
| `ParserProperties.PartialSequencesUndecided` | src/parser.rs:168-174 | Input ending inside the parameter or intermediate run of a CSI, or after a lone ESC, is Indeterminate. |
| `ParserProperties.ParseC0Example` | src/parser.rs:283-288 | BEL then "world" parses as C0Control(BEL) with rest "world". |
| `ParserProperties.ParseC1Example` | src/parser.rs:290-295 | ESC 0x40 then "world" parses as C1Control(0x40). |
| `ParserProperties.ParseControlSequenceExample` | src/parser.rs:297-312 | "ESC [0;1;2!m" parses as a control sequence with parameters "0;1;2", intermediates "!" and final byte 'm'. |
| `ParserProperties.ParseControlSequenceWithoutParametersExample` | src/parser.rs:314-329 | "ESC [!m" parses with parameters `None`. |
| `ParserProperties.ParseControlSequenceWithoutIntermediatesExample` | src/parser.rs:331-346 | "ESC [0;1;2m" parses with intermediates `None`. |
| `ParserProperties.ParseIndependentControlFunctionExample` | src/parser.rs:348-356 | ESC 0x60 parses as IndependentControlFunction(0x60). |
| `ParserProperties.ParseTextExample` | src/parser.rs:358-366 | "Hello, world" parses as one Text node with nothing left. |
| `ParserProperties.ParseControlStringExample` | src/parser.rs:368-376 | "ESC ]0;Hello BEL world" parses as ControlString(']', "0;Hello") with rest "world". |
| `Data.ParseUsize` | src/data.rs:129 | A parsed count is below 2^64, and empty input or a lone sign never parses. |
| `Data.ParseUsizeParsed` | src/data.rs:129 | Whatever parses is an optional '+' followed by digits, and the value is the value of those digits. |
| `Data.ParseUsizeRejects` | src/data.rs:129 | Any character that is not a digit, other than one leading '+', makes the parse fail (so "-1", "1a" and "++1" do not parse). |
| `Data.DigitsParse` | src/data.rs:129 | Every run of digits whose value fits in 64 bits, leading zeros included, parses to its value, with or without a leading '+'. |
| `Data.ParseUsizeRoundTrip` | src/data.rs:129 | Every usize, written in decimal with or without a leading '+', parses back to itself. |
| `Data.Pop` | src/data.rs:160 | `pop` removes exactly the last character, and leaves an empty string empty. |
| `Data.TrimEnd` | src/data.rs:158 | `trim_end` gives a prefix that does not end in white space, and only white space was removed. |
| `Data.Rows` | src/data.rs:142-159 | The accumulated result of the row loop ends in a newline that follows a character that is not white space. |
| `Data.MarkerStays` | src/data.rs:148-158 | Once a row has shown the cursor marker, the marker survives every later trim of the accumulated result. |
| `Data.KeptRows` | src/data.rs:158 | The intended accumulation, with each row trimmed on its own, ends in a newline. |
| `Data.MarkerKept` | src/data.rs:148-158 | With rows trimmed on their own, a row that shows the marker keeps it in every later result. |
| `Data.KeptRowsCount` | src/data.rs:142-159 | With rows trimmed on their own, the result holds exactly one newline per row. |
| `Data.ActiveLineHoldsActiveCell` | src/data.rs:46-56 | `get_active_line` is a row of the grid. The cursor's column lies on it exactly when the active cell exists, and there it holds the active cell. |
| `Data.Screen.SetActiveCell` | src/data.rs:58-60 | Only the active cell changes, to the new value. The cursor, the line lengths and the other lines stay, and a tidy grid stays tidy. |
| `Data.Screen.ActivateNextCell` | src/data.rs:63-71 | Needs the cursor on a cell (the assert at data.rs:65). The column goes up by one. The old line is a prefix of the new one, which is at least col+2 long, and only blank cells are added. Other lines are unchanged. |
| `Data.Screen.ActivatePrevCell` | src/data.rs:74-80 | The column goes down by one, clamped at 0. Cells and row are unchanged. |
| `Data.Screen.ActivateNextLine` | src/data.rs:83-92 | Needs the row to exist (the assert at data.rs:86). The cursor moves to (row+1, 0). The old lines are a prefix of the new ones, and a line holding one blank cell is added only when the next row is missing. |
| `Data.Screen.ActivatePrevLine` | src/data.rs:95-102 | The cursor moves to column 0 of the previous row, clamped at row 0. Cells are unchanged. |
| `Data.Screen.ActivateFirstCell` | src/data.rs:104-106 | The cursor moves to column 0 of its row. Cells are unchanged. |
| `Data.Screen.EraseInLine` | src/data.rs:108-126 | With no argument or "0", exactly the first col+1 cells are kept. "1" blanks every cell of the active line and keeps its length. "2" empties it, after which no active cell exists. Any other argument changes nothing. The cursor and the other lines never change. |
| `Data.Screen.DeleteCharacter` | src/data.rs:128-136 | A count that parses removes exactly the cells col+1 .. col+n and shifts the rest left; the cursor and the other lines stay. An argument that does not parse changes nothing. The splice must fit in the line. |
| `Data.Screen.WriteSegments` | src/data.rs:199-207 | Segment j lands in cell col+j. The cursor ends on the last segment. Cells before the cursor and after the last segment keep their contents, and the line is at least col+number-of-segments long. |
| `Data.Screen.WriteText` | src/data.rs:192-208 | The column grows by the number of segments minus one. Earlier cells and other lines stay, and the grid stays tidy. |
| `Data.WriteTextSpells` | src/data.rs:192-208 | Under a segmentation, the written cells, read from the old cursor, spell the old grapheme followed by the text. |
| `Data.Screen.WriteNode` | src/data.rs:164-190 | Any node outside the listed patterns leaves the grid untouched. An existing active row stays existing, lines are never removed, and only EL "2" can leave a tidy grid untidy. |
| `Data.Screen.Skipped` | src/data.rs:145 | `saturating_sub`: at most `max_lines` lines remain after skipping, and lines are skipped only when there are more than `max_lines`. |
| `Data.Screen.Render` | src/data.rs:139-162 | The rendered text, as written, never ends in white space. |
| `Data.Screen.CursorInView` | src/data.rs:145-154 | The cursor's row among the shown lines exists exactly when its line is shown, and is the absolute row minus the skipped lines. |
| `Data.RenderShowsCursorWhenNothingSkipped` | src/data.rs:142-158 | As written, the marker appears whenever no line is skipped and the cursor is on a cell. |
| `Data.RenderIntendedShowsCursor` | src/data.rs:142-158 | With the row translated, the marker appears whenever the active line is shown. |
| `Data.RenderIntendedKeepsLines` | src/data.rs:142-160 | With each row trimmed on its own, every shown line, blank ones included, is one line of output. |
| `Data.RenderLosesCursor` | src/data.rs:154 | As written, two lines with the cursor on the second and room for one render as "b", with no marker; the intended rendering is "b\_". |
| `Data.RenderDropsBlankLine` | src/data.rs:158 | As written, lines "a", blank, "b" render as two lines; the intended rendering keeps three. |
| `Data.Fresh` | src/data.rs:33-40 | `new` builds one line holding one blank cell, with the cursor at the origin. The grid is tidy: the active cell exists and no line is empty. |
| `Data.RunNodes` | src/translator.rs:20-23 | `write_node` applied to each node in turn keeps the active row existing. |
| `Data.RunNodesAppend` | src/translator.rs:20-23 | Dispatching a + b is dispatching a, then b from where a left off. |
| `Data.HarmlessNodesRun` | src/data.rs:164-190 | On a tidy grid, nodes other than EL "2" and DCH never panic and keep the grid tidy. |
| `Data.DataComponent.constructor` | src/data.rs:33-40 | The new component's state is the fresh grid. |
| `Data.DataComponent.GetActivePosition` | src/data.rs:42-44 | Returns the cursor. |
| `Data.DataComponent.GetActiveCell` | src/data.rs:54-56 | Returns the active cell; it needs the active cell to exist. |
| `Data.DataComponent.SetActiveCell` | src/data.rs:58-60 | Moves the state as `Screen.SetActiveCell`. |
| `Data.DataComponent.ActivateNextCell` | src/data.rs:63-71 | Moves the state as `Screen.ActivateNextCell`. |
| `Data.DataComponent.ActivatePrevCell` | src/data.rs:74-80 | Moves the state as `Screen.ActivatePrevCell`. |
| `Data.DataComponent.ActivateNextLine` | src/data.rs:83-92 | Moves the state as `Screen.ActivateNextLine`. |
| `Data.DataComponent.ActivatePrevLine` | src/data.rs:95-102 | Moves the state as `Screen.ActivatePrevLine`. |
| `Data.DataComponent.ActivateFirstCell` | src/data.rs:104-106 | Moves the state as `Screen.ActivateFirstCell`. |
| `Data.DataComponent.EraseInLine` | src/data.rs:108-126 | Moves the state as `Screen.EraseInLine`; mode "1" blanks the cells one at a time. |
| `Data.DataComponent.DeleteCharacter` | src/data.rs:128-136 | Moves the state as `Screen.DeleteCharacter`. |
| `Data.DataComponent.WriteText` | src/data.rs:192-208 | The segment loop moves the state as `Screen.WriteText`. |
| `Data.DataComponent.WriteNode` | src/data.rs:164-190 | Moves the state as `Screen.WriteNode`. |
| `Data.DataComponent.Render` | src/data.rs:139-162 | The nested row and cell loops compute `Screen.Render` of the current state. |
| `Data.WrittenSegmentsShow` | src/data.rs:199-207 | The cells from the old cursor to the new one show exactly the segments written. |
| `Data.WriteSegmentsSnoc` | src/data.rs:204-207 | One more turn of the segment loop is next-cell then overwrite. |
| `Translator.Drain` | src/translator.rs:18-24 | Nothing is lost or duplicated: the consumed texts in order, then the tail, give back the input. Each consumed text is non-empty and spells its well-formed node, and the tail is undecided. |
| `Translator.RetainedTailIsUndecided` | src/translator.rs:20-24 | The retained tail is nothing, a lone ESC, an unterminated control string, or an unfinished CSI. |
| `Translator.Translator.constructor` | src/translator.rs:11-15 | A new translator has an empty buffer. |
| `Translator.Translator.Write` | src/translator.rs:17-25 | The buffer becomes the undecided tail of old buffer + text. The grid receives every drained node, one `write_node` each, in input order. The loop ends because each turn consumes at least one character. |
| `Translator.DrainText` | src/translator.rs:17-25 | A non-empty run of non-control text is dispatched as one Text node, and nothing is retained. |
| `Translator.HelloWorldRun` | src/translator.rs:35-41 | With one segment per character, "hello world" on a fresh grid runs without panicking and leaves the cursor at (0, 10). |
| `Translator.HelloWorldCursor` | src/translator.rs:35-41 | A fresh component and translator fed "hello world" report the cursor at row 0, column 10. |
| `Translator.UnfinishedSequenceRetained` | src/translator.rs:17-25 | "ab" then ESC [ 3 dispatches Text("ab") and retains ESC [ 3. |
| `Translator.EmptyWrite` | src/translator.rs:17-25 | Writing nothing to an empty buffer dispatches nothing and keeps nothing. |

## Left out

- `src/child.rs` (pty spawning, async channels, cancellation), `src/main.rs` (the iced application, keyboard events, and its own copy of the translator loop in `add_text`) and `src/config.rs` (JSON configuration loading) are not part of this model. They are I/O, concurrency and UI glue.
- Grapheme segmentation is a parameter. Most properties that need it assume only that the segments are non-empty and concatenate to the input. `HelloWorldRun` and `HelloWorldCursor` also assume `seg("hello world") == Singletons("hello world")`: one segment per character. That is what grapheme segmentation (Unicode Standard Annex #29) gives for ASCII letters and the space.
- The `log` macros (`debug!`, `info!`, `error!`) are side effects only, and the model leaves them out: the branches that only log change nothing.
- The `Try`/`FromResidual` plumbing of `TryIntermediateResult` is a three-constructor datatype; each `?` is an explicit match.
- No UTF-8 decoding is modelled: `Translator::write` takes text that is already decoded.
- `usize` arithmetic is unbounded except in the parse of the DCH count. Overflow of the cursor's row or column would need more than 2^64 cells, and the model does not represent it. An overflowing `col + 1 + n` in the DCH splice is excluded by the same precondition as a splice past the end of the line.
- The translator test calls `render()` without the `max_lines` argument that `render` takes (translator.rs:39, data.rs:139). Only its cursor assertion is modelled (`HelloWorldCursor`). With the marker appended after the active cell, the rendered text would be "hello world\_".
- `main.rs` declares neither `data` nor `translator` as modules (main.rs:4-6). The model treats them as the modules they are meant to be.
- Data.Screen.Render: the contract states only that the result does not end in white space. Its faithful content is given by `DataComponent.Render`, whose loops are proved to compute it, and by the two findings below.
- Data.Screen.RenderIntended has no contract of its own. Its properties are the lemmas `RenderIntendedShowsCursor` and `RenderIntendedKeepsLines`.
- Splitting one input into several writes and still getting the same grid is not stated. Text split across writes becomes several Text nodes; the grid they produce is the same only through segmentation, which is a parameter here.

## Findings

| source | as written | input that shows it | evidently intended | confidence | as-written member | corrected member |
|---|---|---|---|---|---|---|
| src/data.rs:142-154 | The row index of the shown lines, which counts from the first shown line, is compared with the cursor's absolute row. | Lines "a" and "b" with the cursor on "b" and `max_lines` 1 render as "b", with no marker. | The cursor's row among the shown lines gets the marker, so the result is "b\_". | medium, not executed | `Data.RenderLosesCursor` | `Data.RenderIntendedShowsCursor` |
| src/data.rs:158 | `trim_end` is applied to the whole accumulated result, so a blank line's newline is trimmed with it. | Lines "a", one blank cell, "b", with the cursor on "a" and `max_lines` 3, render as "a\_\nb". | Each line is trimmed on its own, giving "a\_\n\nb". | medium, not executed | `Data.RenderDropsBlankLine` | `Data.RenderIntendedKeepsLines` |
