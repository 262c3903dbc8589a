# Code highlighting of the lecture slides, modelled in Dafny

The lecture deck highlights code blocks step by step. A `<code>` block carries a
`data-code-config` attribute such as `N:1,2|3,5-10|6(5-10)`:

- an optional line-number prefix before `:` (`N` for "from 0", a number for an
  offset, anything else to hide the gutter);
- then frames separated by `|`, each a `,`-list of sections: a line `s`, a line
  range `s-e`, or a column interval of one line `s(f)` / `s(f-t)`.

The highlight plugin turns such a block into one block per frame: the first frame
stays on the original block, every further frame gets a clone made a fragment, and
a fragment-index handler numbers the clones. Before highlighting, a block's HTML may
be trimmed (blank lines off both ends, common indentation off every line) and
escaped (`<` and `>` as entities).

The highlight editor builds such strings from selections made in a code editor. The
list of selections is split into frames at separators, and every frame is merged
into a canonical form: full lines as maximal line ranges, partial-line selections as
maximal column intervals per line, and full lines winning over columns. The earlier
list editor kept a plain list without separators and rendered columns as `s:f-t`.

The model, one file per part:

| file | module | models |
|---|---|---|
| `wrappers.dfy` | `Wrappers` | `Option` and `Result` |
| `text.dfy` | `Text` | JavaScript `split`/`join` on one character, decimal digits and rendering of numbers, white space as `\s` and `trim` see it |
| `serialize.dfy` | `Serialize` | the `data-code-config` codec: prefix, frames, the section regular expression as a scanner, serialisation |
| `selection.dfy` | `Selection` | one selection (`Selection`) and the list of them (`Selections`) |
| `merge.dfy` | `Merge` | grouping into frames, decomposition into lines and cells, reconstruction of ranges and column intervals, the merged rendering |
| `manager.dfy` | `SelectionManager` | the earlier list editor's list logic and its `s:f-t` text |
| `code_editing.dfy` | `CodeEditing` | `prepareCodeBlock`, `betterTrim` |
| `plugin.dfy` | `Plugin` | `getConfig`, `parseInt`, `FragmentIndexHandler`, and the frame-to-block mapping and early exits of `createFragmentCodeBlocks` |

The DOM is replaced by values:

- a block is its HTML string plus the attributes that are read;
- the clones are a sequence of `Block` values, one per frame;
- `onChange` notifications are a counter in the `Selections` value.

## Model

| member | source | states |
|---|---|---|
| Serialize.MatchSection | src/plugins/highlight/serialize.ts:76-79 | a match yields well-formed digit captures that spell out exactly the piece |
| Serialize.MatchAssembled | src/plugins/highlight/serialize.ts:76-79 | the scanner finds every well-formed set of captures again in the text they spell out, so it misses no match of the pattern |
| Serialize.ParseSection | src/plugins/highlight/serialize.ts:76-93 | a piece is dropped exactly when the pattern does not match it |
| Serialize.ParseAssembled | src/plugins/highlight/serialize.ts:81-93 | a matching piece with a column group is a column section, with `to` equal to `from` when there is no dash; otherwise a range group gives a range, and a bare line a single line; every number is its digit group's decimal value |
| Serialize.ColumnWinsOverRange | src/plugins/highlight/serialize.ts:81-93 | `s-e(f)` and `s-e(f-t)` give a column section, the same one as without `-e`: the range end is ignored |
| Serialize.UnbalancedPieceDropped | src/plugins/highlight/serialize.ts:76-79 | a piece with a `(` that does not end in `)`, or with a `)` and no `(`, is dropped rather than reported as an error |
| Serialize.ColumnListDropped | src/plugins/highlight/serialize.ts:72-79 | a frame holding two column intervals in one pair of parentheses, `6(1-3,5-7)`, is cut at the comma first, and both halves are dropped, so the frame is empty |
| Serialize.SectionRoundTrip | src/plugins/highlight/serialize.ts:76-93 | parsing the serialisation of any section (line, range, column with equal or different ends) gives that section back |
| Serialize.ParseSectionsOf | src/plugins/highlight/serialize.ts:72-95 | pieces that all parse give exactly their sections, in order |
| Serialize.FrameRoundTrip | src/plugins/highlight/serialize.ts:102-122 | splitting a serialised frame on `,` and parsing every piece gives the frame back, including the empty frame |
| Serialize.SerializedFrameCharacters | src/plugins/highlight/serialize.ts:102-122 | a serialised frame holds neither a bar nor a colon, so frames can be joined and prefixed safely |
| Serialize.ParseHighlightDefinition | src/plugins/highlight/serialize.ts:135-145 | more than one colon is an error; no colon hides line numbers and keeps the whole input; otherwise the highlight part is what follows the colon |
| Serialize.PrefixRules | src/plugins/highlight/serialize.ts:147-172 | the prefix `N` shows line numbers from 0; a number, bare or after `+`, shows them from that offset; a negative number is an error; any other non-number hides them |
| Serialize.PlusPrefixExample | src/plugins/highlight/serialize.ts:147-172 | `+5:1` shows line numbers from 5 with highlight part `1`, since `Number("+5")` is 5 |
| Serialize.DeserializeErrorIff | src/plugins/highlight/serialize.ts:135-172 | the definition is an error exactly when there are two or more colons, or one colon after a negative number |
| Serialize.DeserializeHighlightDefinitions | src/plugins/highlight/serialize.ts:56-101 | an absent or empty attribute has no frames and hides line numbers; otherwise there is one frame per bar-separated piece of the highlight part, each parsed on its own; two colons are an error |
| Serialize.FramesTextRoundTrip | src/plugins/highlight/serialize.ts:72-96 | one or more frames, rendered and joined by bars, split and parse back into the same frames |
| Serialize.DefinitionRoundTrip | src/plugins/highlight/serialize.ts:56-101 | deserialising the attribute text of any definition with at least one frame, other than a hidden one whose only frame is empty, gives that definition back |
| Serialize.DocumentedExample | src/plugins/highlight/serialize.ts:22-31 | the documented input gives the documented four frames, with line numbers hidden because there is no prefix |
| Serialize.XPrefixedExample | src/plugins/highlight/serialize.ts:32-41 | the second documented input hides line numbers as documented, but its first frame keeps only line 2, since the piece `X1` matches no section |
| Serialize.OffsetOnly | src/plugins/highlight/serialize.ts:48-54 | `25:` shows line numbers from 25 and has one empty frame |
| Serialize.TwoColonsExample | src/plugins/highlight/serialize.ts:135-138 | `1:2:3` is an error |
| Selection.Span | src/features/highlight-editor/selection.ts:109-113 | the numbers added are exactly those from `from` to `to` inclusive |
| Selection.AllCells | src/features/highlight-editor/selection.ts:88-91 | a cell is covered exactly when some interval of the entry covers it |
| Selection.Decompose | src/features/highlight-editor/selection.ts:73-100 | an entry adds its full lines to the line set; a partial column entry adds its line as a key and its cells to that line's set; nothing else changes |
| Selection.ParseSelectionCovers | src/features/highlight-editor/selection.ts:115-131 | a one-row text selection covers exactly the cells from its start up to its end, exclusive; a multi-row one covers exactly the rows from start to end |
| Selection.NewSelection | src/features/highlight-editor/selection.ts:35-45 | no argument, or a separator entry, gives a separator; a text selection gives a range or a one-interval partial column entry |
| Selection.ChangeFullLine | src/features/highlight-editor/selection.ts:47-51 | a column entry gets the given flag and keeps its line and intervals; other entries are unchanged |
| Selection.ChangeFullLineCoverage | src/features/highlight-editor/selection.ts:82-93 | a full-line column entry covers its line and no cells; a partial one covers no line but its cells |
| Selection.ToStringStartsWithLine | src/features/highlight-editor/selection.ts:53-71 | only separators render empty; every other rendering starts with the line number as its whole leading digit run, then nothing, `-` or `(...)` |
| Selection.ToStringHasNoBar | src/features/highlight-editor/selection.ts:53-71 | no rendering contains a bar |
| Selection.Compare | src/features/highlight-editor/selection.ts:102-107 | separators compare equal to everything; otherwise the sign of the result orders by start line |
| Selection.CompareAntisymmetric | src/features/highlight-editor/selection.ts:102-107 | swapping the operands negates the comparison |
| Selection.AddSelection | src/features/highlight-editor/selection.ts:139-142 | the entry is appended, the rest kept, and one change notified |
| Selection.AddSeparator | src/features/highlight-editor/selection.ts:144-147 | a separator is appended, the rest kept, and one change notified |
| Selection.DeleteSelection | src/features/highlight-editor/selection.ts:149-155 | the entry at the index is removed, the others keep their order, and the multiset loses exactly that entry; an index past the end removes nothing |
| Selection.DeleteAfterAdd | src/features/highlight-editor/selection.ts:139-155 | deleting the entry just added restores the list |
| Selection.MoveSelection | src/features/highlight-editor/selection.ts:157-171 | with a neighbour in the direction, the two entries swap and the others stay put; at the boundary nothing moves; one change is notified either way |
| Selection.MoveUpThenDown | src/features/highlight-editor/selection.ts:157-171 | moving an entry up and then down again restores the list |
| Selection.ChangeFullLineAt | src/features/highlight-editor/selection.ts:173-176 | only the entry at the index changes, as ChangeFullLine says |
| Selection.ChangeFullLineTwice | src/features/highlight-editor/selection.ts:47-51 | setting the flag twice equals setting it once to the second value |
| Merge.Segments | src/features/highlight-editor/selection.ts:193-211 | the runs between separators: one more than there are separators, none holding a separator |
| Merge.SegmentsFlatten | src/features/highlight-editor/selection.ts:193-211 | the runs concatenate to the non-separator entries in order |
| Merge.GroupSelectionsSpec | src/features/highlight-editor/selection.ts:193-211 | the frames are the runs between separators, empty ones included, without a trailing empty run; they hold no separator, concatenate to the non-separator entries, and number one per separator plus one for a non-empty tail |
| Merge.Min | src/features/highlight-editor/selection.ts:269-270 | the least element of a non-empty set |
| Merge.SortAsc | src/features/highlight-editor/selection.ts:269-270 | the elements of the set, strictly ascending |
| Merge.Coalesce | src/features/highlight-editor/selection.ts:269-283 | the runs are non-empty, ordered, neither overlapping nor touching, and cover exactly the sorted numbers |
| Merge.DecomposeAllMeaning | src/features/highlight-editor/selection.ts:236-238 | after the loop a line is full exactly when some entry covers it in full, a line has cells exactly when some partial entry is on it, and a cell is covered exactly when some partial entry of its line covers it |
| Merge.DecomposeGroup | src/features/highlight-editor/selection.ts:232-246 | as DecomposeAllMeaning, except that lines covered in full have no cell set |
| Merge.SameMembersSameCoverage | src/features/highlight-editor/selection.ts:232-246 | two frames with the same members decompose alike, whatever the order and repetition |
| Merge.SortByStart | src/features/highlight-editor/selection.ts:229 | the sort returns a permutation ordered by start line |
| Merge.SortByStartStrict | src/features/highlight-editor/selection.ts:229 | entries with pairwise different starts come out strictly ordered |
| Merge.ReconstructRanges | src/features/highlight-editor/selection.ts:248-285 | single lines and proper ranges, in order and apart, covering exactly the line set |
| Merge.HalfOpenFacts | src/features/highlight-editor/selection.ts:308-312 | turning runs of cells back into half-open intervals keeps them canonical and covering the same cells |
| Merge.ReconstructColumns | src/features/highlight-editor/selection.ts:287-313 | non-empty half-open intervals, in order, neither overlapping nor touching, covering exactly the cell set |
| Merge.ColumnEntries | src/features/highlight-editor/selection.ts:217-227 | one partial column entry per line of the cell map, in ascending line order, each with canonical intervals covering that line's cells |
| Merge.MergeGroupCanonical | src/features/highlight-editor/selection.ts:213-230 | the merged frame is canonical: proper entries strictly ordered by start, canonical intervals, line entries apart, no column entry on a full line |
| Merge.MergeGroupCoverage | src/features/highlight-editor/selection.ts:213-230 | merging never changes which lines and which cells per line a frame highlights |
| Merge.ZeroWidthColumn | src/features/highlight-editor/selection.ts:213-230 | a caret inside a line with no character selected merges into a column entry of that line with no intervals, and the frame renders as the line number followed by `()` |
| Merge.EmptyColumnCanonical | src/features/highlight-editor/selection.ts:213-230 | the only canonical frame that marks one line for columns and covers no line and no cell is that line's column entry with no intervals |
| Merge.MergeGroupIdempotent | src/features/highlight-editor/selection.ts:213-230 | merging a merged frame changes nothing |
| Merge.MergeGroupIgnoresOrder | src/features/highlight-editor/selection.ts:213-230 | frames with the same members merge to the same result |
| Merge.SelectionsTextFrames | src/features/highlight-editor/selection.ts:182-190 | when the list has frames, its text splits on bars back into one merged text per frame; a list with no frame renders as the empty text |
| Merge.FrameTextIgnoresOrder | src/features/highlight-editor/selection.ts:184-188 | a frame renders the same whatever the order and repetition of its entries |
| SelectionManager.ParseSelection | src/features/highlight-editor/code-selection-manager.ts:128-142 | a one-row selection is a partial column entry with one interval; otherwise a range from the start row to the end row |
| SelectionManager.ParseSelectionAgrees | src/features/highlight-editor/code-selection-manager.ts:128-142 | both editors read a text selection into the same entry |
| SelectionManager.HandleCodeSelection | src/features/highlight-editor/code-selection-manager.ts:42-45 | the latest selection is replaced and the list is untouched |
| SelectionManager.AddSelectionToList | src/features/highlight-editor/code-selection-manager.ts:47-51 | without a latest selection nothing changes; otherwise it is appended and cleared |
| SelectionManager.AddAfterSelecting | src/features/highlight-editor/code-selection-manager.ts:42-51 | a selection just made ends up at the end of the list once added |
| SelectionManager.AddTwice | src/features/highlight-editor/code-selection-manager.ts:47-51 | adding twice in a row adds once |
| SelectionManager.DeleteSelection | src/features/highlight-editor/code-selection-manager.ts:53-58 | the entry at the index is removed and the others keep their order; an index past the end removes nothing |
| SelectionManager.DeleteAfterAdd | src/features/highlight-editor/code-selection-manager.ts:47-58 | deleting the entry just added restores the list |
| SelectionManager.MoveSelection | src/features/highlight-editor/code-selection-manager.ts:60-73 | with a neighbour, the two entries swap and the rest stay put; at a boundary nothing changes; the multiset is kept |
| SelectionManager.MoveDownThenUp | src/features/highlight-editor/code-selection-manager.ts:60-73 | moving down and then up restores the state |
| SelectionManager.ToggleFullLine | src/features/highlight-editor/code-selection-manager.ts:119-125 | a column entry at the index has its flag flipped and nothing else changes; an index with no column entry leaves everything as it is |
| SelectionManager.ToggleTwice | src/features/highlight-editor/code-selection-manager.ts:119-125 | toggling twice restores the state |
| SelectionManager.TextColon | src/features/highlight-editor/code-selection-manager.ts:144-159 | the text holds a colon exactly for partial column entries, right after the line number, which reads back as the entry's line |
| SelectionManager.TextOfLines | src/features/highlight-editor/code-selection-manager.ts:147-158 | a line or full-line entry is its line number; a range splits on `-` into its two ends |
| SelectionManager.TextVersusToString | src/features/highlight-editor/code-selection-manager.ts:144-159 | the text equals the later editor's rendering except for partial columns, written `s:...` instead of `s(...)` |
| CodeEditing.ReplaceAll | src/plugins/highlight/code-editing.ts:12-14 | a global replace by text without the character leaves no occurrence of it |
| CodeEditing.EscapeEach | src/plugins/highlight/code-editing.ts:12-14 | per-character escaping leaves no `<` or `>` and adds three characters per bracket |
| CodeEditing.EscapeIsEscapeEach | src/plugins/highlight/code-editing.ts:12-14 | the two global replaces equal escaping character by character |
| CodeEditing.EscapeIdempotent | src/plugins/highlight/code-editing.ts:12-14 | escaped text has no brackets, and escaping it again changes nothing |
| CodeEditing.TrimBlankLinesSpec | src/plugins/highlight/code-editing.ts:22-31 | the kept lines are a contiguous stretch with blank lines around it, starting and ending with a non-blank line; nothing is kept exactly when every line is blank |
| CodeEditing.PadIsLeastIndent | src/plugins/highlight/code-editing.ts:36-41 | the reduce yields the least indentation of a non-blank line, and infinity exactly when every line is blank |
| CodeEditing.DedentSpec | src/plugins/highlight/code-editing.ts:36-43 | every non-blank line loses exactly the common indentation, which is white space; blank lines stay blank; some line then starts with a visible character |
| CodeEditing.BetterTrimLines | src/plugins/highlight/code-editing.ts:18-44 | the output has one line per line left after trimming blank lines at both ends, each dedented; text with no visible character becomes empty |
| CodeEditing.PrepareCodeBlock | src/plugins/highlight/code-editing.ts:11-15 | when escaping applies, the result holds no `<` or `>` |
| CodeEditing.PrepareCodeBlockSpec | src/plugins/highlight/code-editing.ts:1-16 | the block is the (trimmed when `data-trim` is set) HTML, escaped character by character unless escaping is off or `data-noescape` is set |
| Plugin.GetConfig | src/plugins/highlight/plugin.ts:72-83 | both options default to true; a boolean value set in the configuration wins |
| Plugin.ParseDigits | src/plugins/highlight/plugin.ts:215 | there is a number exactly when the text starts with a digit |
| Plugin.ParseIntOfNumber | src/plugins/highlight/plugin.ts:215 | white space, an optional minus and a decimal number followed by a non-digit parse to that number |
| Plugin.ParseIntNoDigits | src/plugins/highlight/plugin.ts:215-216 | text without digits is NaN |
| Plugin.NewFragmentIndex | src/plugins/highlight/plugin.ts:213-217 | the handler is active exactly when the attribute is present and parses, and then it starts at the parsed value |
| Plugin.ApplyFrameIndex | src/plugins/highlight/plugin.ts:219-223 | an active handler writes its value and counts up by one; an inactive one writes nothing and keeps its state |
| Plugin.ApplyRepeatedlyWrites | src/plugins/highlight/plugin.ts:219-223 | the k-th call of an active handler writes the start value plus k - 1; an inactive handler never writes |
| Plugin.CreateFragmentBlocks | src/plugins/highlight/plugin.ts:165-186 | one block per frame; the first is the original block, not a fragment and without an index; every further one is a fragment numbered consecutively from the handler's start, or unnumbered when the handler is inactive; every block's line numbers parse back to its frame |
| Plugin.GutterOf | src/plugins/highlight/plugin.ts:141-149 | shown line numbers set the gutter, and a start line is written only for a non-zero offset, as its decimal text |
| Plugin.CreateFragmentCodeBlocks | src/plugins/highlight/plugin.ts:124-163 | a blank block is left alone; a configuration error is logged with its message and nothing else happens; a definition without frames stops after the gutter; otherwise there is one block per frame, each carrying its frame |
| Plugin.NoFramesWithoutConfig | src/plugins/highlight/plugin.ts:130-163 | an absent or empty configuration has no frames, and any other valid one has at least one |

## Left out

- `ScrollHandler` and `waitForTableInElement` (plugin.ts): animation frames, scrolling and DOM polling have no pure content.
- `highlightLines` (highlight.ts) and the `hljs` calls: the highlighting library is foreign code.
- The DOM itself: cloning, `appendChild`, class lists, event listeners, and the `focusout` re-highlighting. This includes the browser's re-serialisation of `innerHTML` between writing the trimmed text and reading it back for escaping (code-editing.ts:7, 12): `CodeEditing.PrepareCodeBlock` escapes the trimmed text exactly as written.
- The `beforeHighlight` callback, `getCodeBlocks` and the `code-wrapper` class of `prepareCodeBlocks`: DOM glue.
- The slide's `data-fragment` attribute and its `visible` listener (plugin.ts:196-207): DOM and scrolling only.
- The init loop gated by `highlightOnLoad` (plugin.ts:51-55): `GetConfig` models the option, but the loop only awaits DOM work.
- The `typeof innerHTML.trim === 'function'` test in `prepareCodeBlock`: it always holds for strings, so `data-trim` alone decides.
- `Plugin.ParseInt`: models decimal `parseInt` only. Numbers too large for a double, and the conversion of the index back with `String()`, are left out because the model uses unbounded integers.
- `Serialize.NumberValue`: `Number()` of the prefix is modelled for decimal digits with an optional `-` or `+`. Hexadecimal `0x`, binary `0b`, octal `0o`, exponent, decimal-point, `Infinity` and white-space forms are read as "not a number", because they are JavaScript number-syntax corner cases.
- The `isNaN(start)` test (serialize.ts:86): the line group is a digit run, so it never fires.
- Negative indices into the list operations: `Selection.DeleteSelection`, `Selection.MoveSelection`, `Selection.ChangeFullLineAt`, `SelectionManager.DeleteSelection` and `SelectionManager.MoveSelection` take natural numbers. The editors only pass indices of rendered list items.
- `Selection.ChangeFullLineAt` requires an index inside the list. The source would throw on `this.selections[index]`.
- `Selection.MoveSelection` requires an index inside the list only when moving up. Moving up from past the end would swap an `undefined` into the list (selection.ts:158-166). Moving down from past the end fails the guard and is a no-op, which the model keeps.
- `SelectionManager.MoveSelection` has the same requirement for the same reason (code-selection-manager.ts:61-70).
- `Serialize.FrameRoundTrip`, `Serialize.SectionRoundTrip`, `Serialize.DefinitionRoundTrip`, `Serialize.SectionOf` and `Serialize.SerializeSection` treat line and column numbers as unbounded naturals. The source reads them into doubles with `parseInt` (serialize.ts:81-84) and writes them back with template strings (serialize.ts:102-121). Its round trip therefore holds only below 2^53: above that the digits round, and from 10^21 on `${n}` writes exponent notation, which the section pattern rejects.
- Aliasing of the mutable `Selection` objects shared between lists: entries are values here.
- The iteration order of the column `Map` in `mergeGroup`: columns are taken in ascending line order. The result is sorted by start anyway, and the starts are distinct.
- Compatibility between the editor's output and the deserialiser: the editor writes column lists as `s(f-t,f-t)`, a form the section pattern does not read. Only each side is modelled.
- The Lit rendering of both editors (`render`, `requestUpdate`) and the other editor components: UI only.

## Notes on the code

The model follows the code. Where the doc comment of `deserializeHighlightDefinitions` in serialize.ts disagrees with the code, this is said below.

- A column without a dash, `6(1)`, is the column from 1 to 1: `to` defaults to `from` (serialize.ts:84). `Serialize.SectionOf` and `Serialize.DocumentedExample` state it.
- A frame is split on every comma before any piece is matched, and the section pattern reads one column interval (serialize.ts:72-79). Several intervals in one pair of parentheses, `6(1-3,5-7)`, fall apart into pieces that are dropped; `Serialize.ColumnListDropped` states it.
- A piece with unmatched parentheses is dropped silently (serialize.ts:79). The only errors are two colons and a negative offset (serialize.ts:135-172). `Serialize.UnbalancedPieceDropped` and `Serialize.DeserializeErrorIff` state it.
- A prefix `+5` is a number to `Number()`, so `+5:1` shows line numbers from 5 (serialize.ts:156-172); `Serialize.PlusPrefixExample` states it.
- `25:` gives one empty frame, not none as the doc comment says (serialize.ts:48-54); `Serialize.OffsetOnly` states it.
- The first documented example has no prefix, so the code hides line numbers, although the comment says they are shown (serialize.ts:22-31); `Serialize.DocumentedExample` states it.
- In the second documented example, `X1,2|...`, the piece `X1` is dropped, so the first frame holds only line 2, not lines 1 and 2 as the comment says (serialize.ts:32-41); `Serialize.XPrefixedExample` states it.
- In the editor, a caret with no character selected covers no cell, but its line still gets a cell set (selection.ts:86-92), so the merged frame renders `s()`. `Merge.ZeroWidthColumn` states it, and `Selection.Decompose` states the cell set.
