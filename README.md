# Window markup parser, modelled in Dafny

This project models the markup parser that turns a Markdown-like window
description into a `WindowStructure` (a window title, global buttons, a tree of
tabs with grid content, and design notes). The parser is `parseWindowMarkup` in
`lib/markup-parser.ts`, together with its helpers `extractTitleAndButtons` and
`processTabForGridDisplay`. The data types come from `lib/types.ts`.

The parser works in the following steps, and the model follows them step by step:

1. It splits the markup on `"\n"` and drops blank lines. An empty result is an
   error. So is a first line that does not start with `"# "`.
2. The first line gives the window title and the global buttons. The parser
   deletes every `[label]` segment from the line, and each segment becomes one
   button.
3. It scans the remaining lines one at a time. The scan keeps:
   - the tabs made so far;
   - the tabs of each level, in order;
   - the current tab;
   - the name of the last field;
   - the last row index, counted over the whole markup;
   - a pending annotation;
   - one record table per normalised tab title.

   Each line is one of these kinds:
   - an annotation (`> [!NOTE]`, `> [!TIP]` or `> [!WARNING]`);
   - a heading (`#`…). A heading makes a tab. The tab is linked under the most
     recent tab one level up, or added to `structure.tabs` when it is at level 1;
   - a bare `[button]` line;
   - a `- name: value` field line;
   - anything else, which is ignored.
4. A grid pass turns the record table into header and row form. It runs on
   every level-1 tab and on each one's direct children.

The modules, in dependency order:

| file | module | content |
|---|---|---|
| `Wrappers.dfy` | `Wrappers` | `Option`, `Result` |
| `Text.dfy` | `JsText` | `trim`, `startsWith`, `includes`, `indexOf`, `split`/`join`, `replace(/\s+/g, "_")` and `toLowerCase`, written out over characters, with their laws |
| `WindowTypes.dfy` | `WindowTypes` | the result types of `lib/types.ts` |
| `TitleButtons.dfy` | `TitleButtons` | `extractTitleAndButtons`: the `/\[([^\]]+)\]/g` scan, as a decomposition of the text into plain characters and bracketed labels |
| `MarkupScan.dfy` | `MarkupScan` | the scan state, the classification of lines, one step function per branch of the loop body, and the scan over a line sequence |
| `MarkupGrid.dfy` | `MarkupGrid` | `processTabForGridDisplay` as a function; the grid pass over the tab arena; conversion of the arena into the `TabItem` tree |
| `MarkupParser.dfy` | `MarkupParser` | the errors, the blank-line filter, and the imperative code: `ParseWindowMarkup` (the scan loop), `GridPass`, `ProcessTopTab` and `ProcessChildren` (the two nested grid loops), and `ProcessTabForGridDisplay` (the row and cell loops) |
| `LineProperties.dfy` | `LineProperties` | the error contract, the blank-line filter, and line classification |
| `ScanInvariant.dfy` | `ScanInvariant` | the invariant every scan step keeps |
| `StepProperties.dfy` | `StepProperties` | what each kind of line does to the state |
| `GridProperties.dfy` | `GridProperties` | which tabs get a grid, what a grid holds, where cell notes point, and how levels nest in the tree |

The source mutates shared `TabItem` objects. One tab is reachable at the same
time from `tabsByLevel`, from `structure.tabs` and from its parent's
`children`. The model keeps every tab once, in an arena (`seq<TabNode>`). Links
are indices into the arena. `BuildForest` turns the arena into the tree the
caller receives at the end. The scan loop, the two grid loops and the row and
cell loops of `processTabForGridDisplay` are methods with loop invariants. The
`#`-counting loop and the `exec` loop of `extractTitleAndButtons` only compute
a value, so they are the recursive functions `LeadingHashes` and `Tokenize`.
Each method is proved equal to a function:
- `ParseWindowMarkup` equals `ParseSpec`;
- `GridPass` equals `Materialise`;
- `ProcessTabForGridDisplay` equals `ProcessTab`.

The lemmas state what the source promises about those functions.

Some things the code does that a reader may not expect, each of which the
model reproduces:
- Every `[label]` segment of a heading becomes a button, wherever it stands in the heading, and is deleted from the title (`ExtractTitleAndButtonsSpec`).
- A repeated `ID` does not redirect later fields. They keep going to the last record created (`RepeatedIdDoesNotRedirect`).
- A note pending when an `ID` field arrives is dropped, because `ID` has no column (`FieldRule`).
- The grid pass reaches level-1 tabs and their direct children only (`GridTargetsSpec`, `UnprocessedTab`). Tabs of level 3 and deeper never get rows. Neither do level-2 tabs read before any level-1 tab: there is no tab for them to be linked under, so they are linked nowhere.
- Tabs whose titles normalise to the same id share one record table, and a later heading with that id empties it (`HeadingLinks`, `SharedRecordTable`).
- The row index counts `ID` fields over the whole markup. It is never reset per tab (`LastRowIndexCountsIds`).
- A note's column index counts headers without the `ID` column. In the final grid, the named header is one column further right (`NoteColumnInGrid`).
- Later `# x` lines create level-0 tabs that become current and are linked nowhere (`HeadingLinks`).
- The two errors carry two different messages (`MarkupParser.Message`).

## Model

| member | source | states |
|---|---|---|
| JsText.Trim | lib/markup-parser.ts:4 | the result neither starts nor ends with JavaScript whitespace |
| JsText.TrimInfix | lib/markup-parser.ts:4 | the trimmed text is an infix of the input with only whitespace on either side |
| JsText.TrimEmptyIffAllWhitespace | lib/markup-parser.ts:4 | `line.trim() === ""` exactly when every character is whitespace |
| JsText.IndexOf | lib/markup-parser.ts:198 | `-1` exactly when absent; otherwise a position holding the element with no earlier occurrence |
| JsText.Split | lib/markup-parser.ts:149 | at least one part, and no part contains the separator |
| JsText.JoinSplit | lib/markup-parser.ts:149-153 | joining the split parts with the separator gives back the text |
| JsText.SplitJoin | lib/markup-parser.ts:149-153 | splitting the join of separator-free parts gives back the parts |
| JsText.SplitCount | lib/markup-parser.ts:149-151 | there are at least two parts exactly when the separator occurs |
| JsText.SplitFirstPart | lib/markup-parser.ts:152 | the first part is the text before the first separator, or the whole text |
| JsText.SplitRest | lib/markup-parser.ts:153 | the later parts rejoined are the text after the first separator |
| JsText.CollapseWhitespace | lib/markup-parser.ts:130 | the result holds no whitespace; `CollapseRun`, `CollapseConcat` and `CollapseWithoutWhitespace` state the replacement itself |
| JsText.CollapseRun | lib/markup-parser.ts:130 | a non-empty run of whitespace alone becomes exactly one `_` |
| JsText.CollapseConcat | lib/markup-parser.ts:130 | the replacement works piece by piece: on a concatenation whose junction does not fall inside a whitespace run, the result is the concatenation of the pieces' results |
| JsText.CollapseWithoutWhitespace | lib/markup-parser.ts:130 | text without whitespace is left as it is |
| JsText.LowerChar | lib/markup-parser.ts:130 | lower-casing keeps whitespace status, leaves no ASCII capital, turns each ASCII capital into its small letter, and either leaves a character alone or moves it 32 code points on |
| JsText.LowerCharPairs | lib/markup-parser.ts:130 | an ASCII capital and its small letter lower-case to the same character |
| JsText.ToLower | lib/markup-parser.ts:130 | same length, lower-cased character by character |
| JsText.NormalizeTabId | lib/markup-parser.ts:130 | computes the tab id; what it means is stated by `NormalizeTabIdNoWhitespace`, `NormalizeTabIdRuns` and `NormalizeTabIdCase` |
| JsText.NormalizeTabIdNoWhitespace | lib/markup-parser.ts:130 | a tab id holds no whitespace |
| JsText.NormalizeTabIdRuns | lib/markup-parser.ts:130 | titles that differ only in the length of one whitespace run get the same id, in which that run is one `_` |
| JsText.NormalizeTabIdCase | lib/markup-parser.ts:130 | titles that agree character by character once lower-cased, such as `Tab A` and `tab a`, get the same id |
| TitleButtons.ButtonAtFirstClose | lib/markup-parser.ts:243 | the regex matches at a position exactly when `[` is followed by one or more non-`]` characters and then the first `]` |
| TitleButtons.Tokenize | lib/markup-parser.ts:243-255 | computes the regex scan; `TokenizeFlatten`, `TokenizeLeftmost` and `TokenizeUnique` state that it is the one leftmost decomposition of the text |
| TitleButtons.TokenizeFlatten | lib/markup-parser.ts:248-255 | the regex scan loses no text: its pieces spell the input |
| TitleButtons.TokenizeLeftmost | lib/markup-parser.ts:248-252 | every bracket piece is a regex match, and no plain character starts one |
| TitleButtons.TokenizeUnique | lib/markup-parser.ts:248-252 | a decomposition with that property is the one the scan produces |
| TitleButtons.LabelsEmptyIffAllPlain | lib/markup-parser.ts:259 | there are no labels exactly when no piece is a bracket |
| TitleButtons.ToButtons | lib/markup-parser.ts:249-251 | one contextless button per label, in order |
| TitleButtons.ExtractTitleAndButtons | lib/markup-parser.ts:242-261 | the title is trimmed; `buttons` is undefined rather than empty |
| TitleButtons.ExtractTitleAndButtonsSpec | lib/markup-parser.ts:242-261 | against any leftmost decomposition: the title is the plain text trimmed; the buttons are the labels in order, and undefined exactly when there are none; every label is nonempty and free of `]` |
| TitleButtons.LabelsValid | lib/markup-parser.ts:243 | every label of a leftmost decomposition is one or more non-`]` characters |
| MarkupScan.LeadingHashes | lib/markup-parser.ts:80-83 | the count of leading `#` characters |
| MarkupScan.Classify | lib/markup-parser.ts:134-147 | button and field lines are recognised only while a tab is open |
| MarkupScan.AnnotationText | lib/markup-parser.ts:43 | computes a note's text; `LineProperties.AnnotationTextSpec` states that it is the text after the marker, trimmed |
| MarkupScan.IsBareButton | lib/markup-parser.ts:134 | the `/^\[.+\]$/` test; `LineProperties.ButtonLineLabel` states what a line that passes it yields |
| MarkupScan.FieldParts | lib/markup-parser.ts:148-153 | computes a field's name and value; `LineProperties.FieldPartsSpec` states them in terms of the first `:` |
| MarkupScan.RecordKey | lib/markup-parser.ts:169-188 | computes the record a field writes into; `StepProperties.RecordAddressing` states the rule |
| MarkupScan.StoreField | lib/markup-parser.ts:175-191 | computes the record table after a field; `ScanInvariant.StoreFieldWf` and `StepProperties.RecordAddressing` state what changes |
| MarkupScan.CellNote | lib/markup-parser.ts:193-215 | computes the cell note a pending annotation becomes; `StepProperties.FieldRule` states when there is one and where it points |
| MarkupScan.AnnotationStep | lib/markup-parser.ts:41-71 | the annotation branch; `StepProperties.AnnotationRule` states its effect and its frame, and `ScanInvariant.AnnotationStepInv` the invariant it keeps |
| MarkupScan.HeadingStep | lib/markup-parser.ts:74-132 | the heading branch; `StepProperties.HeadingLinks` states its effect and `ScanInvariant.HeadingStepInv` the invariant it keeps |
| MarkupScan.ButtonStep | lib/markup-parser.ts:134-145 | the button branch; `StepProperties.ButtonAppends` states its effect and `ScanInvariant.ButtonStepInv` the invariant it keeps |
| MarkupScan.FieldStep | lib/markup-parser.ts:147-222 | the field branch; `StepProperties.FieldRule`, `StepProperties.FieldStepFrame` and `StepProperties.RecordAddressing` state its effect and `ScanInvariant.FieldStepInv` the invariant it keeps |
| MarkupScan.Step | lib/markup-parser.ts:37-224 | one pass of the loop body; `ScanInvariant.StepInv`, `StepProperties.StepRowIndex` and `LineProperties.BulletWithoutColonIgnored` state what it keeps and changes |
| MarkupScan.StepWf | lib/markup-parser.ts:37-224 | every step keeps the arena's links, lists and current tab in range |
| MarkupScan.ScanLines | lib/markup-parser.ts:37-224 | the state after a prefix of the lines is well formed |
| MarkupGrid.GridHeaders | lib/markup-parser.ts:276-279 | the headers always include `ID` afterwards |
| MarkupGrid.GridRows | lib/markup-parser.ts:282-294 | one row per record, one cell per header |
| MarkupGrid.ProcessTab | lib/markup-parser.ts:263-298 | only headers and rows change |
| MarkupGrid.TargetsOfSnoc | lib/markup-parser.ts:227-235 | one more level-1 tab adds itself and its children to the visited set |
| MarkupGrid.Materialise | lib/markup-parser.ts:226-236 | the arena after the grid pass keeps its size and links; `GridProperties.UnprocessedTab` and `GridProperties.ProcessedTab` state what each tab becomes |
| MarkupGrid.BuildTab | lib/markup-parser.ts:92-102 | the tree node keeps the tab's title and level and has one child per link |
| MarkupGrid.BuildForest | lib/markup-parser.ts:113 | one tree node per index, in order |
| MarkupParser.NonBlank | lib/markup-parser.ts:4 | the filter keeps at most as many lines as it is given; `LineProperties.NonBlankSingleton` and `LineProperties.NonBlankConcat` pin it down line by line |
| MarkupParser.ParseSpec | lib/markup-parser.ts:3-239 | the parse as a function; `LineProperties.ParseOutcome` states its errors, `GridProperties.ParsedTreeLevels` and `GridProperties.ParsedTreeShapes` the shape of its result |
| MarkupParser.ProcessTabForGridDisplay | lib/markup-parser.ts:263-298 | the row and cell loops compute `ProcessTab` |
| MarkupParser.ProcessChildren | lib/markup-parser.ts:231-235 | after the loop over a tab's children, exactly the previously processed tabs and those children are processed |
| MarkupParser.ProcessTopTab | lib/markup-parser.ts:227-235 | one pass of the outer loop processes that level-1 tab and its children |
| MarkupParser.GridPass | lib/markup-parser.ts:226-236 | the nested grid loops produce `Materialise` |
| MarkupParser.ParseWindowMarkup | lib/markup-parser.ts:3-239 | the parser's loop computes `ParseSpec` |
| LineProperties.NonBlankSplitEmpty | lib/markup-parser.ts:4-8 | no lines survive the filter exactly when the markup is all whitespace |
| LineProperties.NonBlankFirst | lib/markup-parser.ts:4-11 | the title line is the first non-blank line of the markup |
| LineProperties.NonBlankKeepsNonBlank | lib/markup-parser.ts:4 | every kept line is non-blank |
| LineProperties.NonBlankSingleton | lib/markup-parser.ts:4 | a single line is kept exactly when its trimmed text is not empty |
| LineProperties.NonBlankConcat | lib/markup-parser.ts:4 | the filter works line by line: on a concatenation it keeps the kept lines of each part, in order |
| LineProperties.ParseOutcome | lib/markup-parser.ts:3-14 | "Markup cannot be empty" exactly when the markup is all whitespace, the title error exactly when the first non-blank line lacks `"# "`, success otherwise |
| LineProperties.FieldPartsSpec | lib/markup-parser.ts:148-153 | there is a field exactly when the content has a `:`; then the name is the trimmed text before the first `:` and the value the trimmed rest |
| LineProperties.BulletWithoutColonIgnored | lib/markup-parser.ts:147-151 | a bullet line without `:` leaves the state unchanged |
| LineProperties.HeadingLevel | lib/markup-parser.ts:79-89 | the level is the leading `#` count minus one |
| LineProperties.ButtonLineLabel | lib/markup-parser.ts:134-135 | a button line only occurs with a tab open and is no annotation or heading; its trimmed text is `[label]` with a label of one or more characters, none of them a line terminator |
| LineProperties.ButtonLineClassified | lib/markup-parser.ts:134-135 | conversely, with a tab open, a line that is no annotation or heading and whose trimmed text is `[label]` (one or more characters, no line terminator) is the button line with that label |
| LineProperties.BulletClassified | lib/markup-parser.ts:147-151 | with a tab open, a `- ` line that is no annotation is neither a heading nor a button: only its trimmed content after the `- ` decides its kind |
| LineProperties.BulletKindSpec | lib/markup-parser.ts:148-153 | a bullet's content is a field line exactly when it has a `:`, with the trimmed text before the first `:` as name and the trimmed rest as value, and is ignored otherwise |
| LineProperties.FieldLineClassified | lib/markup-parser.ts:147-153 | with a tab open, a `- ` line that is no annotation and whose content has a `:` is the field line with the trimmed text before the first `:` as name and the trimmed rest as value |
| LineProperties.BulletWithoutColonClassified | lib/markup-parser.ts:147-151 | with a tab open, a `- ` line that is no annotation and whose content has no `:` is ignored |
| LineProperties.AnnotationTypeSpec | lib/markup-parser.ts:41-43 | an annotation line is classified as an annotation whatever else holds; any line containing `[!NOTE]` is a note; otherwise any line containing `[!TIP]` is a tip; a `> [!WARNING]` line containing neither is a warning, and every warning begins with `> [!WARNING]` |
| LineProperties.AnnotationTextSpec | lib/markup-parser.ts:41-43 | a note's text is what follows its marker, trimmed, for each of the three markers |
| ScanInvariant.InitialInv | lib/markup-parser.ts:19-35 | the initial state satisfies the scan invariant |
| ScanInvariant.FieldHeadersInv | lib/markup-parser.ts:160-163 | the headers stay duplicate-free and `ID`-free, keep their order, and contain a name exactly when it is not `ID` |
| ScanInvariant.StoreFieldWf | lib/markup-parser.ts:169-191 | storing a field keeps record keys unique and in creation order, adding the key only when it is new |
| ScanInvariant.AnnotationStepInv | lib/markup-parser.ts:41-70 | an annotation keeps the invariant |
| ScanInvariant.HeadingStepInv | lib/markup-parser.ts:73-132 | a heading keeps the invariant |
| ScanInvariant.ButtonStepInv | lib/markup-parser.ts:134-145 | a button line keeps the invariant |
| ScanInvariant.FieldStepInv | lib/markup-parser.ts:147-221 | a field line keeps the invariant |
| ScanInvariant.StepInv | lib/markup-parser.ts:37-224 | every line keeps the invariant |
| ScanInvariant.ScanLinesInv | lib/markup-parser.ts:37-224 | the scan invariant holds after any sequence of lines: headers duplicate-free and `ID`-free, cell notes pointing at their header, levels following heading depth, `structure.tabs` being exactly the level-1 tabs, children one level below their parent, note ids below the counter |
| StepProperties.ParentIsMostRecent | lib/markup-parser.ts:115-123 | the parent a heading looks up is the most recently created tab one level up; there is none exactly when no tab of that level exists |
| StepProperties.HeadingLinks | lib/markup-parser.ts:74-131 | a heading appends a fresh current tab, clears the pending note and last field name, resets its id's record table, joins `structure.tabs` exactly at level 1, becomes the last child of the most recent tab one level up, and changes no other tab |
| StepProperties.ButtonAppends | lib/markup-parser.ts:134-145 | exactly one button, with the current tab's title as context, is appended; nothing else changes |
| StepProperties.RecordAddressing | lib/markup-parser.ts:166-191 | `ID` addresses `record_<value>`, other fields the last record key or `record_default`; a record is created only when absent, and only it changes |
| StepProperties.RepeatedIdDoesNotRedirect | lib/markup-parser.ts:172-182 | after a repeated `ID`, later fields still go to the last record created |
| StepProperties.FieldRule | lib/markup-parser.ts:147-221 | header bookkeeping, row counting, and a pending note becoming a cell note exactly when the name is not `ID`, at the name's header position and the current row index |
| StepProperties.FieldStepFrame | lib/markup-parser.ts:160-221 | a field line writes into the record table of the current tab's id and leaves every other table alone; it changes only the current tab's headers and notes, no other tab, and no link, level list or global note |
| StepProperties.AnnotationRule | lib/markup-parser.ts:41-70 | an annotation becomes pending; outside a field context it is also attached to the current tab, or to the global notes before any tab, taking the next note id; no other tab, no other field of the current tab and no record table changes |
| StepProperties.EmptyFieldNameIsNoContext | lib/markup-parser.ts:52 | a field with an empty name leaves no field context (`!lastFieldName` is true for `""`) |
| StepProperties.NoteIdFresh | lib/markup-parser.ts:53 | a new note's id differs from every existing note's |
| StepProperties.StepRowIndex | lib/markup-parser.ts:172-178 | a line raises `lastRowIndex` by one exactly when it is an `ID` field line |
| StepProperties.LastRowIndexCountsIds | lib/markup-parser.ts:31 | `lastRowIndex` is the number of `ID` field lines seen, minus one |
| GridProperties.TopTabLevel | lib/markup-parser.ts:112-113 | a tab is in `structure.tabs` exactly when its level is 1 |
| GridProperties.GridTargetsSpec | lib/markup-parser.ts:227-236 | the grid pass visits exactly the level-1 tabs and the children of level-1 tabs, so only levels 1 and 2 |
| GridProperties.UnprocessedTab | lib/markup-parser.ts:263-269 | a tab that is not visited, or has no records, keeps no rows |
| GridProperties.ProcessedTab | lib/markup-parser.ts:271-297 | a visited tab with records gets headers `["ID", ...headers]` and one row per record in creation order, holding the `ID` cell and then each header's value or `""` |
| GridProperties.NoteColumnInGrid | lib/markup-parser.ts:198-209 | a cell note's header sits at `columnIndex + 1` in a gridded tab and at `columnIndex` otherwise |
| GridProperties.SharedRecordTable | lib/markup-parser.ts:264-294 | two visited tabs whose titles normalise to the same id are gridded from one record table: as many rows, with the same `ID` cells |
| GridProperties.BuildTabLevels | lib/markup-parser.ts:114-123 | every child in the built tree is one level below its parent |
| GridProperties.MaterialiseKeepsLevels | lib/markup-parser.ts:226-236 | the grid pass changes no level and no link |
| GridProperties.ParsedTreeLevels | lib/markup-parser.ts:104-124 | in a parsed window, every top-level tab has level 1 and every child is one level below its parent |
| GridProperties.MaterialiseShapes | lib/markup-parser.ts:226-236 | after the grid pass every tab has duplicate-free headers and rows exactly as wide as its headers |
| GridProperties.BuildTabShapes | lib/markup-parser.ts:92-124 | that shape holds at every depth of the built tree |
| GridProperties.ParsedTreeShapes | lib/markup-parser.ts:3-239 | in a parsed window every tab, at any depth, has duplicate-free headers and one cell per header in each row |

## Left out

- Note ids are `note-${Date.now()}-${random}` strings in the source. They are modelled as a counter, which makes them unique within one parse. The source's ids are only probably unique.
- `DesignNote.position` from `lib/types.ts` is never set by the parser and is not modelled.
- The local `currentLevel` is assigned and never read, so it is not modelled.
- Optional fields that the parser always fills are modelled as plain fields:
  - `content`, `children` and `designNotes` on tabs;
  - `globalDesignNotes` on the window.

  So the `x = x || []` guards are not modelled.
- The regular expressions are written out as character functions: `^\[.+\]$`, `\[([^\]]+)\]` and `\s+`. No regex engine is modelled.
- JavaScript strings are sequences of UTF-16 code units. The model's strings are sequences of Unicode scalar values. Every character the parser compares against or inserts (`#`, `[`, `]`, `:`, `-`, `>`, `_` and the whitespace characters) lies in the Basic Multilingual Plane, so the two agree on every text the model can represent. A lone surrogate cannot be represented in the model, so text holding one is not modelled.
- JsText.LowerChar: lower-cases only Basic Latin and Latin-1 capitals, and its contract pins down only the Basic Latin ones (a capital becomes the letter 32 places on). `toLowerCase` covers all of Unicode.
- Record tables are plain maps. Names inherited from `Object.prototype` are left out:
  - a field named `constructor` that is missing from a record gives a non-empty cell in the source;
  - a tab id `__proto__` replaces the prototype in the source.
- Record keys are kept in creation order. `Object.keys` and `for…in` give the same order, because a key `record_…` is never an array index.
- Aliasing of `TabItem` objects is modelled by the arena. The result tree is built from the arena after the grid pass, so the identity of the objects is not part of the model.
- Throwing `Error` is modelled as `Failure` with one of two error values. `MarkupParser.Message` gives each error's text.
- The React components and the server actions that call the parser are not part of this model.
