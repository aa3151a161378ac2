/** The line scan of `parseWindowMarkup` (lib/markup-parser.ts:26-224) as a
    state machine over values: the state holds exactly the mutable locals of the
    source's loop, with the tab objects kept in an arena (`tabs`) and referred to
    by index, so that a tab reached through `tabsByLevel`, `structure.tabs`, a
    parent's `children` and `currentTab` is one and the same entry. `Step` is the
    body of the loop for one line; `ScanLines` runs it over the lines after the
    title. */
module MarkupScan {
  import opened Wrappers
  import opened JsText
  import opened WindowTypes
  import opened TitleButtons

  /** The single pending-annotation slot. */
  datatype Pending = Pending(noteType: NoteType, text: string)

  /** A tab's record dictionary: record keys in insertion order (the order
      `Object.keys` and `for ... in` give for keys starting with `record_`), and
      each record's fields by name. */
  datatype RecordTable = RecordTable(keys: seq<string>, records: map<string, map<string, string>>)

  const EmptyTable := RecordTable([], map[])

  ghost predicate NoDup<T>(s: seq<T>) {
    forall i, j :: 0 <= i < j < |s| ==> s[i] != s[j]
  }

  ghost predicate TableWf(t: RecordTable) {
    NoDup(t.keys) && forall k :: k in t.keys <==> k in t.records
  }

  function Last<T>(s: seq<T>): T
    requires |s| > 0
  {
    s[|s| - 1]
  }

  /** A tab object of the source. `headers` and `rows` are its `content`. */
  datatype TabNode = TabNode(title: string, level: nat, children: seq<int>,
                             headers: seq<string>, rows: seq<seq<string>>,
                             buttons: Option<seq<Button>>, designNotes: seq<DesignNote>)

  datatype ScanState = ScanState(
    tabs: seq<TabNode>,                     // every tab created, in creation order
    topTabs: seq<int>,                      // structure.tabs
    tabsByLevel: map<nat, seq<int>>,        // tabsByLevel
    currentTab: Option<int>,                // currentTab
    lastFieldName: Option<string>,          // lastFieldName
    lastRowIndex: int,                      // lastRowIndex
    pendingNote: Option<Pending>,           // pendingNote
    recordsByTab: map<string, RecordTable>, // recordsByTab, keyed by normalised tab id
    globalDesignNotes: seq<DesignNote>,     // structure.globalDesignNotes
    noteCount: nat)                         // serial number of the next note

  const InitialState := ScanState([], [], map[], None, None, -1, None, map[], [], 0)

  /** Children are created after their parent and lie inside the arena. */
  ghost predicate ArenaWf(a: seq<TabNode>) {
    forall i, k :: 0 <= i < |a| && 0 <= k < |a[i].children| ==> i < a[i].children[k] < |a|
  }

  /** A new tab has no children yet. */
  lemma ArenaAppend(a: seq<TabNode>, node: TabNode)
    requires ArenaWf(a) && node.children == []
    ensures ArenaWf(a + [node])
  {
  }

  /** The last tab becomes a child of an earlier one. */
  lemma ArenaLink(a: seq<TabNode>, p: nat)
    requires ArenaWf(a) && p < |a| - 1
    ensures ArenaWf(a[p := a[p].(children := a[p].children + [|a| - 1])])
  {
    var b := a[p := a[p].(children := a[p].children + [|a| - 1])];
    forall i, k | 0 <= i < |b| && 0 <= k < |b[i].children| ensures i < b[i].children[k] < |b| {
      if i == p && k == |a[p].children| {
      } else {
        assert b[i].children[k] == a[i].children[k];
      }
    }
  }

  /** Replacing a tab by one with the same children. */
  lemma ArenaUpdate(a: seq<TabNode>, c: nat, node: TabNode)
    requires ArenaWf(a) && c < |a| && node.children == a[c].children
    ensures ArenaWf(a[c := node])
  {
    var b := a[c := node];
    forall i, k | 0 <= i < |b| && 0 <= k < |b[i].children| ensures i < b[i].children[k] < |b| {
      assert b[i].children == a[i].children;
    }
  }

  /** Indices stay inside the arena, children are created after their parent,
      and the current tab has a record table. */
  ghost predicate Wf(st: ScanState) {
    && ArenaWf(st.tabs)
    && (forall k :: 0 <= k < |st.topTabs| ==> 0 <= st.topTabs[k] < |st.tabs|)
    && (forall L, k :: L in st.tabsByLevel && 0 <= k < |st.tabsByLevel[L]| ==>
          0 <= st.tabsByLevel[L][k] < |st.tabs|)
    && (st.currentTab.Some? ==>
          0 <= st.currentTab.value < |st.tabs|
          && NormalizeTabId(st.tabs[st.currentTab.value].title) in st.recordsByTab)
  }

  // ---------------------------------------------------------------- lines

  const NoteMarker := "> [!NOTE]"
  const TipMarker := "> [!TIP]"
  const WarningMarker := "> [!WARNING]"

  datatype LineKind =
    | AnnotationLine(noteType: NoteType, text: string)
    | HeadingLine(level: nat, heading: TitleAndButtons)
    | ButtonLine(buttonLabel: string)
    | FieldLine(name: string, value: string)
    | OtherLine

  predicate IsAnnotation(line: string) {
    StartsWith(line, NoteMarker) || StartsWith(line, TipMarker) || StartsWith(line, WarningMarker)
  }

  /** The type is decided by `includes` over the whole line, in the order
      NOTE, TIP, WARNING. */
  function AnnotationType(line: string): NoteType {
    if Contains(line, "[!NOTE]") then Note
    else if Contains(line, "[!TIP]") then Tip
    else Warning
  }

  /** `line.substring(line.indexOf("]") + 1).trim()` */
  function AnnotationText(line: string): string {
    Trim(SubstringFrom(line, IndexOf(line, ']') + 1))
  }

  /** The number of `#` characters the line starts with. */
  function LeadingHashes(line: string): (n: nat)
    ensures n <= |line|
    ensures forall k :: 0 <= k < n ==> line[k] == '#'
    ensures n == |line| || line[n] != '#'
  {
    if line != [] && line[0] == '#' then 1 + LeadingHashes(line[1..]) else 0
  }

  /** `t.match(/^\[.+\]$/)`: brackets at both ends and at least one character
      other than a line terminator between them. */
  predicate IsBareButton(t: string) {
    && |t| >= 3 && t[0] == '[' && t[|t| - 1] == ']'
    && forall k :: 1 <= k < |t| - 1 ==> !IsLineTerminator(t[k])
  }

  /** `content.split(":")`; with at least two parts, the first part trimmed and
      the others rejoined with `:` and trimmed. */
  function FieldParts(content: string): Option<(string, string)> {
    var parts := Split(content, ':');
    if |parts| >= 2 then Some((Trim(parts[0]), Trim(Join(parts[1..], ':')))) else None
  }

  /** The branch of the loop body a line takes (lines 41, 74, 134, 147, 151). */
  function Classify(line: string, tabOpen: bool): (k: LineKind)
    ensures (k.ButtonLine? || k.FieldLine?) ==> tabOpen
  {
    if IsAnnotation(line) then AnnotationLine(AnnotationType(line), AnnotationText(line))
    else if StartsWith(line, "#") then
      var n := LeadingHashes(line);
      HeadingLine(n - 1, ExtractTitleAndButtons(Trim(SubstringFrom(line, n))))
    else if IsBareButton(Trim(line)) && tabOpen then
      var t := Trim(line);
      ButtonLine(t[1..|t| - 1])
    else if StartsWith(line, "- ") && tabOpen then BulletKind(Trim(SubstringFrom(line, 2)))
    else OtherLine
  }

  /** A bullet's content is a field when it splits at a `:` (line 151). */
  function BulletKind(content: string): LineKind {
    match FieldParts(content)
    case Some((name, value)) => FieldLine(name, value)
    case None => OtherLine
  }

  // ---------------------------------------------------------------- steps

  /** `lastFieldName` is truthy: set and not the empty string. */
  predicate InFieldContext(lastFieldName: Option<string>) {
    lastFieldName.Some? && lastFieldName.value != ""
  }

  /** Lines 41-70. */
  function AnnotationStep(st: ScanState, noteType: NoteType, text: string): (r: ScanState)
    requires Wf(st)
  {
    var note := DesignNote(st.noteCount, text, noteType, None);
    var st1 := st.(pendingNote := Some(Pending(noteType, text)));
    if InFieldContext(st.lastFieldName) then st1
    else if st.currentTab.Some? then
      var c := st.currentTab.value;
      st1.(tabs := st.tabs[c := st.tabs[c].(designNotes := st.tabs[c].designNotes + [note])],
           noteCount := st.noteCount + 1)
    else
      st1.(globalDesignNotes := st.globalDesignNotes + [note], noteCount := st.noteCount + 1)
  }

  function LevelList(byLevel: map<nat, seq<int>>, level: nat): seq<int> {
    if level in byLevel then byLevel[level] else []
  }

  /** The tab a new heading at `level` is linked under: the most recent tab
      one level up, if there is one (lines 108-118). Level-1 headings go to the
      top level instead, and level-0 headings are linked nowhere. */
  function ParentFor(byLevel: map<nat, seq<int>>, level: nat): Option<int> {
    if level > 1 && |LevelList(byLevel, level - 1)| > 0 then Some(Last(LevelList(byLevel, level - 1)))
    else None
  }

  /** `parent.children.push(tab)` for the tab at `idx`. */
  function AddChild(tabs: seq<TabNode>, parent: Option<int>, idx: int): seq<TabNode> {
    if parent.Some? && 0 <= parent.value < |tabs|
    then tabs[parent.value := tabs[parent.value].(children := tabs[parent.value].children + [idx])]
    else tabs
  }

  /** Lines 74-132. */
  function HeadingStep(st: ScanState, level: nat, heading: TitleAndButtons): ScanState {
    var idx := |st.tabs|;
    var node := TabNode(heading.title, level, [], [], [], heading.buttons, []);
    st.(tabs := AddChild(st.tabs + [node], ParentFor(st.tabsByLevel, level), idx),
        topTabs := if level == 1 then st.topTabs + [idx] else st.topTabs,
        tabsByLevel := st.tabsByLevel[level := LevelList(st.tabsByLevel, level) + [idx]],
        currentTab := Some(idx),
        lastFieldName := None,
        pendingNote := None,
        recordsByTab := st.recordsByTab[NormalizeTabId(heading.title) := EmptyTable])
  }

  /** Lines 134-145. */
  function ButtonStep(st: ScanState, buttonLabel: string): (r: ScanState)
    requires Wf(st) && st.currentTab.Some?
  {
    var c := st.currentTab.value;
    var tab := st.tabs[c];
    var existing := if tab.buttons.Some? then tab.buttons.value else [];
    st.(tabs := st.tabs[c := tab.(buttons := Some(existing + [Button(buttonLabel, Some(tab.title))]))])
  }

  /** The record a field line writes into (lines 169-188). */
  function RecordKey(table: RecordTable, name: string, value: string): string {
    if name == "ID" then "record_" + value
    else if |table.keys| > 0 then Last(table.keys)
    else "record_default"
  }

  /** `table[key][name] = value`, creating the record first if it is absent. */
  function StoreField(table: RecordTable, key: string, name: string, value: string): RecordTable {
    var created :=
      if key in table.records then table
      else RecordTable(table.keys + [key], table.records[key := map[]]);
    created.(records := created.records[key := created.records[key][name := value]])
  }

  /** A field name joins the headers the first time it appears, unless it is
      `ID` (lines 159-161). */
  function FieldHeaders(headers: seq<string>, name: string): seq<string> {
    if name !in headers && name != "ID" then headers + [name] else headers
  }

  /** `lastRowIndex` counts `ID` fields (line 175). */
  function RowIndexAfter(lastRowIndex: int, name: string): int {
    if name == "ID" then lastRowIndex + 1 else lastRowIndex
  }

  /** The note a pending annotation becomes at a field line: pinned to the
      field's column, or nothing when the field has no column (lines 193-215). */
  function CellNote(pending: Option<Pending>, id: nat, headers: seq<string>, rowIndex: int,
                    name: string): Option<DesignNote> {
    var col := IndexOf(headers, name);
    if pending.Some? && col != -1 then
      Some(DesignNote(id, pending.value.text, pending.value.noteType, Some(CellReference(rowIndex, col, name))))
    else None
  }

  function WithNote(notes: seq<DesignNote>, note: Option<DesignNote>): seq<DesignNote> {
    if note.Some? then notes + [note.value] else notes
  }

  /** Lines 151-221 (a bullet line with at least one `:`). */
  function FieldStep(st: ScanState, name: string, value: string): ScanState
    requires Wf(st) && st.currentTab.Some?
  {
    var c := st.currentTab.value;
    var tab := st.tabs[c];
    var headers := FieldHeaders(tab.headers, name);
    var tabId := NormalizeTabId(tab.title);
    var table := st.recordsByTab[tabId];
    var rowIndex := RowIndexAfter(st.lastRowIndex, name);
    var note := CellNote(st.pendingNote, st.noteCount, headers, rowIndex, name);
    st.(tabs := st.tabs[c := tab.(headers := headers, designNotes := WithNote(tab.designNotes, note))],
        lastFieldName := Some(name),
        lastRowIndex := rowIndex,
        pendingNote := None,
        recordsByTab := st.recordsByTab[tabId := StoreField(table, RecordKey(table, name, value), name, value)],
        noteCount := if note.Some? then st.noteCount + 1 else st.noteCount)
  }

  /** One pass of the loop body. */
  function Step(st: ScanState, line: string): (r: ScanState)
    requires Wf(st)
  {
    match Classify(line, st.currentTab.Some?)
    case AnnotationLine(noteType, text) => AnnotationStep(st, noteType, text)
    case HeadingLine(level, heading) => HeadingStep(st, level, heading)
    case ButtonLine(buttonLabel) => ButtonStep(st, buttonLabel)
    case FieldLine(name, value) => FieldStep(st, name, value)
    case OtherLine => st
  }

  lemma AnnotationStepWf(st: ScanState, noteType: NoteType, text: string)
    requires Wf(st)
    ensures Wf(AnnotationStep(st, noteType, text))
  {
    if !InFieldContext(st.lastFieldName) && st.currentTab.Some? {
      var c := st.currentTab.value;
      ArenaUpdate(st.tabs, c, st.tabs[c].(designNotes := st.tabs[c].designNotes + [DesignNote(st.noteCount, text, noteType, None)]));
    }
  }

  lemma HeadingStepWf(st: ScanState, level: nat, heading: TitleAndButtons)
    requires Wf(st)
    ensures Wf(HeadingStep(st, level, heading))
  {
    var idx := |st.tabs|;
    var node := TabNode(heading.title, level, [], [], [], heading.buttons, []);
    var tabs := st.tabs + [node];
    ArenaAppend(st.tabs, node);
    var parent := ParentFor(st.tabsByLevel, level);
    if parent.Some? {
      ArenaLink(tabs, parent.value);
    }
    var r := HeadingStep(st, level, heading);
    assert r.tabs == AddChild(tabs, parent, idx);
    assert ArenaWf(r.tabs);
    assert |r.tabs| == idx + 1 && r.tabs[idx].title == heading.title;
    IndicesBelowAppend(st.topTabs, idx);
    LevelListsBelowAppend(st.tabsByLevel, level, idx);
  }

  /** Indices below `n`, with `n` appended, are below `n + 1`. */
  lemma IndicesBelowAppend(ts: seq<int>, n: nat)
    requires forall k :: 0 <= k < |ts| ==> 0 <= ts[k] < n
    ensures forall k :: 0 <= k < |ts + [n]| ==> 0 <= (ts + [n])[k] < n + 1
  {
    forall k | 0 <= k < |ts + [n]| ensures 0 <= (ts + [n])[k] < n + 1 {
      if k < |ts| { assert (ts + [n])[k] == ts[k]; }
    }
  }

  lemma LevelListsBelowAppend(byLevel: map<nat, seq<int>>, level: nat, n: nat)
    requires forall L, k :: L in byLevel && 0 <= k < |byLevel[L]| ==> 0 <= byLevel[L][k] < n
    ensures var m := byLevel[level := LevelList(byLevel, level) + [n]];
            forall L, k :: L in m && 0 <= k < |m[L]| ==> 0 <= m[L][k] < n + 1
  {
    var m := byLevel[level := LevelList(byLevel, level) + [n]];
    forall L, k | L in m && 0 <= k < |m[L]| ensures 0 <= m[L][k] < n + 1 {
      if L != level {
        assert m[L] == byLevel[L];
      } else {
        var before := LevelList(byLevel, level);
        if k < |before| { assert m[L][k] == before[k]; }
      }
    }
  }

  lemma ButtonStepWf(st: ScanState, buttonLabel: string)
    requires Wf(st) && st.currentTab.Some?
    ensures Wf(ButtonStep(st, buttonLabel))
  {
    var c := st.currentTab.value;
    ArenaUpdate(st.tabs, c, ButtonStep(st, buttonLabel).tabs[c]);
  }

  lemma FieldStepWf(st: ScanState, name: string, value: string)
    requires Wf(st) && st.currentTab.Some?
    ensures Wf(FieldStep(st, name, value))
  {
    var c := st.currentTab.value;
    ArenaUpdate(st.tabs, c, FieldStep(st, name, value).tabs[c]);
  }

  lemma StepWf(st: ScanState, line: string)
    requires Wf(st)
    ensures Wf(Step(st, line))
  {
    var kind := Classify(line, st.currentTab.Some?);
    StepByKind(st, line);
    match kind
    case AnnotationLine(noteType, text) => AnnotationStepWf(st, noteType, text);
    case HeadingLine(level, heading) => HeadingStepWf(st, level, heading);
    case ButtonLine(buttonLabel) => ButtonStepWf(st, buttonLabel);
    case FieldLine(name, value) => FieldStepWf(st, name, value);
    case OtherLine =>
  }

  /** `Step` as the branch for the line's kind. */
  lemma StepByKind(st: ScanState, line: string)
    requires Wf(st)
    ensures var kind := Classify(line, st.currentTab.Some?);
            Step(st, line) == match kind
              case AnnotationLine(noteType, text) => AnnotationStep(st, noteType, text)
              case HeadingLine(level, heading) => HeadingStep(st, level, heading)
              case ButtonLine(buttonLabel) => ButtonStep(st, buttonLabel)
              case FieldLine(name, value) => FieldStep(st, name, value)
              case OtherLine => st
  {
  }

  /** The loop over the lines after the title. */
  ghost function ScanLines(lines: seq<string>): (st: ScanState)
    ensures Wf(st)
    decreases |lines|
  {
    if lines == [] then InitialState
    else
      var prev := ScanLines(lines[..|lines| - 1]);
      StepWf(prev, lines[|lines| - 1]);
      Step(prev, lines[|lines| - 1])
  }

  /** One more line: one more step. */
  lemma ScanLinesPrefix(lines: seq<string>, i: nat)
    requires i < |lines|
    ensures ScanLines(lines[..i + 1]) == Step(ScanLines(lines[..i]), lines[i])
  {
    assert lines[..i + 1][..i] == lines[..i];
  }

  lemma ScanLinesWhole(lines: seq<string>)
    ensures ScanLines(lines[..|lines|]) == ScanLines(lines)
  {
    assert lines[..|lines|] == lines;
  }
}
