/** The invariant the line scan of `parseWindowMarkup` keeps
    (lib/markup-parser.ts:37-224): record tables without duplicate keys, headers
    without duplicates and without `ID`, cell notes that point at a header of
    their tab, levels that follow the heading depth, `tabsByLevel` listing each
    level's tabs in creation order, and fresh note ids. */
module ScanInvariant {
  import opened Wrappers
  import opened JsText
  import opened WindowTypes
  import opened TitleButtons
  import opened MarkupScan

  ghost predicate Increasing(s: seq<int>) {
    forall a, b :: 0 <= a < b < |s| ==> s[a] < s[b]
  }

  /** A cell note names a column of `headers` that holds its header name. */
  ghost predicate NoteCellOk(note: DesignNote, headers: seq<string>) {
    note.cellReference.Some? ==>
      var ref := note.cellReference.value;
      ref.columnIndex < |headers| && headers[ref.columnIndex] == ref.headerName && ref.rowIndex >= -1
  }

  /** A tab during the scan. */
  ghost predicate TabInv(t: TabNode, noteCount: nat) {
    && NoDup(t.headers) && "ID" !in t.headers && t.rows == []
    && (forall n :: 0 <= n < |t.designNotes| ==> NoteCellOk(t.designNotes[n], t.headers))
    && (forall n :: 0 <= n < |t.designNotes| ==> t.designNotes[n].id < noteCount)
  }

  ghost predicate TablesWf(recordsByTab: map<string, RecordTable>) {
    forall id :: id in recordsByTab ==> TableWf(recordsByTab[id])
  }

  ghost predicate TabsInv(tabs: seq<TabNode>, noteCount: nat) {
    forall i :: 0 <= i < |tabs| ==> TabInv(tabs[i], noteCount)
  }

  ghost predicate GlobalNotesInv(notes: seq<DesignNote>, noteCount: nat) {
    forall n :: 0 <= n < |notes| ==> notes[n].cellReference.None? && notes[n].id < noteCount
  }

  /** `tabsByLevel[L]` lists exactly the tabs of level `L`, in creation order;
      `structure.tabs` is the level-1 list; a child is one level below its
      parent. */
  ghost predicate LevelsInv(st: ScanState)
    requires Wf(st)
  {
    && (forall L :: L in st.tabsByLevel ==> Increasing(st.tabsByLevel[L]))
    && (forall L, k :: L in st.tabsByLevel && 0 <= k < |st.tabsByLevel[L]| ==>
          st.tabs[st.tabsByLevel[L][k]].level == L)
    && (forall i :: 0 <= i < |st.tabs| ==> i in LevelList(st.tabsByLevel, st.tabs[i].level))
    && st.topTabs == LevelList(st.tabsByLevel, 1)
    && (forall i, k :: 0 <= i < |st.tabs| && 0 <= k < |st.tabs[i].children| ==>
          st.tabs[st.tabs[i].children[k]].level == st.tabs[i].level + 1)
  }

  ghost predicate Inv(st: ScanState) {
    && Wf(st)
    && TablesWf(st.recordsByTab)
    && TabsInv(st.tabs, st.noteCount)
    && GlobalNotesInv(st.globalDesignNotes, st.noteCount)
    && LevelsInv(st)
    && st.lastRowIndex >= -1
  }

  lemma InitialInv()
    ensures Inv(InitialState)
  {
  }

  // ---------------------------------------------------------------- pieces

  /** Storing a field keeps a record table well formed. */
  lemma StoreFieldWf(table: RecordTable, key: string, name: string, value: string)
    requires TableWf(table)
    ensures TableWf(StoreField(table, key, name, value))
    ensures StoreField(table, key, name, value).keys ==
              if key in table.keys then table.keys else table.keys + [key]
  {
  }

  /** Headers gain a name once, never `ID`, and keep their order. */
  lemma FieldHeadersInv(headers: seq<string>, name: string)
    requires NoDup(headers) && "ID" !in headers
    ensures var h := FieldHeaders(headers, name);
            NoDup(h) && "ID" !in h && h[..|headers|] == headers
            && (name in h <==> name != "ID")
  {
    var h := FieldHeaders(headers, name);
    assert h[..|headers|] == headers;
  }

  lemma NoteCellOkExtend(note: DesignNote, headers: seq<string>, h: seq<string>)
    requires NoteCellOk(note, headers) && |headers| <= |h| && h[..|headers|] == headers
    ensures NoteCellOk(note, h)
  {
    if note.cellReference.Some? {
      var col := note.cellReference.value.columnIndex;
      assert h[col] == h[..|headers|][col];
    }
  }

  /** The note a field line pins holds the field's column. */
  lemma CellNoteOk(pending: Option<Pending>, id: nat, headers: seq<string>, rowIndex: int, name: string)
    requires rowIndex >= -1
    ensures var note := CellNote(pending, id, headers, rowIndex, name);
            note.Some? ==> NoteCellOk(note.value, headers) && note.value.id == id
  {
  }

  /** Content that `TabInv` looks at: headers, rows and notes. */
  ghost predicate SameContent(t: TabNode, u: TabNode) {
    t.headers == u.headers && t.rows == u.rows && t.designNotes == u.designNotes
  }

  lemma TabInvKeep(t: TabNode, u: TabNode, n: nat, n': nat)
    requires TabInv(t, n) && SameContent(t, u) && n <= n'
    ensures TabInv(u, n')
  {
  }

  /** Replacing one tab keeps the arena's invariant. */
  lemma TabsInvUpdate(tabs: seq<TabNode>, c: nat, node: TabNode, n: nat, n': nat)
    requires TabsInv(tabs, n) && c < |tabs| && TabInv(node, n') && n <= n'
    ensures TabsInv(tabs[c := node], n')
  {
    var u := tabs[c := node];
    forall i | 0 <= i < |u| && i != c ensures TabInv(u[i], n') {
      TabInvKeep(tabs[i], u[i], n, n');
    }
  }

  /** One more tab at the end of the arena keeps its invariant. */
  lemma TabsInvAppend(tabs: seq<TabNode>, u: seq<TabNode>, n: nat, n': nat)
    requires TabsInv(tabs, n) && |u| == |tabs| + 1 && TabInv(u[|tabs|], n') && n <= n'
    requires forall j :: 0 <= j < |tabs| ==> SameContent(tabs[j], u[j])
    ensures TabsInv(u, n')
  {
    forall i | 0 <= i < |tabs| ensures TabInv(u[i], n') {
      TabInvKeep(tabs[i], u[i], n, n');
    }
  }

  // ---------------------------------------------------------------- steps

  /** Replacing one tab by one of the same level and children, with the level
      lists unchanged, keeps `LevelsInv`. */
  lemma LevelsInvUpdate(st: ScanState, r: ScanState, c: nat)
    requires Wf(st) && LevelsInv(st) && Wf(r) && c < |st.tabs| == |r.tabs|
    requires r.tabs == st.tabs[c := r.tabs[c]]
    requires r.tabs[c].level == st.tabs[c].level && r.tabs[c].children == st.tabs[c].children
    requires r.tabsByLevel == st.tabsByLevel && r.topTabs == st.topTabs
    ensures LevelsInv(r)
  {
    assert forall i :: 0 <= i < |r.tabs| ==>
             r.tabs[i].level == st.tabs[i].level && r.tabs[i].children == st.tabs[i].children;
  }

  lemma AnnotationStepInv(st: ScanState, noteType: NoteType, text: string)
    requires Inv(st)
    ensures Inv(AnnotationStep(st, noteType, text))
  {
    AnnotationStepWf(st, noteType, text);
    var r := AnnotationStep(st, noteType, text);
    if !InFieldContext(st.lastFieldName) && st.currentTab.Some? {
      var c := st.currentTab.value;
      TabInvKeep(st.tabs[c], st.tabs[c], st.noteCount, st.noteCount + 1);
      TabsInvUpdate(st.tabs, c, r.tabs[c], st.noteCount, r.noteCount);
      LevelsInvUpdate(st, r, c);
    }
  }

  lemma ButtonStepInv(st: ScanState, buttonLabel: string)
    requires Inv(st) && st.currentTab.Some?
    ensures Inv(ButtonStep(st, buttonLabel))
  {
    ButtonStepWf(st, buttonLabel);
    var r := ButtonStep(st, buttonLabel);
    var c := st.currentTab.value;
    TabInvKeep(st.tabs[c], r.tabs[c], st.noteCount, r.noteCount);
    TabsInvUpdate(st.tabs, c, r.tabs[c], st.noteCount, r.noteCount);
    LevelsInvUpdate(st, r, c);
  }

  lemma FieldTabInv(st: ScanState, name: string, value: string)
    requires Inv(st) && st.currentTab.Some?
    ensures var c := st.currentTab.value; TabInv(FieldStep(st, name, value).tabs[c], FieldStep(st, name, value).noteCount)
  {
    var c := st.currentTab.value;
    var tab := st.tabs[c];
    var r := FieldStep(st, name, value);
    var headers := FieldHeaders(tab.headers, name);
    var rowIndex := RowIndexAfter(st.lastRowIndex, name);
    var note := CellNote(st.pendingNote, st.noteCount, headers, rowIndex, name);
    assert TabInv(tab, st.noteCount);
    FieldHeadersInv(tab.headers, name);
    CellNoteOk(st.pendingNote, st.noteCount, headers, rowIndex, name);
    var notes := WithNote(tab.designNotes, note);
    assert r.tabs[c] == tab.(headers := headers, designNotes := notes);
    forall n | 0 <= n < |notes| ensures NoteCellOk(notes[n], headers) && notes[n].id < r.noteCount {
      if n < |tab.designNotes| {
        NoteCellOkExtend(tab.designNotes[n], tab.headers, headers);
      }
    }
  }

  lemma FieldStepInv(st: ScanState, name: string, value: string)
    requires Inv(st) && st.currentTab.Some?
    ensures Inv(FieldStep(st, name, value))
  {
    FieldStepWf(st, name, value);
    var r := FieldStep(st, name, value);
    var c := st.currentTab.value;
    var tabId := NormalizeTabId(st.tabs[c].title);
    var table := st.recordsByTab[tabId];
    StoreFieldWf(table, RecordKey(table, name, value), name, value);
    FieldTabInv(st, name, value);
    TabsInvUpdate(st.tabs, c, r.tabs[c], st.noteCount, r.noteCount);
    LevelsInvUpdate(st, r, c);
  }

  // ---------------------------------------------------------------- headings

  /** The arena after a heading: the new tab at the end, its parent (if any)
      with one more child, every other tab as it was. */
  lemma HeadingTabs(st: ScanState, level: nat, heading: TitleAndButtons)
    requires Wf(st)
    ensures var r := HeadingStep(st, level, heading);
            var idx := |st.tabs|;
            var parent := ParentFor(st.tabsByLevel, level);
            && |r.tabs| == idx + 1
            && r.tabs[idx] == TabNode(heading.title, level, [], [], [], heading.buttons, [])
            && (parent.Some? ==> 0 <= parent.value < idx)
            && (forall j :: 0 <= j < idx ==>
                  r.tabs[j] == if parent == Some(j) then st.tabs[j].(children := st.tabs[j].children + [idx])
                               else st.tabs[j])
  {
    var parent := ParentFor(st.tabsByLevel, level);
    if parent.Some? {
      var list := LevelList(st.tabsByLevel, level - 1);
      assert parent.value == list[|list| - 1];
    }
  }

  lemma AppendIncreasing(s: seq<int>, x: int)
    requires Increasing(s) && forall k :: 0 <= k < |s| ==> s[k] < x
    ensures Increasing(s + [x])
  {
  }

  /** `r.tabs` is `st.tabs` with one more tab, of level `level`, at the end;
      no earlier tab changes level. */
  ghost predicate ExtendsArena(st: ScanState, r: ScanState, level: nat) {
    && |r.tabs| == |st.tabs| + 1 && r.tabs[|st.tabs|].level == level && r.tabs[|st.tabs|].children == []
    && forall j :: 0 <= j < |st.tabs| ==> r.tabs[j].level == st.tabs[j].level
  }

  lemma LevelListsAfterHeading(st: ScanState, r: ScanState, level: nat)
    requires Wf(st) && LevelsInv(st) && Wf(r) && ExtendsArena(st, r, level)
    requires r.tabsByLevel == st.tabsByLevel[level := LevelList(st.tabsByLevel, level) + [|st.tabs|]]
    ensures forall L :: L in r.tabsByLevel ==> Increasing(r.tabsByLevel[L])
    ensures forall L, k :: L in r.tabsByLevel && 0 <= k < |r.tabsByLevel[L]| ==>
              r.tabs[r.tabsByLevel[L][k]].level == L
  {
    var idx := |st.tabs|;
    var old_ := LevelList(st.tabsByLevel, level);
    var new_ := old_ + [idx];
    AppendIncreasing(old_, idx);
    forall k | 0 <= k < |new_| ensures r.tabs[new_[k]].level == level {
      if k < |old_| { assert st.tabs[old_[k]].level == level; }
    }
  }

  lemma TabsListedAfterHeading(st: ScanState, r: ScanState, level: nat)
    requires Wf(st) && LevelsInv(st) && Wf(r) && ExtendsArena(st, r, level)
    requires r.tabsByLevel == st.tabsByLevel[level := LevelList(st.tabsByLevel, level) + [|st.tabs|]]
    requires r.topTabs == if level == 1 then st.topTabs + [|st.tabs|] else st.topTabs
    ensures forall i :: 0 <= i < |r.tabs| ==> i in LevelList(r.tabsByLevel, r.tabs[i].level)
    ensures r.topTabs == LevelList(r.tabsByLevel, 1)
  {
    var idx := |st.tabs|;
    assert LevelList(r.tabsByLevel, level) == LevelList(st.tabsByLevel, level) + [idx];
    forall L | L != level ensures LevelList(r.tabsByLevel, L) == LevelList(st.tabsByLevel, L) {
    }
    forall i | 0 <= i < |r.tabs| ensures i in LevelList(r.tabsByLevel, r.tabs[i].level) {
      if i < idx {
        assert i in LevelList(st.tabsByLevel, st.tabs[i].level);
      }
    }
  }

  lemma ChildLevelsAfterHeading(st: ScanState, r: ScanState, level: nat, parent: Option<int>)
    requires Wf(st) && Wf(r) && ExtendsArena(st, r, level)
    requires forall i, k :: 0 <= i < |st.tabs| && 0 <= k < |st.tabs[i].children| ==>
               st.tabs[st.tabs[i].children[k]].level == st.tabs[i].level + 1
    requires parent.Some? ==> 0 <= parent.value < |st.tabs| && st.tabs[parent.value].level + 1 == level
    requires forall j :: 0 <= j < |st.tabs| ==>
               r.tabs[j].children == if parent == Some(j) then st.tabs[j].children + [|st.tabs|]
                                     else st.tabs[j].children
    ensures forall i, k :: 0 <= i < |r.tabs| && 0 <= k < |r.tabs[i].children| ==>
              r.tabs[r.tabs[i].children[k]].level == r.tabs[i].level + 1
  {
    var idx := |st.tabs|;
    forall i, k | 0 <= i < |r.tabs| && 0 <= k < |r.tabs[i].children|
      ensures r.tabs[r.tabs[i].children[k]].level == r.tabs[i].level + 1
    {
      if i < idx {
        var before := st.tabs[i].children;
        if k < |before| {
          var ch := before[k];
          assert r.tabs[i].children[k] == ch;
          assert 0 <= ch < idx;
          assert r.tabs[ch].level == st.tabs[ch].level;
        } else {
          assert parent == Some(i) && r.tabs[i].children[k] == idx;
        }
      }
    }
  }

  /** What a heading does to the state, field by field. */
  ghost predicate HeadingShape(st: ScanState, r: ScanState, level: nat, parent: Option<int>, id: string) {
    && |r.tabs| == |st.tabs| + 1
    && r.tabs[|st.tabs|].level == level && r.tabs[|st.tabs|].children == []
    && r.tabs[|st.tabs|].headers == [] && r.tabs[|st.tabs|].rows == [] && r.tabs[|st.tabs|].designNotes == []
    && parent == ParentFor(st.tabsByLevel, level)
    && (parent.Some? ==> 0 <= parent.value < |st.tabs|)
    && (forall j :: 0 <= j < |st.tabs| ==>
          r.tabs[j] == if parent == Some(j) then st.tabs[j].(children := st.tabs[j].children + [|st.tabs|])
                       else st.tabs[j])
    && r.tabsByLevel == st.tabsByLevel[level := LevelList(st.tabsByLevel, level) + [|st.tabs|]]
    && r.topTabs == (if level == 1 then st.topTabs + [|st.tabs|] else st.topTabs)
    && r.recordsByTab == st.recordsByTab[id := EmptyTable]
    && r.globalDesignNotes == st.globalDesignNotes && r.noteCount == st.noteCount
    && r.lastRowIndex == st.lastRowIndex
  }

  lemma HeadingShapeHolds(st: ScanState, level: nat, heading: TitleAndButtons)
    requires Wf(st)
    ensures HeadingShape(st, HeadingStep(st, level, heading), level, ParentFor(st.tabsByLevel, level),
                         NormalizeTabId(heading.title))
  {
    HeadingTabs(st, level, heading);
  }

  lemma InvAfterHeading(st: ScanState, r: ScanState, level: nat, parent: Option<int>, id: string)
    requires Inv(st) && Wf(r) && HeadingShape(st, r, level, parent, id)
    ensures Inv(r)
  {
    LevelsAfterHeading(st, r, level, parent, id);
    TabsAfterHeading(st, r, level, parent, id);
    TablesWfReset(st.recordsByTab, id);
  }

  lemma TablesWfReset(recordsByTab: map<string, RecordTable>, id: string)
    requires TablesWf(recordsByTab)
    ensures TablesWf(recordsByTab[id := EmptyTable])
  {
  }

  lemma TabsAfterHeading(st: ScanState, r: ScanState, level: nat, parent: Option<int>, id: string)
    requires TabsInv(st.tabs, st.noteCount) && HeadingShape(st, r, level, parent, id)
    ensures TabsInv(r.tabs, r.noteCount)
  {
    forall j | 0 <= j < |st.tabs| ensures SameContent(st.tabs[j], r.tabs[j]) {
    }
    TabsInvAppend(st.tabs, r.tabs, st.noteCount, r.noteCount);
  }

  lemma LevelsAfterHeading(st: ScanState, r: ScanState, level: nat, parent: Option<int>, id: string)
    requires Wf(st) && LevelsInv(st) && Wf(r) && HeadingShape(st, r, level, parent, id)
    ensures LevelsInv(r)
  {
    if parent.Some? {
      var list := LevelList(st.tabsByLevel, level - 1);
      assert st.tabs[list[|list| - 1]].level == level - 1;
    }
    assert ExtendsArena(st, r, level);
    LevelListsAfterHeading(st, r, level);
    TabsListedAfterHeading(st, r, level);
    ChildLevelsAfterHeading(st, r, level, parent);
  }

  lemma HeadingStepInv(st: ScanState, level: nat, heading: TitleAndButtons)
    requires Inv(st)
    ensures Inv(HeadingStep(st, level, heading))
  {
    HeadingShapeHolds(st, level, heading);
    HeadingStepWf(st, level, heading);
    InvAfterHeading(st, HeadingStep(st, level, heading), level, ParentFor(st.tabsByLevel, level),
                    NormalizeTabId(heading.title));
  }

  // ---------------------------------------------------------------- the scan

  lemma StepInv(st: ScanState, line: string)
    requires Inv(st)
    ensures Inv(Step(st, line))
  {
    var kind := Classify(line, st.currentTab.Some?);
    StepByKind(st, line);
    match kind
    case AnnotationLine(noteType, text) => AnnotationStepInv(st, noteType, text);
    case HeadingLine(level, heading) => HeadingStepInv(st, level, heading);
    case ButtonLine(buttonLabel) => ButtonStepInv(st, buttonLabel);
    case FieldLine(name, value) => FieldStepInv(st, name, value);
    case OtherLine =>
  }

  /** Every state the scan reaches satisfies the invariant. */
  lemma {:induction false} ScanLinesInv(lines: seq<string>)
    ensures Inv(ScanLines(lines))
    decreases |lines|
  {
    if lines == [] {
      InitialInv();
    } else {
      var prefix := lines[..|lines| - 1];
      ScanLinesInv(prefix);
      StepInv(ScanLines(prefix), lines[|lines| - 1]);
    }
  }
}
