/** What one line does to the scan state of `parseWindowMarkup`: heading
    levels and linking (lib/markup-parser.ts:74-131), bare buttons (134-145),
    field lines, record addressing and cell notes (147-221), annotations (41-70),
    and the row counter (31, 178). */
module StepProperties {
  import opened Wrappers
  import opened JsText
  import opened WindowTypes
  import opened TitleButtons
  import opened MarkupScan
  import opened ScanInvariant
  import opened MarkupGrid

  // ---------------------------------------------------------------- headings

  /** `p` is the most recently created tab of level `L`. */
  ghost predicate MostRecentAt(st: ScanState, p: int, L: nat) {
    0 <= p < |st.tabs| && st.tabs[p].level == L && forall q :: p < q < |st.tabs| ==> st.tabs[q].level != L
  }

  /** The parent a heading looks up is the most recent tab one level up, and
      there is none exactly when no tab of that level exists yet. */
  lemma ParentIsMostRecent(st: ScanState, level: nat)
    requires Wf(st) && LevelsInv(st) && level > 1
    ensures ParentFor(st.tabsByLevel, level).None? <==>
              forall q :: 0 <= q < |st.tabs| ==> st.tabs[q].level != level - 1
    ensures ParentFor(st.tabsByLevel, level).Some? ==>
              MostRecentAt(st, ParentFor(st.tabsByLevel, level).value, level - 1)
  {
    var list := LevelList(st.tabsByLevel, level - 1);
    forall q | 0 <= q < |st.tabs| && st.tabs[q].level == level - 1 ensures q in list {
    }
    if |list| > 0 {
      var p := list[|list| - 1];
      assert st.tabs[p].level == level - 1;
      assert forall k :: 0 <= k < |list| ==> list[k] <= p;
    }
  }

  /** A heading creates a tab of its level, makes it current, clears the
      pending note and the last field name, and resets the record table of its
      tab id. A level-1 tab joins `structure.tabs`; a deeper tab becomes the
      last child of the most recent tab one level up, or is linked nowhere when
      there is none; a level-0 tab is linked nowhere. */
  lemma HeadingLinks(st: ScanState, level: nat, heading: TitleAndButtons)
    requires Inv(st)
    ensures var r := HeadingStep(st, level, heading);
            var idx := |st.tabs|;
            && |r.tabs| == idx + 1 && r.currentTab == Some(idx)
            && r.tabs[idx] == TabNode(heading.title, level, [], [], [], heading.buttons, [])
            && r.pendingNote == None && r.lastFieldName == None
            && r.recordsByTab[NormalizeTabId(heading.title)] == EmptyTable
            && r.lastRowIndex == st.lastRowIndex
            && r.topTabs == (if level == 1 then st.topTabs + [idx] else st.topTabs)
            && (forall p :: level > 1 && MostRecentAt(st, p, level - 1) ==>
                  r.tabs[p].children == st.tabs[p].children + [idx]
                  && forall j :: 0 <= j < idx && j != p ==> r.tabs[j] == st.tabs[j])
            && ((level <= 1 || forall q :: 0 <= q < idx ==> st.tabs[q].level != level - 1) ==>
                  r.tabs[..idx] == st.tabs)
  {
    HeadingTabs(st, level, heading);
    var r := HeadingStep(st, level, heading);
    var idx := |st.tabs|;
    if level > 1 {
      ParentIsMostRecent(st, level);
      forall p | MostRecentAt(st, p, level - 1) ensures ParentFor(st.tabsByLevel, level) == Some(p) {
        var parent := ParentFor(st.tabsByLevel, level);
        assert parent.Some?;
        var v := parent.value;
        if v < p { assert st.tabs[p].level == level - 1; }
      }
    }
    if ParentFor(st.tabsByLevel, level).None? {
      assert r.tabs[..idx] == st.tabs;
    }
  }

  // ---------------------------------------------------------------- buttons

  /** A bare button line appends exactly one button, labelled with the inner
      text and with the current tab's title as context; nothing else changes. */
  lemma ButtonAppends(st: ScanState, buttonLabel: string)
    requires Wf(st) && st.currentTab.Some?
    ensures var c := st.currentTab.value;
            var r := ButtonStep(st, buttonLabel);
            var before := if st.tabs[c].buttons.Some? then st.tabs[c].buttons.value else [];
            && r.tabs[c].buttons.Some?
            && |r.tabs[c].buttons.value| == |before| + 1
            && r.tabs[c].buttons.value[..|before|] == before
            && r.tabs[c].buttons.value[|before|] == Button(buttonLabel, Some(st.tabs[c].title))
            && r.tabs[c].(buttons := st.tabs[c].buttons) == st.tabs[c]
            && |r.tabs| == |st.tabs| && (forall j :: 0 <= j < |st.tabs| && j != c ==> r.tabs[j] == st.tabs[j])
            && r.(tabs := st.tabs) == st
  {
    var c := st.currentTab.value;
    var before := if st.tabs[c].buttons.Some? then st.tabs[c].buttons.value else [];
    assert (before + [Button(buttonLabel, Some(st.tabs[c].title))])[..|before|] == before;
  }

  // ---------------------------------------------------------------- records

  /** Where a field is stored: an `ID` field addresses `record_<value>`; any
      other field the last record key of the table, or `record_default` in an
      empty table. The record is created only when absent; only it changes. */
  lemma RecordAddressing(table: RecordTable, name: string, value: string)
    requires TableWf(table)
    ensures var key := RecordKey(table, name, value);
            var t := StoreField(table, key, name, value);
            && (name == "ID" ==> key == "record_" + value)
            && (name != "ID" && |table.keys| > 0 ==> key == table.keys[|table.keys| - 1])
            && (name != "ID" && |table.keys| == 0 ==> key == "record_default")
            && TableWf(t)
            && t.keys == (if key in table.keys then table.keys else table.keys + [key])
            && t.records[key] == RecordOf(table, key)[name := value]
            && (forall k :: k in table.records && k != key ==> k in t.records && t.records[k] == table.records[k])
  {
    StoreFieldWf(table, RecordKey(table, name, value), name, value);
  }

  /** A repeated `ID` does not redirect later fields: they keep going to the
      last record created, not to the record the repeated `ID` names. */
  lemma RepeatedIdDoesNotRedirect(table: RecordTable, v: string, name: string, value: string)
    requires TableWf(table) && "record_" + v in table.keys && name != "ID"
    ensures var t := StoreField(table, RecordKey(table, "ID", v), "ID", v);
            t.keys == table.keys
            && RecordKey(t, name, value) == table.keys[|table.keys| - 1]
  {
    StoreFieldWf(table, "record_" + v, "ID", v);
  }

  // ---------------------------------------------------------------- fields and notes

  /** A field line: the headers gain the name once unless it is `ID`, the
      pending note is cleared, `lastRowIndex` counts the line if it is an `ID`
      field, and a pending note becomes a cell note exactly when the name is
      not `ID`, pinned to the name's position in the header list (which never
      holds `ID`) and to the current `lastRowIndex`. */
  lemma FieldRule(st: ScanState, name: string, value: string)
    requires Inv(st) && st.currentTab.Some?
    ensures var c := st.currentTab.value;
            var r := FieldStep(st, name, value);
            var h := st.tabs[c].headers;
            var h' := r.tabs[c].headers;
            var notes := st.tabs[c].designNotes;
            var notes' := r.tabs[c].designNotes;
            && r.pendingNote == None && r.lastFieldName == Some(name)
            && r.lastRowIndex == st.lastRowIndex + (if name == "ID" then 1 else 0)
            && "ID" !in h' && NoDup(h') && h'[..|h|] == h
            && (name != "ID" <==> name in h')
            && |h'| == |h| + (if name in h || name == "ID" then 0 else 1)
            && (st.pendingNote.Some? && name != "ID" <==> |notes'| == |notes| + 1)
            && notes'[..|notes|] == notes
            && (st.pendingNote.Some? && name != "ID" ==>
                  var ref := CellReference(r.lastRowIndex, IndexOf(h', name), name);
                  notes'[|notes|] == DesignNote(st.noteCount, st.pendingNote.value.text,
                                                st.pendingNote.value.noteType, Some(ref))
                  && 0 <= ref.columnIndex < |h'| && h'[ref.columnIndex] == name)
            && (forall j :: 0 <= j < |st.tabs| && j != c ==> r.tabs[j] == st.tabs[j])
  {
    var c := st.currentTab.value;
    assert TabInv(st.tabs[c], st.noteCount);
    FieldHeadersInv(st.tabs[c].headers, name);
    var notes := st.tabs[c].designNotes;
    var note := CellNote(st.pendingNote, st.noteCount, FieldHeaders(st.tabs[c].headers, name),
                         RowIndexAfter(st.lastRowIndex, name), name);
    assert WithNote(notes, note)[..|notes|] == notes;
  }

  /** What a field line leaves alone: it writes into the record table of the
      current tab's id and no other, changes only the headers and notes of the
      current tab, and touches no other tab, link, level list or global note. */
  lemma FieldStepFrame(st: ScanState, name: string, value: string)
    requires Wf(st) && st.currentTab.Some?
    ensures var c := st.currentTab.value;
            var r := FieldStep(st, name, value);
            var id := NormalizeTabId(st.tabs[c].title);
            var table := st.recordsByTab[id];
            && r.recordsByTab == st.recordsByTab[id := StoreField(table, RecordKey(table, name, value), name, value)]
            && (forall id' :: id' in st.recordsByTab && id' != id ==>
                  id' in r.recordsByTab && r.recordsByTab[id'] == st.recordsByTab[id'])
            && |r.tabs| == |st.tabs|
            && r.tabs[c].(headers := st.tabs[c].headers, designNotes := st.tabs[c].designNotes) == st.tabs[c]
            && (forall j :: 0 <= j < |st.tabs| && j != c ==> r.tabs[j] == st.tabs[j])
            && r.noteCount == st.noteCount + |r.tabs[c].designNotes| - |st.tabs[c].designNotes|
            && r.(tabs := st.tabs, lastFieldName := st.lastFieldName, lastRowIndex := st.lastRowIndex,
                  pendingNote := st.pendingNote, recordsByTab := st.recordsByTab, noteCount := st.noteCount) == st
  {
  }

  /** An annotation line always becomes the pending note. Outside a field
      context it is also attached at once, to the current tab or, before the
      first tab, to the global notes; inside one nothing else changes. */
  lemma AnnotationRule(st: ScanState, noteType: NoteType, text: string)
    requires Wf(st)
    ensures var r := AnnotationStep(st, noteType, text);
            var note := DesignNote(st.noteCount, text, noteType, None);
            && r.pendingNote == Some(Pending(noteType, text))
            && r.lastFieldName == st.lastFieldName && r.currentTab == st.currentTab
            && (InFieldContext(st.lastFieldName) ==>
                  r.tabs == st.tabs && r.globalDesignNotes == st.globalDesignNotes)
            && (!InFieldContext(st.lastFieldName) && st.currentTab.Some? ==>
                  var c := st.currentTab.value;
                  r.tabs[c].designNotes == st.tabs[c].designNotes + [note]
                  && r.globalDesignNotes == st.globalDesignNotes)
            && (!InFieldContext(st.lastFieldName) && st.currentTab.None? ==>
                  r.tabs == st.tabs && r.globalDesignNotes == st.globalDesignNotes + [note])
            && (!InFieldContext(st.lastFieldName) && st.currentTab.Some? ==>
                  var c := st.currentTab.value;
                  r.tabs == st.tabs[c := st.tabs[c].(designNotes := st.tabs[c].designNotes + [note])])
            && r.noteCount == st.noteCount + (if InFieldContext(st.lastFieldName) then 0 else 1)
            && r.(tabs := st.tabs, pendingNote := st.pendingNote, globalDesignNotes := st.globalDesignNotes,
                  noteCount := st.noteCount) == st
  {
  }

  /** A field with an empty name does not open a field context: the next
      annotation is still attached at once. */
  lemma EmptyFieldNameIsNoContext(st: ScanState, value: string)
    requires Wf(st) && st.currentTab.Some?
    ensures !InFieldContext(FieldStep(st, "", value).lastFieldName)
  {
  }

  /** A new note's id differs from every note already made. */
  lemma NoteIdFresh(st: ScanState)
    requires Inv(st)
    ensures forall i, n :: 0 <= i < |st.tabs| && 0 <= n < |st.tabs[i].designNotes| ==>
              st.tabs[i].designNotes[n].id != st.noteCount
    ensures forall n :: 0 <= n < |st.globalDesignNotes| ==> st.globalDesignNotes[n].id != st.noteCount
  {
    forall i, n | 0 <= i < |st.tabs| && 0 <= n < |st.tabs[i].designNotes|
      ensures st.tabs[i].designNotes[n].id != st.noteCount
    {
      assert TabInv(st.tabs[i], st.noteCount);
    }
  }

  // ---------------------------------------------------------------- the row counter

  /** Whether a line, scanned in state `st`, is an `ID` field line. */
  predicate IsIdField(st: ScanState, line: string) {
    var k := Classify(line, st.currentTab.Some?);
    k.FieldLine? && k.name == "ID"
  }

  /** The number of `ID` field lines among `lines`, each judged in the state
      the scan has reached when it gets there. */
  ghost function IdFieldCount(lines: seq<string>): nat
    decreases |lines|
  {
    if lines == [] then 0
    else
      var prefix := lines[..|lines| - 1];
      IdFieldCount(prefix) + (if IsIdField(ScanLines(prefix), lines[|lines| - 1]) then 1 else 0)
  }

  lemma StepRowIndex(st: ScanState, line: string)
    requires Wf(st)
    ensures Step(st, line).lastRowIndex == st.lastRowIndex + (if IsIdField(st, line) then 1 else 0)
  {
    StepByKind(st, line);
  }

  /** `lastRowIndex` is the number of `ID` field lines seen so far, over the
      whole markup, minus one: it is never reset at a heading. */
  lemma {:induction false} LastRowIndexCountsIds(lines: seq<string>)
    ensures ScanLines(lines).lastRowIndex == IdFieldCount(lines) - 1
    decreases |lines|
  {
    if lines != [] {
      var prefix := lines[..|lines| - 1];
      LastRowIndexCountsIds(prefix);
      StepRowIndex(ScanLines(prefix), lines[|lines| - 1]);
    }
  }
}
