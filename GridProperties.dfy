/** What the grid pass and the tree conversion of `parseWindowMarkup` produce
    (lib/markup-parser.ts:226-236, 263-298): which tabs get a grid, what the
    grid holds, where cell notes point, and how levels nest in the result. */
module GridProperties {
  import opened Wrappers
  import opened JsText
  import opened WindowTypes
  import opened TitleButtons
  import opened MarkupScan
  import opened MarkupGrid
  import opened ScanInvariant
  import opened MarkupParser

  // ---------------------------------------------------------------- which tabs

  /** `p` is one of the tabs listed in `structure.tabs`. */
  lemma TopTabLevel(st: ScanState, p: int)
    requires Inv(st) && 0 <= p < |st.tabs|
    ensures p in st.topTabs <==> st.tabs[p].level == 1
  {
    if p in st.topTabs {
      var k :| 0 <= k < |st.topTabs| && st.topTabs[k] == p;
      assert 1 in st.tabsByLevel;
      assert st.tabs[st.tabsByLevel[1][k]].level == 1;
    }
  }

  /** The grid pass visits the level-1 tabs and the children of level-1 tabs
      and nothing else; so it reaches level-2 tabs at most, never deeper ones. */
  lemma GridTargetsSpec(st: ScanState, i: int)
    requires Inv(st) && 0 <= i < |st.tabs|
    ensures i in GridTargets(st) <==>
              st.tabs[i].level == 1
              || exists p :: 0 <= p < |st.tabs| && st.tabs[p].level == 1 && i in st.tabs[p].children
    ensures i in GridTargets(st) ==> st.tabs[i].level == 1 || st.tabs[i].level == 2
  {
    TopTabLevel(st, i);
    if i in GridTargets(st) && i !in st.topTabs {
      var p, c :| p in st.topTabs && 0 <= p < |st.tabs| && c in st.tabs[p].children && c == i;
      TopTabLevel(st, p);
      var k :| 0 <= k < |st.tabs[p].children| && st.tabs[p].children[k] == i;
      assert st.tabs[i].level == st.tabs[p].level + 1;
    }
    if !(i in GridTargets(st)) && st.tabs[i].level != 1 {
      forall p | 0 <= p < |st.tabs| && st.tabs[p].level == 1 ensures i !in st.tabs[p].children {
        TopTabLevel(st, p);
      }
    }
  }

  // ---------------------------------------------------------------- what a grid holds

  /** The record table of a tab, if it has a non-empty one. */
  ghost predicate HasRecords(st: ScanState, i: int)
    requires 0 <= i < |st.tabs|
  {
    var tabId := NormalizeTabId(st.tabs[i].title);
    tabId in st.recordsByTab && |st.recordsByTab[tabId].keys| > 0
  }

  /** A tab the grid pass skips, or one without records, comes out as the scan
      left it: no rows. */
  lemma UnprocessedTab(st: ScanState, i: int)
    requires Inv(st) && 0 <= i < |st.tabs|
    requires i !in GridTargets(st) || !HasRecords(st, i)
    ensures Materialise(st)[i] == st.tabs[i]
    ensures Materialise(st)[i].rows == []
  {
    assert TabInv(st.tabs[i], st.noteCount);
  }

  /** A visited tab with records gets the header row `["ID", ...headers]` and
      one row per record key, in the order the records were created, each row
      holding the `ID` cell and then the record's value for each header, or
      `""` where the record has none. Title, level, children, buttons and notes
      are untouched. */
  lemma ProcessedTab(st: ScanState, i: int)
    requires Inv(st) && 0 <= i < |st.tabs|
    requires i in GridTargets(st) && HasRecords(st, i)
    ensures var m := Materialise(st)[i];
            var t := st.tabs[i];
            var table := st.recordsByTab[NormalizeTabId(t.title)];
            && m.(headers := t.headers, rows := t.rows) == t
            && m.headers == ["ID"] + t.headers
            && |m.rows| == |table.keys|
            && forall r :: 0 <= r < |m.rows| ==>
                 |m.rows[r]| == |t.headers| + 1
                 && m.rows[r][0] == CellValue(RecordOf(table, table.keys[r]), "ID")
                 && forall c :: 0 <= c < |t.headers| ==>
                      m.rows[r][c + 1] == CellValue(RecordOf(table, table.keys[r]), t.headers[c])
  {
    var t := st.tabs[i];
    assert TabInv(t, st.noteCount);
    var m := Materialise(st)[i];
    assert m == ProcessTab(t, st.recordsByTab);
    var table := st.recordsByTab[NormalizeTabId(t.title)];
    var h := ["ID"] + t.headers;
    forall r, c | 0 <= r < |m.rows| && 0 <= c < |t.headers|
      ensures m.rows[r][c + 1] == CellValue(RecordOf(table, table.keys[r]), t.headers[c])
    {
      assert h[c + 1] == t.headers[c];
    }
  }

  /** Two visited tabs whose titles normalise to the same id are gridded from
      one record table: the same number of rows, holding the same `ID` cells. */
  lemma SharedRecordTable(st: ScanState, i: int, j: int)
    requires Inv(st) && 0 <= i < |st.tabs| && 0 <= j < |st.tabs|
    requires i in GridTargets(st) && j in GridTargets(st)
    requires NormalizeTabId(st.tabs[i].title) == NormalizeTabId(st.tabs[j].title)
    requires HasRecords(st, i)
    ensures HasRecords(st, j)
    ensures var m := Materialise(st);
            && |m[i].rows| == |m[j].rows|
            && forall r :: 0 <= r < |m[i].rows| ==> m[i].rows[r][0] == m[j].rows[r][0]
  {
    ProcessedTab(st, i);
    ProcessedTab(st, j);
  }

  /** A cell note's column index counts the headers without the `ID` column:
      in a tab that gets a grid, the header it names sits one column further
      right; in any other tab, at the index itself. */
  lemma NoteColumnInGrid(st: ScanState, i: int, n: int)
    requires Inv(st) && 0 <= i < |st.tabs| && 0 <= n < |st.tabs[i].designNotes|
    requires st.tabs[i].designNotes[n].cellReference.Some?
    ensures var ref := st.tabs[i].designNotes[n].cellReference.value;
            var m := Materialise(st)[i];
            && m.designNotes[n] == st.tabs[i].designNotes[n]
            && (i in GridTargets(st) && HasRecords(st, i) ==>
                  ref.columnIndex + 1 < |m.headers| && m.headers[ref.columnIndex + 1] == ref.headerName)
            && (i !in GridTargets(st) || !HasRecords(st, i) ==>
                  ref.columnIndex < |m.headers| && m.headers[ref.columnIndex] == ref.headerName)
  {
    assert TabInv(st.tabs[i], st.noteCount);
    assert NoteCellOk(st.tabs[i].designNotes[n], st.tabs[i].headers);
    if i in GridTargets(st) && HasRecords(st, i) {
      ProcessedTab(st, i);
    } else {
      UnprocessedTab(st, i);
    }
  }

  // ---------------------------------------------------------------- the tree

  /** Every child in the tree sits one level below its parent. */
  ghost predicate LevelsOk(t: TabItem)
    decreases t
  {
    forall k :: 0 <= k < |t.children| ==> t.children[k].level == t.level + 1 && LevelsOk(t.children[k])
  }

  ghost predicate ChildLevels(a: seq<TabNode>)
    requires ArenaWf(a)
  {
    forall i, k :: 0 <= i < |a| && 0 <= k < |a[i].children| ==> a[a[i].children[k]].level == a[i].level + 1
  }

  lemma {:induction false} BuildTabLevels(a: seq<TabNode>, i: nat)
    requires ArenaWf(a) && ChildLevels(a) && i < |a|
    ensures LevelsOk(BuildTab(a, i))
    decreases |a| - i
  {
    var t := BuildTab(a, i);
    forall k | 0 <= k < |t.children| ensures t.children[k].level == t.level + 1 && LevelsOk(t.children[k]) {
      var c := a[i].children[k];
      assert t.children[k] == BuildTab(a, c);
      BuildTabLevels(a, c);
    }
  }

  /** The grid pass changes no level and no link. */
  lemma MaterialiseKeepsLevels(st: ScanState)
    requires Inv(st)
    ensures ChildLevels(Materialise(st))
    ensures forall i :: 0 <= i < |st.tabs| ==> Materialise(st)[i].level == st.tabs[i].level
  {
    var m := Materialise(st);
    forall i | 0 <= i < |st.tabs| ensures m[i].level == st.tabs[i].level && m[i].children == st.tabs[i].children {
    }
  }

  /** In a parsed window every top-level tab has level 1 and every child tab
      is one level below its parent. */
  lemma ParsedTreeLevels(markup: string)
    requires ParseSpec(markup).Success?
    ensures var w := ParseSpec(markup).value;
            forall k :: 0 <= k < |w.tabs| ==> w.tabs[k].level == 1 && LevelsOk(w.tabs[k])
  {
    var lines := NonBlankLines(markup);
    var st := ScanLines(lines[1..]);
    ScanLinesInv(lines[1..]);
    MaterialiseKeepsLevels(st);
    var m := Materialise(st);
    var w := ParseSpec(markup).value;
    forall k | 0 <= k < |w.tabs| ensures w.tabs[k].level == 1 && LevelsOk(w.tabs[k]) {
      var p := st.topTabs[k];
      assert w.tabs[k] == BuildTab(m, p);
      TopTabLevel(st, p);
      BuildTabLevels(m, p);
    }
  }

  // ---------------------------------------------------------------- grid shape

  /** Every tab of the tree has duplicate-free headers and rows exactly as
      wide as its headers. */
  ghost predicate GridShapeOk(t: TabItem)
    decreases t
  {
    && NoDup(t.content.headers)
    && (forall r :: 0 <= r < |t.content.rows| ==> |t.content.rows[r]| == |t.content.headers|)
    && forall k :: 0 <= k < |t.children| ==> GridShapeOk(t.children[k])
  }

  ghost predicate NodeShapeOk(n: TabNode) {
    NoDup(n.headers) && forall r :: 0 <= r < |n.rows| ==> |n.rows[r]| == |n.headers|
  }

  lemma NoDupCons(x: string, s: seq<string>)
    requires NoDup(s) && x !in s
    ensures NoDup([x] + s)
  {
    forall i, j | 0 <= i < j < |[x] + s| ensures ([x] + s)[i] != ([x] + s)[j] {
      assert ([x] + s)[j] == s[j - 1];
      if i > 0 { assert ([x] + s)[i] == s[i - 1]; }
    }
  }

  /** After the grid pass every tab of the arena has that shape. */
  lemma MaterialiseShapes(st: ScanState)
    requires Inv(st)
    ensures forall i :: 0 <= i < |st.tabs| ==> NodeShapeOk(Materialise(st)[i])
  {
    forall i | 0 <= i < |st.tabs| ensures NodeShapeOk(Materialise(st)[i]) {
      var t := st.tabs[i];
      assert TabInv(t, st.noteCount);
      if i in GridTargets(st) && HasRecords(st, i) {
        ProcessedTab(st, i);
        NoDupCons("ID", t.headers);
      } else {
        UnprocessedTab(st, i);
      }
    }
  }

  lemma {:induction false} BuildTabShapes(a: seq<TabNode>, i: nat)
    requires ArenaWf(a) && i < |a| && forall j :: 0 <= j < |a| ==> NodeShapeOk(a[j])
    ensures GridShapeOk(BuildTab(a, i))
    decreases |a| - i
  {
    var t := BuildTab(a, i);
    assert NodeShapeOk(a[i]);
    forall k | 0 <= k < |t.children| ensures GridShapeOk(t.children[k]) {
      var c := a[i].children[k];
      assert t.children[k] == BuildTab(a, c);
      BuildTabShapes(a, c);
    }
  }

  /** In a parsed window every tab, at any depth, has duplicate-free headers,
      and each of its rows has one cell per header. */
  lemma ParsedTreeShapes(markup: string)
    requires ParseSpec(markup).Success?
    ensures var w := ParseSpec(markup).value;
            forall k :: 0 <= k < |w.tabs| ==> GridShapeOk(w.tabs[k])
  {
    var lines := NonBlankLines(markup);
    var st := ScanLines(lines[1..]);
    ScanLinesInv(lines[1..]);
    MaterialiseShapes(st);
    var m := Materialise(st);
    var w := ParseSpec(markup).value;
    forall k | 0 <= k < |w.tabs| ensures GridShapeOk(w.tabs[k]) {
      var p := st.topTabs[k];
      assert w.tabs[k] == BuildTab(m, p);
      BuildTabShapes(m, p);
    }
  }
}
