/** `parseWindowMarkup` (lib/markup-parser.ts:3-239) as a method: the loop over
    the lines keeps the source's mutable locals in one `ScanState` and runs the
    loop body `Step` on each line; then the grid pass runs the nested loops of
    `processTabForGridDisplay` over the arena of tabs. The method is proved
    equal to `ParseSpec`. */
module MarkupParser {
  import opened Wrappers
  import opened JsText
  import opened WindowTypes
  import opened TitleButtons
  import opened MarkupScan
  import opened MarkupGrid

  /** The two errors the parser throws. */
  datatype ParseError = EmptyMarkup | MissingTitle

  function Message(e: ParseError): string {
    match e
    case EmptyMarkup => "Markup cannot be empty"
    case MissingTitle => "Markup must start with a level 0 title (# Window Title)"
  }

  /** `lines.filter((line) => line.trim() !== "")` */
  function NonBlank(lines: seq<string>): (r: seq<string>)
    ensures |r| <= |lines|
  {
    if lines == [] then []
    else (if Trim(lines[0]) != [] then [lines[0]] else []) + NonBlank(lines[1..])
  }

  /** `markup.split("\n").filter((line) => line.trim() !== "")` */
  function NonBlankLines(markup: string): seq<string> {
    NonBlank(Split(markup, '\n'))
  }

  /** What `parseWindowMarkup` returns or throws. */
  ghost function ParseSpec(markup: string): Result<WindowStructure, ParseError> {
    var lines := NonBlankLines(markup);
    if |lines| == 0 then Failure(EmptyMarkup)
    else if !StartsWith(lines[0], "# ") then Failure(MissingTitle)
    else
      var head := ExtractTitleAndButtons(Trim(SubstringFrom(lines[0], 2)));
      var st := ScanLines(lines[1..]);
      Success(WindowStructure(head.title, BuildForest(Materialise(st), st.topTabs, -1),
                              head.buttons, st.globalDesignNotes))
  }

  /** `processTabForGridDisplay`: the nested loops that build one row per
      record and one cell per header (lines 263-298). */
  method ProcessTabForGridDisplay(tab: TabNode, recordsByTab: map<string, RecordTable>) returns (r: TabNode)
    ensures r == ProcessTab(tab, recordsByTab)
  {
    var tabId := NormalizeTabId(tab.title);
    if tabId !in recordsByTab || |recordsByTab[tabId].keys| == 0 {
      return tab;
    }
    var records := recordsByTab[tabId];
    var headers := tab.headers;
    if "ID" !in headers {
      headers := ["ID"] + headers;
    }
    var rows: seq<seq<string>> := [];
    for i := 0 to |records.keys|
      invariant |rows| == i
      invariant forall q :: 0 <= q < i ==> rows[q] == GridRows(records, headers)[q]
    {
      var record := RecordOf(records, records.keys[i]);
      var row: seq<string> := [];
      for c := 0 to |headers|
        invariant |row| == c
        invariant forall q :: 0 <= q < c ==> row[q] == CellValue(record, headers[q])
      {
        row := row + [if headers[c] in record then record[headers[c]] else ""];
      }
      rows := rows + [row];
    }
    assert rows == GridRows(records, headers);
    assert headers == GridHeaders(tab.headers);
    return tab.(headers := headers, rows := rows);
  }

  /** The inner loop of lines 229-235: each child of one level-1 tab. */
  method ProcessChildren(st: ScanState, tabs: seq<TabNode>, ghost done: set<int>, children: seq<int>)
    returns (tabs': seq<TabNode>)
    requires ProcessedExactly(st, tabs, done)
    requires forall k :: 0 <= k < |children| ==> 0 <= children[k] < |st.tabs|
    ensures ProcessedExactly(st, tabs', done + (set q | q in children))
  {
    tabs' := tabs;
    for c := 0 to |children|
      invariant ProcessedExactly(st, tabs', done + (set q | q in children[..c]))
    {
      var child := children[c];
      var processed := ProcessTabForGridDisplay(tabs'[child], st.recordsByTab);
      ProcessOne(st, tabs', done + (set q | q in children[..c]), child);
      tabs' := tabs'[child := processed];
      assert children[..c + 1] == children[..c] + [child];
    }
    assert children[..|children|] == children;
  }

  /** One turn of the outer loop of lines 227-236: level-1 tab `t`, then its
      children. */
  method ProcessTopTab(st: ScanState, tabs: seq<TabNode>, t: nat) returns (tabs': seq<TabNode>)
    requires ArenaWf(st.tabs) && t < |st.topTabs| && 0 <= st.topTabs[t] < |st.tabs|
    requires ProcessedExactly(st, tabs, TargetsOf(st, st.topTabs[..t]))
    ensures ProcessedExactly(st, tabs', TargetsOf(st, st.topTabs[..t + 1]))
  {
    var tab := st.topTabs[t];
    ghost var done := TargetsOf(st, st.topTabs[..t]);
    var processed := ProcessTabForGridDisplay(tabs[tab], st.recordsByTab);
    ProcessOne(st, tabs, done, tab);
    tabs' := tabs[tab := processed];
    var children := tabs'[tab].children;
    tabs' := ProcessChildren(st, tabs', done + {tab}, children);
    TargetsOfPrefix(st, st.topTabs, t);
  }

  /** Lines 227-236: each level-1 tab, then each of its children, processed in
      place in the arena. */
  method GridPass(st: ScanState) returns (tabs: seq<TabNode>)
    requires Wf(st)
    ensures tabs == Materialise(st)
  {
    tabs := st.tabs;
    for t := 0 to |st.topTabs|
      invariant ProcessedExactly(st, tabs, TargetsOf(st, st.topTabs[..t]))
    {
      tabs := ProcessTopTab(st, tabs, t);
    }
    assert st.topTabs[..|st.topTabs|] == st.topTabs;
    MaterialiseExactly(st, tabs);
  }

  /** The whole of `parseWindowMarkup`: the two errors, the loop over the
      lines after the title, the grid pass and the tree of tab objects. */
  method ParseWindowMarkup(markup: string) returns (r: Result<WindowStructure, ParseError>)
    ensures r == ParseSpec(markup)
  {
    var lines := NonBlankLines(markup);
    if |lines| == 0 {
      return Failure(EmptyMarkup);
    }
    var titleLine := lines[0];
    if !StartsWith(titleLine, "# ") {
      return Failure(MissingTitle);
    }
    var head := ExtractTitleAndButtons(Trim(SubstringFrom(titleLine, 2)));
    var st := InitialState;
    var rest := lines[1..];
    for i := 0 to |rest|
      invariant st == ScanLines(rest[..i])
    {
      ScanLinesPrefix(rest, i);
      st := Step(st, rest[i]);
    }
    ScanLinesWhole(rest);
    var tabs := GridPass(st);
    r := Success(WindowStructure(head.title, BuildForest(tabs, st.topTabs, -1), head.buttons, st.globalDesignNotes));
  }
}
