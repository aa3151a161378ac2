/** The grid pass of `parseWindowMarkup` (lib/markup-parser.ts:226-236) and
    `processTabForGridDisplay` (lib/markup-parser.ts:263-298): each tab's record
    table pivoted into header/row form, for the level-1 tabs and their direct
    children. Also the conversion of the tab arena into the `TabItem` tree the
    caller receives. */
module MarkupGrid {
  import opened Wrappers
  import opened JsText
  import opened WindowTypes
  import opened MarkupScan

  /** `record[header] || ""`: a missing field reads as the empty string (and a
      stored empty string stays empty). */
  function CellValue(record: map<string, string>, header: string): string {
    if header in record then record[header] else ""
  }

  function RecordOf(table: RecordTable, key: string): map<string, string> {
    if key in table.records then table.records[key] else map[]
  }

  /** `["ID", ...headers]` unless `"ID"` is already a header. */
  function GridHeaders(headers: seq<string>): (h: seq<string>)
    ensures "ID" in h
  {
    if "ID" in headers then headers else ["ID"] + headers
  }

  /** One row per record key, in key order; one cell per header. */
  function GridRows(table: RecordTable, headers: seq<string>): (rows: seq<seq<string>>)
    ensures |rows| == |table.keys|
    ensures forall r :: 0 <= r < |rows| ==> |rows[r]| == |headers|
  {
    seq(|table.keys|, r requires 0 <= r < |table.keys| =>
      seq(|headers|, c requires 0 <= c < |headers| => CellValue(RecordOf(table, table.keys[r]), headers[c])))
  }

  /** `processTabForGridDisplay`: nothing happens to a tab whose normalised title
      has no table or an empty one. */
  ghost function ProcessTab(node: TabNode, recordsByTab: map<string, RecordTable>): (r: TabNode)
    ensures r.title == node.title && r.level == node.level && r.children == node.children
    ensures r.buttons == node.buttons && r.designNotes == node.designNotes
  {
    var tabId := NormalizeTabId(node.title);
    if tabId !in recordsByTab || |recordsByTab[tabId].keys| == 0 then node
    else
      var headers := GridHeaders(node.headers);
      node.(headers := headers, rows := GridRows(recordsByTab[tabId], headers))
  }

  /** Processing a tab a second time changes nothing. */
  lemma ProcessTabTwice(node: TabNode, recordsByTab: map<string, RecordTable>)
    ensures ProcessTab(ProcessTab(node, recordsByTab), recordsByTab) == ProcessTab(node, recordsByTab)
  {
  }

  /** The tabs `ts` and their children. */
  ghost function TargetsOf(st: ScanState, ts: seq<int>): set<int> {
    (set t | t in ts)
    + (set t, c | t in ts && 0 <= t < |st.tabs| && c in st.tabs[t].children :: c)
  }

  lemma TargetsOfSnoc(st: ScanState, ts: seq<int>, t: nat)
    requires t < |st.tabs|
    ensures TargetsOf(st, ts + [t]) == TargetsOf(st, ts) + {t} + set q | q in st.tabs[t].children
  {
    var ts' := ts + [t];
    assert forall u :: u in ts' <==> u in ts || u == t;
    var lhs := set u, c | u in ts' && 0 <= u < |st.tabs| && c in st.tabs[u].children :: c;
    var rhs := (set u, c | u in ts && 0 <= u < |st.tabs| && c in st.tabs[u].children :: c)
               + set q | q in st.tabs[t].children;
    assert lhs == rhs by {
      forall c | c in lhs ensures c in rhs {
        var u :| u in ts' && 0 <= u < |st.tabs| && c in st.tabs[u].children;
      }
      forall c | c in rhs ensures c in lhs {
        if c in st.tabs[t].children {
          assert t in ts';
        } else {
          var u :| u in ts && 0 <= u < |st.tabs| && c in st.tabs[u].children;
          assert u in ts';
        }
      }
    }
  }

  /** `tabs` is the arena of `st` with exactly the tabs in `done` processed. */
  ghost predicate ProcessedExactly(st: ScanState, tabs: seq<TabNode>, done: set<int>) {
    |tabs| == |st.tabs|
    && forall k :: 0 <= k < |tabs| ==>
         tabs[k] == if k in done then ProcessTab(st.tabs[k], st.recordsByTab) else st.tabs[k]
  }

  /** Processing one more tab of the arena, already processed or not. */
  lemma ProcessOne(st: ScanState, tabs: seq<TabNode>, done: set<int>, k: nat)
    requires ProcessedExactly(st, tabs, done) && k < |tabs|
    ensures ProcessTab(tabs[k], st.recordsByTab) == ProcessTab(st.tabs[k], st.recordsByTab)
    ensures ProcessedExactly(st, tabs[k := ProcessTab(tabs[k], st.recordsByTab)], done + {k})
  {
    ProcessTabTwice(st.tabs[k], st.recordsByTab);
  }

  /** The targets of one more level-1 tab. */
  lemma TargetsOfPrefix(st: ScanState, ts: seq<int>, t: nat)
    requires t < |ts| && 0 <= ts[t] < |st.tabs|
    ensures TargetsOf(st, ts[..t + 1]) == TargetsOf(st, ts[..t]) + {ts[t]} + set q | q in st.tabs[ts[t]].children
  {
    assert ts[..t + 1] == ts[..t] + [ts[t]];
    TargetsOfSnoc(st, ts[..t], ts[t]);
  }

  /** The tabs the grid pass visits: `structure.tabs` and each one's `children`. */
  ghost function GridTargets(st: ScanState): set<int> {
    TargetsOf(st, st.topTabs)
  }

  /** The arena after the grid pass. */
  ghost function Materialise(st: ScanState): (tabs: seq<TabNode>)
    requires Wf(st)
    ensures |tabs| == |st.tabs| && ArenaWf(tabs)
  {
    seq(|st.tabs|, i requires 0 <= i < |st.tabs| =>
      if i in GridTargets(st) then ProcessTab(st.tabs[i], st.recordsByTab) else st.tabs[i])
  }

  /** The arena with exactly the grid targets processed is `Materialise(st)`. */
  lemma MaterialiseExactly(st: ScanState, tabs: seq<TabNode>)
    requires Wf(st) && ProcessedExactly(st, tabs, GridTargets(st))
    ensures tabs == Materialise(st)
  {
  }

  // ---------------------------------------------------------------- the tree

  /** The tab object at index `i`, with everything linked below it. */
  function BuildTab(a: seq<TabNode>, i: nat): (t: TabItem)
    requires ArenaWf(a) && i < |a|
    ensures t.title == a[i].title && t.level == a[i].level
    ensures |t.children| == |a[i].children|
    decreases |a| - i, 1, 0
  {
    var n := a[i];
    TabItem(n.title, n.level, BuildForest(a, n.children, i), TabContent(n.headers, n.rows),
            n.buttons, n.designNotes)
  }

  /** The tab objects at the indices `cs`, in order. */
  function BuildForest(a: seq<TabNode>, cs: seq<int>, lo: int): (ts: seq<TabItem>)
    requires ArenaWf(a) && -1 <= lo && forall k :: 0 <= k < |cs| ==> lo < cs[k] < |a|
    ensures |ts| == |cs|
    ensures forall k :: 0 <= k < |cs| ==> ts[k] == BuildTab(a, cs[k])
    decreases |a| - lo, 0, |cs|
  {
    if cs == [] then [] else [BuildTab(a, cs[0])] + BuildForest(a, cs[1..], lo)
  }
}

