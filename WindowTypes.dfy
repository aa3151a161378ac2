/** The window description the parser builds (lib/types.ts). The parser
    always fills `children`, `content` and `designNotes`, so those are plain
    fields here; `buttons`, `globalButtons` and `cellReference` stay optional,
    because the parser leaves them undefined. A note's `position` is never set
    by the parser and is not modelled. */
module WindowTypes {
  import opened Wrappers

  datatype NoteType = Note | Tip | Warning

  /** The table cell a note is pinned to. */
  datatype CellReference = CellReference(rowIndex: int, columnIndex: nat, headerName: string)

  /** `id` stands for the source's time-and-random string: here a serial number
      unique within one parse. */
  datatype DesignNote = DesignNote(id: nat, text: string, noteType: NoteType,
                                   cellReference: Option<CellReference>)

  datatype Button = Button(labelText: string, context: Option<string>)

  datatype TabContent = TabContent(headers: seq<string>, rows: seq<seq<string>>)

  datatype TabItem = TabItem(title: string, level: nat, children: seq<TabItem>,
                             content: TabContent, buttons: Option<seq<Button>>,
                             designNotes: seq<DesignNote>)

  datatype WindowStructure = WindowStructure(title: string, tabs: seq<TabItem>,
                                             globalButtons: Option<seq<Button>>,
                                             globalDesignNotes: seq<DesignNote>)
}
