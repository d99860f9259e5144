/** The JSON backup of frontend/src/components/ExportPanel.tsx: the roster,
    the activities and the grid's entries, each entry spelled out as
    `{ student_id, ...row }`. Turning the document into text and handing it
    to the browser (download, new tab, clipboard, "Save As") is not part of
    this model. */
module ExportPanel {
  import opened Types
  import opened OrderedGrid

  /** One element of `selection`. */
  datatype SelectionEntry = SelectionEntry(studentId: int, participated: bool, position: Option<Pos>, teamName: string)

  datatype ExportDocument = ExportDocument(students: seq<Student>, activities: seq<Activity>, selection: seq<SelectionEntry>)

  function EntryRow(e: SelectionEntry): RowState {
    RowState(e.participated, e.position, e.teamName)
  }

  /** `buildPayload`: roster and activities as given, and one selection entry
      per grid key, in the grid's insertion order, carrying that key's row. */
  function BuildPayload(students: seq<Student>, activities: seq<Activity>, g: Grid): (doc: ExportDocument)
    ensures doc.students == students && doc.activities == activities
    ensures |doc.selection| == |g.order|
    ensures forall i :: 0 <= i < |g.order| ==>
              doc.selection[i].studentId == g.order[i] && EntryRow(doc.selection[i]) == g.rows[g.order[i]]
  {
    var sel := seq(|g.order|, i requires 0 <= i < |g.order| =>
      var r := g.rows[g.order[i]];
      SelectionEntry(g.order[i], r.participated, r.position, r.teamName));
    ExportDocument(students, activities, sel)
  }

  /** The selection read back as grid entries. */
  function SelectionEntries(sel: seq<SelectionEntry>): (es: seq<Entry>)
    ensures |es| == |sel|
  {
    seq(|sel|, i requires 0 <= i < |sel| => (sel[i].studentId, EntryRow(sel[i])))
  }

  /** The backup loses nothing: filling a fresh map from the exported
      selection gives back the grid, rows and key order alike. */
  lemma ExportRestoresGrid(students: seq<Student>, activities: seq<Activity>, g: Grid)
    ensures FromEntries(SelectionEntries(BuildPayload(students, activities, g).selection)) == g
  {
    assert SelectionEntries(BuildPayload(students, activities, g).selection) == Entries(g);
    EntriesRebuild(g);
  }

  /** Each student appears at most once in the selection. */
  lemma ExportSelectionDistinct(students: seq<Student>, activities: seq<Activity>, g: Grid)
    ensures var sel := BuildPayload(students, activities, g).selection;
            forall i, j :: 0 <= i < j < |sel| ==> sel[i].studentId != sel[j].studentId
  {
  }
}
