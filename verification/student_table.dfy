/** The row handlers of frontend/src/components/StudentTable.tsx. The table
    keeps its drafts in a record keyed by student id; a student without a
    draft is shown with a default draft. Each control sends a partial draft
    to the parent's `setRow`, whose implementation is not part of this
    model: it is taken to merge the patch over the shown draft field by
    field, as the grid's `upsertRow` does. */
module StudentTable {
  import opened Types

  /** `rows[s.id] ?? { student_id: s.id, participated: false, position: null }`. */
  function DraftFor(rows: map<int, SaveRow>, id: int): (d: SaveRow)
    ensures id in rows ==> d == rows[id]
    ensures id !in rows ==> d == SaveRow(id, false, None, None)
    ensures id !in rows ==> !ShouldStore(d) && d.teamName.None?
  {
    if id in rows then rows[id] else SaveRow(id, false, None, None)
  }

  /** The radio button for place `p` is checked exactly when the draft holds `p`. */
  predicate RadioChecked(d: SaveRow, p: Pos) {
    d.position == Some(p)
  }

  /** The team-name input shows `team_name ?? ""`. */
  function ShownTeamName(d: SaveRow): string {
    d.teamName.GetOr("")
  }

  /** A student without a draft is shown with no radio checked, the
      participation box unchecked and an empty team-name input, and saving
      that draft as is would store nothing. */
  lemma DefaultDraftShown(rows: map<int, SaveRow>, id: int)
    requires id !in rows
    ensures var d := DraftFor(rows, id);
            && (forall p: Pos :: !RadioChecked(d, p))
            && !d.participated && ShownTeamName(d) == "" && !ShouldStore(d)
  {
  }

  /** A patch over a draft: absent fields (None) keep the draft's value. */
  datatype DraftPatch = DraftPatch(participated: Option<bool>, position: Option<Option<Pos>>, teamName: Option<Option<string>>)

  function ApplyPatch(d: SaveRow, patch: DraftPatch): SaveRow {
    SaveRow(d.studentId,
            patch.participated.GetOr(d.participated),
            patch.position.GetOr(d.position),
            patch.teamName.GetOr(d.teamName))
  }

  /** Radio `p`: `{ position: p, participated: true }`. */
  function RadioPatch(p: Pos): DraftPatch {
    DraftPatch(Some(true), Some(Some(p)), None)
  }

  /** Team-name input: `{ team_name: text }`. */
  function TeamNamePatch(text: string): DraftPatch {
    DraftPatch(None, None, Some(Some(text)))
  }

  /** Participation checkbox: `{ participated: checked }`; the position is untouched. */
  function CheckboxPatch(checked: bool): DraftPatch {
    DraftPatch(Some(checked), None, None)
  }

  /** "Clear pos": `{ position: null }`; participation is untouched. */
  const ClearPositionPatch := DraftPatch(None, Some(None), None)

  /** "Position set implies participated" for one draft. */
  predicate DraftPolicy(d: SaveRow) {
    d.position.Some? ==> d.participated
  }

  /** The radio selects exactly place `p` among the three radios and marks
      the student as participated; the other fields are kept. */
  lemma RadioSpec(d: SaveRow, p: Pos)
    ensures var r := ApplyPatch(d, RadioPatch(p));
            && r.participated && r.studentId == d.studentId && r.teamName == d.teamName
            && (forall q: Pos :: RadioChecked(r, q) <==> q == p)
  {
  }

  /** "Clear pos" unchecks all radios and keeps participation. */
  lemma ClearPositionSpec(d: SaveRow)
    ensures var r := ApplyPatch(d, ClearPositionPatch);
            && (forall q: Pos :: !RadioChecked(r, q))
            && r.participated == d.participated && r.teamName == d.teamName
  {
  }

  /** Typing a team name shows exactly that text and changes nothing else. */
  lemma TeamNameSpec(d: SaveRow, text: string)
    ensures var r := ApplyPatch(d, TeamNamePatch(text));
            ShownTeamName(r) == text && r.(teamName := d.teamName) == d
  {
  }

  /** The radio, the team-name input and "Clear pos" preserve the policy. */
  lemma HandlersPreservePolicy(d: SaveRow, p: Pos, text: string)
    requires DraftPolicy(d)
    ensures DraftPolicy(ApplyPatch(d, RadioPatch(p)))
    ensures DraftPolicy(ApplyPatch(d, TeamNamePatch(text)))
    ensures DraftPolicy(ApplyPatch(d, ClearPositionPatch))
  {
  }

  /** Unlike the grid's checkbox, this checkbox does not clear the position:
      unchecking a draft that holds a place leaves a draft with a position
      that is not participated. The backend still stores it, since a
      position alone makes a draft stored. */
  lemma UncheckKeepsPosition(d: SaveRow)
    requires d.position.Some?
    ensures var r := ApplyPatch(d, CheckboxPatch(false));
            !DraftPolicy(r) && r.position == d.position && ShouldStore(r)
  {
  }
}
