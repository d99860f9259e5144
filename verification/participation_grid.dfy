/** The per-row edit handlers of
    frontend/src/components/participation/ParticipationGrid.tsx. The view
    shows `grid.get(id) || { participated: false, position: null,
    team_name: "" }` (OrderedGrid.GetOr) for each roster student and sends
    one of three patches to `upsertRow` (App.Upsert). */
module ParticipationGrid {
  import opened Types
  import opened OrderedGrid
  import opened App

  /** The "participated" checkbox: checking keeps the stored position (null
      when the student has no row), unchecking clears it. */
  function CheckboxPatch(g: Grid, id: int, checked: bool): Patch {
    var stored := if id in g.rows then g.rows[id].position else None;
    Patch(Some(checked), Some(if checked then stored else None), None)
  }

  /** The position select: "-" (None) or 1, 2, 3; either way the student is
      marked as participated. */
  function PositionPatch(choice: Option<Pos>): Patch {
    Patch(Some(true), Some(choice), None)
  }

  /** The team-name input patches only the team name. */
  function TeamNamePatch(text: string): Patch {
    Patch(None, None, Some(text))
  }

  /** After the checkbox, the row is participated iff checked, keeps its
      position only when checked, and keeps its team name. */
  lemma CheckboxSpec(g: Grid, id: int, checked: bool)
    ensures var r := Upsert(g, id, CheckboxPatch(g, id, checked)).rows[id];
            && r.participated == checked
            && r.position == (if checked then GetOr(g, id).position else None)
            && r.teamName == GetOr(g, id).teamName
  {
  }

  /** After the select, the row holds the chosen position (or none for "-")
      and is participated; the team name is kept. */
  lemma PositionSpec(g: Grid, id: int, choice: Option<Pos>)
    ensures var r := Upsert(g, id, PositionPatch(choice)).rows[id];
            r.participated && r.position == choice && r.teamName == GetOr(g, id).teamName
  {
  }

  /** After a team-name edit, only the team name differs from the shown row. */
  lemma TeamNameSpec(g: Grid, id: int, text: string)
    ensures Upsert(g, id, TeamNamePatch(text)).rows[id] == GetOr(g, id).(teamName := text)
  {
  }

  /** Each of the three handlers preserves "position set implies participated". */
  lemma HandlersPreservePolicy(g: Grid, id: int, checked: bool, choice: Option<Pos>, text: string)
    requires PositionImpliesParticipated(g)
    ensures PositionImpliesParticipated(Upsert(g, id, CheckboxPatch(g, id, checked)))
    ensures PositionImpliesParticipated(Upsert(g, id, PositionPatch(choice)))
    ensures PositionImpliesParticipated(Upsert(g, id, TeamNamePatch(text)))
  {
    assert GetOr(g, id).position.Some? ==> GetOr(g, id).participated;
  }
}
