/** The participation grid engine of frontend/src/App.tsx: the `grid` state
    and the operations that replace it (`upsertRow`, `markAll`,
    `refreshGrid`), and the payload build and checks of `saveParticipants`.
    Every operation computes a fresh map and then replaces the state, so a
    grid value that was read earlier is never changed. */
module App {
  import opened Types
  import opened Seqs
  import opened OrderedGrid
  import Text

  // ---------------------------------------------------------------- upsertRow

  /** `{ ...prev, ...patch }`: a field present in the patch wins. */
  function Overlay(prev: RowState, patch: Patch): RowState {
    RowState(
      patch.participated.GetOr(prev.participated),
      patch.position.GetOr(prev.position),
      patch.teamName.GetOr(prev.teamName))
  }

  /** The grid `upsertRow` installs: a copy of `g` whose row for `id` is the
      existing row, or the default row when there is none, overlaid with the
      patch; all other keys keep their rows and the key order is that of `g`,
      with `id` appended when it is new. */
  function Upsert(g: Grid, id: int, patch: Patch): (r: Grid)
    ensures r.rows.Keys == g.rows.Keys + {id}
    ensures forall k :: k in g.rows && k != id ==> r.rows[k] == g.rows[k]
    ensures r.order == if id in g.rows then g.order else g.order + [id]
    ensures var prev := if id in g.rows then g.rows[id] else DefaultRow;
            && r.rows[id].participated == (if patch.participated.Some? then patch.participated.value else prev.participated)
            && r.rows[id].position == (if patch.position.Some? then patch.position.value else prev.position)
            && r.rows[id].teamName == (if patch.teamName.Some? then patch.teamName.value else prev.teamName)
  {
    Set(g, id, Overlay(GetOr(g, id), patch))
  }

  // ------------------------------------------------------------------ markAll

  /** `{ ...prev, participated, position: participated ? prev.position : null }`. */
  function MarkRow(prev: RowState, participated: bool): RowState {
    RowState(participated, if participated then prev.position else None, prev.teamName)
  }

  function MarkEntries(students: seq<Student>, g: Grid, participated: bool): (es: seq<Entry>)
    ensures |es| == |students|
    ensures forall i :: 0 <= i < |es| ==> es[i] == (students[i].id, MarkRow(GetOr(g, students[i].id), participated))
  {
    seq(|students|, i requires 0 <= i < |students| =>
      (students[i].id, MarkRow(GetOr(g, students[i].id), participated)))
  }

  /** The grid `markAll` installs. */
  function MarkedAll(students: seq<Student>, g: Grid, participated: bool): Grid {
    FromEntries(MarkEntries(students, g, participated))
  }

  function Ids(students: seq<Student>): (ids: seq<int>)
    ensures |ids| == |students| && forall i :: 0 <= i < |students| ==> ids[i] == students[i].id
  {
    seq(|students|, i requires 0 <= i < |students| => students[i].id)
  }

  /** markAll keys the new grid by exactly the roster (entries of students
      not on the roster are dropped), in roster order. */
  lemma MarkAllKeys(students: seq<Student>, g: Grid, participated: bool)
    ensures var r := MarkedAll(students, g, participated);
            && (forall k :: k in r.rows <==> k in RosterIds(students))
            && r.order == Dedup(Ids(students))
  {
    var es := MarkEntries(students, g, participated);
    var r := FromEntries(es);
    FromEntriesKeys(es);
    FromEntriesOrder(es);
    assert Keys(es) == Ids(students);
    forall k ensures k in r.rows <==> k in RosterIds(students) {
      if k in RosterIds(students) {
        var i :| 0 <= i < |students| && students[i].id == k;
        assert es[i].0 == k;
      }
    }
  }

  /** Every row of the marked grid has `participated` set to the given
      value, keeps the team name, and keeps the position only when marked
      as participated. */
  lemma MarkAllRows(students: seq<Student>, g: Grid, participated: bool)
    ensures var r := MarkedAll(students, g, participated);
            forall k :: k in r.rows ==>
              && r.rows[k].participated == participated
              && r.rows[k].position == (if participated then GetOr(g, k).position else None)
              && r.rows[k].teamName == GetOr(g, k).teamName
  {
    var es := MarkEntries(students, g, participated);
    var r := FromEntries(es);
    FromEntriesKeys(es);
    forall k | k in r.rows
      ensures r.rows[k] == MarkRow(GetOr(g, k), participated)
    {
      var i :| 0 <= i < |es| && es[i].0 == k;
      FromEntriesUniform(es, i);
    }
  }

  // --------------------------------------------------------------- refreshGrid

  /** A fetched participant becomes a participated row; a missing position
      stays null and a missing team name becomes "". */
  function RowFromParticipant(p: ParticipantState): RowState {
    RowState(true, p.position, p.teamName.GetOr(""))
  }

  function FetchedEntries(ps: seq<ParticipantState>): (es: seq<Entry>)
    ensures |es| == |ps|
    ensures forall i :: 0 <= i < |ps| ==> es[i] == (ps[i].studentId, RowFromParticipant(ps[i]))
  {
    seq(|ps|, i requires 0 <= i < |ps| => (ps[i].studentId, RowFromParticipant(ps[i])))
  }

  /** The grid `refreshGrid` rebuilds from the fetched participants. */
  function Rebuilt(ps: seq<ParticipantState>): Grid {
    FromEntries(FetchedEntries(ps))
  }

  /** The rebuilt grid has an entry exactly for the fetched students; for a
      student fetched more than once the last record wins; every entry is
      participated, with the fetched position and the team name or "". */
  lemma RebuildSpec(ps: seq<ParticipantState>)
    ensures forall k :: k in Rebuilt(ps).rows <==> exists i :: 0 <= i < |ps| && ps[i].studentId == k
    ensures forall k :: k in Rebuilt(ps).rows ==> Rebuilt(ps).rows[k].participated
    ensures forall i :: 0 <= i < |ps| && (forall j :: i < j < |ps| ==> ps[j].studentId != ps[i].studentId) ==>
              Rebuilt(ps).rows[ps[i].studentId] == RowState(true, ps[i].position, ps[i].teamName.GetOr(""))
  {
    var es := FetchedEntries(ps);
    FromEntriesKeys(es);
    forall i | 0 <= i < |ps| && (forall j :: i < j < |ps| ==> ps[j].studentId != ps[i].studentId)
      ensures Rebuilt(ps).rows[ps[i].studentId] == RowState(true, ps[i].position, ps[i].teamName.GetOr(""))
    {
      FromEntriesLastWins(es, i);
    }
    forall k | k in Rebuilt(ps).rows ensures Rebuilt(ps).rows[k].participated {
      var i :| 0 <= i < |es| && es[i].0 == k;
      var last := LastIndexOf(es, i);
      FromEntriesLastWins(es, last);
    }
  }

  /** The last index holding the same key as entry `i`. */
  function LastIndexOf(es: seq<Entry>, i: nat): (last: nat)
    requires i < |es|
    ensures i <= last < |es| && es[last].0 == es[i].0
    ensures forall j :: last < j < |es| ==> es[j].0 != es[i].0
    decreases |es| - i
  {
    if exists j :: i < j < |es| && es[j].0 == es[i].0 then
      var j :| i < j < |es| && es[j].0 == es[i].0;
      LastIndexOf(es, j)
    else i
  }

  // --------------------------------------------------------- saveParticipants

  /** One payload row: `team_name` is sent (as `team_name || ""`, which is
      the team name itself) only for an active row of a team activity, and
      is null otherwise. */
  function PayloadRow(id: int, r: RowState, isTeam: bool): SaveRow {
    SaveRow(id, r.participated, r.position, if isTeam && IsActive(r) then Some(r.teamName) else None)
  }

  /** `students.map(...)`: one row per roster student, in roster order,
      copying the grid row (or the default row); a team name only on active
      rows of a team activity. */
  function BuildPayload(students: seq<Student>, g: Grid, isTeam: bool): (rows: seq<SaveRow>)
    ensures |rows| == |students|
    ensures forall i :: 0 <= i < |students| ==>
              var r := GetOr(g, students[i].id);
              && rows[i].studentId == students[i].id
              && rows[i].participated == r.participated
              && rows[i].position == r.position
              && (rows[i].teamName.Some? <==> isTeam && IsActive(r))
              && (rows[i].teamName.Some? ==> rows[i].teamName.value == r.teamName)
  {
    seq(|students|, i requires 0 <= i < |students| =>
      PayloadRow(students[i].id, GetOr(g, students[i].id), isTeam))
  }

  /** The student id of the first row that would be stored without a usable team name. */
  function FirstMissingTeamName(rows: seq<SaveRow>): Option<int> {
    if |rows| == 0 then None
    else if ShouldStore(rows[0]) && TeamNameMissing(Text.JsTrim, rows[0].teamName) then Some(rows[0].studentId)
    else FirstMissingTeamName(rows[1..])
  }

  /** The check reports nothing iff no stored row lacks a team name, and
      otherwise names the first such row. */
  lemma {:induction false} FirstMissingTeamNameSpec(rows: seq<SaveRow>)
    ensures FirstMissingTeamName(rows).None? <==>
              forall i :: 0 <= i < |rows| ==> !(ShouldStore(rows[i]) && TeamNameMissing(Text.JsTrim, rows[i].teamName))
    ensures FirstMissingTeamName(rows).Some? ==>
              exists i :: 0 <= i < |rows| && rows[i].studentId == FirstMissingTeamName(rows).value
                && ShouldStore(rows[i]) && TeamNameMissing(Text.JsTrim, rows[i].teamName)
                && forall j :: 0 <= j < i ==> !(ShouldStore(rows[j]) && TeamNameMissing(Text.JsTrim, rows[j].teamName))
  {
    if |rows| > 0 {
      FirstMissingTeamNameSpec(rows[1..]);
      assert forall i :: 1 <= i < |rows| ==> rows[i] == rows[1..][i - 1];
      if !(ShouldStore(rows[0]) && TeamNameMissing(Text.JsTrim, rows[0].teamName)) && FirstMissingTeamName(rows).Some? {
        var i :| 0 <= i < |rows[1..]| && rows[1..][i].studentId == FirstMissingTeamName(rows).value
                 && ShouldStore(rows[1..][i]) && TeamNameMissing(Text.JsTrim, rows[1..][i].teamName)
                 && forall j :: 0 <= j < i ==> !(ShouldStore(rows[1..][j]) && TeamNameMissing(Text.JsTrim, rows[1..][j].teamName));
        assert rows[i + 1] == rows[1..][i];
      }
    }
  }

  /** What pressing "save" does before any request is sent. */
  datatype SaveAttempt =
    | NoActivity
    | NoRoom
    | MissingTeamName(studentId: int)
    | Submit(activityId: int, room: int, participants: seq<SaveRow>)

  /** `!selectedRoom`: no room, or room number 0. */
  predicate RoomUnset(room: Option<int>) {
    room.None? || room.value == 0
  }

  function PlanSave(activity: Option<Activity>, room: Option<int>, students: seq<Student>, g: Grid): SaveAttempt {
    if activity.None? then NoActivity
    else if RoomUnset(room) then NoRoom
    else
      var rows := BuildPayload(students, g, activity.value.isTeam);
      var missing := FirstMissingTeamName(rows);
      if activity.value.isTeam && missing.Some? then MissingTeamName(missing.value)
      else Submit(activity.value.id, room.value, rows)
  }

  /** Saving is aborted without an activity, then without a room, then, for
      a team activity, when some active roster row has an empty or
      whitespace-only team name (naming such a student); otherwise the
      payload built from the roster is submitted for the selected activity
      and room. */
  lemma PlanSaveSpec(activity: Option<Activity>, room: Option<int>, students: seq<Student>, g: Grid)
    ensures PlanSave(activity, room, students, g).NoActivity? <==> activity.None?
    ensures PlanSave(activity, room, students, g).NoRoom? <==> activity.Some? && RoomUnset(room)
    ensures PlanSave(activity, room, students, g).MissingTeamName? <==>
              && activity.Some? && !RoomUnset(room) && activity.value.isTeam
              && exists i :: 0 <= i < |students| && IsActive(GetOr(g, students[i].id))
                   && Text.IsBlank(Text.JsTrim, GetOr(g, students[i].id).teamName)
    ensures PlanSave(activity, room, students, g).MissingTeamName? ==>
              exists i :: 0 <= i < |students| && students[i].id == PlanSave(activity, room, students, g).studentId
                && IsActive(GetOr(g, students[i].id)) && Text.IsBlank(Text.JsTrim, GetOr(g, students[i].id).teamName)
    ensures PlanSave(activity, room, students, g).Submit? ==>
              PlanSave(activity, room, students, g)
                == Submit(activity.value.id, room.value, BuildPayload(students, g, activity.value.isTeam))
  {
    if activity.Some? && !RoomUnset(room) && activity.value.isTeam {
      var rows := BuildPayload(students, g, true);
      FirstMissingTeamNameSpec(rows);
      forall i | 0 <= i < |students|
        ensures (ShouldStore(rows[i]) && TeamNameMissing(Text.JsTrim, rows[i].teamName))
                <==> (IsActive(GetOr(g, students[i].id)) && Text.IsBlank(Text.JsTrim, GetOr(g, students[i].id).teamName))
      {
        Text.StripEmptyIffBlank(Text.JsTrim, GetOr(g, students[i].id).teamName);
      }
    }
  }

  /** `activities.find((a) => a.id === id)`: the first activity with that id. */
  function FindActivity(activities: seq<Activity>, id: int): (a: Option<Activity>)
    ensures a.Some? ==> exists i :: 0 <= i < |activities| && activities[i] == a.value && a.value.id == id
                          && forall j :: 0 <= j < i ==> activities[j].id != id
    ensures a.None? ==> forall i :: 0 <= i < |activities| ==> activities[i].id != id
  {
    if |activities| == 0 then None
    else if activities[0].id == id then Some(activities[0])
    else
      var r := FindActivity(activities[1..], id);
      assert forall i :: 1 <= i < |activities| ==> activities[i] == activities[1..][i - 1];
      if r.Some? then
        assert exists i :: 1 <= i < |activities| && activities[i] == r.value
                 && forall j :: 0 <= j < i ==> activities[j].id != id by {
          var i :| 0 <= i < |activities[1..]| && activities[1..][i] == r.value
                   && forall j :: 0 <= j < i ==> activities[1..][j].id != id;
          assert activities[i + 1] == r.value;
        }
        r
      else r
  }

  // ------------------------------------------ "position set implies participated"

  /** The UI policy: a row holding a position is marked as participated. */
  predicate PositionImpliesParticipated(g: Grid) {
    forall k :: k in g.rows && g.rows[k].position.Some? ==> g.rows[k].participated
  }

  /** markAll establishes the policy whatever the previous grid held. */
  lemma MarkAllEstablishesPolicy(students: seq<Student>, g: Grid, participated: bool)
    ensures PositionImpliesParticipated(MarkedAll(students, g, participated))
  {
    MarkAllRows(students, g, participated);
  }

  /** A rebuilt grid satisfies the policy: every fetched row is participated. */
  lemma RebuildEstablishesPolicy(ps: seq<ParticipantState>)
    ensures PositionImpliesParticipated(Rebuilt(ps))
  {
    RebuildSpec(ps);
  }

  // ---------------------------------------------------------------- the state

  /** The messages `alert` shows on the save path: the save's failure, its
      success with the counts the server answered, or a failed reload. */
  datatype Alert =
    | SaveFailed(error: string)
    | Saved(upserted: nat, deleted: nat)
    | LoadFailed(error: string)

  /** The state App.tsx keeps for the participation tab and the operations
      that replace its `grid`. */
  class AppState {
    var students: seq<Student>
    var activities: seq<Activity>
    var selectedActivityId: Option<int>
    var selectedRoom: Option<int>
    var grid: Grid

    /** The initial `useState` values. */
    constructor ()
      ensures students == [] && activities == []
      ensures selectedActivityId == None && selectedRoom == None
      ensures grid == Empty
    {
      students := [];
      activities := [];
      selectedActivityId := None;
      selectedRoom := None;
      grid := Empty;
    }

    /** `activities.find((a) => a.id === Number(selectedActivityId))`, where `Number(null)` is 0. */
    function SelectedActivity(): Option<Activity>
      reads this
    {
      FindActivity(activities, selectedActivityId.GetOr(0))
    }

    method UpsertRow(studentId: int, patch: Patch)
      modifies this`grid
      ensures grid == Upsert(old(grid), studentId, patch)
    {
      var next := grid;
      var prev := GetOr(next, studentId);
      next := Set(next, studentId, Overlay(prev, patch));
      grid := next;
    }

    method MarkAll(participated: bool)
      modifies this`grid
      ensures grid == MarkedAll(students, old(grid), participated)
    {
      var next := Empty;
      var i := 0;
      while i < |students|
        invariant 0 <= i <= |students|
        invariant next == FromEntries(MarkEntries(students, grid, participated)[..i])
      {
        var s := students[i];
        var prev := GetOr(grid, s.id);
        next := Set(next, s.id, MarkRow(prev, participated));
        assert MarkEntries(students, grid, participated)[..i + 1][..i]
            == MarkEntries(students, grid, participated)[..i];
        i := i + 1;
      }
      assert MarkEntries(students, grid, participated)[..i] == MarkEntries(students, grid, participated);
      grid := next;
    }

    /** Rebuilds the grid from the fetched participants; a failed fetch
        leaves the grid as it was and is reported. */
    method RefreshGrid(fetched: Result<seq<ParticipantState>, string>) returns (alert: Option<Alert>)
      modifies this`grid
      ensures fetched.Success? ==> grid == Rebuilt(fetched.value) && alert == None
      ensures fetched.Failure? ==> grid == old(grid) && alert == Some(LoadFailed(fetched.error))
    {
      if fetched.Failure? {
        return Some(LoadFailed(fetched.error));
      }
      var participants := fetched.value;
      var next := Empty;
      var i := 0;
      while i < |participants|
        invariant 0 <= i <= |participants|
        invariant next == FromEntries(FetchedEntries(participants)[..i])
      {
        var p := participants[i];
        next := Set(next, p.studentId, RowState(true, p.position, p.teamName.GetOr("")));
        assert FetchedEntries(participants)[..i + 1][..i] == FetchedEntries(participants)[..i];
        i := i + 1;
      }
      assert FetchedEntries(participants)[..i] == FetchedEntries(participants);
      grid := next;
      return None;
    }

    /** The guards, payload build and team-name check of `saveParticipants`,
        up to the request; nothing in the state changes. */
    method SaveParticipants() returns (attempt: SaveAttempt)
      ensures attempt == PlanSave(SelectedActivity(), selectedRoom, students, grid)
    {
      var activity := SelectedActivity();
      if activity.None? {
        return NoActivity;
      }
      if selectedRoom.None? || selectedRoom.value == 0 {
        return NoRoom;
      }
      var participants := BuildPayload(students, grid, activity.value.isTeam);
      if activity.value.isTeam {
        var i := 0;
        while i < |participants|
          invariant 0 <= i <= |participants|
          invariant FirstMissingTeamName(participants) == FirstMissingTeamName(participants[i..])
        {
          var row := participants[i];
          var shouldStore := row.participated || row.position.Some?;
          if shouldStore && TeamNameMissing(Text.JsTrim, row.teamName) {
            return MissingTeamName(row.studentId);
          }
          assert participants[i..][1..] == participants[i + 1..];
          i := i + 1;
        }
      }
      return Submit(activity.value.id, selectedRoom.value, participants);
    }

    /** What follows a submitted save: a rejected request leaves the grid
        untouched and reports the error; an accepted one reports the counts
        the server answered, then re-fetches and rebuilds the grid from the
        server's rows, reporting a failed fetch after the counts. */
    method FinishSave(response: Result<SaveResponse, string>, refetched: Result<seq<ParticipantState>, string>)
      returns (alerts: seq<Alert>)
      modifies this`grid
      ensures response.Failure? ==> grid == old(grid) && alerts == [SaveFailed(response.error)]
      ensures response.Success? ==> |alerts| >= 1 && alerts[0] == Saved(response.value.upserted, response.value.deleted)
      ensures response.Success? && refetched.Success? ==> grid == Rebuilt(refetched.value) && |alerts| == 1
      ensures response.Success? && refetched.Failure? ==>
                grid == old(grid) && alerts == [Saved(response.value.upserted, response.value.deleted), LoadFailed(refetched.error)]
    {
      if response.Failure? {
        return [SaveFailed(response.error)];
      }
      alerts := [Saved(response.value.upserted, response.value.deleted)];
      var failed := RefreshGrid(refetched);
      if failed.Some? {
        alerts := alerts + [failed.value];
      }
    }
  }
}
