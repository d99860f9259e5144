/** The records exchanged between the participation grid and the API
    (frontend/src/libs/types.ts, backend/schemas.py), and the optional
    and error-carrying wrappers the rest of the model uses. */
module Types {
  import Text

  datatype Option<+T> = None | Some(value: T) {
    /** `x ?? d` in TypeScript. */
    function GetOr(default: T): T {
      match this
      case Some(v) => v
      case None => default
    }
  }

  datatype Result<+T, +E> = Success(value: T) | Failure(error: E)

  /** A ranked place: 1st, 2nd or 3rd. */
  type Pos = p: int | 1 <= p <= 3 witness 1

  /** Calendar date, as stored in the `activity_date` column. */
  datatype Date = Date(year: nat, month: nat, day: nat)

  datatype Student = Student(id: int, firstName: string, lastName: string, room: int)

  datatype Activity = Activity(id: int, year: int, name: string, date: Date, isTeam: bool, showInUi: bool)

  /** One student's draft in the participation grid; `teamName` is "" when unused. */
  datatype RowState = RowState(participated: bool, position: Option<Pos>, teamName: string)

  /** The row shown and patched for a student the grid has no entry for. */
  const DefaultRow := RowState(false, None, "")

  /** A row is active when the student participated or holds a place. */
  predicate IsActive(r: RowState) {
    r.participated || r.position.Some?
  }

  /** `Partial<RowState>`: each field is either absent (None) or overrides the row's. */
  datatype Patch = Patch(participated: Option<bool>, position: Option<Option<Pos>>, teamName: Option<string>)

  /** One wire row of a save request (`SaveParticipantsRow` / `ParticipantDraft`). */
  datatype SaveRow = SaveRow(studentId: int, participated: bool, position: Option<Pos>, teamName: Option<string>)

  /** The backend stores a draft iff it participated or has a position. */
  predicate ShouldStore(d: SaveRow) {
    d.participated || d.position.Some?
  }

  /** The save endpoint's answer (`SaveParticipantsResponse`). */
  datatype SaveResponse = SaveResponse(upserted: nat, deleted: nat)

  /** One confirmed participant as the fetch endpoint returns it (`ParticipantState`). */
  datatype ParticipantState = ParticipantState(studentId: int, position: Option<Pos>, teamName: Option<string>)

  /** `!name || !name.trim()` in the frontend (`w` is `JsTrim`) and
      `not name or not name.strip()` in the backend (`w` is `PyStrip`): the
      team name is null, or empty or whitespace only for that language. */
  predicate TeamNameMissing(w: Text.Whitespace, name: Option<string>)
    ensures TeamNameMissing(w, name) <==> name.None? || Text.IsBlank(w, name.value)
  {
    Text.StripEmptyIffBlank(w, name.GetOr(""));
    name.None? || Text.Strip(w, name.value) == ""
  }

  /** The set of ids of a roster. */
  function RosterIds(students: seq<Student>): set<int> {
    set i | 0 <= i < |students| :: students[i].id
  }
}
