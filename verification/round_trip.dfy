/** Properties that tie the frontend to the backend: what the grid shows
    after a save followed by a fetch, how the two team-name checks relate,
    and whether the certificate form is accepted by the endpoint. */
module RoundTrip {
  import opened Types
  import opened OrderedGrid
  import Text
  import App
  import BackendSave
  import BackendCertificates
  import CertificatesPage

  // ------------------------------------------------- team-name validation

  /** On a team activity, every active roster row has a team name that is
      blank for JavaScript's `trim()` whenever it is blank for Python's
      `strip()`. Team names of other activities are not sent. */
  predicate TeamNamesAgree(students: seq<Student>, g: Grid, isTeam: bool) {
    isTeam ==>
      forall i :: 0 <= i < |students| && IsActive(GetOr(g, students[i].id)) ==>
        (Text.IsBlank(Text.PyStrip, GetOr(g, students[i].id).teamName) ==>
           Text.IsBlank(Text.JsTrim, GetOr(g, students[i].id).teamName))
  }

  /** On a team activity, every active roster row has a team name that fits
      the `team_name` column once stripped. */
  predicate TeamNamesFit(students: seq<Student>, g: Grid, isTeam: bool) {
    isTeam ==>
      forall i :: 0 <= i < |students| && IsActive(GetOr(g, students[i].id)) ==>
        |Text.Strip(Text.PyStrip, GetOr(g, students[i].id).teamName)| <= BackendSave.TeamNameWidth
  }

  /** Names free of the characters only Python counts as whitespace
      (U+001C to U+001F and U+0085) always agree. */
  lemma NoPythonOnlySpaceAgrees(students: seq<Student>, g: Grid, isTeam: bool)
    requires forall i, k :: 0 <= i < |students| && IsActive(GetOr(g, students[i].id))
                            && 0 <= k < |GetOr(g, students[i].id).teamName| ==>
                            !Text.PythonOnlySpace(GetOr(g, students[i].id).teamName[k])
    ensures TeamNamesAgree(students, g, isTeam)
  {
    forall i | 0 <= i < |students| && IsActive(GetOr(g, students[i].id))
      ensures Text.IsBlank(Text.PyStrip, GetOr(g, students[i].id).teamName) ==>
                Text.IsBlank(Text.JsTrim, GetOr(g, students[i].id).teamName)
    {
      Text.BlankAcrossLanguages(GetOr(g, students[i].id).teamName);
    }
  }

  /** Whatever passes the frontend check also passes the backend's, as long
      as no active team name is blank for Python but not for JavaScript: a
      team activity's payload carries a team name on every active row, and
      the frontend has already refused blank ones. */
  lemma ValidationAgreement(activity: Activity, room: int, students: seq<Student>, g: Grid)
    requires App.PlanSave(Some(activity), Some(room), students, g).Submit?
    requires TeamNamesAgree(students, g, activity.isTeam)
    ensures BackendSave.FirstViolation(activity.isTeam, App.BuildPayload(students, g, activity.isTeam)).None?
  {
    App.PlanSaveSpec(Some(activity), Some(room), students, g);
  }

  /** Without that hypothesis the frontend lets through what the backend
      refuses: a placed team member whose team name is U+001C passes
      `trim()` but not `strip()`, and the save answers 422. */
  lemma ValidationGap()
    ensures var act := Activity(1, 2024, "Relay", Date(2024, 5, 1), true, true);
            var students := [Student(7, "Ada", "Lee", 3)];
            var g: Grid := GridRep([7], map[7 := RowState(true, Some(1), "\U{1C}")]);
            var payload := App.BuildPayload(students, g, true);
            && App.PlanSave(Some(act), Some(3), students, g) == App.Submit(1, 3, payload)
            && BackendSave.Save(map[1 := act], map[], 1, payload) == Failure(BackendSave.TeamNameRequired(7))
            && BackendSave.Status(BackendSave.TeamNameRequired(7)) == 422
  {
    var students := [Student(7, "Ada", "Lee", 3)];
    var g: Grid := GridRep([7], map[7 := RowState(true, Some(1), "\U{1C}")]);
    var rows := App.BuildPayload(students, g, true);
    assert rows == [SaveRow(7, true, Some(1), Some("\U{1C}"))];
    assert !Text.IsSpace(Text.JsTrim, "\U{1C}"[0]);
    assert !TeamNameMissing(Text.JsTrim, Some("\U{1C}"));
    assert App.FirstMissingTeamName(rows[1..]) == None;
    assert App.FirstMissingTeamName(rows) == None;
    assert TeamNameMissing(Text.PyStrip, Some("\U{1C}"));
    assert BackendSave.Violates(true, rows[0]);
  }

  /** The converse fails as well: the backend only asks for a team name when
      a position is set, so a participated row without a position and with
      a blank team name is refused by the frontend but would be accepted by
      the backend. */
  lemma ValidationAsymmetry()
    ensures var act := Activity(1, 2024, "Relay", Date(2024, 5, 1), true, true);
            var students := [Student(7, "Ada", "Lee", 3)];
            var g: Grid := GridRep([7], map[7 := RowState(true, None, " ")]);
            && App.PlanSave(Some(act), Some(3), students, g) == App.MissingTeamName(7)
            && BackendSave.FirstViolation(true, App.BuildPayload(students, g, true)).None?
  {
    var students := [Student(7, "Ada", "Lee", 3)];
    var g: Grid := GridRep([7], map[7 := RowState(true, None, " ")]);
    var rows := App.BuildPayload(students, g, true);
    assert rows == [SaveRow(7, true, None, Some(" "))];
    assert TeamNameMissing(Text.JsTrim, Some(" "));
    assert App.FirstMissingTeamName(rows) == Some(7);
    assert !BackendSave.Violates(true, rows[0]);
  }

  // ------------------------------------------------- save, fetch, refresh

  /** `ps` is what the participants endpoint returns for `activityId` after
      the save: one entry per stored row of a student in `ids`, each student
      once, carrying the stored position and team name. */
  predicate IsFetchOf(ps: seq<ParticipantState>, table: map<BackendSave.Key, BackendSave.Record>, activityId: int, ids: set<int>) {
    && (forall i, j :: 0 <= i < j < |ps| ==> ps[i].studentId != ps[j].studentId)
    && (forall i :: 0 <= i < |ps| ==>
          && ps[i].studentId in ids
          && (activityId, ps[i].studentId) in table
          && table[(activityId, ps[i].studentId)] == BackendSave.Record(ps[i].position, ps[i].teamName))
    && (forall sid :: sid in ids && (activityId, sid) in table ==> exists i :: 0 <= i < |ps| && ps[i].studentId == sid)
  }

  /** The rows the grid should show after a save and refetch: each active
      roster row, marked as participated, with its position, and with its
      team name stripped as Python strips it for a team activity and ""
      otherwise. */
  function ActiveRows(students: seq<Student>, g: Grid, isTeam: bool): map<int, RowState> {
    map sid | sid in RosterIds(students) && IsActive(GetOr(g, sid)) ::
      RowState(true, GetOr(g, sid).position, if isTeam then Text.Strip(Text.PyStrip, GetOr(g, sid).teamName) else "")
  }

  /** Save, then fetch, then `refreshGrid`: when the roster lists each
      student once, on a team activity its active team names agree between
      the two blank checks and fit the column, and the activity the page
      selected is the one the database holds, the save commits and the
      rebuilt grid holds exactly the active roster rows, positions kept and
      team names stripped. */
  lemma SaveFetchRefresh(
    activity: Activity, room: int, students: seq<Student>, g: Grid,
    db: map<int, Activity>, table: map<BackendSave.Key, BackendSave.Record>, ps: seq<ParticipantState>)
    requires forall i, j :: 0 <= i < j < |students| ==> students[i].id != students[j].id
    requires App.PlanSave(Some(activity), Some(room), students, g).Submit?
    requires TeamNamesAgree(students, g, activity.isTeam) && TeamNamesFit(students, g, activity.isTeam)
    requires activity.id in db && db[activity.id].isTeam == activity.isTeam
    ensures var payload := App.BuildPayload(students, g, activity.isTeam);
            var s := BackendSave.Save(db, table, activity.id, payload);
            && s.Success?
            && (IsFetchOf(ps, s.value.table, activity.id, RosterIds(students)) ==>
                  App.Rebuilt(ps).rows == ActiveRows(students, g, activity.isTeam))
  {
    var payload := App.BuildPayload(students, g, activity.isTeam);
    ValidationAgreement(activity, room, students, g);
    SaveStoresActiveRows(students, g, activity.isTeam, table, activity.id);
    RosterCommitAccepted(students, g, activity.isTeam, table, activity.id);
    var session := BackendSave.Replay(table, activity.id, payload);
    var s := BackendSave.Save(db, table, activity.id, payload);
    assert s == Success(BackendSave.Replayed(BackendSave.Written(session), session.upserted, session.deleted));
    var out := s.value.table;
    if IsFetchOf(ps, out, activity.id, RosterIds(students)) {
      RefreshShowsStored(students, g, activity.isTeam, out, activity.id, ps);
    }
  }

  /** The roster payload adds no key twice, and the table the commit writes
      holds, for each roster student, the row `StoredAfterSave` describes. */
  lemma SaveStoresActiveRows(students: seq<Student>, g: Grid, isTeam: bool, table: map<BackendSave.Key, BackendSave.Record>, activityId: int)
    requires forall i, j :: 0 <= i < j < |students| ==> students[i].id != students[j].id
    ensures var session := BackendSave.Replay(table, activityId, App.BuildPayload(students, g, isTeam));
            && session.clashes == {}
            && forall sid :: sid in RosterIds(students) ==>
                 StoredAfterSave(BackendSave.Written(session), activityId, sid, GetOr(g, sid), isTeam)
  {
    var payload := App.BuildPayload(students, g, isTeam);
    var session := BackendSave.Replay(table, activityId, payload);
    forall key ensures key !in session.clashes {
      BackendSave.ReplayAt(table, activityId, payload, key);
      if i :| 0 <= i < |students| && students[i].id == key.1 {
        PayloadOwnRow(students, g, isTeam, i);
      }
    }
    var out := BackendSave.Written(session);
    forall sid | sid in RosterIds(students)
      ensures StoredAfterSave(out, activityId, sid, GetOr(g, sid), isTeam)
    {
      var i :| 0 <= i < |students| && students[i].id == sid;
      PayloadOwnRow(students, g, isTeam, i);
      BackendSave.WrittenRow(table, activityId, payload, (activityId, sid));
    }
  }

  /** When, on a team activity, the active team names fit the column, the
      commit of the roster payload is not refused: no key is added twice, and every row it writes fits the
      `team_name` column. */
  lemma RosterCommitAccepted(students: seq<Student>, g: Grid, isTeam: bool, table: map<BackendSave.Key, BackendSave.Record>, activityId: int)
    requires forall i, j :: 0 <= i < j < |students| ==> students[i].id != students[j].id
    requires TeamNamesFit(students, g, isTeam)
    ensures !BackendSave.CommitFails(table, BackendSave.Replay(table, activityId, App.BuildPayload(students, g, isTeam)))
  {
    var payload := App.BuildPayload(students, g, isTeam);
    var session := BackendSave.Replay(table, activityId, payload);
    SaveStoresActiveRows(students, g, isTeam, table, activityId);
    var out := BackendSave.Written(session);
    forall k | k in out && (k !in table || out[k] != table[k])
      ensures !BackendSave.TooWide(out[k])
    {
      BackendSave.WrittenRow(table, activityId, payload, k);
      if i :| 0 <= i < |students| && students[i].id == k.1 {
        PayloadOwnRow(students, g, isTeam, i);
        if isTeam {
          assert |Text.Strip(Text.PyStrip, GetOr(g, students[i].id).teamName)| <= BackendSave.TeamNameWidth;
        }
      }
    }
  }

  /** Rebuilding from a fetch of such a table gives the active roster rows. */
  lemma RefreshShowsStored(students: seq<Student>, g: Grid, isTeam: bool,
                           out: map<BackendSave.Key, BackendSave.Record>, activityId: int, ps: seq<ParticipantState>)
    requires forall sid :: sid in RosterIds(students) ==> StoredAfterSave(out, activityId, sid, GetOr(g, sid), isTeam)
    requires IsFetchOf(ps, out, activityId, RosterIds(students))
    ensures App.Rebuilt(ps).rows == ActiveRows(students, g, isTeam)
  {
    var rebuilt := App.Rebuilt(ps).rows;
    var want := ActiveRows(students, g, isTeam);
    RefreshKeys(students, g, isTeam, out, activityId, ps);
    App.RebuildSpec(ps);
    forall sid | sid in want ensures rebuilt[sid] == want[sid] {
      var i :| 0 <= i < |ps| && ps[i].studentId == sid;
      assert StoredAfterSave(out, activityId, sid, GetOr(g, sid), isTeam);
      FetchedRow(ps[i], GetOr(g, sid), isTeam, out, activityId);
    }
  }

  /** Rebuilding from such a fetch shows exactly the students with an active row. */
  lemma RefreshKeys(students: seq<Student>, g: Grid, isTeam: bool,
                    out: map<BackendSave.Key, BackendSave.Record>, activityId: int, ps: seq<ParticipantState>)
    requires forall sid :: sid in RosterIds(students) ==> StoredAfterSave(out, activityId, sid, GetOr(g, sid), isTeam)
    requires IsFetchOf(ps, out, activityId, RosterIds(students))
    ensures App.Rebuilt(ps).rows.Keys == ActiveRows(students, g, isTeam).Keys
  {
    var rebuilt := App.Rebuilt(ps).rows;
    var want := ActiveRows(students, g, isTeam);
    App.RebuildSpec(ps);
    forall sid ensures sid in rebuilt <==> sid in want {
      if sid in want {
        assert (activityId, sid) in out;
      }
    }
  }

  /** The row rebuilt from one fetched participant is that student's active row. */
  lemma FetchedRow(p: ParticipantState, r: RowState, isTeam: bool,
                   out: map<BackendSave.Key, BackendSave.Record>, activityId: int)
    requires StoredAfterSave(out, activityId, p.studentId, r, isTeam)
    requires (activityId, p.studentId) in out
    requires out[(activityId, p.studentId)] == BackendSave.Record(p.position, p.teamName)
    ensures IsActive(r)
    ensures App.RowFromParticipant(p) == RowState(true, r.position, if isTeam then Text.Strip(Text.PyStrip, r.teamName) else "")
  {
    assert p.position == r.position;
    assert |Text.Strip(Text.PyStrip, "")| == 0;
  }

  /** After the save, the table row of a roster student is there exactly
      when its grid row is active, and holds that row's position and its
      stripped team name (for a team activity; null otherwise). */
  predicate StoredAfterSave(out: map<BackendSave.Key, BackendSave.Record>, activityId: int, sid: int, r: RowState, isTeam: bool) {
    && ((activityId, sid) in out <==> IsActive(r))
    && ((activityId, sid) in out ==>
          out[(activityId, sid)] == BackendSave.Record(r.position,
            if isTeam && r.teamName != "" then Some(Text.Strip(Text.PyStrip, r.teamName)) else None))
  }

  /** In a payload built from a roster without repeated ids, a student's
      own row alone decides its fate: it is the student's only stored draft
      when the grid row is active, and the student has an unstored draft
      exactly when the grid row is not active. */
  lemma PayloadOwnRow(students: seq<Student>, g: Grid, isTeam: bool, i: nat)
    requires forall a, b :: 0 <= a < b < |students| ==> students[a].id != students[b].id
    requires i < |students|
    ensures var payload := App.BuildPayload(students, g, isTeam);
            var active := IsActive(GetOr(g, students[i].id));
            && BackendSave.StoredFor(payload, students[i].id) == (if active then [payload[i]] else [])
            && (BackendSave.HasUnstored(payload, students[i].id) <==> !active)
  {
    var payload := App.BuildPayload(students, g, isTeam);
    BackendSave.DistinctDraft(payload, i);
  }

  // ---------------------------------------------------- certificate request

  /** The kind the page sends is one the endpoint accepts, and it is a
      position kind exactly when the page asked for an activity. */
  lemma FormKindAccepted(t: CertificatesPage.CertificateType)
    requires t != CertificatesPage.Unselected
    ensures var k := BackendCertificates.ParseTemplateKind(CertificatesPage.TypeValue(t));
            k.Some? && (BackendCertificates.IsPositionKind(k.value) <==> CertificatesPage.IsPositionType(t))
            && (k.value == BackendCertificates.PositionTeam <==> t == CertificatesPage.PositionTeamCert)
  {
  }

  /** An activity offered by the page for a position certificate passes the
      endpoint's activity checks, provided the loaded list is the visible
      activities the database holds (the activities endpoint lists only
      those). */
  lemma OfferedActivityAccepted(t: CertificatesPage.CertificateType, acts: seq<Activity>, db: map<int, Activity>)
    requires CertificatesPage.IsPositionType(t)
    requires forall i :: 0 <= i < |acts| ==> acts[i].showInUi && acts[i].id in db && db[acts[i].id] == acts[i]
    ensures var kind := BackendCertificates.ParseTemplateKind(CertificatesPage.TypeValue(t)).value;
            forall a :: a in CertificatesPage.FilteredActivities(t, acts) ==>
              BackendCertificates.CheckTemplate(kind, db, a.id) == Success(Some(a))
  {
    var kind := BackendCertificates.ParseTemplateKind(CertificatesPage.TypeValue(t)).value;
    FormKindAccepted(t);
    CertificatesPage.FilteredActivitiesSpec(t, acts);
    forall a | a in CertificatesPage.FilteredActivities(t, acts)
      ensures BackendCertificates.CheckTemplate(kind, db, a.id) == Success(Some(a))
    {
      var i :| 0 <= i < |acts| && acts[i] == a;
      LoadedActivityAccepted(kind, db, a, t == CertificatesPage.PositionTeamCert);
    }
  }

  /** A visible activity the database holds, whose team flag matches the
      position kind, passes the activity checks. */
  lemma LoadedActivityAccepted(kind: BackendCertificates.TemplateKind, db: map<int, Activity>, a: Activity, team: bool)
    requires BackendCertificates.IsPositionKind(kind) && (kind == BackendCertificates.PositionTeam <==> team)
    requires a.showInUi && a.id in db && db[a.id] == a && a.isTeam == team
    ensures BackendCertificates.CheckTemplate(kind, db, a.id) == Success(Some(a))
  {
  }
}
