/** `POST /activities/{activity_id}/participants` (`save_participants` in
    backend/main.py): the request's drafts are applied one after the other to
    a database session on the `activity_participants` rows of one activity.
    A draft that participated or holds a position is stored: a row that
    existed before the request is overwritten, otherwise a new object is
    added. Any other draft deletes the row that existed before the request,
    if there is one. The session is opened with autoflush off, so the
    lookups never see what earlier drafts added. The changes become visible
    only at the commit that ends a run without error, and the commit itself
    can be refused. */
module BackendSave {
  import opened Types
  import Text

  /** Primary key of `activity_participants`: (activity_id, student_id). */
  type Key = (int, int)

  /** The non-key columns of an `activity_participants` row; the position
      column is a plain nullable integer. */
  datatype Record = Record(position: Option<int>, teamName: Option<string>)

  datatype SaveError =
    | ActivityNotFound
    | TeamNameRequired(studentId: int)
    | CommitFailed

  /** HTTP status of each refusal. */
  function Status(e: SaveError): (code: int)
    ensures code == 404 <==> e.ActivityNotFound?
    ensures code == 422 <==> e.TeamNameRequired?
    ensures code == 500 <==> e.CommitFailed?
  {
    match e
    case ActivityNotFound => 404
    case TeamNameRequired(_) => 422
    case CommitFailed => 500
  }

  /** The team name column written for a stored draft: null when the draft's
      name is null or "", otherwise the name stripped of surrounding
      whitespace (a whitespace-only name is thus stored as ""). */
  function StoredTeamName(name: Option<string>): (r: Option<string>)
    ensures r.None? <==> (name.None? || name.value == "")
    ensures r.Some? ==> r.value == Text.Strip(Text.PyStrip, name.value)
  {
    if name.Some? && name.value != "" then Some(Text.Strip(Text.PyStrip, name.value)) else None
  }

  function StoredRecord(d: SaveRow): Record {
    Record(d.position, StoredTeamName(d.teamName))
  }

  /** A draft the endpoint refuses: it would be stored, the activity is a
      team activity, it holds a position, and its team name is missing. */
  predicate Violates(isTeam: bool, d: SaveRow) {
    ShouldStore(d) && isTeam && d.position.Some? && TeamNameMissing(Text.PyStrip, d.teamName)
  }

  /** The student id of the first refused draft, if any. */
  function FirstViolation(isTeam: bool, ds: seq<SaveRow>): (r: Option<int>)
    ensures r.None? <==> forall i :: 0 <= i < |ds| ==> !Violates(isTeam, ds[i])
    ensures r.Some? ==> exists i :: 0 <= i < |ds| && Violates(isTeam, ds[i]) && ds[i].studentId == r.value
                                    && forall j :: 0 <= j < i ==> !Violates(isTeam, ds[j])
  {
    if |ds| == 0 then None
    else if Violates(isTeam, ds[0]) then Some(ds[0].studentId)
    else
      var r := FirstViolation(isTeam, ds[1..]);
      assert forall i :: 1 <= i < |ds| ==> ds[i] == ds[1..][i - 1];
      if r.Some? then
        var k :| 0 <= k < |ds| - 1 && Violates(isTeam, ds[1..][k]) && ds[1..][k].studentId == r.value
                 && forall j :: 0 <= j < k ==> !Violates(isTeam, ds[1..][j]);
        assert ds[k + 1] == ds[1..][k];
        r
      else r
  }

  /** The session after some drafts, before the commit. `rows` are the rows
      that existed before the request, with the attributes the loop assigned
      to them; `removed` the ones passed to `db.delete`; `added` the new
      objects passed to `db.add`, by key; `clashes` the keys passed to
      `db.add` more than once; and the two counters of the response. */
  datatype Session = Session(rows: map<Key, Record>, removed: set<Key>, added: map<Key, Record>,
                             clashes: set<Key>, upserted: nat, deleted: nat)

  /** One iteration of the loop. The session is opened with autoflush off,
      so `db.get` finds only a row that existed before the request (a row
      passed to `db.delete` stays in the identity map until the commit) and
      never an object added by an earlier draft. */
  function Step(s: Session, activityId: int, d: SaveRow): Session {
    var key := (activityId, d.studentId);
    if ShouldStore(d) then
      if key in s.rows then s.(rows := s.rows[key := StoredRecord(d)], upserted := s.upserted + 1)
      else s.(added := s.added[key := StoredRecord(d)],
              clashes := if key in s.added then s.clashes + {key} else s.clashes,
              upserted := s.upserted + 1)
    else if key in s.rows then s.(removed := s.removed + {key}, deleted := s.deleted + 1)
    else s
  }

  /** The drafts applied in request order to a session opened on table `t`. */
  function Replay(t: map<Key, Record>, activityId: int, ds: seq<SaveRow>): Session {
    if |ds| == 0 then Session(t, {}, map[], {}, 0, 0)
    else Step(Replay(t, activityId, ds[..|ds| - 1]), activityId, ds[|ds| - 1])
  }

  /** The table the commit writes: the earlier rows not deleted, with their
      new attributes, and the added objects. */
  function Written(s: Session): map<Key, Record> {
    (map k | k in s.rows && k !in s.removed :: s.rows[k]) + s.added
  }

  /** Width of the `team_name` column, `String(100)`. */
  const TeamNameWidth := 100

  predicate TooWide(r: Record) {
    r.teamName.Some? && |r.teamName.value| > TeamNameWidth
  }

  /** The commit is refused when two added objects share a primary key, or
      when a row it inserts or changes has a team name wider than the column. */
  predicate CommitFails(t: map<Key, Record>, s: Session) {
    || s.clashes != {}
    || exists k :: k in Written(s) && TooWide(Written(s)[k]) && (k !in t || Written(s)[k] != t[k])
  }

  /** The table after a committed request, with the two counters of the response. */
  datatype Replayed = Replayed(table: map<Key, Record>, upserted: nat, deleted: nat)

  /** The outcome of one request: 404 for an unknown activity, 422 for the
      first refused draft, 500 when the commit is refused (nothing is
      committed in any of the three), otherwise the written table. */
  function Save(activities: map<int, Activity>, t: map<Key, Record>, activityId: int, ds: seq<SaveRow>)
    : Result<Replayed, SaveError>
  {
    if activityId !in activities then Failure(ActivityNotFound)
    else
      var v := FirstViolation(activities[activityId].isTeam, ds);
      if v.Some? then Failure(TeamNameRequired(v.value))
      else
        var s := Replay(t, activityId, ds);
        if CommitFails(t, s) then Failure(CommitFailed) else Success(Replayed(Written(s), s.upserted, s.deleted))
  }

  /** The database the endpoint works on: the activities it looks up and the
      participation table it changes. */
  class Database {
    var activities: map<int, Activity>
    var table: map<Key, Record>

    constructor(activities: map<int, Activity>, table: map<Key, Record>)
      ensures this.activities == activities && this.table == table
    {
      this.activities := activities;
      this.table := table;
    }

    /** Runs one save request. On an error the table is as before; otherwise
        it is the written table and the response carries both counters. */
    method SaveParticipants(activityId: int, drafts: seq<SaveRow>) returns (r: Result<SaveResponse, SaveError>)
      modifies this`table
      ensures var s := Save(activities, old(table), activityId, drafts);
              && (s.Failure? ==> table == old(table) && r == Failure(s.error))
              && (s.Success? ==> table == s.value.table && r == Success(SaveResponse(s.value.upserted, s.value.deleted)))
    {
      if activityId !in activities {
        return Failure(ActivityNotFound);
      }
      var act := activities[activityId];
      var session := Session(table, {}, map[], {}, 0, 0);
      var i := 0;
      while i < |drafts|
        invariant 0 <= i <= |drafts|
        invariant FirstViolation(act.isTeam, drafts) == FirstViolation(act.isTeam, drafts[i..])
        invariant Replay(table, activityId, drafts[..i]) == session
      {
        var item := drafts[i];
        var shouldStore := item.participated || item.position.Some?;
        if shouldStore && act.isTeam && item.position.Some? {
          if item.teamName.None? || Text.Strip(Text.PyStrip, item.teamName.value) == "" {
            return Failure(TeamNameRequired(item.studentId));
          }
        }
        var key := (activityId, item.studentId);
        var existing := key in session.rows;
        ghost var before := session;
        if shouldStore {
          if existing {
            session := session.(rows := session.rows[key := StoredRecord(item)], upserted := session.upserted + 1);
          } else {
            var clashes := if key in session.added then session.clashes + {key} else session.clashes;
            session := session.(added := session.added[key := StoredRecord(item)], clashes := clashes,
                                upserted := session.upserted + 1);
          }
        } else if existing {
          session := session.(removed := session.removed + {key}, deleted := session.deleted + 1);
        }
        assert session == Step(before, activityId, item);
        assert drafts[..i + 1][..i] == drafts[..i];
        assert drafts[i..][1..] == drafts[i + 1..];
        i := i + 1;
      }
      assert drafts[..i] == drafts;
      if CommitFails(table, session) {
        return Failure(CommitFailed);
      }
      table := Written(session);
      return Success(SaveResponse(session.upserted, session.deleted));
    }
  }

  // ------------------------------------------------------------ properties

  /** The stored drafts of a student, in request order. */
  function StoredFor(ds: seq<SaveRow>, studentId: int): (r: seq<SaveRow>)
    ensures |r| <= |ds|
    ensures forall j :: 0 <= j < |r| ==> r[j].studentId == studentId && ShouldStore(r[j])
    ensures (forall i :: 0 <= i < |ds| ==> ds[i].studentId != studentId) ==> r == []
  {
    if |ds| == 0 then []
    else
      var n := |ds| - 1;
      assert forall i :: 0 <= i < n ==> ds[..n][i] == ds[i];
      StoredFor(ds[..n], studentId) + (if ds[n].studentId == studentId && ShouldStore(ds[n]) then [ds[n]] else [])
  }

  /** Some draft of the student is not stored. */
  predicate HasUnstored(ds: seq<SaveRow>, studentId: int) {
    exists i :: 0 <= i < |ds| && ds[i].studentId == studentId && !ShouldStore(ds[i])
  }

  /** What the session holds for one key after the loop: a row that existed
      before keeps its key, takes the attributes of its student's last stored
      draft, and is deleted when any draft of its student is not stored; a
      new key is added when its student has a stored draft, holding the last
      one, and clashes when it has two. Keys of other activities are left
      alone. */
  lemma {:induction false} ReplayAt(t: map<Key, Record>, activityId: int, ds: seq<SaveRow>, key: Key)
    ensures HoldsAt(t, activityId, ds, key)
  {
    if |ds| > 0 {
      var n := |ds| - 1;
      ReplayAt(t, activityId, ds[..n], key);
      HasUnstoredSnoc(ds, key.1);
      if (activityId, ds[n].studentId) == key {
        ReplayAtOwnDraft(t, activityId, ds, key);
      } else {
        ReplayAtOtherDraft(t, activityId, ds, key);
      }
    }
  }

  /** For one key: a row that existed before keeps its key and takes the
      attributes of its student's last stored draft; it is deleted exactly
      when some draft of its student is not stored; a new key is added
      exactly when its student has a stored draft, holding the last one,
      and clashes exactly when there are two. */
  predicate HoldsAt(t: map<Key, Record>, activityId: int, ds: seq<SaveRow>, key: Key) {
    var s := Replay(t, activityId, ds);
    var mine := key.0 == activityId;
    var stored := StoredFor(ds, key.1);
    && (key in s.rows <==> key in t)
    && (key in t ==> s.rows[key] == if mine && |stored| > 0 then StoredRecord(stored[|stored| - 1]) else t[key])
    && (key in s.removed <==> mine && key in t && HasUnstored(ds, key.1))
    && (key in s.added <==> mine && key !in t && |stored| > 0)
    && (key in s.added ==> s.added[key] == StoredRecord(stored[|stored| - 1]))
    && (key in s.clashes <==> mine && key !in t && |stored| >= 2)
  }

  lemma HasUnstoredSnoc(ds: seq<SaveRow>, studentId: int)
    requires |ds| > 0
    ensures HasUnstored(ds, studentId) <==>
              HasUnstored(ds[..|ds| - 1], studentId) || (ds[|ds| - 1].studentId == studentId && !ShouldStore(ds[|ds| - 1]))
  {
    var n := |ds| - 1;
    if HasUnstored(ds, studentId) && !(ds[n].studentId == studentId && !ShouldStore(ds[n])) {
      var i :| 0 <= i < |ds| && ds[i].studentId == studentId && !ShouldStore(ds[i]);
      assert i < n && ds[..n][i] == ds[i];
    }
    if HasUnstored(ds[..n], studentId) {
      var i :| 0 <= i < n && ds[..n][i].studentId == studentId && !ShouldStore(ds[..n][i]);
      assert ds[i] == ds[..n][i];
    }
  }

  /** The step of `ReplayAt` when the last draft is for `key`. */
  lemma ReplayAtOwnDraft(t: map<Key, Record>, activityId: int, ds: seq<SaveRow>, key: Key)
    requires |ds| > 0 && (activityId, ds[|ds| - 1].studentId) == key
    requires HoldsAt(t, activityId, ds[..|ds| - 1], key)
    requires HasUnstored(ds, key.1) <==>
               HasUnstored(ds[..|ds| - 1], key.1) || !ShouldStore(ds[|ds| - 1])
    ensures HoldsAt(t, activityId, ds, key)
  {
  }

  /** The step of `ReplayAt` when the last draft is for another key. */
  lemma ReplayAtOtherDraft(t: map<Key, Record>, activityId: int, ds: seq<SaveRow>, key: Key)
    requires |ds| > 0 && (activityId, ds[|ds| - 1].studentId) != key
    requires HoldsAt(t, activityId, ds[..|ds| - 1], key)
    requires HasUnstored(ds, key.1) <==>
               HasUnstored(ds[..|ds| - 1], key.1) || (ds[|ds| - 1].studentId == key.1 && !ShouldStore(ds[|ds| - 1]))
    ensures HoldsAt(t, activityId, ds, key)
  {
  }

  /** The table a commit would write, key by key, when no key clashes: an
      earlier row of this activity is gone when some draft of its student is
      not stored, else holds the student's last stored draft, else is
      unchanged; a new row is there exactly when its student has one stored
      draft, and holds it. Rows of other activities are unchanged. */
  lemma WrittenRow(t: map<Key, Record>, activityId: int, ds: seq<SaveRow>, key: Key)
    requires Replay(t, activityId, ds).clashes == {}
    ensures var out := Written(Replay(t, activityId, ds));
            var stored := StoredFor(ds, key.1);
            if key.0 != activityId then (key in out <==> key in t) && (key in t ==> out[key] == t[key])
            else if key in t then
              && (key in out <==> !HasUnstored(ds, key.1))
              && (key in out ==> out[key] == if |stored| > 0 then StoredRecord(stored[|stored| - 1]) else t[key])
            else
              && (key in out <==> |stored| == 1)
              && (key in out ==> out[key] == StoredRecord(stored[0]))
  {
    ReplayAt(t, activityId, ds, key);
    var s := Replay(t, activityId, ds);
    assert key !in s.clashes;
  }

  /** The same, for the table a successful request leaves. */
  lemma SavedRow(activities: map<int, Activity>, t: map<Key, Record>, activityId: int, ds: seq<SaveRow>, key: Key)
    requires Save(activities, t, activityId, ds).Success?
    ensures var out := Save(activities, t, activityId, ds).value.table;
            var stored := StoredFor(ds, key.1);
            if key.0 != activityId then (key in out <==> key in t) && (key in t ==> out[key] == t[key])
            else if key in t then
              && (key in out <==> !HasUnstored(ds, key.1))
              && (key in out ==> out[key] == if |stored| > 0 then StoredRecord(stored[|stored| - 1]) else t[key])
            else
              && (key in out <==> |stored| == 1)
              && (key in out ==> out[key] == StoredRecord(stored[0]))
  {
    WrittenRow(t, activityId, ds, key);
  }

  /** A stored draft is among its student's stored drafts. */
  lemma {:induction false} StoredForHas(ds: seq<SaveRow>, i: nat)
    requires i < |ds| && ShouldStore(ds[i])
    ensures |StoredFor(ds, ds[i].studentId)| >= 1
  {
    var n := |ds| - 1;
    if i < n {
      StoredForHas(ds[..n], i);
    }
  }

  /** Two stored drafts of one student are two of its stored drafts. */
  lemma {:induction false} StoredForTwo(ds: seq<SaveRow>, i: nat, j: nat)
    requires i < j < |ds| && ds[i].studentId == ds[j].studentId && ShouldStore(ds[i]) && ShouldStore(ds[j])
    ensures |StoredFor(ds, ds[i].studentId)| >= 2
  {
    var n := |ds| - 1;
    if j < n {
      StoredForTwo(ds[..n], i, j);
    } else {
      StoredForHas(ds[..n], i);
    }
  }

  /** A request that stores the same new student twice adds two objects with
      one primary key, so the commit is refused. */
  lemma RepeatedNewStudentRefused(activities: map<int, Activity>, t: map<Key, Record>, activityId: int, ds: seq<SaveRow>, i: nat, j: nat)
    requires activityId in activities && FirstViolation(activities[activityId].isTeam, ds).None?
    requires i < j < |ds| && ds[i].studentId == ds[j].studentId && ShouldStore(ds[i]) && ShouldStore(ds[j])
    requires (activityId, ds[i].studentId) !in t
    ensures Save(activities, t, activityId, ds) == Failure(CommitFailed)
  {
    StoredForTwo(ds, i, j);
    ReplayAt(t, activityId, ds, (activityId, ds[i].studentId));
  }

  /** A new student stored and then cleared in the same request keeps the
      inserted row: the second `db.get` does not see the pending object. */
  lemma StoredThenClearedKept()
    ensures var act := Activity(1, 2024, "Relay", Date(2024, 5, 1), false, true);
            Save(map[1 := act], map[], 1, [SaveRow(5, true, None, None), SaveRow(5, false, None, None)])
              == Success(Replayed(map[(1, 5) := Record(None, None)], 1, 0))
  {
    var ds := [SaveRow(5, true, None, None), SaveRow(5, false, None, None)];
    assert ds[..1] == [SaveRow(5, true, None, None)];
    assert ds[..1][..0] == [];
    var s0 := Replay(map[], 1, ds[..1][..0]);
    assert s0 == Session(map[], {}, map[], {}, 0, 0);
    assert StoredRecord(ds[0]) == Record(None, None);
    var s1 := Replay(map[], 1, ds[..1]);
    assert s1 == Step(s0, 1, ds[0]);
    assert s1 == Session(map[], {}, map[(1, 5) := Record(None, None)], {}, 1, 0);
    var s := Replay(map[], 1, ds);
    assert s == Session(map[], {}, map[(1, 5) := Record(None, None)], {}, 1, 0);
    assert Written(s) == map[(1, 5) := Record(None, None)];
    assert !CommitFails(map[], s);
  }

  /** Number of drafts that are stored. */
  function CountStored(ds: seq<SaveRow>): (n: nat)
    ensures n <= |ds|
  {
    if |ds| == 0 then 0
    else CountStored(ds[..|ds| - 1]) + (if ShouldStore(ds[|ds| - 1]) then 1 else 0)
  }

  /** Number of drafts that are not stored and whose student has a row in `t`. */
  function CountRemovable(t: map<Key, Record>, activityId: int, ds: seq<SaveRow>): (n: nat)
    ensures n <= |ds| - CountStored(ds)
  {
    if |ds| == 0 then 0
    else
      var d := ds[|ds| - 1];
      CountRemovable(t, activityId, ds[..|ds| - 1])
        + (if !ShouldStore(d) && (activityId, d.studentId) in t then 1 else 0)
  }

  /** `upserted` counts every stored draft, `deleted` every unstored draft
      whose student had a row before the request (a repeated one included),
      and the two together never exceed the number of drafts. */
  lemma {:induction false} ReplayCounts(t: map<Key, Record>, activityId: int, ds: seq<SaveRow>)
    ensures Replay(t, activityId, ds).upserted == CountStored(ds)
    ensures Replay(t, activityId, ds).deleted == CountRemovable(t, activityId, ds)
    ensures Replay(t, activityId, ds).upserted + Replay(t, activityId, ds).deleted <= |ds|
  {
    if |ds| > 0 {
      var n := |ds| - 1;
      ReplayCounts(t, activityId, ds[..n]);
      ReplayAt(t, activityId, ds[..n], (activityId, ds[n].studentId));
    }
  }

  /** When each student has at most one draft, that draft alone decides: it
      is the student's only stored draft when stored, and the student has an
      unstored draft exactly when it is not stored. */
  lemma {:induction false} DistinctDraft(ds: seq<SaveRow>, i: nat)
    requires forall a, b :: 0 <= a < b < |ds| ==> ds[a].studentId != ds[b].studentId
    requires i < |ds|
    ensures StoredFor(ds, ds[i].studentId) == if ShouldStore(ds[i]) then [ds[i]] else []
    ensures HasUnstored(ds, ds[i].studentId) <==> !ShouldStore(ds[i])
  {
    var n := |ds| - 1;
    if i < n {
      DistinctDraft(ds[..n], i);
      assert ds[..n][i] == ds[i];
      if HasUnstored(ds, ds[i].studentId) {
        var k :| 0 <= k < |ds| && ds[k].studentId == ds[i].studentId && !ShouldStore(ds[k]);
        assert k < n && ds[..n][k] == ds[k];
      }
    } else {
      assert forall k :: 0 <= k < n ==> ds[..n][k].studentId != ds[i].studentId;
    }
  }

  /** The outcome of a request: 404 exactly when the activity is unknown, 422
      naming a refused draft exactly when one exists, 500 exactly when the
      commit is refused, and on success the counters of the response. */
  lemma SaveOutcome(activities: map<int, Activity>, t: map<Key, Record>, activityId: int, ds: seq<SaveRow>)
    ensures var s := Save(activities, t, activityId, ds);
            && (s == Failure(ActivityNotFound) <==> activityId !in activities)
            && (s.Failure? && s.error.TeamNameRequired? <==>
                  activityId in activities && exists i :: 0 <= i < |ds| && Violates(activities[activityId].isTeam, ds[i]))
            && (s.Failure? && s.error.TeamNameRequired? ==>
                  exists i :: 0 <= i < |ds| && Violates(activities[activityId].isTeam, ds[i]) && ds[i].studentId == s.error.studentId)
            && (s == Failure(CommitFailed) <==>
                  && activityId in activities
                  && (forall i :: 0 <= i < |ds| ==> !Violates(activities[activityId].isTeam, ds[i]))
                  && CommitFails(t, Replay(t, activityId, ds)))
            && (s.Success? ==> s.value.upserted == CountStored(ds) && s.value.deleted == CountRemovable(t, activityId, ds))
  {
    ReplayCounts(t, activityId, ds);
  }
}
