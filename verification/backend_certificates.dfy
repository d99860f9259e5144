/** The recipient logic of `POST /activities/{activity_id}/certificates/ppt`
    (`generate_certificates_ppt` in backend/main.py) and its small helpers:
    the check that the template kind fits the activity, the choice of
    position recipients, the per-student aggregation of non-positional
    participations, the events line, the position label, the award date and
    `_ordinal`. Query results are taken as given sequences, already in the
    order the SQL `ORDER BY` produces. */
module BackendCertificates {
  import opened Types
  import opened Seqs
  import Text
  import BackendSave

  // ------------------------------------------------------------ template kind

  datatype TemplateKind = PositionIndividual | PositionTeam | Participation

  /** The form value of each kind. */
  function KindName(k: TemplateKind): string {
    match k
    case PositionIndividual => "position_individual"
    case PositionTeam => "position_team"
    case Participation => "participation"
  }

  /** The `Literal[...]` form validation: any other value is refused. */
  function ParseTemplateKind(s: string): (r: Option<TemplateKind>)
    ensures r.Some? ==> KindName(r.value) == s
  {
    if s == "position_individual" then Some(PositionIndividual)
    else if s == "position_team" then Some(PositionTeam)
    else if s == "participation" then Some(Participation)
    else None
  }

  /** Every kind's form value is accepted as that kind. */
  lemma ParseKindName(k: TemplateKind)
    ensures ParseTemplateKind(KindName(k)) == Some(k)
  {
  }

  predicate IsPositionKind(k: TemplateKind) {
    k == PositionIndividual || k == PositionTeam
  }

  datatype CertError =
    | ActivityNotFound
    | ActivityHidden
    | ExpectsTeamActivity
    | ExpectsIndividualActivity
    | NoPositionRecipients
    | NoParticipationRecipients

  function Status(e: CertError): (code: int)
    ensures code == 404 <==> e == ActivityNotFound
    ensures code == 400 <==> e != ActivityNotFound
  {
    if e == ActivityNotFound then 404 else 400
  }

  /** The activity checks of a request: a position kind needs an existing,
      visible activity whose team flag matches the kind, and yields it; the
      participation kind ignores the activity id. */
  function CheckTemplate(kind: TemplateKind, activities: map<int, Activity>, activityId: int)
    : Result<Option<Activity>, CertError>
  {
    var needsTeam := kind == PositionTeam;
    if !IsPositionKind(kind) then Success(None)
    else if activityId !in activities then Failure(ActivityNotFound)
    else
      var act := activities[activityId];
      if !act.showInUi then Failure(ActivityHidden)
      else if needsTeam && !act.isTeam then Failure(ExpectsTeamActivity)
      else if !needsTeam && act.isTeam then Failure(ExpectsIndividualActivity)
      else Success(Some(act))
  }

  /** The checks pass exactly for the participation kind, or for a position
      kind whose activity exists, is visible and is a team activity iff the
      kind is `position_team`; each refusal names the first failed check. */
  lemma CheckTemplateSpec(kind: TemplateKind, activities: map<int, Activity>, activityId: int)
    ensures var r := CheckTemplate(kind, activities, activityId);
            && (kind == Participation ==> r == Success(None))
            && (IsPositionKind(kind) ==>
                  && (r.Success? <==> activityId in activities && activities[activityId].showInUi
                                      && activities[activityId].isTeam == (kind == PositionTeam))
                  && (r.Success? ==> r.value == Some(activities[activityId]))
                  && (r == Failure(ActivityNotFound) <==> activityId !in activities)
                  && (r == Failure(ActivityHidden) <==> activityId in activities && !activities[activityId].showInUi)
                  && (r == Failure(ExpectsTeamActivity) <==>
                        activityId in activities && activities[activityId].showInUi
                        && kind == PositionTeam && !activities[activityId].isTeam)
                  && (r == Failure(ExpectsIndividualActivity) <==>
                        activityId in activities && activities[activityId].showInUi
                        && kind == PositionIndividual && activities[activityId].isTeam))
  {
  }

  // ------------------------------------------------------- position recipients

  /** A row of the room query: a student of the room and that student's
      participation row for the activity, if any (an outer join). */
  type RosterRow = (Student, Option<BackendSave.Record>)

  predicate HasPosition(row: RosterRow) {
    row.1.Some? && row.1.value.position.Some?
  }

  /** The indices of the rows whose participation row holds a position. */
  function PositionIndices(rows: seq<RosterRow>): (idx: seq<nat>)
    ensures forall k :: 0 <= k < |idx| ==> idx[k] < |rows| && HasPosition(rows[idx[k]])
    ensures forall k, l :: 0 <= k < l < |idx| ==> idx[k] < idx[l]
    ensures forall i :: 0 <= i < |rows| && HasPosition(rows[i]) ==> i in idx
  {
    if |rows| == 0 then []
    else
      var n := |rows| - 1;
      var p := PositionIndices(rows[..n]);
      assert forall i :: 0 <= i < n ==> rows[..n][i] == rows[i];
      if HasPosition(rows[n]) then p + [n] else p
  }

  /** The position recipients: those rows, in query order, with their row. */
  function WithPosition(rows: seq<RosterRow>): (r: seq<(Student, BackendSave.Record)>)
    ensures |r| == |PositionIndices(rows)|
    ensures forall k :: 0 <= k < |r| ==>
              var i := PositionIndices(rows)[k];
              r[k] == (rows[i].0, rows[i].1.value) && r[k].1.position.Some?
  {
    var idx := PositionIndices(rows);
    seq(|idx|, k requires 0 <= k < |idx| => (rows[idx[k]].0, rows[idx[k]].1.value))
  }

  /** There is no position recipient exactly when no row holds a position. */
  lemma NoPositionRecipientIff(rows: seq<RosterRow>)
    ensures |WithPosition(rows)| == 0 <==> forall i :: 0 <= i < |rows| ==> !HasPosition(rows[i])
  {
    var idx := PositionIndices(rows);
    if |idx| > 0 {
      assert HasPosition(rows[idx[0]]);
    }
    if exists i :: 0 <= i < |rows| && HasPosition(rows[i]) {
      var i :| 0 <= i < |rows| && HasPosition(rows[i]);
      assert i in PositionIndices(rows);
    }
  }

  /** The loop that collects the position recipients, refusing an empty result. */
  method PositionRecipients(rows: seq<RosterRow>) returns (r: Result<seq<(Student, BackendSave.Record)>, CertError>)
    ensures r == if |WithPosition(rows)| == 0 then Failure(NoPositionRecipients) else Success(WithPosition(rows))
  {
    var recipients: seq<(Student, BackendSave.Record)> := [];
    var i := 0;
    while i < |rows|
      invariant 0 <= i <= |rows|
      invariant recipients == WithPosition(rows[..i])
    {
      var (s, ap) := rows[i];
      assert rows[..i + 1][..i] == rows[..i];
      if ap.Some? && ap.value.position.Some? {
        recipients := recipients + [(s, ap.value)];
      }
      i := i + 1;
    }
    assert rows[..i] == rows;
    if |recipients| == 0 {
      return Failure(NoPositionRecipients);
    }
    return Success(recipients);
  }

  /** `POS_LABEL.get(int(position), str(position))`. */
  function PositionLabel(position: int): string {
    if position == 1 then "First"
    else if position == 2 then "Second"
    else if position == 3 then "Third"
    else Text.IntToString(position)
  }

  /** Places 1 to 3 get words, and no two positions get the same label. */
  lemma PositionLabelInjective(p: int, q: int)
    requires PositionLabel(p) == PositionLabel(q)
    ensures p == q
  {
    if !(1 <= p <= 3) && !(1 <= q <= 3) {
      Text.IntToStringInjective(p, q);
    }
  }

  // ----------------------------------------------- participation aggregation

  /** A row of the participation query: a student of the room and one visible
      activity the student took part in without a position. */
  type EventRow = (Student, Activity)

  /** `events_by_student`: a dict in insertion order, from student id to the
      student and the student's activities. */
  datatype Aggregation = Aggregation(order: seq<int>, entries: map<int, (Student, seq<Activity>)>)

  predicate HasActivityId(acts: seq<Activity>, id: int) {
    exists i :: 0 <= i < |acts| && acts[i].id == id
  }

  /** One iteration: a new student gets a one-element list and a new place at
      the end; a known student gets the activity appended unless one with the
      same id is already listed, and keeps its place. */
  function AddEvent(agg: Aggregation, s: Student, a: Activity): Aggregation {
    if s.id !in agg.entries then Aggregation(agg.order + [s.id], agg.entries[s.id := (s, [a])])
    else
      var (student, acts) := agg.entries[s.id];
      Aggregation(agg.order, agg.entries[s.id := (student, if HasActivityId(acts, a.id) then acts else acts + [a])])
  }

  /** Keys listed once each in `order`, exactly the keys of `entries`. */
  predicate OrderMatches(agg: Aggregation) {
    && NoDup(agg.order)
    && (forall k :: k in agg.entries ==> k in agg.order)
    && (forall i :: 0 <= i < |agg.order| ==> agg.order[i] in agg.entries)
  }

  function Aggregate(rows: seq<EventRow>): (agg: Aggregation)
    ensures OrderMatches(agg)
  {
    if |rows| == 0 then Aggregation([], map[])
    else
      var prev := Aggregate(rows[..|rows| - 1]);
      var (s, a) := rows[|rows| - 1];
      AddEvent(prev, s, a)
  }

  function StudentIds(rows: seq<EventRow>): (ids: seq<int>)
    ensures |ids| == |rows| && forall i :: 0 <= i < |rows| ==> ids[i] == rows[i].0.id
  {
    seq(|rows|, i requires 0 <= i < |rows| => rows[i].0.id)
  }

  /** Each entry belongs to its key's student, lists at least one activity,
      and lists no activity id twice. */
  predicate EntriesConsistent(agg: Aggregation) {
    forall k :: k in agg.entries ==>
      && agg.entries[k].0.id == k
      && |agg.entries[k].1| > 0
      && (forall i, j :: 0 <= i < j < |agg.entries[k].1| ==> agg.entries[k].1[i].id != agg.entries[k].1[j].id)
  }

  /** `act` is the activity of some row of student `k`. */
  predicate FromRowOf(rows: seq<EventRow>, k: int, act: Activity) {
    exists i :: 0 <= i < |rows| && rows[i].0.id == k && rows[i].1 == act
  }

  /** Students are listed in the order of their first row. */
  lemma {:induction false} AggregateOrder(rows: seq<EventRow>)
    ensures Aggregate(rows).order == Dedup(StudentIds(rows))
  {
    if |rows| > 0 {
      var n := |rows| - 1;
      AggregateOrder(rows[..n]);
      assert StudentIds(rows)[..n] == StudentIds(rows[..n]);
      var prev := Aggregate(rows[..n]);
      assert rows[n].0.id in prev.entries <==> rows[n].0.id in prev.order;
    }
  }

  /** Each entry belongs to its key's student, lists at least one activity
      and lists no activity id twice. */
  lemma {:induction false} AggregateConsistent(rows: seq<EventRow>)
    ensures EntriesConsistent(Aggregate(rows))
  {
    if |rows| > 0 {
      var n := |rows| - 1;
      AggregateConsistent(rows[..n]);
      var prev := Aggregate(rows[..n]);
      var (s, a) := rows[n];
      if s.id in prev.entries {
        var acts := prev.entries[s.id].1;
        if !HasActivityId(acts, a.id) {
          var acts' := acts + [a];
          assert forall i, j :: 0 <= i < j < |acts'| ==> acts'[i].id != acts'[j].id;
        }
      }
    }
  }

  /** Every listed activity comes from a row of that student. */
  lemma AggregateSound(rows: seq<EventRow>)
    ensures var agg := Aggregate(rows);
            forall k, j :: k in agg.entries && 0 <= j < |agg.entries[k].1| ==> FromRowOf(rows, k, agg.entries[k].1[j])
  {
    var agg := Aggregate(rows);
    forall k, j | k in agg.entries && 0 <= j < |agg.entries[k].1|
      ensures FromRowOf(rows, k, agg.entries[k].1[j])
    {
      AggregateSoundAt(rows, k, j);
    }
  }

  lemma {:induction false} AggregateSoundAt(rows: seq<EventRow>, k: int, j: nat)
    requires k in Aggregate(rows).entries && j < |Aggregate(rows).entries[k].1|
    ensures FromRowOf(rows, k, Aggregate(rows).entries[k].1[j])
  {
    var n := |rows| - 1;
    var p := rows[..n];
    var prev := Aggregate(p);
    var agg := Aggregate(rows);
    var (s, a) := rows[n];
    if k == s.id && (k !in prev.entries || j >= |prev.entries[k].1|) {
      assert rows[n].0.id == k && rows[n].1 == agg.entries[k].1[j];
    } else {
      assert agg.entries[k].1[j] == prev.entries[k].1[j];
      AggregateSoundAt(p, k, j);
      var i :| 0 <= i < |p| && p[i].0.id == k && p[i].1 == prev.entries[k].1[j];
      assert rows[i] == p[i];
    }
  }

  /** Every row's activity id is listed for its student. */
  lemma {:induction false} AggregateComplete(rows: seq<EventRow>)
    ensures var agg := Aggregate(rows);
            forall i :: 0 <= i < |rows| ==>
              rows[i].0.id in agg.entries && HasActivityId(agg.entries[rows[i].0.id].1, rows[i].1.id)
  {
    if |rows| > 0 {
      var n := |rows| - 1;
      var p := rows[..n];
      AggregateComplete(p);
      var prev := Aggregate(p);
      var agg := Aggregate(rows);
      var (s, a) := rows[n];
      forall i | 0 <= i < |rows|
        ensures rows[i].0.id in agg.entries && HasActivityId(agg.entries[rows[i].0.id].1, rows[i].1.id)
      {
        if i < n {
          assert rows[i] == p[i];
          var k := rows[i].0.id;
          var acts := prev.entries[k].1;
          var j :| 0 <= j < |acts| && acts[j].id == rows[i].1.id;
          assert agg.entries[k].1[j] == acts[j];
        } else {
          var acts := agg.entries[s.id].1;
          if s.id !in prev.entries {
            assert acts[0] == a;
          } else if !HasActivityId(prev.entries[s.id].1, a.id) {
            assert acts[|acts| - 1] == a;
          }
        }
      }
    }
  }

  /** The activities of student `k`'s rows, in row order, repeats kept. */
  function ActsOf(rows: seq<EventRow>, k: int): (acts: seq<Activity>)
    ensures |acts| <= |rows|
  {
    if |rows| == 0 then []
    else ActsOf(rows[..|rows| - 1], k) + (if rows[|rows| - 1].0.id == k then [rows[|rows| - 1].1] else [])
  }

  /** Keeps the first activity of each id, in order. */
  function DedupById(acts: seq<Activity>): (r: seq<Activity>)
    ensures forall j :: 0 <= j < |r| ==> r[j] in acts
    ensures forall i :: 0 <= i < |acts| ==> HasActivityId(r, acts[i].id)
    ensures forall i, j :: 0 <= i < j < |r| ==> r[i].id != r[j].id
  {
    if |acts| == 0 then []
    else
      var d := DedupById(acts[..|acts| - 1]);
      var a := acts[|acts| - 1];
      assert forall i :: 0 <= i < |acts| - 1 ==> acts[i] == acts[..|acts| - 1][i];
      if HasActivityId(d, a.id) then d
      else
        assert forall i :: 0 <= i < |acts| - 1 ==> HasActivityId(d + [a], acts[i].id) by {
          forall i | 0 <= i < |acts| - 1 ensures HasActivityId(d + [a], acts[i].id) {
            var j :| 0 <= j < |d| && d[j].id == acts[i].id;
            assert (d + [a])[j] == d[j];
          }
        }
        assert (d + [a])[|d|] == a;
        d + [a]
  }

  /** What `AggregateActivities` states about `rows` and student `k`. */
  predicate ListsActivitiesOf(rows: seq<EventRow>, k: int) {
    && (k in Aggregate(rows).entries <==> |ActsOf(rows, k)| > 0)
    && (k in Aggregate(rows).entries ==> Aggregate(rows).entries[k].1 == DedupById(ActsOf(rows, k)))
  }

  /** A student has an entry exactly when one of the rows is theirs, and the
      entry lists that student's row activities with repeated ids dropped,
      each kept at its first occurrence. */
  lemma {:induction false} AggregateActivities(rows: seq<EventRow>, k: int)
    ensures k in Aggregate(rows).entries <==> |ActsOf(rows, k)| > 0
    ensures k in Aggregate(rows).entries ==> Aggregate(rows).entries[k].1 == DedupById(ActsOf(rows, k))
  {
    if |rows| > 0 {
      var n := |rows| - 1;
      AggregateActivities(rows[..n], k);
      if rows[n].0.id == k {
        ActivitiesOwnRow(rows, k);
      } else {
        ActivitiesOtherRow(rows, k);
      }
    }
  }

  /** The step of `AggregateActivities` when the last row is student `k`'s. */
  lemma ActivitiesOwnRow(rows: seq<EventRow>, k: int)
    requires |rows| > 0 && rows[|rows| - 1].0.id == k
    requires ListsActivitiesOf(rows[..|rows| - 1], k)
    ensures ListsActivitiesOf(rows, k)
  {
    var p := rows[..|rows| - 1];
    var prev := Aggregate(p);
    var (s, a) := rows[|rows| - 1];
    var xs := ActsOf(p, k);
    assert ActsOf(rows, k) == xs + [a];
    assert Aggregate(rows) == AddEvent(prev, s, a);
    if k !in prev.entries {
      assert xs == [];
      assert DedupById([a]) == [a] by { assert [a][..0] == []; }
    } else {
      DedupByIdSnoc(xs, a);
    }
  }

  lemma DedupByIdSnoc(xs: seq<Activity>, a: Activity)
    ensures DedupById(xs + [a]) == if HasActivityId(DedupById(xs), a.id) then DedupById(xs) else DedupById(xs) + [a]
  {
    assert (xs + [a])[..|xs|] == xs;
  }

  /** The step of `AggregateActivities` when the last row is another student's. */
  lemma ActivitiesOtherRow(rows: seq<EventRow>, k: int)
    requires |rows| > 0 && rows[|rows| - 1].0.id != k
    requires ListsActivitiesOf(rows[..|rows| - 1], k)
    ensures ListsActivitiesOf(rows, k)
  {
    var p := rows[..|rows| - 1];
    assert ActsOf(rows, k) == ActsOf(p, k);
  }

  /** `[val for val in events_by_student.values() if val[1]]`. */
  function NonEmptyValues(agg: Aggregation, n: nat): (r: seq<(Student, seq<Activity>)>)
    requires n <= |agg.order|
    requires forall i :: 0 <= i < |agg.order| ==> agg.order[i] in agg.entries
  {
    if n == 0 then []
    else
      var v := agg.entries[agg.order[n - 1]];
      NonEmptyValues(agg, n - 1) + (if |v.1| > 0 then [v] else [])
  }

  function Recipients(rows: seq<EventRow>): seq<(Student, seq<Activity>)> {
    var agg := Aggregate(rows);
    NonEmptyValues(agg, |agg.order|)
  }

  /** On a consistent aggregation the emptiness filter drops nothing: the
      values come out in insertion order. */
  lemma {:induction false} NonEmptyValuesAll(agg: Aggregation, n: nat)
    requires OrderMatches(agg) && EntriesConsistent(agg)
    requires n <= |agg.order|
    ensures NonEmptyValues(agg, n) == seq(n, i requires 0 <= i < n => agg.entries[agg.order[i]])
  {
    if n > 0 {
      NonEmptyValuesAll(agg, n - 1);
      var k := agg.order[n - 1];
      assert k in agg.entries;
      var v := agg.entries[k];
      assert |agg.entries[k].1| > 0;
      assert NonEmptyValues(agg, n) == NonEmptyValues(agg, n - 1) + [v];
      var all := seq(n, i requires 0 <= i < n => agg.entries[agg.order[i]]);
      assert all[..n - 1] == seq(n - 1, i requires 0 <= i < n - 1 => agg.entries[agg.order[i]]);
      assert all == all[..n - 1] + [all[n - 1]];
    }
  }

  /** The recipients are all aggregated students, in order of their first
      row, each with the aggregated list. */
  lemma RecipientsAreAllValues(rows: seq<EventRow>)
    ensures var agg := Aggregate(rows);
            Recipients(rows) == seq(|agg.order|, i requires 0 <= i < |agg.order| => agg.entries[agg.order[i]])
  {
    AggregateConsistent(rows);
    NonEmptyValuesAll(Aggregate(rows), |Aggregate(rows).order|);
  }

  /** There are participation recipients exactly when the query returned a row. */
  lemma NoParticipationRecipientIff(rows: seq<EventRow>)
    ensures |Recipients(rows)| == 0 <==> |rows| == 0
  {
    var agg := Aggregate(rows);
    RecipientsAreAllValues(rows);
    AggregateComplete(rows);
    if |rows| > 0 {
      assert rows[0].0.id in agg.entries;
    }
  }

  /** The aggregation loop: the dict and its insertion order are updated row
      by row, then the non-empty values are taken and an empty result is
      refused. */
  method ParticipationRecipients(rows: seq<EventRow>) returns (r: Result<seq<(Student, seq<Activity>)>, CertError>)
    ensures r == if |Recipients(rows)| == 0 then Failure(NoParticipationRecipients) else Success(Recipients(rows))
  {
    var order: seq<int> := [];
    var eventsByStudent: map<int, (Student, seq<Activity>)> := map[];
    var i := 0;
    while i < |rows|
      invariant 0 <= i <= |rows|
      invariant Aggregation(order, eventsByStudent) == Aggregate(rows[..i])
    {
      var (s, actRow) := rows[i];
      assert rows[..i + 1][..i] == rows[..i];
      if s.id !in eventsByStudent {
        eventsByStudent := eventsByStudent[s.id := (s, [actRow])];
        order := order + [s.id];
      } else {
        var (student, acts) := eventsByStudent[s.id];
        var dup := ContainsActivityId(acts, actRow.id);
        if !dup {
          acts := acts + [actRow];
        }
        eventsByStudent := eventsByStudent[s.id := (student, acts)];
      }
      i := i + 1;
    }
    assert rows[..i] == rows;
    var recipients := NonEmptyValues(Aggregation(order, eventsByStudent), |order|);
    if |recipients| == 0 {
      return Failure(NoParticipationRecipients);
    }
    return Success(recipients);
  }

  /** `any(a.id == id for a in acts)`, stopping at the first match. */
  method ContainsActivityId(acts: seq<Activity>, id: int) returns (found: bool)
    ensures found <==> HasActivityId(acts, id)
  {
    var j := 0;
    while j < |acts|
      invariant 0 <= j <= |acts|
      invariant forall k :: 0 <= k < j ==> acts[k].id != id
    {
      if acts[j].id == id {
        return true;
      }
      j := j + 1;
    }
    return false;
  }

  // ------------------------------------------------------------- events line

  function Names(acts: seq<Activity>): (names: seq<string>)
    ensures |names| == |acts| && forall i :: 0 <= i < |acts| ==> names[i] == acts[i].name
  {
    seq(|acts|, i requires 0 <= i < |acts| => acts[i].name)
  }

  /** `_format_events_str`: the activity names, each once at the place of
      its first occurrence, joined by ", ". */
  method FormatEvents(acts: seq<Activity>) returns (line: string)
    ensures line == Text.Join(Dedup(Names(acts)), ", ")
  {
    var seen: set<string> := {};
    var names: seq<string> := [];
    var i := 0;
    while i < |acts|
      invariant 0 <= i <= |acts|
      invariant names == Dedup(Names(acts)[..i])
      invariant forall x :: x in seen <==> x in names
    {
      var nm := acts[i].name;
      assert Names(acts)[..i + 1][..i] == Names(acts)[..i];
      if nm !in seen {
        seen := seen + {nm};
        names := names + [nm];
      }
      i := i + 1;
    }
    assert Names(acts)[..i] == Names(acts);
    return Text.Join(names, ", ");
  }

  // --------------------------------------------------------------- award date

  /** Chronological order of calendar dates. */
  predicate DateLe(a: Date, b: Date) {
    a.year < b.year || (a.year == b.year && (a.month < b.month || (a.month == b.month && a.day <= b.day)))
  }

  /** `max(...)` of a non-empty list of dates. */
  function MaxDate(ds: seq<Date>): (m: Date)
    requires |ds| > 0
    ensures m in ds
    ensures forall i :: 0 <= i < |ds| ==> DateLe(ds[i], m)
  {
    if |ds| == 1 then ds[0]
    else
      var m := MaxDate(ds[1..]);
      assert forall i :: 1 <= i < |ds| ==> ds[i] == ds[1..][i - 1];
      if DateLe(m, ds[0]) then ds[0] else m
  }

  /** `date.isoformat()`: YYYY-MM-DD with zero padding. */
  function IsoFormat(d: Date): string {
    Text.ZeroPad(d.year, 4) + "-" + Text.ZeroPad(d.month, 2) + "-" + Text.ZeroPad(d.day, 2)
  }

  /** Reads back a YYYY-MM-DD string. */
  function ParseIso(s: string): Option<Date> {
    if |s| == 10 && s[4] == '-' && s[7] == '-'
       && Text.AllDigits(s[..4]) && Text.AllDigits(s[5..7]) && Text.AllDigits(s[8..])
    then Some(Date(Text.ParseDigits(s[..4]), Text.ParseDigits(s[5..7]), Text.ParseDigits(s[8..])))
    else None
  }

  /** A date with a four-digit year and two-digit month and day is rendered
      in ten characters and read back unchanged. */
  lemma IsoFormatRoundTrip(d: Date)
    requires d.year < 10000 && d.month < 100 && d.day < 100
    ensures |IsoFormat(d)| == 10
    ensures ParseIso(IsoFormat(d)) == Some(d)
  {
    var y, m, dd := Text.ZeroPad(d.year, 4), Text.ZeroPad(d.month, 2), Text.ZeroPad(d.day, 2);
    PaddedWidths(d);
    Text.ZeroPadRoundTrip(d.year, 4);
    Text.ZeroPadRoundTrip(d.month, 2);
    Text.ZeroPadRoundTrip(d.day, 2);
    IsoPieces(y, m, dd);
  }

  lemma PaddedWidths(d: Date)
    requires d.year < 10000 && d.month < 100 && d.day < 100
    ensures |Text.ZeroPad(d.year, 4)| == 4 && |Text.ZeroPad(d.month, 2)| == 2 && |Text.ZeroPad(d.day, 2)| == 2
  {
    assert Text.Pow10(2) == 100;
    assert Text.Pow10(4) == 10000;
    Text.ZeroPadLength(d.year, 4);
    Text.ZeroPadLength(d.month, 2);
    Text.ZeroPadLength(d.day, 2);
  }

  /** Where the three fields sit in a YYYY-MM-DD string. */
  lemma IsoPieces(y: string, m: string, d: string)
    requires |y| == 4 && |m| == 2 && |d| == 2
    ensures var s := y + "-" + m + "-" + d;
            |s| == 10 && s[..4] == y && s[4] == '-' && s[5..7] == m && s[7] == '-' && s[8..] == d
  {
  }

  /** The award date of one participation certificate: the form's date when
      one was given and is non-empty, otherwise the latest date among the
      student's activities, otherwise "". */
  function AwardDate(awardDate: Option<string>, acts: seq<Activity>): string {
    if awardDate.Some? && awardDate.value != "" then awardDate.value
    else if |acts| > 0 then IsoFormat(MaxDate(Dates(acts)))
    else ""
  }

  function Dates(acts: seq<Activity>): (ds: seq<Date>)
    ensures |ds| == |acts| && forall i :: 0 <= i < |acts| ==> ds[i] == acts[i].date
  {
    seq(|acts|, i requires 0 <= i < |acts| => acts[i].date)
  }

  /** Without a given date, the award date is the date of one of the
      student's activities, on or after all of them. */
  lemma AwardDateLatest(awardDate: Option<string>, acts: seq<Activity>)
    requires awardDate.None? || awardDate.value == ""
    requires |acts| > 0
    ensures exists i :: 0 <= i < |acts| && AwardDate(awardDate, acts) == IsoFormat(acts[i].date)
                        && forall j :: 0 <= j < |acts| ==> DateLe(acts[j].date, acts[i].date)
  {
    var m := MaxDate(Dates(acts));
    var i :| 0 <= i < |acts| && Dates(acts)[i] == m;
  }

  // ----------------------------------------------------------------- _ordinal

  /** The English suffix: "th" when the last two digits are 10 to 20,
      otherwise by the last digit. Python's `%` by a positive number never
      yields a negative remainder, like Dafny's. */
  function OrdinalSuffix(n: int): string {
    if 10 <= n % 100 <= 20 then "th"
    else if n % 10 == 1 then "st"
    else if n % 10 == 2 then "nd"
    else if n % 10 == 3 then "rd"
    else "th"
  }

  /** `_ordinal(n)`: the number followed by its suffix. The module defines
      this helper but never calls it; position slides use `POS_LABEL`. */
  function Ordinal(n: int): (r: string)
    ensures |r| > |OrdinalSuffix(n)| && r[|r| - |OrdinalSuffix(n)|..] == OrdinalSuffix(n)
    ensures r[..|r| - |OrdinalSuffix(n)|] == Text.IntToString(n)
  {
    Text.IntToString(n) + OrdinalSuffix(n)
  }

  /** "st", "nd" and "rd" go with a last digit of 1, 2 and 3 except for 11,
      12 and 13 (modulo 100); everything else takes "th". */
  lemma OrdinalSuffixSpec(n: int)
    ensures OrdinalSuffix(n) == "st" <==> n % 10 == 1 && n % 100 != 11
    ensures OrdinalSuffix(n) == "nd" <==> n % 10 == 2 && n % 100 != 12
    ensures OrdinalSuffix(n) == "rd" <==> n % 10 == 3 && n % 100 != 13
    ensures OrdinalSuffix(n) == "th" <==> !(n % 10 in {1, 2, 3}) || n % 100 in {11, 12, 13}
  {
    LastDigit(n);
  }

  /** The last digit of `n` is the last digit of its last two digits. */
  lemma LastDigit(n: int)
    ensures n % 10 == (n % 100) % 10
  {
    var q, r := n / 100, n % 100;
    assert n == 10 * (10 * q) + r;
  }
}
