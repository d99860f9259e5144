/** The certificate form of frontend/src/pages/Certificates.tsx: the
    activity list offered for each certificate type, the placeholder hint,
    and the checks and form fields of "Generate PPT". */
module CertificatesPage {
  import opened Types
  import Text

  /** The type select; `""` is the unselected state. */
  datatype CertificateType = Unselected | ParticipationCert | PositionIndividualCert | PositionTeamCert

  /** The select's value, sent as `template_kind`. */
  function TypeValue(t: CertificateType): string {
    match t
    case Unselected => ""
    case ParticipationCert => "participation"
    case PositionIndividualCert => "position_individual"
    case PositionTeamCert => "position_team"
  }

  /** `certificateType.startsWith('position')`. */
  predicate IsPositionType(t: CertificateType) {
    t == PositionIndividualCert || t == PositionTeamCert
  }

  /** The indices of the activities whose team flag is `team`: increasing,
      each such activity, and every such activity. */
  function FlagIndices(acts: seq<Activity>, team: bool): (idx: seq<nat>)
    ensures forall k :: 0 <= k < |idx| ==> idx[k] < |acts| && acts[idx[k]].isTeam == team
    ensures forall k, l :: 0 <= k < l < |idx| ==> idx[k] < idx[l]
    ensures forall i :: 0 <= i < |acts| && acts[i].isTeam == team ==> i in idx
  {
    if |acts| == 0 then []
    else
      var n := |acts| - 1;
      var p := FlagIndices(acts[..n], team);
      assert forall i :: 0 <= i < n ==> acts[..n][i] == acts[i];
      if acts[n].isTeam == team then p + [n] else p
  }

  /** `activities.filter(...)` on the team flag: the activities at those
      indices, so in list order and with repeats kept. */
  function WithTeamFlag(acts: seq<Activity>, team: bool): (r: seq<Activity>)
    ensures |r| == |FlagIndices(acts, team)|
    ensures forall k :: 0 <= k < |r| ==> r[k] == acts[FlagIndices(acts, team)[k]]
    ensures forall i :: 0 <= i < |r| ==> r[i].isTeam == team && r[i] in acts
    ensures forall i :: 0 <= i < |acts| && acts[i].isTeam == team ==> acts[i] in r
  {
    var idx := FlagIndices(acts, team);
    var r := seq(|idx|, k requires 0 <= k < |idx| => acts[idx[k]]);
    assert forall i :: 0 <= i < |acts| && acts[i].isTeam == team ==> acts[i] in r by {
      forall i | 0 <= i < |acts| && acts[i].isTeam == team ensures acts[i] in r {
        var k :| 0 <= k < |idx| && idx[k] == i;
        assert r[k] == acts[i];
      }
    }
    r
  }

  /** `filteredActivities`: individual activities for `position_individual`,
      team activities for `position_team`, none otherwise. */
  function FilteredActivities(t: CertificateType, acts: seq<Activity>): seq<Activity> {
    if t == PositionIndividualCert then WithTeamFlag(acts, false)
    else if t == PositionTeamCert then WithTeamFlag(acts, true)
    else []
  }

  /** An offered activity is one of the loaded activities, of the kind the
      type asks for; every loaded activity of that kind is offered; only the
      position types offer any. */
  lemma FilteredActivitiesSpec(t: CertificateType, acts: seq<Activity>)
    ensures var r := FilteredActivities(t, acts);
            && (!IsPositionType(t) ==> r == [])
            && (forall a :: a in r ==> a in acts && a.isTeam == (t == PositionTeamCert))
            && (IsPositionType(t) ==> forall a :: a in acts && a.isTeam == (t == PositionTeamCert) ==> a in r)
  {
    var r := FilteredActivities(t, acts);
    if IsPositionType(t) {
      forall a | a in acts && a.isTeam == (t == PositionTeamCert) ensures a in r {
        var i :| 0 <= i < |acts| && acts[i] == a;
      }
    }
  }

  /** The placeholder hints, in the order shown. */
  function PlaceholderList(t: CertificateType): seq<string> {
    match t
    case PositionIndividualCert => ["{NAME}", "{EVENT DATE}", "{EVENT}", "{POSITION}"]
    case PositionTeamCert => ["{NAME}", "{EVENT DATE}", "{EVENT}", "{POSITION}", "{TEAM_NAME}"]
    case ParticipationCert => ["{NAME}", "{AWARD_DATE}", "{EVENTS}"]
    case Unselected => []
  }

  /** `getPlaceholders()`: the hints joined by ", ". */
  function Placeholders(t: CertificateType): string {
    Text.Join(PlaceholderList(t), ", ")
  }

  /** The hint is empty exactly when no type is selected. */
  lemma PlaceholdersEmptyIff(t: CertificateType)
    ensures Placeholders(t) == "" <==> t == Unselected
  {
    var xs := PlaceholderList(t);
    if t != Unselected {
      assert |xs[0]| > 0;
      assert |Placeholders(t)| >= |xs[0]|;
    }
  }

  /** The team-name hint is shown for team position certificates only. */
  lemma TeamHintOnlyForTeam(t: CertificateType)
    ensures "{TEAM_NAME}" in PlaceholderList(t) <==> t == PositionTeamCert
  {
    var xs := PlaceholderList(t);
    if t != PositionTeamCert {
      assert forall i :: 0 <= i < |xs| ==> |xs[i]| != |"{TEAM_NAME}"| || xs[i][1] != 'T';
    } else {
      assert xs[4] == "{TEAM_NAME}";
    }
  }

  /** Both position types start with the individual hints, and the team
      hint line is the individual one with the team name appended. */
  lemma PositionHintsShared(t: CertificateType)
    ensures IsPositionType(t) ==> PlaceholderList(t)[..4] == PlaceholderList(PositionIndividualCert)
    ensures Placeholders(PositionTeamCert) == Placeholders(PositionIndividualCert) + ", {TEAM_NAME}"
  {
    var ind := PlaceholderList(PositionIndividualCert);
    assert PlaceholderList(PositionTeamCert) == ind + ["{TEAM_NAME}"];
    Text.JoinSnoc(ind, "{TEAM_NAME}", ", ");
  }

  /** The uploaded template, as far as the form is concerned. */
  datatype Upload = Upload(fileName: string, content: seq<int>)

  datatype FormValue = Field(text: string) | File(upload: Upload)

  datatype FormEntry = FormEntry(name: string, value: FormValue)

  /** The names of the form's entries, in the order they were set. */
  function FormNames(form: seq<FormEntry>): (names: seq<string>)
    ensures |names| == |form| && forall i :: 0 <= i < |form| ==> names[i] == form[i].name
  {
    seq(|form|, i requires 0 <= i < |form| => form[i].name)
  }

  /** `form.set(name, value)` on a name the form does not hold yet: the
      entry is appended. */
  function FormSet(form: seq<FormEntry>, name: string, value: FormValue): (r: seq<FormEntry>)
    requires name !in FormNames(form)
    ensures FormNames(r) == FormNames(form) + [name]
    ensures |r| == |form| + 1 && r[..|form|] == form && r[|form|] == FormEntry(name, value)
  {
    var r := form + [FormEntry(name, value)];
    assert FormNames(r) == FormNames(form) + [name];
    r
  }

  /** The `FormData` of the request, filled in the order `onGeneratePpt` sets it. */
  method FillForm(room: int, year: string, certificateType: CertificateType, awardDate: string, file: Upload)
    returns (form: seq<FormEntry>)
    ensures FormNames(form) == ["room", "school_year", "template_kind"]
                               + (if awardDate != "" then ["award_date"] else []) + ["template"]
    ensures form[0].value == Field(Text.IntToString(room))
    ensures form[1].value == Field(year)
    ensures form[2].value == Field(TypeValue(certificateType))
    ensures awardDate != "" ==> form[3].value == Field(awardDate)
    ensures form[|form| - 1].value == File(file)
  {
    form := FormSet([], "room", Field(Text.IntToString(room)));
    assert FormNames(form) == ["room"];
    form := FormSet(form, "school_year", Field(year));
    assert FormNames(form) == ["room", "school_year"];
    form := FormSet(form, "template_kind", Field(TypeValue(certificateType)));
    ghost var names := ["room", "school_year", "template_kind"];
    assert FormNames(form) == names;
    if awardDate != "" {
      form := FormSet(form, "award_date", Field(awardDate));
      names := names + ["award_date"];
      assert FormNames(form) == names;
    }
    assert "template" !in names;
    form := FormSet(form, "template", File(file));
  }

  /** The check that stopped "Generate PPT", in the order they run. */
  datatype Missing = MissingYear | MissingRoom | MissingType | MissingActivity | MissingFile

  datatype GenerateOutcome =
    | Stopped(missing: Missing)
    | Request(activityId: int, form: seq<FormEntry>)

  /** `onGeneratePpt` up to the request: the five checks in order (an empty
      year, a room 0 and an activity id 0 count as unselected, as they are
      falsy), then the form filled field by field. Participation
      certificates are requested for activity 0; `award_date` is sent only
      when non-empty. */
  method OnGeneratePpt(selectedYear: Option<string>, selectedRoom: Option<int>, certificateType: CertificateType,
                       selectedActivityId: Option<int>, pptFile: Option<Upload>, awardDate: string)
    returns (out: GenerateOutcome)
    ensures var noYear := selectedYear.None? || selectedYear.value == "";
            var noRoom := selectedRoom.None? || selectedRoom.value == 0;
            var noType := certificateType == Unselected;
            var noActivity := IsPositionType(certificateType) && (selectedActivityId.None? || selectedActivityId.value == 0);
            && (out == Stopped(MissingYear) <==> noYear)
            && (out == Stopped(MissingRoom) <==> !noYear && noRoom)
            && (out == Stopped(MissingType) <==> !noYear && !noRoom && noType)
            && (out == Stopped(MissingActivity) <==> !noYear && !noRoom && !noType && noActivity)
            && (out == Stopped(MissingFile) <==> !noYear && !noRoom && !noType && !noActivity && pptFile.None?)
    ensures out.Request? ==>
              && out.activityId == (if certificateType == ParticipationCert then 0 else selectedActivityId.value)
              && FormNames(out.form) == ["room", "school_year", "template_kind"]
                                        + (if awardDate != "" then ["award_date"] else []) + ["template"]
              && out.form[0].value == Field(Text.IntToString(selectedRoom.value))
              && out.form[1].value == Field(selectedYear.value)
              && out.form[2].value == Field(TypeValue(certificateType))
              && (awardDate != "" ==> out.form[3].value == Field(awardDate))
              && out.form[|out.form| - 1].value == File(pptFile.value)
  {
    if selectedYear.None? || selectedYear.value == "" {
      return Stopped(MissingYear);
    }
    if selectedRoom.None? || selectedRoom.value == 0 {
      return Stopped(MissingRoom);
    }
    if certificateType == Unselected {
      return Stopped(MissingType);
    }
    if IsPositionType(certificateType) && (selectedActivityId.None? || selectedActivityId.value == 0) {
      return Stopped(MissingActivity);
    }
    if pptFile.None? {
      return Stopped(MissingFile);
    }
    var form := FillForm(selectedRoom.value, selectedYear.value, certificateType, awardDate, pptFile.value);
    var activityId := if certificateType == ParticipationCert then 0 else selectedActivityId.value;
    return Request(activityId, form);
  }
}
