# Sunny Days Afterschool: participation and certificates

This project is a Dafny model of two paths through the afterschool web app.

The first path is **participation**. The React page keeps a participation
grid: a JavaScript `Map` from student id to a row. A row records whether the
student participated, an optional place (1st, 2nd or 3rd) and a team name.
The page and its tables patch the grid. The export panel turns it into a JSON
snapshot. On save, the page checks team names, builds one draft per roster
student and posts them. The FastAPI endpoint `save_participants` validates the
drafts, then upserts or deletes one `activity_participants` row per draft in
a single transaction. The page then refetches and rebuilds the grid.

The second path is **certificates**. The certificates page chooses a template
kind, filters the activities it offers, shows placeholder hints and refuses
to submit until a year, a room, a type and a template file are chosen, plus
an activity for a position certificate. The backend checks the template
kind against the activity. It collects the position recipients, or groups
positionless participations per student. It formats the events line and the
award date, and labels places.

Modules, one per source file, plus shared helpers:

- `Text`: Python's `strip()` and JavaScript's `trim()`, each on its own
  whitespace set, `join`, decimal rendering and zero padding.
- `Seqs`: keep-first-occurrence deduplication.
- `Types`: the wire records.
- `OrderedGrid`: a `Map` with its insertion order.
- `App` (App.tsx): the class `AppState` holds the page state. Its methods
  replace the `grid` field as `setGrid` does.
- `ParticipationGrid`, `StudentTable`, `ExportPanel`: the UI components.
- `BackendSave` (`save_participants`): the class `Database` holds the
  participation table. Its method runs the loop on a session and commits
  only when the loop finishes and the commit is not refused.
- `BackendCertificates` (`generate_certificates_ppt` and its helpers).
- `CertificatesPage` (Certificates.tsx).
- `RoundTrip`: properties that connect the frontend to the backend.

The frontend's and the backend's team-name checks differ in two ways:

- The backend asks for a team name only on a stored draft that holds a
  position (backend/main.py:136).
- The frontend asks for one on every stored draft of a team activity
  (frontend/src/App.tsx:144-152).
- `RoundTrip.ValidationAsymmetry` exhibits a grid that the frontend refuses
  but the backend would accept.
- The frontend blanks a name with JavaScript's `trim()`
  (frontend/src/App.tsx:147), the backend with Python's `strip()`
  (backend/main.py:137). `strip()` also removes U+001C to U+001F and U+0085;
  `trim()` also removes U+FEFF.
- `RoundTrip.ValidationGap` exhibits a placed team row named "\u001c" that
  the frontend posts and the backend refuses with 422.

## Model

| member | source | states |
|---|---|---|
| App.Upsert | frontend/src/App.tsx:91-98 | the new map has the old keys plus `id`, the order gains `id` only when it is new, other rows are unchanged, and each field of the row is the patch's field when given, else the previous row's (or the default row's) |
| App.AppState.UpsertRow | frontend/src/App.tsx:91-98 | the grid becomes `Upsert` of the old grid |
| App.AppState.MarkAll | frontend/src/App.tsx:100-107 | the loop over the roster leaves the grid equal to the entries-built map `MarkedAll` |
| App.MarkAllKeys | frontend/src/App.tsx:100-107 | after markAll the keys are exactly the roster ids (other entries dropped), in first-occurrence roster order |
| App.MarkAllRows | frontend/src/App.tsx:103-104 | every marked row has `participated` as given, keeps its team name, and keeps its position only when marked participated |
| App.MarkAllEstablishesPolicy | frontend/src/App.tsx:104 | after markAll no row holds a position without being participated |
| App.AppState.RefreshGrid | frontend/src/App.tsx:109-125 | on a successful fetch the grid is rebuilt from the participants and nothing is alerted; on a failure the grid is kept and the load failure is alerted |
| App.RebuildSpec | frontend/src/App.tsx:112-119 | the rebuilt grid has a key exactly for each fetched student; every row is participated; the last record for a student wins, with the position and `team_name ?? ""` |
| App.RebuildEstablishesPolicy | frontend/src/App.tsx:115 | a rebuilt grid satisfies "position implies participated" |
| App.AppState.constructor | frontend/src/App.tsx:20-24 | the page starts with no students or activities, no selection and an empty grid |
| App.FindActivity | frontend/src/App.tsx:26-29 | the result is the first activity with the id, or None when none has it |
| App.BuildPayload | frontend/src/App.tsx:133-142 | one draft per roster student, in order, copying the grid (or default) row; a team name exactly on active rows of a team activity |
| App.FirstMissingTeamNameSpec | frontend/src/App.tsx:145-151 | the check finds nothing iff no stored row has a null or blank team name, else it names the first such row |
| App.PlanSave | frontend/src/App.tsx:129-152 | the order of the save guards; its contract is stated by `App.PlanSaveSpec` |
| App.AppState.SelectedActivity | frontend/src/App.tsx:26-29 | the `useMemo` lookup; its contract is that of `App.FindActivity` |
| App.PlanSaveSpec | frontend/src/App.tsx:129-152 | saving stops without an activity, then without a (non-zero) room, then, for a team activity, iff some active roster row has a blank team name (naming one); otherwise the roster payload is submitted |
| App.AppState.SaveParticipants | frontend/src/App.tsx:129-152 | the attempt is `PlanSave` of the selected activity, room, roster and grid |
| App.AppState.FinishSave | frontend/src/App.tsx:154-163 | a failed post keeps the grid and alerts only the save failure; a successful post alerts the upserted and deleted counts first, then the refresh decides the grid, adding a second load-failure alert when the refetch fails |
| ParticipationGrid.CheckboxSpec | frontend/src/components/participation/ParticipationGrid.tsx:42 | the checkbox sets participated to `checked`, keeps the stored position only when checked, and keeps the team name |
| ParticipationGrid.PositionSpec | frontend/src/components/participation/ParticipationGrid.tsx:50 | choosing a place (or "-") sets that position and marks participated, keeping the team name |
| ParticipationGrid.TeamNameSpec | frontend/src/components/participation/ParticipationGrid.tsx:64 | the team-name input changes only the team name |
| ParticipationGrid.HandlersPreservePolicy | frontend/src/components/participation/ParticipationGrid.tsx:42-64 | all three handlers preserve "position implies participated" over the whole grid |
| StudentTable.DraftFor | frontend/src/components/StudentTable.tsx:34 | a student with a draft gets exactly that draft; one without gets `{student_id, participated: false, position: null, team_name: null}`, which is not stored |
| StudentTable.DefaultDraftShown | frontend/src/components/StudentTable.tsx:34-61 | a student without a draft is shown with no radio checked, unchecked, with an empty team-name input, and is not stored |
| StudentTable.RadioSpec | frontend/src/components/StudentTable.tsx:42-49 | the radio for place `p` leaves exactly radio `p` checked and marks participated, other fields kept |
| StudentTable.TeamNameSpec | frontend/src/components/StudentTable.tsx:61 | the input then shows exactly the typed text, and nothing else changes |
| StudentTable.ClearPositionSpec | frontend/src/components/StudentTable.tsx:76 | "Clear pos" unchecks every radio and keeps participation and team name |
| StudentTable.HandlersPreservePolicy | frontend/src/components/StudentTable.tsx:42-76 | the radio, team-name and clear handlers preserve "position implies participated" for a draft |
| StudentTable.UncheckKeepsPosition | frontend/src/components/StudentTable.tsx:71 | unchecking a placed draft keeps its position, so the policy breaks and the draft is still stored |
| ExportPanel.BuildPayload | frontend/src/components/ExportPanel.tsx:5-8 | the snapshot carries roster and activities unchanged, and one selection entry per grid key in insertion order with that key's row |
| ExportPanel.ExportRestoresGrid | frontend/src/components/ExportPanel.tsx:5-8 | re-filling a map from the exported selection gives back the same grid, insertion order included |
| ExportPanel.ExportSelectionDistinct | frontend/src/components/ExportPanel.tsx:6 | no student id appears twice in the selection |
| OrderedGrid.EntriesRebuild | frontend/src/components/ExportPanel.tsx:6 | `new Map(Array.from(m.entries()))` equals `m` |
| OrderedGrid.FromEntriesOrder | frontend/src/App.tsx:112-119 | a map filled by `set` lists its keys in first-insertion order |
| OrderedGrid.FromEntriesLastWins | frontend/src/App.tsx:113-118 | the value of a key is that of its last `set` |
| Text.StripEmptyIffBlank | backend/main.py:137 | `strip()` (and, for the frontend's `trim()` at frontend/src/App.tsx:147, the same on its own whitespace set) gives "" exactly for a string made only of that set's whitespace, including U+001C to U+001F and U+0085 for `strip()` |
| Text.StripIdempotent | backend/main.py:145 | stripping an already stripped team name changes nothing |
| Text.Strip | backend/main.py:145 | the result is a contiguous piece of the input, with only whitespace of the language's set around it, neither starting nor ending in such whitespace |
| Text.WhitespaceSetsDiffer | frontend/src/App.tsx:147 | `trim()` keeps "\u001c" and removes "\ufeff", while `strip()` does the opposite |
| Text.BlankAcrossLanguages | backend/main.py:137 | a name without U+001C to U+001F or U+0085 that is blank for `strip()` is blank for `trim()` too |
| Types.TeamNameMissing | backend/main.py:137 | a team name is missing iff it is null or blank for the language's whitespace set |
| BackendSave.Save | backend/main.py:121-161 | the request outcome; its contract is stated by `BackendSave.SaveOutcome` and `BackendSave.SavedRow` |
| BackendSave.Replay | backend/main.py:131-158 | the loop's effect on the session; its contract is stated by `BackendSave.ReplayAt` and `BackendSave.ReplayCounts` |
| BackendSave.Status | backend/main.py:126 | an unknown activity answers 404, a missing team name 422, a refused commit 500, and only those |
| BackendSave.StoredTeamName | backend/main.py:145 | the stored team name is null iff the draft's is null or "", else it is the stripped name |
| BackendSave.FirstViolation | backend/main.py:135-138 | None iff no draft is refused; otherwise the id of the first refused draft |
| BackendSave.SaveOutcome | backend/main.py:121-161 | the request fails with 404 iff the activity is unknown, with 422 iff some draft is refused (naming one), with 500 iff otherwise the commit is refused, and a success answers the stored-draft and removable-draft counts |
| BackendSave.Database.SaveParticipants | backend/main.py:121-161 | on any failure the table is untouched; on success it is the table the commit writes, and the counts are answered |
| BackendSave.ReplayAt | backend/main.py:140-158 | per key, after the loop: a row that existed before takes its student's last stored draft and is deleted iff some draft of the student is unstored; a new key is added iff the student has a stored draft, and clashes iff it has two; other activities' keys are untouched |
| BackendSave.WrittenRow | backend/main.py:140-160 | without clashes, the written row of an existing key is gone iff an unstored draft exists, else holds the last stored draft or the old row; a new key has a row iff its student has exactly one stored draft, holding it; other keys are unchanged |
| BackendSave.SavedRow | backend/main.py:121-161 | the same, for the table left by a successful request |
| BackendSave.RepeatedNewStudentRefused | backend/main.py:153-160 | a request storing twice a student without a row adds two objects with one primary key, and the request fails with a refused commit |
| BackendSave.StoredThenClearedKept | backend/main.py:140-158 | a new student stored and then cleared in one request keeps the inserted row, with upserted 1 and deleted 0 |
| BackendSave.ReplayCounts | backend/main.py:154-158 | `upserted` counts the stored drafts, `deleted` the unstored drafts whose row existed before the request, repeats included, and together they are at most the number of drafts |
| BackendSave.DistinctDraft | backend/main.py:131-158 | with one draft per student, a student's stored drafts are exactly its own draft when stored, and it has an unstored draft iff its draft is not stored |
| RoundTrip.ValidationAgreement | frontend/src/App.tsx:144-152 | when, on a team activity, no active team name is blank for `strip()` but not for `trim()`, a payload that passes the frontend's team-name check also passes the backend's |
| RoundTrip.NoPythonOnlySpaceAgrees | backend/main.py:137 | active team names without U+001C to U+001F or U+0085 satisfy that hypothesis |
| RoundTrip.ValidationGap | backend/main.py:137 | a placed team row named "\u001c" passes the frontend's check and is submitted, and the backend refuses it with 422 |
| RoundTrip.ValidationAsymmetry | backend/main.py:136 | a participated team row with no place and a blank team name is refused by the frontend and accepted by the backend |
| RoundTrip.SaveFetchRefresh | frontend/src/App.tsx:154-160 | for a roster without repeated ids where, on a team activity, the active team names agree between the two blank checks and are at most 100 characters once stripped, a submitted save commits, and refetching and rebuilding gives exactly the active roster rows, with positions kept and team names stripped on a team activity |
| RoundTrip.SaveStoresActiveRows | backend/main.py:131-160 | the roster payload adds no key twice, and in the table the commit writes a roster student has a row iff its grid row is active, holding its position and stripped team name |
| RoundTrip.RosterCommitAccepted | backend/models.py:50 | when, on a team activity, the active team names fit the column once stripped, the commit of the roster payload is not refused: no key clashes and no written team name is wider than the column |
| RoundTrip.RefreshShowsStored | frontend/src/App.tsx:112-119 | rebuilding from a fetch of such a table gives exactly the active roster rows |
| RoundTrip.RefreshKeys | frontend/src/App.tsx:112-119 | the rebuilt grid has a key exactly for each roster student with an active row |
| RoundTrip.PayloadOwnRow | frontend/src/App.tsx:133 | in the roster payload, a student's stored drafts are its own row when active and none otherwise, and it has an unstored draft iff its row is not active |
| RoundTrip.FormKindAccepted | frontend/src/pages/Certificates.tsx:62 | every selectable certificate type is a template kind the backend accepts, and position and team kinds correspond |
| RoundTrip.OfferedActivityAccepted | backend/main.py:284-295 | when the loaded activities are the visible ones the database holds, every activity the filtered list offers passes the backend's template/activity check |
| BackendCertificates.ParseTemplateKind | backend/main.py:266-270 | a parsed kind is the one whose name is the input string |
| BackendCertificates.ParseKindName | backend/main.py:266-270 | each kind's name is parsed back to that kind |
| BackendCertificates.Status | backend/main.py:289-316 | 404 only for an unknown activity, 400 for every other refusal |
| BackendCertificates.CheckTemplate | backend/main.py:284-295 | the four refusals in source order; its contract is stated by `BackendCertificates.CheckTemplateSpec` |
| BackendCertificates.CheckTemplateSpec | backend/main.py:284-295 | participation needs no activity; a position kind succeeds iff the activity exists, is shown, and its team flag matches the kind, and each refusal happens exactly in its case |
| BackendCertificates.PositionIndices | backend/main.py:311-314 | the picked indices increase, each row picked holds a position, and every row with a position is picked |
| BackendCertificates.NoPositionRecipientIff | backend/main.py:315-316 | there are no position recipients iff no row holds a position |
| BackendCertificates.PositionRecipients | backend/main.py:311-316 | the loop returns the rows with a position, in order, or the "no positions found" error when there are none |
| BackendCertificates.PositionLabel | backend/main.py:374-386 | `POS_LABEL.get(p, str(p))`; its contract is stated by `BackendCertificates.PositionLabelInjective` |
| BackendCertificates.PositionLabelInjective | backend/main.py:374-386 | `POS_LABEL.get(p, str(p))` gives different labels to different positions |
| BackendCertificates.Aggregate | backend/main.py:334-344 | the dictionary keys appear once each in the insertion order, and the order lists exactly the keys |
| BackendCertificates.AggregateOrder | backend/main.py:334-344 | students are listed in the order of their first row |
| BackendCertificates.AggregateConsistent | backend/main.py:336-344 | each entry belongs to its key's student, has at least one activity, and no activity id twice |
| BackendCertificates.AggregateSound | backend/main.py:335-344 | every listed activity comes from a row of that student |
| BackendCertificates.AggregateComplete | backend/main.py:335-344 | every row's student is a key whose list has an activity with the row's activity id |
| BackendCertificates.AggregateActivities | backend/main.py:334-344 | a student has an entry iff some row is theirs, and the entry's list is that student's row activities in row order with each activity id kept at its first occurrence only |
| BackendCertificates.DedupById | backend/main.py:342-343 | every kept activity is from the input, every input activity id is kept, and no id is kept twice |
| BackendCertificates.RecipientsAreAllValues | backend/main.py:347 | the non-empty filter drops nothing: the recipients are all dictionary values, in insertion order |
| BackendCertificates.NoParticipationRecipientIff | backend/main.py:347-350 | there are no participation recipients iff the query gave no rows |
| BackendCertificates.ParticipationRecipients | backend/main.py:334-350 | the loop builds the aggregation, and the result is its values, or the "no matching recipients" error when empty |
| BackendCertificates.ContainsActivityId | backend/main.py:342 | `any(a.id == act_row.id ...)` is true iff some listed activity has that id |
| BackendCertificates.FormatEvents | backend/main.py:394-403 | the events line is the activity names, deduplicated keeping first occurrences, joined by ", " |
| Seqs.DedupKeepsFirstOccurrenceOrder | backend/main.py:396-402 | deduplicated names keep the order of their first occurrence |
| Seqs.Dedup | backend/main.py:396-402 | the result has no repeats, and it holds exactly the elements of the input |
| BackendCertificates.MaxDate | backend/main.py:413 | the maximum is one of the dates and no date is later |
| BackendCertificates.AwardDate | backend/main.py:409-416 | the award date shown; its contract is stated by `BackendCertificates.AwardDateLatest` |
| BackendCertificates.AwardDateLatest | backend/main.py:409-416 | without an award date, the date shown is the ISO form of the latest activity date |
| BackendCertificates.IsoFormatRoundTrip | backend/main.py:414 | `isoformat()` of a date with a four-digit year has ten characters and reads back as the same date |
| Text.ZeroPadRoundTrip | backend/main.py:414 | zero padding keeps the value of the number |
| Text.IntToStringInjective | backend/main.py:386 | `str` gives different strings for different integers |
| Text.NatToStringRoundTrip | backend/main.py:169 | reading back the decimal digits of a natural number gives the number |
| BackendCertificates.Ordinal | backend/main.py:164-169 | the ordinal is `str(n)` followed by the suffix `_ordinal` picks; the source helper is dead code, never called in backend/main.py |
| BackendCertificates.OrdinalSuffixSpec | backend/main.py:164-169 | "st", "nd", "rd" exactly for last digit 1, 2, 3 outside 11-13, and "th" otherwise |
| CertificatesPage.FlagIndices | frontend/src/pages/Certificates.tsx:47-49 | the picked indices increase, each picks an activity with the flag, and every such activity is picked |
| CertificatesPage.WithTeamFlag | frontend/src/pages/Certificates.tsx:47-49 | the filter keeps the activities with the given team flag, in their order and with their repeats, and no other |
| CertificatesPage.FilteredActivities | frontend/src/pages/Certificates.tsx:46-50 | the offered activities; its contract is stated by `CertificatesPage.FilteredActivitiesSpec` |
| CertificatesPage.FilteredActivitiesSpec | frontend/src/pages/Certificates.tsx:46-50 | individual types offer non-team activities, team types team activities, all of them; other types offer none |
| CertificatesPage.Placeholders | frontend/src/pages/Certificates.tsx:83-93 | the hint text; its contract is stated by the three lemmas below |
| CertificatesPage.PlaceholdersEmptyIff | frontend/src/pages/Certificates.tsx:83-93 | the hint is empty exactly when no type is selected |
| CertificatesPage.TeamHintOnlyForTeam | frontend/src/pages/Certificates.tsx:87 | `{TEAM_NAME}` is hinted for team position certificates only |
| CertificatesPage.PositionHintsShared | frontend/src/pages/Certificates.tsx:85-87 | both position types start with the individual hints, and the team line is the individual one plus ", {TEAM_NAME}" |
| CertificatesPage.FormSet | frontend/src/pages/Certificates.tsx:60-64 | setting a new name appends one entry and keeps the earlier ones |
| CertificatesPage.FillForm | frontend/src/pages/Certificates.tsx:59-64 | the form holds room, school_year and template_kind, then award_date only when non-empty, then template, each with its value |
| CertificatesPage.OnGeneratePpt | frontend/src/pages/Certificates.tsx:52-67 | each of the five guards stops exactly when it is the first unmet one (falsy year, room, type; missing activity for a position type; missing file); otherwise the request goes to activity 0 for participation, else to the selected one, with the filled form |

## Left out

- The PowerPoint work (`_duplicate_slide`, `_replace_placeholders`, `_replace_literal`, the "Tournaments" singularisation, the empty or invalid template checks, the removal of the template slide and the file name). These are slide manipulation through python-pptx.
- The slide mapping values: only the position label (backend/main.py:386), the events line (backend/main.py:421) and the award date (backend/main.py:409-416) are modelled. The name, the room, the year, the event name, the position certificate's event date (backend/main.py:373) and the team name (backend/main.py:388) are plain field formatting and are not modelled.
- SQL: the queries, their `ORDER BY` and joins, and the foreign-key constraints. The query results are inputs: roster rows, event rows, fetched participants.
- The session is opened with autoflush off (backend/database.py:19). The model takes `db.get` to find only rows that existed before the request. It still finds such a row after `db.delete`, because the identity map keeps it until the flush. It never finds an object added by an earlier draft.
- `BackendSave.Save`: a refused commit is modelled for two added objects with one key and for a team name wider than `String(100)` (backend/models.py:50). Foreign-key failures at the commit (an unknown student id) are not modelled. The width is counted in characters; the column's byte width under its collation is not modelled.
- `BackendSave.SaveOutcome`: its 500 case covers only those two commit failures, for the same reason.
- Network, `fetch`, `api.ts`, `alert` wording, downloads, blob URLs and `console.warn`. Alerts are returned as values and responses are passed in as parameters.
- React effects and their timing: the data-loading effects and the reset effects of App.tsx:32-88 and Certificates.tsx:28-44. A stale or racing `setGrid` is not modelled either.
- The repeated `if not recipients` check at backend/main.py:352-353. Both branches before it already refuse an empty list, so it cannot fire.
- `StudentTable.DraftFor`: `setRow` is a prop whose body is not part of this model. It is modelled as a spread of the patch over the draft, like `upsertRow`.
- `CertificatesPage.OnGeneratePpt`: the `activities.find` at Certificates.tsx:26 only feeds the award-date default effect, which is left out.
- `RoundTrip.ValidationAgreement`: promised only when, on a team activity, no active team name is blank for `strip()` but not for `trim()`. Such a name is made only of whitespace and holds one of U+001C to U+001F or U+0085, as `RoundTrip.ValidationGap` shows; the frontend then posts and the backend answers 422.
- `RoundTrip.SaveFetchRefresh`: promised under the same hypothesis, for the same reason. On a team activity it also needs the active team names to be at most 100 characters once stripped. Neither the page nor the request schema limits the length, and a wider name sent for a team activity makes the commit fail with 500. On other activities no team name is sent, so neither condition applies. Foreign-key failures at the commit are not modelled.
- Other pages, view components (TopControls, FileInput, Pill, Section, TabButton), `get_participants` itself, and copy_to_supabase.py.
- `CertificatesPage.FormSet`: only models `FormData.set` on a name the form does not hold yet. Replacing an entry never happens in `onGeneratePpt`.
- `BackendCertificates.IsoFormatRoundTrip`: stated only for years below 10000. Dates outside that range are not produced by the app.
