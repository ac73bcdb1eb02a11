# GNAAS UG church-management backend: a verified model

This project models the business rules of the GNAAS UG back end, an
Express/TypeORM service. The service keeps three kinds of records:

- **students**: the fellowship's member records, with a generated code
  `STU-<year>-NNN`;
- **attendance rows**: one per member or visitor mark, grouped into
  (date, type) slots that can be closed;
- **action-log entries**: the audit trail that lets a bulk upload or a
  level promotion be undone.

The database is replaced by an in-memory store. `Store.State` is a value
holding the student table, the attendance table, the action log and an id
counter. `Store.Db` is a class over the same fields that the state-changing
handlers update in place. Each HTTP answer is a `Result` value, either
`Ok(status, value)` or `Err(status, message)`, and carries the source's
status codes and messages.

Every handler that writes has two parts:

- a pure *step* function `XStep(state, inputs)`, returning the reply and the
  next state, about which the lemmas speak;
- a `method` on `Db` that performs the update and is proved to agree with its
  step.

The read-only endpoints (reports, export, status and list projections) are
functions.

Modules:

- `Entities`: the record shapes with their defaults.
- `Store`: the tables, key lookups and the undo guard shared by both undo
  endpoints.
- `Students`: code generation, creation, the profile edit and deletion.
- `Attendance`: the slot state machine, the read projections and the weekly
  daily-count loop.
- `Admin`: promotion and its undo, promotion targets, alumni eligibility,
  level and gender overviews, and the guards of secretary creation.
- `BulkUpload`: the row pipeline (map, validate, duplicate check, insert),
  the upload log entry and the chunked undo.
- `Reports`: attendance, level, hall, gender and monthly aggregations.
- `Export`: record shaping, filters and the CSV serializer.
- `Auth`: the bearer-token gate and the role checks.
- `Text`, `Counting`, `Sorting`, `Wrappers`: the string functions (trim,
  case mapping, padding, split/join), the counting folds and the stable sort
  that the controllers rely on.

## Model

| member | source | states |
|---|---|---|
| Entities.NewRow | src/entities/Attendance.ts:25-56 | a new attendance row is OPEN, isPresent defaults to true, and the student id, the six visitor fields and markedBy are stored as given |
| Entities.NewAction | src/entities/ActionLog.ts:11-30 | a new log entry is not undone and carries its id and action type |
| Entities.Performer | src/controllers/bulkUpload.controller.ts:363 | the performer id is the caller's `sub`, or 'unknown'; never empty |
| Entities.LevelNumberOfLevelName | dist/controllers/admin.controller.js:169 | parsing `L<n>` with the `L` removed gives back n |
| Entities.AlumniHasNoLevelNumber | dist/controllers/admin.controller.js:255 | 'ALUMNI' with its `L` removed parses to NaN |
| Store.FindStudent | src/controllers/students.controller.ts:119-122 | `findOne` by id: the index of a student with that id, or none exactly when no student has it |
| Store.FindAction | src/controllers/bulkUpload.controller.ts:393-394 | the first log entry with that id, or none exactly when there is none |
| Store.UndoGuard | src/controllers/bulkUpload.controller.ts:393-396 | the undo checks, in order. An unknown id gives 404 (iff). A found entry of another type gives 400 with the endpoint's message, checked before the undone flag. A found entry of the right type that is undone gives 400 'Action already undone'. The guard passes iff the entry findOne returns has the expected type and is not undone, and it then names that entry |
| Store.UndoneEntryRejected | dist/controllers/admin.controller.js:229-230 | once an entry is flagged undone, the guard answers 400 'Action already undone' |
| Store.Db.constructor | src/data-source.ts:1-16 | an empty store with valid keys |
| Students.NextCode | src/controllers/students.controller.ts:11-15 | the code starts with `STU-<year>-` |
| Students.CodeForReadsBack | src/controllers/students.controller.ts:15 | the suffix is at least three digits and reads back as the sequence number |
| Students.CodeForInjective | src/controllers/students.controller.ts:15 | two sequence numbers give the same code iff they are equal |
| Students.NextCodeAfterThree | src/controllers/students.controller.ts:11-15 | with three codes already issued this year, the next one ends in 004 |
| Students.NextStudentCode | src/controllers/students.controller.ts:65-73 | always 200, with a code carrying this year's prefix |
| Students.NextStudentCodeIsAssigned | src/controllers/students.controller.ts:68-72 | the code announced is the code the next creation against the same store assigns |
| Students.CreateStudentStep | src/controllers/students.controller.ts:7-62 | 201 iff every required column is sent and the count-based code is free; the student is appended under a fresh id, stored as sent, with omitted optional fields null; otherwise 500 and nothing changes |
| Students.CreateStudentKeepsKeys | src/controllers/students.controller.ts:17-39 | creation keeps ids unique and below the counter; the new student is found at the end of the table |
| Students.CreateStudent | src/controllers/students.controller.ts:7-62 | the in-place creation agrees with its step function |
| Students.MergeEmptyBody | src/controllers/students.controller.ts:125-145 | an empty edit keeps every stored column except phone, email and profile image, which become null, and leaves every required key undefined on the reply |
| Students.UndefinedKeys | src/controllers/students.controller.ts:125-148 | the required keys missing from the JSON reply are exactly those the body omits: none iff every required field is sent |
| Students.MergeFullBody | src/controllers/students.controller.ts:125-145 | an edit that sends every field gives the record creation would build from that body, under the old id and code |
| Students.MergeIdempotent | src/controllers/students.controller.ts:125-145 | applying the same edit twice is the same as applying it once |
| Students.UpdateStudentStep | src/controllers/students.controller.ts:113-153 | 404 'Student not found' iff the id is unknown, with nothing changed; otherwise 200 with the merged record written at its index and only there, the reply lacking the required keys the body omitted |
| Students.UpdateKeepsIdsAndCodes | src/controllers/students.controller.ts:125-147 | an edit keeps the table size, every id and every code, leaves every other student as it was, and keeps the keys |
| Students.UpdateStudent | src/controllers/students.controller.ts:113-153 | the in-place edit agrees with its step function |
| Students.DeleteStudentStep | src/controllers/students.controller.ts:155-171 | 404 iff the id is unknown, with nothing changed; otherwise 200 'Student deleted successfully' and one student fewer |
| Students.DeleteRemovesExactly | src/controllers/students.controller.ts:160-165 | deletion removes exactly the students with that id, keeps the others in order, and keeps the keys |
| Students.DeleteStudent | src/controllers/students.controller.ts:155-171 | the in-place deletion agrees with its step function |
| Students.CodeReusedAfterDelete | src/controllers/students.controller.ts:12-15 | with codes 001 and 002 issued, deleting 001 makes the next creation compute 002 again, which is taken, so it fails with 500 |
| Students.FreshCode | src/controllers/students.controller.ts:12-15 | a code search that skips taken codes returns a free code of this year, and it is the count-based code whenever that one is free |
| Attendance.MarkMemberStep | src/controllers/attendance.controller.ts:72-106 | 'already marked' iff any member row exists for (date, studentId), whatever its status, checked before the closed test; 'closed' iff not marked and the member slot is closed; otherwise exactly one OPEN member row is appended with the caller as marker |
| Attendance.MarkVisitorStep | src/controllers/attendance.controller.ts:140-170 | no duplicate check; 'closed' iff the visitor slot is closed; otherwise exactly one visitor row copying the visitor details is appended |
| Attendance.CloseStep | src/controllers/attendance.controller.ts:199-212 | always 200; status CLOSED is set on exactly the rows of the date (and of the type when one is given), and every other row is unchanged |
| Attendance.MarkMember | src/controllers/attendance.controller.ts:72-106 | the in-place mark agrees with its step function |
| Attendance.MarkVisitor | src/controllers/attendance.controller.ts:140-170 | the in-place mark agrees with its step function |
| Attendance.Close | src/controllers/attendance.controller.ts:199-212 | the in-place bulk update agrees with its step function |
| Attendance.ProbeDecidesSlot | src/controllers/attendance.controller.ts:90-96 | when every slot is uniform, the row `findOne` returns decides the slot: closed iff some row, and then every row, of the slot is CLOSED |
| Attendance.MarkMemberKeepsUniform | src/controllers/attendance.controller.ts:89-106 | marking a member keeps every (date, type) slot to one status |
| Attendance.MarkVisitorKeepsUniform | src/controllers/attendance.controller.ts:148-170 | marking a visitor keeps every slot to one status |
| Attendance.CloseKeepsUniform | src/controllers/attendance.controller.ts:206-210 | closing keeps every slot to one status |
| Attendance.MarkMemberKeepsUniqueMarks | src/controllers/attendance.controller.ts:81-87 | at most one member row per (date, student) is preserved by marking |
| Attendance.MarkTwiceRejected | src/controllers/attendance.controller.ts:81-87 | after a successful mark, marking the same student on the same date is rejected as already marked and changes nothing |
| Attendance.CloseThenMarkRejected | src/controllers/attendance.controller.ts:89-96 | once a member slot with rows is closed, every mark into it is rejected |
| Attendance.CloseEmptySlotNoEffect | src/controllers/attendance.controller.ts:206-210 | closing a slot that has no rows leaves the store unchanged |
| Attendance.GetAttendanceStatus | src/controllers/attendance.controller.ts:9-30 | OPEN and not closed when the date has no rows; isClosed iff status is CLOSED, and then a CLOSED row of that date exists |
| Attendance.StatusDependsOnRowOrder | src/controllers/attendance.controller.ts:14-19 | with a closed member slot and an open visitor slot on one date, the reported status depends on which row comes first |
| Attendance.UnmarkedMembers | src/controllers/attendance.controller.ts:32-66 | exactly the students passing the truthy hall/level/gender filters that have no present member row for the date |
| Attendance.UnmarkedWithoutFiltersIsAbsent | src/controllers/attendance.controller.ts:276-303 | with no filter the unmarked list is the absent list |
| Attendance.MarkedAbsentStillUnmarked | src/controllers/attendance.controller.ts:43-63 | a student marked absent is still listed as unmarked |
| Attendance.MembersPresent | src/controllers/attendance.controller.ts:251-270 | one student per present member row of the date whose student exists, in row order: the i-th listed student is stored and is the one the i-th such row names |
| Attendance.PresentStudentListed | src/controllers/attendance.controller.ts:255-266 | every stored student with a present member mark for the date is listed |
| Attendance.MembersPresentMatchesSummary | src/controllers/attendance.controller.ts:219-266 | when every present mark names a stored student, the list is as long as the summary's membersPresent |
| Attendance.MembersAbsent | src/controllers/attendance.controller.ts:276-303 | a student is listed iff it is stored and no present member row of the date names its id; no more entries than stored students |
| Attendance.Visitors | src/controllers/attendance.controller.ts:310-329 | a row is listed iff it is a stored present visitor row of the date |
| Attendance.MarkVisitorAppendsToVisitors | src/controllers/attendance.controller.ts:310-322 | a present visitor marked now is the last entry of the visitor list |
| Attendance.GetSummary | src/controllers/attendance.controller.ts:219-246 | totalMembers is the number of students; membersPresent is the number of present member rows; totalPresent = membersPresent + visitorsPresent; membersAbsent = totalAbsent = totalMembers - membersPresent; totalVisitors = visitorsPresent = number of present visitor rows |
| Attendance.PresentMembersBounded | src/controllers/attendance.controller.ts:219-246 | when present marks name distinct stored students, membersPresent is at most totalMembers, so membersAbsent is never negative |
| Attendance.SummaryAbsentMatchesList | src/controllers/attendance.controller.ts:235-243 | when present marks name distinct existing students, the summary's absent count is the length of the absent list |
| Attendance.DayTotalCountsVisitorsTwice | src/controllers/attendance.controller.ts:403-416 | a day's total counts each present visitor twice, once as present and once as visitor |
| Attendance.DailyStats | src/controllers/attendance.controller.ts:397-418 | the loop yields one entry per day, each the present/absent/visitor counts and rate of that day's rows |
| Attendance.DayRateBounded | src/controllers/attendance.controller.ts:402-415 | on a day without visitor rows whose present marks name distinct stored students, attendanceRate is at most 100 |
| Attendance.VisitorsLiftDayRate | src/controllers/attendance.controller.ts:402-415 | presentCount counts visitor rows too: one present member and one present visitor against one stored student give an attendanceRate of 200 |
| Attendance.WeekAverageBounded | src/controllers/attendance.controller.ts:399-424 | for seven dailyStats entries whose days have no visitor rows and whose present marks name distinct stored students, averageAttendanceRate is at most 100 |
| Admin.PromoteStep | dist/controllers/admin.controller.js:150-217 | guards in order, none writing: missing level 400 iff a level is missing, equal levels 400 iff both are given and equal, nobody at fromLevel 404, then nobody eligible 400; success moves every student at fromLevel, appends one PROMOTE_STUDENTS entry listing only the eligible students, and reports their count |
| Admin.SelectEligible | dist/controllers/admin.controller.js:167-180 | the loop keeps exactly the students passing the eligibility test, in order |
| Admin.ApplyPromotion | dist/controllers/admin.controller.js:184-205 | the bulk level update and the log entry with priorLevels of the eligible students |
| Admin.Promote | dist/controllers/admin.controller.js:150-217 | the in-place promotion agrees with its step function |
| Admin.RestoreLevelsEffect | dist/controllers/admin.controller.js:235-237 | each recorded student gets its recorded level back and no other student changes |
| Admin.UndoPromotionStep | dist/controllers/admin.controller.js:219-245 | an error iff the undo guard fails, with the guard's status and message: 404 iff the id is unknown, 400 for a wrong type, 400 'Action already undone' for an undone entry; 200 'Nothing to undo' iff the guard passes and priorLevels is empty, with nothing changed; otherwise levels are restored and the entry is flagged undone |
| Admin.UndoPromotion | dist/controllers/admin.controller.js:219-245 | the in-place undo agrees with its step function |
| Admin.UndoPromotionTwiceRejected | dist/controllers/admin.controller.js:229-240 | a second undo of the same entry is rejected with 'Action already undone' |
| Admin.PromotionEntryFound | dist/controllers/admin.controller.js:194-205 | after a promotion its log entry passes the undo guard |
| Admin.EligibleIdsDistinct | dist/controllers/admin.controller.js:185 | the recorded priorLevels name each student once |
| Admin.PromoteUndoRestoresEligible | dist/controllers/admin.controller.js:185-240 | undoing a promotion gives every eligible student back its record |
| Admin.PromoteUndoStrandsIneligible | dist/controllers/admin.controller.js:185-240 | an ineligible student at fromLevel is moved and stays at toLevel after the undo |
| Admin.PromoteUndoNotRoundTrip | dist/controllers/admin.controller.js:168-191 | two L400 students of 4 and 6 years promoted to ALUMNI: after the undo the table differs from the one before |
| Admin.PromoteEligibleOnlyStep | dist/controllers/admin.controller.js:184-191 | the corrected promotion moves only the eligible students and otherwise agrees with the original |
| Admin.PromoteEligibleOnlyUndoRoundTrip | dist/controllers/admin.controller.js:219-240 | undoing the corrected promotion gives back the student table exactly |
| Admin.PromoteSucceedsWithOneEligible | dist/controllers/admin.controller.js:168-183 | one eligible student at fromLevel is enough for the promotion to succeed |
| Admin.ValidPromotionTargets | dist/controllers/admin.controller.js:391-436 | 400 iff fromLevel is missing; otherwise 200, with an empty list iff nobody is at fromLevel |
| Admin.TargetsOfStudents | dist/controllers/admin.controller.js:407-421 | a target is offered iff some student at the level has a duration that yields it |
| Admin.SortedTargetsShape | dist/controllers/admin.controller.js:423-429 | the sorted distinct targets are at most the next level, then ALUMNI last |
| Admin.ValidTargetsShape | dist/controllers/admin.controller.js:402-429 | the reply is the next level when some duration has room, followed by ALUMNI when some duration is complete |
| Admin.ValidTargetsAreEligible | dist/controllers/admin.controller.js:402-429 | for a level number that is a multiple of 100, each offered target passes the promotion eligibility test for some student at the level |
| Admin.AlumniEligible | dist/controllers/admin.controller.js:247-268 | exactly the students whose level number is at least 100 times their duration; the count is the list length |
| Admin.AlumniNeverListed | dist/controllers/admin.controller.js:253-258 | a student already at ALUMNI is never listed |
| Admin.AvailableLevels | dist/controllers/admin.controller.js:366-389 | one entry per level L100..L600 in order, with its head count, its label text and hasStudents iff the count is positive |
| Admin.AvailableLevelsAccountForAll | dist/controllers/admin.controller.js:371-382 | the listed counts plus the students at other levels make up the whole table |
| Admin.GenderDistribution | dist/controllers/admin.controller.js:309-328 | one slice per distinct gender, named by the distinct genders in first-seen order, each valued at that gender's head count (positive) with the colour at its position, covering every student |
| Admin.GenderDistributionFirstSeen | dist/controllers/admin.controller.js:313-323 | of two slices, some student of the earlier slice's gender precedes every student of the later one's |
| Admin.GenderDistributionSumsToTotal | dist/controllers/admin.controller.js:313-321 | the slice values sum to the number of students |
| Admin.SecretaryGuard | dist/controllers/admin.controller.js:75-95 | 400 when a required field is falsy, then when the email is taken, then when the student code is taken; otherwise the request goes on with that code. Each check is an iff. The program duration is a number, so a numeric 0 is falsy and refused |
| BulkUpload.NormalizeLevelFirstMatch | src/controllers/bulkUpload.controller.ts:56-73 | the first of 100..600 found in the trimmed lower-cased text decides the level |
| BulkUpload.NormalizeLevelNoMatch | src/controllers/bulkUpload.controller.ts:70-72 | without any of them the text comes back upper-cased |
| BulkUpload.NormalizeCanonical | src/controllers/bulkUpload.controller.ts:56-73 | L100..L600 are left as they are |
| BulkUpload.NormalizeLevelIdempotent | src/controllers/bulkUpload.controller.ts:56-73 | normalizing twice is normalizing once |
| BulkUpload.ConvertExcelDate | src/controllers/bulkUpload.controller.ts:76-87 | a falsy cell gives null; text containing '/' or '-' is kept as it is |
| BulkUpload.MapRow | src/controllers/bulkUpload.controller.ts:205-262 | the duration is the parsed cell, or 4 when the cell is empty |
| BulkUpload.MapRowIgnoresOtherHeaders | src/controllers/bulkUpload.controller.ts:208-213 | a header outside the column mapping does not change the mapped row |
| BulkUpload.MapRowDefaults | src/controllers/bulkUpload.controller.ts:215-260 | strings are trimmed and never empty, role defaults to Member, duration to 4, and the level is normalized |
| BulkUpload.Validate | src/controllers/bulkUpload.controller.ts:128-202 | no error means every required field is filled, the gender is Male or Female and the level normalizes to L100..L600 |
| BulkUpload.LevelCheckMatchesNormalized | src/controllers/bulkUpload.controller.ts:143-149 | a filled level passes the level checks iff its text normalizes to a canonical level |
| BulkUpload.DurationCheck | src/controllers/bulkUpload.controller.ts:151-157 | the duration error is raised iff the duration is a non-zero number outside 1..6 |
| BulkUpload.RowOutcome | src/controllers/bulkUpload.controller.ts:310-331 | a row is inserted only when valid and not a duplicate, under the given id and under its own code or the generated one, which is free; a valid duplicate is rejected with the duplicate message |
| BulkUpload.InsertedLevelCanonical | src/controllers/bulkUpload.controller.ts:311-331 | every inserted student has a level in L100..L600 |
| BulkUpload.Advance | src/controllers/bulkUpload.controller.ts:313-358 | each row adds exactly one entry, an error numbered row index + 2 or a created student appended under the next id |
| BulkUpload.UploadAccounting | src/controllers/bulkUpload.controller.ts:304-359 | errors plus created students equal the number of rows; the table grows by the created students, in order |
| BulkUpload.UploadErrorRows | src/controllers/bulkUpload.controller.ts:308-314 | error row numbers are strictly increasing and lie in 2..rows+1 |
| BulkUpload.UploadKeepsKeys | src/controllers/bulkUpload.controller.ts:306-359 | the row loop keeps ids unique and below the counter |
| BulkUpload.BulkUploadStep | src/controllers/bulkUpload.controller.ts:273-385 | 400 without a file or for an unsupported type, with nothing changed; otherwise the reply's errors and created students are the row loop's, total = successful + failed, success iff a student was created, and one BULK_UPLOAD_STUDENTS entry with the created ids in order is logged iff success |
| BulkUpload.BulkUploadReplyErrorRows | src/controllers/bulkUpload.controller.ts:308-314 | the errors in the reply carry strictly increasing row numbers within 2..rows+1 |
| BulkUpload.BulkUploadKeepsKeys | src/controllers/bulkUpload.controller.ts:273-385 | the endpoint keeps the keys |
| BulkUpload.ProcessRow | src/controllers/bulkUpload.controller.ts:306-359 | one in-place loop pass agrees with Advance |
| BulkUpload.ProcessRows | src/controllers/bulkUpload.controller.ts:306-359 | the in-place loop agrees with the row fold |
| BulkUpload.UploadStudents | src/controllers/bulkUpload.controller.ts:273-385 | the in-place endpoint agrees with its step function |
| BulkUpload.UndoUploadStep | src/controllers/bulkUpload.controller.ts:387-416 | an error iff the shared undo guard fails, with its status and message (404 unknown id, 400 wrong type, 400 'Action already undone'); 'Nothing to undo' iff the guard passes and the logged id list is empty, with nothing changed; otherwise exactly the logged students are removed, the others kept, and the entry is flagged undone |
| BulkUpload.UndoUploadRefusals | src/controllers/bulkUpload.controller.ts:393-396 | an entry of another type gets 400 'Action type not undoable by this endpoint', and an undone upload entry 400 'Action already undone' |
| BulkUpload.DeleteIds | src/controllers/bulkUpload.controller.ts:404-405 | one batch delete removes exactly the students with those ids |
| BulkUpload.DeleteInChunks | src/controllers/bulkUpload.controller.ts:402-406 | the chunks of 100 together remove exactly the students with any of the ids |
| BulkUpload.UndoBulkUpload | src/controllers/bulkUpload.controller.ts:387-416 | the in-place undo agrees with its step function |
| BulkUpload.UndoUploadTwice | src/controllers/bulkUpload.controller.ts:396-409 | a second undo of the same upload is rejected with 'Action already undone' |
| BulkUpload.UploadUndoRoundTrip | src/controllers/bulkUpload.controller.ts:362-409 | undoing an upload that created students gives back the student table from before the upload |
| BulkUpload.BlankRowRejectedAsDuplicate | src/controllers/bulkUpload.controller.ts:319-324 | a valid row without email and Student ID is refused as a duplicate as soon as any student exists |
| BulkUpload.IntendedDuplicateAgrees | src/controllers/bulkUpload.controller.ts:319-324 | the intended duplicate test agrees with the query when the row has an email or a code, and refuses no row that has neither |
| Reports.RowsBetween | src/controllers/reports.controller.ts:22-26 | the rows within the date range, ordered by date |
| Reports.TallyCounts | src/controllers/reports.controller.ts:22-53 | one group per date, dates distinct, every row counted in its date's group, and present and absent are the counts of that date's present and absent rows |
| Reports.TallyAscending | src/controllers/reports.controller.ts:22-53 | rows ordered by date give groups in strictly ascending date order |
| Reports.AttendanceReport | src/controllers/reports.controller.ts:7-60 | 400 'Start date and end date are required' iff a date is missing; otherwise 200 with groups in ascending date order |
| Reports.AttendanceReportCounts | src/controllers/reports.controller.ts:22-53 | in each group, present + absent is the number of rows of that date in the range, and the rate is 0 without students, else rounded present*100/total |
| Reports.GroupReport | src/controllers/reports.controller.ts:93-104 | the per-group entries, sorted by group key, as a permutation of them |
| Reports.GroupReportLine | src/controllers/reports.controller.ts:69-104 | each group has 0 < total = its member count, presentToday = its members present today ≤ total, and the rate is rounded presentToday*100/total and at most 100 |
| Reports.GroupReportPartition | src/controllers/reports.controller.ts:69-75 | group keys are distinct, the totals sum to the number of students, and every student's group is listed |
| Reports.GenderReportLines | src/controllers/reports.controller.ts:166-190 | one line per distinct gender, with its count and percentage rounded count*100/total |
| Reports.GenderReportPartition | src/controllers/reports.controller.ts:170-176 | genders are distinct, the counts sum to the student total, and every student's gender is listed |
| Reports.MonthlyTrends | src/controllers/reports.controller.ts:192-233 | one entry per month |
| Reports.MonthlyTrendsRate | src/controllers/reports.controller.ts:207-218 | each month's total is its row count, the rate is 0 for a month with no rows, otherwise rounded present*100/total, at most 100, and 100 when every row is present |
| Export.ResolveOptions | src/controllers/export.controller.ts:35 | absent options give personal and contact info on and attendance off; a given flag wins |
| Export.ExportRecordShape | src/controllers/export.controller.ts:70-121 | a record starts with the seven base columns, every cell is that column's value of the student, and a column is present iff its block is included |
| Export.StatusIgnored | src/controllers/export.controller.ts:45-48 | the status filter changes nothing |
| Export.Exported | src/controllers/export.controller.ts:41-121 | the i-th record is the export record of the i-th matching student in table order, and every matching student is exported |
| Export.CsvLines | src/controllers/export.controller.ts:254-264 | one header line plus one line per record |
| Export.ExportToCsv | src/controllers/export.controller.ts:249-271 | 400 'No data to export' iff there are no records |
| Export.CsvLinesBack | src/controllers/export.controller.ts:254-264 | when no cell holds a newline, splitting the text at newlines gives the header and the record lines, records + 1 in all |
| Export.CsvCellsBack | src/controllers/export.controller.ts:254-262 | when no cell holds a comma, the header line splits back into the first record's keys and each record line into its plain values |
| Export.ExportStudents | src/controllers/export.controller.ts:30-139 | 400 'Invalid export format' iff the format is not excel, pdf or csv; for csv, 400 'No data to export' iff no student matches, else 200 with the CSV text of the exported records; excel and pdf give 200 with the exported records |
| Export.ImageCellWithoutHeader | src/controllers/export.controller.ts:254-262 | when the first student has no image and another has one, that student's line has one cell more than the header |
| Export.AlignedCsvColumns | src/controllers/export.controller.ts:254-262 | with the header taken from all records, every line has one cell per header column and each column's cell is that record's value |
| Auth.BearerToken | src/middleware/auth.ts:11-13 | a token iff the header starts with 'Bearer ', and the header is the prefix followed by the token |
| Auth.RequireAuth | src/middleware/auth.ts:9-20 | authenticated iff the header starts with 'Bearer ', the token is non-empty and the verifier accepts it, with its payload stored; otherwise 401 'Unauthorized' |
| Auth.BearerRoundTrip | src/middleware/auth.ts:11-16 | a header built from a token hands exactly that token to the verifier |
| Auth.RequireRole | src/middleware/auth.ts:22-28 | passes iff auth is present with exactly that role; otherwise 403 'Forbidden' |
| Auth.RequireRoles | src/middleware/auth.ts:30-36 | passes iff auth is present with a role in the list; otherwise 403 'Forbidden' |
| Auth.GuardDecides | src/middleware/auth.ts:9-28 | auth then role: through iff the token is accepted with the route's role; 401 iff the token is empty or rejected; 403 iff it is accepted with another role |

## Left out

- Attendance.WeekAverageBounded: the weekly average is bounded only for weeks without visitor rows. `presentCount` counts present visitor rows too, so a day with visitors can exceed 100 (Attendance.VisitorsLiftDayRate), and so can the average.
- Express plumbing (routers, body parsing, `res.json`) is out of scope; handlers return `Result` values. Two wiring facts are not modelled: `src/routes/admin.router.ts` routes no undo of a promotion, and `src/index.ts` does not mount the bulk-upload router.
- `markAllMembersPresent`, `undoMarkAllMembers`, `undoIndividualAttendance` and `unmarkMemberAttendance` are imported by the attendance router, but their bodies are not part of this model.
- Mailjet welcome and attendance e-mails and their HTML templates are foreign I/O whose failures are swallowed; they are a no-op here.
- CSV and XLSX parsing, `downloadTemplate`, the Excel and PDF writers and the multer file filter and size limit are foreign libraries. A parsed upload is a list of header-to-text maps, and the Excel and PDF replies carry the records.
- Excel numeric cells are not modelled; every cell is text.
- Clock and calendar work (the current year, "today", week and month ranges, `toLocaleDateString`, `toISOString`, `Date.parse`, URL parsing) and the serial-date branch of `convertExcelDate` are parameters. Month ranges in the monthly trends are given as (name, first, last) triples.
- JWT verification is a parameter `verify(token)`. Login, password change, password hashing in `createSecretary` and admin seeding are not modelled (bcrypt and JWT).
- The hall and level SQL groupings of the weekly statistics, `getAttendanceInsights`, `getHallDistribution`, `listUsers`, `syncSecretaryProfileImages`, `listStudents`, `getExportFilters` and the `graduationReady` placeholder are not modelled.
- Concurrency: the duplicate-mark and double-undo checks are check-then-act against the database, and are modelled sequentially.
- Ids are natural numbers from one counter, standing for generated uuids and serial ids. `createdAt` ordering is the order of the tables.
- Dates are compared as strings (`Text.StrLe`). `localeCompare` in the report sorts is replaced by that code-point order.
- `Object.entries` lists integer-like keys first. The gender and level orders are modelled as first-seen order, which differs only for keys that look like integers.
- TypeORM drops `undefined` and `null` criteria from a where clause. The duplicate query of the bulk upload is modelled that way (see Findings).
- Any error thrown by a repository call becomes a 500 in the source. The model raises it only where an insert violates a constraint: a missing required column, or a code already taken.
- `Math.round(p / t * 100)` is modelled as round-half-up on exact rationals, `(200p + t) / (2t)`. Floating-point results at exact .5 boundaries can differ.
- Admin.ValidTargetsAreEligible: holds only for level numbers that are multiples of 100. For a level such as L150 the endpoint offers L250, which the promotion then rejects.
- BulkUpload.DurationCheck: a duration of 0 or a non-number is falsy and skips the range check, so it is stored as is, although the check's own error message names 1..6.
- Export.Exported: a `programDuration` filter that does not parse as a number matches no student. In the source the query fails with an SQL error instead.
- Export.ExportStudents: an `admissionYear` filter is compared as text against the year bounds. An invalid year is not rejected.
- The Student entity follows `dist/entities/Student.js` and the controllers, which carry the program, birth, residence, guardian and church columns. `src/entities/Student.ts` lacks those columns.
- The JWT payload is taken as an object with `sub` and `role`. A string payload is not modelled.
- `toLowerCase` and `toUpperCase` map ASCII letters only, whereas JavaScript maps all Unicode letters; a level text with non-ASCII letters normalizes differently.
- `parseInt` is read in base 10 only. JavaScript's `parseInt` without a radix also reads a `0x` prefix as hexadecimal, so a duration cell "0x5" is 5 in the source but 0 here.

## Findings

| source | as written | input that shows it | evidently intended | confidence | as-written member | corrected member |
|---|---|---|---|---|---|---|
| dist/controllers/admin.controller.js:187-191 | the update moves every student at fromLevel, but only the eligible ones are recorded for undo | students A (L400, 4 years) and B (L400, 6 years), promoted L400 to ALUMNI: B is moved too, and the undo leaves B at ALUMNI | move only the eligible students, so that the undo restores the table | high, not executed | Admin.PromoteUndoNotRoundTrip | Admin.PromoteEligibleOnlyUndoRoundTrip |
| src/controllers/students.controller.ts:12-15 | the new code is the count of this year's codes plus one | codes 001 and 002 issued and 001 deleted: the next code is 002 again, and the unique column rejects it | the next code is one not yet taken | high, not executed | Students.CodeReusedAfterDelete | Students.FreshCode |
| src/controllers/bulkUpload.controller.ts:319 | the duplicate query has a criterion for email and one for code, and both are undefined when the row has neither | a valid row without Email and Student ID, with at least one student stored: rejected as a duplicate | a row is a duplicate only if it shares a given email or code | medium, not executed | BulkUpload.BlankRowRejectedAsDuplicate | BulkUpload.IntendedDuplicateAgrees |
| src/controllers/export.controller.ts:254-262 | the CSV header is the keys of the first record only | first student without a profile image, second with one: the second line has one cell more than the header | the header covers every column present in any record | high, not executed | Export.ImageCellWithoutHeader | Export.AlignedCsvColumns |
