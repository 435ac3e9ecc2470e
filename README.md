# FYP supervisor assignment, modelled in Dafny

A Dafny model of the supervisor-assignment engine of a final-year-project Android app, and of
the small pieces of logic inside its screens.

The engine has four parts:
- **Registration** assigns a new student a supervisor in three tiers:
  1. the least loaded active supervisor of the student's department with room;
  2. otherwise the first with room among the other departments of the same school;
  3. otherwise the single least loaded active supervisor, if it has room.
  Failing all three gives the "assign later" sentinel `("", "")`. Registration then writes the
  user document and adds one to the supervisor's `currentStudents`.
- **Administrator reassignment** writes the student's `supervisorId`. It then moves the counters
  by +1 and -1, floored at zero, and points all of the student's projects at the new supervisor
  in one batch.
- **Project detail** orders milestones, stamps completion dates, parses objectives and edits
  projects.
- **Other screens**:
  - the supervisor's de-duplicated, rank-sorted project list;
  - meeting duration parsing, cancellation and request checks;
  - the student's feedback list, mark-read and truncated rows;
  - role routing at login and at launch.

The remote document store is an in-memory `Store` class (`directory.dfy`):
- supervisors are a sequence whose order stands for document-id order;
- students are a map from user id to `supervisorId`;
- projects are a sequence.

A query is a filter followed by a stable insertion sort under the query's `orderBy` order.
Every remote step that can fail takes an explicit fault parameter. Clock readings ("now") and
fresh identifiers are parameters too. Asynchronous callbacks run one after the other.

Screens that mutate fields are classes whose methods are proved against specification
functions. Those functions carry the properties as lemmas:
- `FindAssignment` for the three tiers;
- `Incremented` / `Shifted` / `ReassignedCounts` for the counters;
- `Repointed` for the project batch;
- `Added` / `Collected` for the project list;
- `MarkedRead` for feedback.

The central invariant is `Directory.LoadConsistent`: each supervisor's counter equals the number
of students pointing at it. It is proved preserved by:
- a registration (`Registration.RegistrationKeepsLoadConsistent`);
- a failure-free reassignment (`AdminAssign.ReassignKeepsLoadConsistent`).

## Model

| member | source | states |
|---|---|---|
| Text.Trim | app/src/main/java/com/example/fypapplication/login/LoginActivity.kt:57-58 | `trim()` gives the slice of the text between whitespace-only ends, so the interior is kept; it is empty exactly for blank text, and otherwise neither starts nor ends with whitespace |
| Text.Lower | app/src/main/java/com/example/fypapplication/login/LoginActivity.kt:164 | `lowercase()` keeps the length and maps each character on its own (ASCII letters) |
| Text.LowerIdempotent | app/src/main/java/com/example/fypapplication/login/LoginActivity.kt:164 | lowercasing twice is lowercasing once, so a lowercased role is its own normal form |
| Text.ContainsIffOccurs | app/src/main/java/com/example/fypapplication/student/ScheduleActivity.kt:298-305 | `contains` holds exactly when the key occurs at some position of the caption |
| Text.JoinSplit | app/src/main/java/com/example/fypapplication/student/ProjectDetailActivity.kt:221 | joining the pieces of `split("\n")` with the separator gives back the text, for every text |
| Text.SplitJoin | app/src/main/java/com/example/fypapplication/student/ProjectDetailActivity.kt:200 | splitting the text the edit dialog pre-fills (`joinToString("\n")`) on newlines gives back the pieces, provided there is at least one piece and no piece contains a newline |
| Text.LexLeTotal | app/src/main/java/com/example/fypapplication/login/RegisterActivity.kt:459 | string order on `departmentId` is total |
| Text.LexLeTransitive | app/src/main/java/com/example/fypapplication/login/RegisterActivity.kt:459 | string order on `departmentId` is transitive |
| Seqs.Filter | app/src/main/java/com/example/fypapplication/student/FeedbackListActivity.kt:85-87 | `filter` keeps exactly the elements passing the test, never more than the input |
| Seqs.FilterConcat | app/src/main/java/com/example/fypapplication/student/FeedbackListActivity.kt:85-87 | `filter` keeps relative order: it distributes over concatenation |
| Seqs.SortWith | app/src/main/java/com/example/fypapplication/student/ProjectDetailActivity.kt:152-154 | `sortWith` returns a permutation of its input |
| Seqs.SortWithSorted | app/src/main/java/com/example/fypapplication/supervisor/SupervisorProjectsActivity.kt:214-221 | under a total preorder, `sortWith` yields a list sorted by that order |
| Directory.Lookup | app/src/main/java/com/example/fypapplication/admin/AdminAssignSupervisorActivity.kt:361-365 | `document(id).get()` finds the document with that id, or reports that none exists |
| Directory.Incremented | app/src/main/java/com/example/fypapplication/login/RegisterActivity.kt:548-553 | the transaction adds exactly one to `currentStudents` (absent = 0) of the chosen document; every other field and every other document are unchanged |
| Directory.Shifted | app/src/main/java/com/example/fypapplication/admin/AdminAssignSupervisorActivity.kt:364-371 | the update writes `max(0, count + change)` on an existing document only; counts stay non-negative; nothing else changes |
| Directory.CountsStayNonNegative | app/src/main/java/com/example/fypapplication/admin/AdminAssignSupervisorActivity.kt:366-367 | no sequence of +1 transactions and floored shifts ever drives a counter below zero |
| Directory.SetCountsWellFormed | app/src/main/java/com/example/fypapplication/admin/AdminAssignSupervisorActivity.kt:371 | counter updates never touch document ids, so ids stay unique and non-empty |
| Directory.StudentsOfAfterPoint | app/src/main/java/com/example/fypapplication/admin/AdminAssignSupervisorActivity.kt:322-324 | re-pointing one user document moves exactly that user between the per-supervisor counts |
| Directory.AssignedCountPositive | app/src/main/java/com/example/fypapplication/admin/AdminAssignSupervisorActivity.kt:331-332 | under the load invariant, a supervisor some student points at has a count of at least one, so its decrement is exact |
| Registration.DepartmentsOfSchool | app/src/main/java/com/example/fypapplication/login/RegisterActivity.kt:267-269 | the offered departments are exactly those whose `schoolId` is the chosen school |
| Registration.DepartmentsOfSchoolKeepOrder | app/src/main/java/com/example/fypapplication/login/RegisterActivity.kt:269 | the filter keeps the departments' original order |
| Registration.RegisterForm.UpdateDepartments | app/src/main/java/com/example/fypapplication/login/RegisterActivity.kt:267-269 | after the clear and refill, `filteredDepartments` equals the chosen school's departments |
| Registration.ByDepartmentThenLoadIsTotalPreorder | app/src/main/java/com/example/fypapplication/login/RegisterActivity.kt:459-460 | ordering by `departmentId` then `currentStudents` is a total preorder, so the query result is well defined up to ties |
| Registration.DepartmentQuery | app/src/main/java/com/example/fypapplication/login/RegisterActivity.kt:416-420 | tier 1 returns exactly the active supervisors of the department, least loaded first |
| Registration.SchoolQuery | app/src/main/java/com/example/fypapplication/login/RegisterActivity.kt:455-461 | tier 2 returns exactly the active supervisors of the school outside the department, by department id then load |
| Registration.ActiveQuery | app/src/main/java/com/example/fypapplication/login/RegisterActivity.kt:493-497 | tier 3 considers exactly the active supervisors, least loaded first |
| Registration.FirstWithRoom | app/src/main/java/com/example/fypapplication/login/RegisterActivity.kt:424-438 | the loop stops at a candidate with room and every candidate before it is full |
| Registration.FirstWithRoomIsLeast | app/src/main/java/com/example/fypapplication/login/RegisterActivity.kt:424-438 | in a sorted candidate list the first with room precedes every other candidate with room |
| Registration.Tier1 | app/src/main/java/com/example/fypapplication/login/RegisterActivity.kt:421-448 | a department supervisor is chosen iff the query succeeds and some active department supervisor has room; it has room and the least load among those |
| Registration.Tier2 | app/src/main/java/com/example/fypapplication/login/RegisterActivity.kt:454-486 | a school supervisor is chosen iff the query succeeds and some active supervisor of another department of the school has room; it is first in (department id, load) order among those |
| Registration.LeastLoadedActive | app/src/main/java/com/example/fypapplication/login/RegisterActivity.kt:493-500 | `limit(1)` yields an active supervisor with the least load, and nothing iff nobody is active |
| Registration.Tier3 | app/src/main/java/com/example/fypapplication/login/RegisterActivity.kt:498-536 | the last tier picks the least loaded active supervisor only if it has room |
| Registration.FindAssignment | app/src/main/java/com/example/fypapplication/login/RegisterActivity.kt:405-536 | the result is the `("","")` sentinel or an active supervisor that had room when read; with nobody active with room it is the sentinel |
| Registration.DepartmentComesFirst | app/src/main/java/com/example/fypapplication/login/RegisterActivity.kt:421-437 | when tier 1 succeeds and someone in the department has room, the student gets a department supervisor with room at least as lightly loaded as any such supervisor |
| Registration.SchoolComesSecond | app/src/main/java/com/example/fypapplication/login/RegisterActivity.kt:441-476 | tier 2 is used exactly when tier 1 failed or found nobody with room, and then picks the first with room in (department id, load) order |
| Registration.LastTierLooksAtLeastLoadedOnly | app/src/main/java/com/example/fypapplication/login/RegisterActivity.kt:493-536 | after tiers 1 and 2 find nobody, the outcome depends on the least loaded active supervisor alone: it if it has room, else the sentinel |
| Registration.LastTierCanMissRoom | app/src/main/java/com/example/fypapplication/login/RegisterActivity.kt:496-517 | a concrete store where an active supervisor has room but the sentinel is returned, because a full supervisor has a smaller load |
| Registration.ExhaustionGivesSentinel | app/src/main/java/com/example/fypapplication/login/RegisterActivity.kt:509-536 | nobody active with room, or all three queries failing, gives the sentinel rather than an error |
| Registration.DepartmentExample | app/src/main/java/com/example/fypapplication/login/RegisterActivity.kt:421-437 | of two department supervisors the one with room and the smaller load is chosen |
| Registration.SchoolExample | app/src/main/java/com/example/fypapplication/login/RegisterActivity.kt:441-476 | a full department falls back to a supervisor of another department of the same school |
| Registration.ScanForRoom | app/src/main/java/com/example/fypapplication/login/RegisterActivity.kt:424-438 | the scanning loop stops exactly at `FirstWithRoom` |
| Registration.DepartmentTier | app/src/main/java/com/example/fypapplication/login/RegisterActivity.kt:416-448 | the department query and its scan give exactly `Tier1` |
| Registration.SchoolTier | app/src/main/java/com/example/fypapplication/login/RegisterActivity.kt:454-486 | the school query and its scan give exactly `Tier2` |
| Registration.AnyTier | app/src/main/java/com/example/fypapplication/login/RegisterActivity.kt:492-536 | the `limit(1)` query gives its first document only if it has room: exactly `Tier3` |
| Registration.AssignSupervisor | app/src/main/java/com/example/fypapplication/login/RegisterActivity.kt:405-536 | the imperative three-tier search returns exactly `FindAssignment` of the stored supervisors |
| Registration.UpdateSupervisorStudentCount | app/src/main/java/com/example/fypapplication/login/RegisterActivity.kt:542-562 | an empty id or a failed transaction changes nothing; otherwise the supervisors become `Incremented` and stay well formed |
| Registration.RegisterStudent | app/src/main/java/com/example/fypapplication/login/RegisterActivity.kt:337-365 | the user document gets the chosen `supervisorId` ("" for none); only after that write succeeds, and only for a non-empty id, is the counter incremented; projects are untouched |
| Registration.RegistrationKeepsLoadConsistent | app/src/main/java/com/example/fypapplication/login/RegisterActivity.kt:345-365 | one completed registration keeps every counter equal to the number of students pointing at that supervisor |
| Registration.RegistrationKeepsCapacity | app/src/main/java/com/example/fypapplication/login/RegisterActivity.kt:542-553 | with one registration at a time, a completed registration never pushes a supervisor past `maxStudents` |
| ProjectUpdater.Repointed | app/src/main/java/com/example/fypapplication/admin/ProjectSupervisorUpdater.kt:42-45 | every project of the student carries the new `supervisorId`, only that field changes, and other students' projects are unchanged |
| ProjectUpdater.MatchingFrom | app/src/main/java/com/example/fypapplication/admin/ProjectSupervisorUpdater.kt:26-28 | the query returns only the student's projects, and all of them |
| ProjectUpdater.RepointedIdempotent | app/src/main/java/com/example/fypapplication/admin/ProjectSupervisorUpdater.kt:42-48 | committing the same re-pointing twice is committing it once |
| ProjectUpdater.RepointedWithoutProjects | app/src/main/java/com/example/fypapplication/admin/ProjectSupervisorUpdater.kt:30-33 | a student without projects leaves the collection unchanged |
| ProjectUpdater.RepointedReachesAll | app/src/main/java/com/example/fypapplication/admin/ProjectSupervisorUpdater.kt:42-51 | after a committed batch every project of the student names the new supervisor |
| ProjectUpdater.StageBatch | app/src/main/java/com/example/fypapplication/admin/ProjectSupervisorUpdater.kt:39-45 | the staging loop produces exactly `Repointed` |
| ProjectUpdater.UpdateProjectsWithSupervisor | app/src/main/java/com/example/fypapplication/admin/ProjectSupervisorUpdater.kt:20-62 | failed query: `(false, "Error querying projects: "+msg)`, no write; no projects: `(true, "No projects found for this student")`, no write; failed commit: `(false, "Error updating projects: "+msg)`, no write; else `(true, "Updated all projects with supervisor ID")` with all matches re-pointed |
| AdminAssign.InfoOf | app/src/main/java/com/example/fypapplication/admin/AdminAssignSupervisorActivity.kt:144-151 | a spinner row has the document id and the 0/5 defaults for missing counts; its cached room test agrees with `HasRoom` |
| AdminAssign.Infos | app/src/main/java/com/example/fypapplication/admin/AdminAssignSupervisorActivity.kt:141-152 | the list holds one row per supervisor document, in order |
| AdminAssign.LoadedSupervisorId | app/src/main/java/com/example/fypapplication/admin/AdminAssignSupervisorActivity.kt:216-242 | the current supervisor is known iff the read succeeds, the document exists and its `supervisorId` is non-empty |
| AdminAssign.ReassignedCounts | app/src/main/java/com/example/fypapplication/admin/AdminAssignSupervisorActivity.kt:326-334 | the counters after a successful student write: unchanged for the same supervisor, otherwise a floored +1 on the new one and, when there was a current one, a floored -1 on it, each skipped when its update fails; `ReassignDeltas` and `ReassignKeepsLoadConsistent` state its effect |
| AdminAssign.ReassignDeltas | app/src/main/java/com/example/fypapplication/admin/AdminAssignSupervisorActivity.kt:326-334 | without failures, a changed supervisor gives +1 to the new one, `max(0, n-1)` to the previous one, and leaves every other counter and field alone |
| AdminAssign.ReassignKeepsCountsNonNegative | app/src/main/java/com/example/fypapplication/admin/AdminAssignSupervisorActivity.kt:366-367 | whatever updates fail, counters stay non-negative |
| AdminAssign.ShiftMissingIsNoOp | app/src/main/java/com/example/fypapplication/admin/AdminAssignSupervisorActivity.kt:365 | an update for a supervisor document that does not exist changes nothing |
| AdminAssign.ReassignKeepsLoadConsistent | app/src/main/java/com/example/fypapplication/admin/AdminAssignSupervisorActivity.kt:322-334 | without failures, a reassignment keeps every counter equal to the number of students pointing at that supervisor, including reassignment to the same supervisor |
| AdminAssign.UpdateSupervisorStudentCount | app/src/main/java/com/example/fypapplication/admin/AdminAssignSupervisorActivity.kt:360-380 | a failed read or write changes nothing; otherwise the supervisors become `Shifted` by the change and stay well formed |
| AdminAssign.AdminAssignScreen.LoadSupervisors | app/src/main/java/com/example/fypapplication/admin/AdminAssignSupervisorActivity.kt:136-160 | a successful load replaces the list with one row per supervisor document |
| AdminAssign.AdminAssignScreen.LoadCurrentSupervisor | app/src/main/java/com/example/fypapplication/admin/AdminAssignSupervisorActivity.kt:216-242 | `currentSupervisorId` becomes `LoadedSupervisorId`: an empty or missing id, a missing document and a failed read all give null |
| AdminAssign.AdminAssignScreen.OnStudentSelected | app/src/main/java/com/example/fypapplication/admin/AdminAssignSupervisorActivity.kt:73-78 | a valid position selects that student and loads its current supervisor; other positions change nothing |
| AdminAssign.AdminAssignScreen.OnNothingSelectedStudent | app/src/main/java/com/example/fypapplication/admin/AdminAssignSupervisorActivity.kt:80-83 | the student selection is cleared |
| AdminAssign.AdminAssignScreen.OnSupervisorSelected | app/src/main/java/com/example/fypapplication/admin/AdminAssignSupervisorActivity.kt:92-98 | a valid position selects that supervisor; any other position clears the selection |
| AdminAssign.AdminAssignScreen.OnNothingSelectedSupervisor | app/src/main/java/com/example/fypapplication/admin/AdminAssignSupervisorActivity.kt:100-102 | the supervisor selection is cleared |
| AdminAssign.AdminAssignScreen.AssignSupervisor | app/src/main/java/com/example/fypapplication/admin/AdminAssignSupervisorActivity.kt:299-358 | no student, no supervisor or a full supervisor (in that order) write nothing; a failed student write writes nothing more; the outcome is `Assigned` exactly when every guard passes and the write succeeds, and then the student points at the supervisor, the counters get the deltas, the projects are re-pointed and both lists reload |
| AdminAssign.AdminAssignScreen.ApplyCounterDeltas | app/src/main/java/com/example/fypapplication/admin/AdminAssignSupervisorActivity.kt:326-334 | the counter block gives exactly `ReassignedCounts`: nothing for an unchanged supervisor, +1 on the new one, -1 on a previous one |
| AdminAssign.AdminAssignScreen.CompleteAssignment | app/src/main/java/com/example/fypapplication/admin/AdminAssignSupervisorActivity.kt:325-351 | the success listener writes the student's `supervisorId`, applies the deltas, re-points the projects and reloads; the outcome carries the project updater's result (only logged by the screen) in its four cases |
| ProjectDetail.MilestoneLe | app/src/main/java/com/example/fypapplication/student/ProjectDetailActivity.kt:152-154 | the comparator: incomplete before completed, then dated before undated, then earlier due date first; `MilestoneLeIsTotalPreorder` and `SortedMilestoneOrder` state its properties |
| ProjectDetail.MilestoneLeIsTotalPreorder | app/src/main/java/com/example/fypapplication/student/ProjectDetailActivity.kt:152-154 | the milestone comparator is a total preorder |
| ProjectDetail.SortMilestones | app/src/main/java/com/example/fypapplication/student/ProjectDetailActivity.kt:152-154 | the sorted milestones are a permutation of the loaded ones, sorted by the comparator |
| ProjectDetail.SortedMilestoneOrder | app/src/main/java/com/example/fypapplication/student/ProjectDetailActivity.kt:151-154 | incomplete milestones precede completed ones; within a state dated ones precede undated ones; due dates ascend |
| ProjectDetail.CompletedDateAfter | app/src/main/java/com/example/fypapplication/student/ProjectDetailActivity.kt:367-371 | the completion date changes only on a change from incomplete to complete, and then becomes now |
| ProjectDetail.WithCompletion | app/src/main/java/com/example/fypapplication/student/ProjectDetailActivity.kt:367-371 | the checkbox changes only `isCompleted` and `completedDate`, and keeps a completed milestone dated |
| ProjectDetail.UncompleteKeepsDate | app/src/main/java/com/example/fypapplication/student/ProjectDetailActivity.kt:370 | un-completing keeps the old completion date; completing again stamps the new time |
| ProjectDetail.EditMilestone | app/src/main/java/com/example/fypapplication/student/ProjectDetailActivity.kt:315-333 | an empty trimmed title is refused; otherwise the title, description, due date and completion change and the date follows `CompletedDateAfter` |
| ProjectDetail.NewMilestone | app/src/main/java/com/example/fypapplication/student/ProjectDetailActivity.kt:315-346 | an empty trimmed title is refused; a new milestone gets the fresh id, the project, the trimmed title and description, the chosen due date, the checkbox state and `createdAt` = now, and `completedDate` = now iff it is created completed, else null |
| ProjectDetail.DialogsKeepCompletionDated | app/src/main/java/com/example/fypapplication/student/ProjectDetailActivity.kt:324-346 | both dialog paths keep the invariant that a completed milestone has a completion date |
| ProjectDetail.ParseObjectives | app/src/main/java/com/example/fypapplication/student/ProjectDetailActivity.kt:213-221 | every objective is non-empty and holds no line break |
| ProjectDetail.ParseJoinedObjectives | app/src/main/java/com/example/fypapplication/student/ProjectDetailActivity.kt:200-221 | non-empty objectives without newlines or edge whitespace survive the dialog's join and re-parse unchanged |
| ProjectDetail.EditProject | app/src/main/java/com/example/fypapplication/student/ProjectDetailActivity.kt:210-229 | an empty trimmed title is refused; otherwise only `title`, `description`, `objectives` and `updatedAt` change |
| ProjectDetail.ProjectDetailScreen.LoadProjectMilestones | app/src/main/java/com/example/fypapplication/student/ProjectDetailActivity.kt:132-162 | on success the list is cleared, refilled with the documents and sorted, and the empty text shows iff there were none; a failed query changes nothing |
| ProjectDetail.ProjectDetailScreen.SaveProjectChanges | app/src/main/java/com/example/fypapplication/student/ProjectDetailActivity.kt:210-249 | the screen's project becomes the edited one only after a valid edit and a successful write |
| SupervisorProjects.StatusRank | app/src/main/java/com/example/fypapplication/supervisor/SupervisorProjectsActivity.kt:214-220 | the rank is at most 3 |
| SupervisorProjects.StatusRankIgnoresCase | app/src/main/java/com/example/fypapplication/supervisor/SupervisorProjectsActivity.kt:215 | the rank ignores letter case |
| SupervisorProjects.StatusRankOrder | app/src/main/java/com/example/fypapplication/supervisor/SupervisorProjectsActivity.kt:213-220 | for any two statuses, ignoring case: proposed ranks before every other status, approved before rejected and unknown ones, rejected before unknown ones, and statuses equal up to case rank alike |
| SupervisorProjects.ProjectLe | app/src/main/java/com/example/fypapplication/supervisor/SupervisorProjectsActivity.kt:213-220 | the comparator: lower status rank first, then newer `createdAt` first; `ProjectLeIsTotalPreorder` and `SortedProjectOrder` state its properties |
| SupervisorProjects.ProjectLeIsTotalPreorder | app/src/main/java/com/example/fypapplication/supervisor/SupervisorProjectsActivity.kt:214-221 | the comparator (rank, then newest first) is a total preorder |
| SupervisorProjects.SortProjects | app/src/main/java/com/example/fypapplication/supervisor/SupervisorProjectsActivity.kt:213-221 | sorting keeps length and contents (a permutation) and yields a sorted list |
| SupervisorProjects.SortedProjectOrder | app/src/main/java/com/example/fypapplication/supervisor/SupervisorProjectsActivity.kt:214-221 | ranks never decrease along the list and equal ranks run newest first |
| SupervisorProjects.DistinctCounts | app/src/main/java/com/example/fypapplication/supervisor/SupervisorProjectsActivity.kt:206-210 | a list without repeats holds each project at most once |
| SupervisorProjects.StudentNameOf | app/src/main/java/com/example/fypapplication/supervisor/SupervisorProjectsActivity.kt:185-188 | the student name is the first present of `displayName`, `name`, `username`, else "Unknown Student" |
| SupervisorProjects.Prepared | app/src/main/java/com/example/fypapplication/supervisor/SupervisorProjectsActivity.kt:176-190 | an empty id becomes the document id and a non-empty one is kept; the name is filled only from a successful read; nothing else changes |
| SupervisorProjects.Added | app/src/main/java/com/example/fypapplication/supervisor/SupervisorProjectsActivity.kt:206-210 | a project already present changes nothing; a new one is added once; contents are the old list plus the project |
| SupervisorProjects.AddedKeepsValid | app/src/main/java/com/example/fypapplication/supervisor/SupervisorProjectsActivity.kt:206-210 | adding keeps the list free of duplicates and sorted |
| SupervisorProjects.CollectedContents | app/src/main/java/com/example/fypapplication/supervisor/SupervisorProjectsActivity.kt:171-199 | processing the documents gives a duplicate-free sorted list of exactly the old projects and the prepared ones |
| SupervisorProjects.SupervisorProjectsScreen.AddProjectToList | app/src/main/java/com/example/fypapplication/supervisor/SupervisorProjectsActivity.kt:206-210 | the list becomes `Added`; a new project hides the "no projects" text |
| SupervisorProjects.SupervisorProjectsScreen.FinishLoadingProjects | app/src/main/java/com/example/fypapplication/supervisor/SupervisorProjectsActivity.kt:225-234 | an empty list shows the `no_projects_found` text; a non-empty one hides the text |
| SupervisorProjects.SupervisorProjectsScreen.AddDocument | app/src/main/java/com/example/fypapplication/supervisor/SupervisorProjectsActivity.kt:174-198 | one document: a convertible one is prepared and added (the list becomes `Step`), keeping the list duplicate-free and sorted |
| SupervisorProjects.SupervisorProjectsScreen.AddEach | app/src/main/java/com/example/fypapplication/supervisor/SupervisorProjectsActivity.kt:174-198 | the loop over the documents leaves the list equal to `Collected` of the old list, duplicate-free and sorted, never shorter; the empty text is hidden iff some project was added |
| SupervisorProjects.SupervisorProjectsScreen.ProcessProjects | app/src/main/java/com/example/fypapplication/supervisor/SupervisorProjectsActivity.kt:171-204 | the list is cleared first and ends as the collected projects, duplicate-free and sorted; no documents shows the `no_projects_found` text |
| Schedule.ParseDuration | app/src/main/java/com/example/fypapplication/student/ScheduleActivity.kt:296-306 | the duration is one of 15, 30, 45, 60, 90, 120; a caption containing "15" gives 15; one with no key gives 30 |
| Schedule.DurationKeyOrder | app/src/main/java/com/example/fypapplication/student/ScheduleActivity.kt:298-304 | keys are tried in their fixed order: "45 or 15" gives 15 |
| Schedule.DurationTwoHours | app/src/main/java/com/example/fypapplication/student/ScheduleActivity.kt:298-304 | a caption with only the key "2" gives 120 |
| Schedule.DurationDefault | app/src/main/java/com/example/fypapplication/student/ScheduleActivity.kt:305 | a caption with no key gives 30 |
| Schedule.IsCancellable | app/src/main/java/com/example/fypapplication/student/ScheduleActivity.kt:141-142 | the cancel button shows for a meeting not before now whose status is not exactly "cancelled"; `CancellableUntilItsDate`, `CapitalisedStatusStaysCancellable` and `CancelMeeting` state its properties |
| Schedule.CancelMeeting | app/src/main/java/com/example/fypapplication/student/ScheduleActivity.kt:169-173 | cancelling sets status "cancelled" and `updatedAt`, changes nothing else, and the meeting is never cancellable afterwards |
| Schedule.CancellableUntilItsDate | app/src/main/java/com/example/fypapplication/student/ScheduleActivity.kt:140-142 | a meeting cancellable at some time was cancellable at every earlier time, and its date is not before that time |
| Schedule.CapitalisedStatusStaysCancellable | app/src/main/java/com/example/fypapplication/student/ScheduleActivity.kt:142 | the status test is case-sensitive: "Cancelled" still shows the cancel button |
| Schedule.ScheduleScreen.LoadSupervisorId | app/src/main/java/com/example/fypapplication/student/ScheduleActivity.kt:71-86 | with a signed-in user and an existing document, the field (absent = "") becomes the supervisor and an empty one disables the add button; otherwise nothing changes |
| Schedule.ScheduleScreen.RequestMeeting | app/src/main/java/com/example/fypapplication/student/ScheduleActivity.kt:201-333 | refused iff no supervisor, empty trimmed title, empty trimmed location or no user (in that order); otherwise a pending meeting with the trimmed title, description and location, the parsed duration, empty `projectId` for the assigned supervisor |
| FeedbackList.SupervisorFeedback | app/src/main/java/com/example/fypapplication/student/FeedbackListActivity.kt:84-87 | exactly the received items with a non-empty `supervisorId` |
| FeedbackList.SupervisorFeedbackKeepsOrder | app/src/main/java/com/example/fypapplication/student/FeedbackListActivity.kt:85-87 | the filter keeps the received order |
| FeedbackList.FailureText | app/src/main/java/com/example/fypapplication/student/FeedbackListActivity.kt:92-97 | an unknown host gives "No internet connection"; a message containing "permission" gives "Permission denied to access feedback"; otherwise "Error loading feedback: " and the message |
| FeedbackList.IndexOfFirst | app/src/main/java/com/example/fypapplication/student/FeedbackListActivity.kt:145 | the index of the first entry with the id, or -1 iff there is none |
| FeedbackList.MarkedRead | app/src/main/java/com/example/fypapplication/student/FeedbackListActivity.kt:145-149 | the length is kept, only the first matching entry changes, and it becomes a copy with `isRead = true` |
| FeedbackList.MarkedReadWithoutMatch | app/src/main/java/com/example/fypapplication/student/FeedbackListActivity.kt:146 | with no matching entry the list is unchanged |
| FeedbackList.MarkedReadOnlyFirst | app/src/main/java/com/example/fypapplication/student/FeedbackListActivity.kt:145-148 | a later entry with the same id is not touched |
| FeedbackList.MarkedReadIdempotent | app/src/main/java/com/example/fypapplication/student/FeedbackListActivity.kt:145-148 | opening the same entry twice is opening it once |
| FeedbackList.OpenedEntryShowsRead | app/src/main/java/com/example/fypapplication/adapters/FeedbackAdapter.kt:51 | after opening, the entry's row hides the unread marker |
| FeedbackList.FeedbackListScreen.UpdateFeedbackList | app/src/main/java/com/example/fypapplication/student/FeedbackListActivity.kt:115-128 | the list is replaced by the new items, and an empty one shows "No supervisor feedback available yet" |
| FeedbackList.FeedbackListScreen.LoadFeedback | app/src/main/java/com/example/fypapplication/student/FeedbackListActivity.kt:62-113 | no user: "Error: User not logged in" and no fetch; success: the filtered list; failure: its error text; an exception: "Error: " and the message or "Unknown error"; only success changes the list |
| FeedbackList.FeedbackListScreen.MarkRead | app/src/main/java/com/example/fypapplication/student/FeedbackListActivity.kt:144-150 | the in-place update leaves the list equal to `MarkedRead` |
| FeedbackAdapter.DisplayContent | app/src/main/java/com/example/fypapplication/adapters/FeedbackAdapter.kt:42-47 | at most 100 characters; content of at most 100 is unchanged; longer content keeps its first 97 characters followed by "...", exactly 100 |
| FeedbackAdapter.DisplayContentIdempotent | app/src/main/java/com/example/fypapplication/adapters/FeedbackAdapter.kt:43-47 | shortening already shown content changes nothing |
| FeedbackAdapter.Bind | app/src/main/java/com/example/fypapplication/adapters/FeedbackAdapter.kt:38-51 | the unread marker shows iff `isRead` is false; the content is `DisplayContent` |
| Login.RouteForRole | app/src/main/java/com/example/fypapplication/login/LoginActivity.kt:163-176 | never the login screen; the supervisor dashboard iff the lowercased role is "supervisor" or "lecturer" |
| Login.RouteForRoleIgnoresCase | app/src/main/java/com/example/fypapplication/login/LoginActivity.kt:164 | roles equal up to case route the same |
| Login.RouteExamples | app/src/main/java/com/example/fypapplication/login/LoginActivity.kt:163-176 | "supervisor" routes to the supervisor dashboard and "student" to the student dashboard |
| Login.RoleOf | app/src/main/java/com/example/fypapplication/login/LoginActivity.kt:83-96 | a user document without a role counts as "student" |
| Login.LookUpRole | app/src/main/java/com/example/fypapplication/login/LoginActivity.kt:76-160 | a users-collection error (by uid, or by email after an empty uid query) blocks routing; otherwise the first hit decides in the order users-by-uid, users-by-email, supervisors |
| Login.SupervisorsRole | app/src/main/java/com/example/fypapplication/login/LoginActivity.kt:127-161 | a supervisors hit by uid, or by email after an empty uid query, gives "supervisor"; a miss or any error gives "student" |
| Login.FirstHitDecides | app/src/main/java/com/example/fypapplication/login/LoginActivity.kt:79-86 | once the users-by-uid query has a hit, later queries cannot change the outcome |
| Login.SupervisorsNeverBlock | app/src/main/java/com/example/fypapplication/login/LoginActivity.kt:127-161 | once both users queries come back empty, login always routes, to the supervisor dashboard iff a supervisors query hit |
| Login.NotFoundRoutesStudent | app/src/main/java/com/example/fypapplication/login/LoginActivity.kt:146-148 | a user found nowhere is routed to the student dashboard |
| Login.LoginForm.LoginUser | app/src/main/java/com/example/fypapplication/login/LoginActivity.kt:56-125 | sign-in is attempted iff both trimmed fields are non-empty; a failed sign-in or users-collection error re-enables the button without navigating; otherwise it navigates by the role found |
| MainRouting.StartupRouteForRole | app/src/main/java/com/example/fypapplication/MainActivity.kt:51-56 | never the login screen |
| MainRouting.StartupAgreesWithLogin | app/src/main/java/com/example/fypapplication/MainActivity.kt:51-56 | the launch screen routes every role exactly as the login screen does |
| MainRouting.StartupRoute | app/src/main/java/com/example/fypapplication/MainActivity.kt:26-48 | login iff nobody is signed in or the read fails; a missing document or role gives the student dashboard; a present role routes as at login |
| MainRouting.MissingRoleIsStudent | app/src/main/java/com/example/fypapplication/MainActivity.kt:34-38 | a missing document, a missing role and the role "student" route alike |

## Left out

- Firebase authentication, Firestore and Storage are remote I/O. Queries are filters and sorts over in-memory sequences, and each failure is an explicit parameter.
- Firestore drops documents that lack an `orderBy` field from a query result. The model keeps them and orders them with the defaulted count. `whereNotEqualTo` semantics for a missing `departmentId` are not modelled either.
- Ties in a Firestore `orderBy` are broken by document id. The model lets store order stand for document-id order.
- `Seqs.SortWith`: its stability (the relative order of equal elements) is not stated or proved, only that it is a sorted permutation.
- `getLong(...)?.toInt()` truncates 64-bit counts to 32 bits. Counts are unbounded integers here.
- The asynchronous interleaving of callbacks is not modelled, and every operation runs sequentially. This includes the race between a registration's supervisor lookup and its counter increment, and the admin screen's fire-and-forget counter updates. `Registration.RegistrationKeepsCapacity` holds only under this sequential reading.
- The counter transaction is modelled as an atomic +1 with no retries.
- String handling:
  - `trim()` and `lowercase()` are modelled on ASCII.
  - `length` counts UTF-16 code units in Kotlin and characters here.
  - Locale-specific case mapping is left out.
- `AdminAssign.AdminAssignScreen.AssignSupervisor`:
  - its reload of the supervisor list after an assignment is modelled as succeeding;
  - `loadSupervisorsFromUsers`, the fallback to the `users` collection when the supervisors collection is empty or unreadable, is not modelled;
  - nor is `getSupervisorName`, which only produces a display name.
- `loadStudents` of the admin screen only lists users; the model takes the student list as given. The supervisor `email` field is display-only and left out of `SupervisorInfo`.
- `markFeedbackAsRead` on the server is fire-and-forget and is not modelled; only the local list update is.
- Student-name lookups in `processProjects` are modelled as a map of the reads that succeed. The student-names step for projects only changes `studentName`.
- User interface work is not modelled. This covers toasts, progress bars, adapters, dialogs, date pickers, status colours, the bullet formatting of objectives and the meeting pager.
- Android string resources (`R.string.…`) are not part of this model. `SupervisorProjects.NoProjectsFound` assumes the text of `no_projects_found`.
- Email and phone validation use Android's pattern matcher, which is not part of this model.
- Seeding default schools and departments (`addDefaultData`) is not part of this model.
- The repository classes (`SubmissionRepository`, `FeedbackRepository`, both `UserRepository` files) are thin wrappers over the store and are not part of this model.
