# TMSFTT-BE core, modelled in Dafny

TMSFTT-BE is the Django back end of a teacher-training management system. This project models five parts of it and proves properties about them:

- The training-record services. Off-campus records are created with their content and attachment rows. Campus records are imported from a spreadsheet as one all-or-nothing step. Department and school administrators review records through a two-stage state machine, and each decision writes one status-change log. Feedback on a campus record marks the record as FEEDBACK_SUBMITTED.
- The campus-event services. An event is reviewed or created. Enrollment is admitted against the event's `num_enrolled` / `num_participants` counter, and an enrollment can be deleted. Two lookups report, for each event, the user's enrollment status or enrollment id.
- The department and teacher synchronisation job (`auth/tasks.py`). It covers:
  - `get_or_create` of departments and their administrator and teacher groups;
  - the parent, type and name syncs, including the eviction of teachers below an old parent and the renaming of groups;
  - the administrative-department map and its path-compressing `update_administrative`;
  - the leaf collection `find_all_child_department`;
  - the teacher sync, which walks the parent chain in `update_user_groups`.
- The legacy import script (`scripts/data_import.py`). It covers:
  - the memoised group cache;
  - the memoised `get_administrative_department`;
  - `get_or_create_user` with its chain-wide group assignment;
  - the row parsers and the row normalisation of the workload import;
  - `converter_get_or_default`;
  - the teacher import loop with its inner `update_user_groups`.
- The `OperationLog` HTTP method table and the `__str__` formats of `OperationLog` and `Notification` (`infra/models.py`).

The database is modelled as in-memory tables. A table is a map from id to row plus a counter for the next id, and link tables are sequences. Each service call is one sequential step. A service that runs inside `transaction.atomic` leaves every table as it was when it fails. Python exceptions are the `Failure` case of a `Result` (module `Wrappers`). `BadRequest` carries the message the service raises. `DoesNotExist`, `IntegrityError`, `ValueError`, `IndexError`, `KeyError` and `AttributeError` stand for the Python or Django exceptions that escape unchanged. `Diverges` stands for a walk along parent pointers that would never end on a cyclic tree.

The modules are:

- `Wrappers`: Option, Result and Error.
- `Strings`: `str(int)`, `int(str)`, `split` and `strip`.
- `Cells`: spreadsheet cells and `int()` on them.
- `Org`: the department tree, chains and leaves.
- `Infra`, `TrainingEvent`, `TrainingRecord`, `AuthTasks` and `DataImport`: one module per core file.

Three points of the code worth knowing:

- The script names a group `'{name}-{type}'`, without the raw id. The synchronisation job names it `'{name}-{raw id}-{suffix}'`. Both forms are modelled, each where it is used.
- The spreadsheet import's error message is the bare text of the failure, with no row prefix.
- The review functions return a list `[record, log]`. The model returns the pair.

## Model

| member | source | states |
|---|---|---|
| Strings.NatToString | training_record/services.py:120 | `str(n)` of a non-negative int is a non-empty numeral without a leading zero, one digit long exactly below 10 |
| Strings.DigitsValueOfNatToString | training_record/services.py:128 | reading back the digits of `str(n)` gives `n` |
| Strings.IntToString | training_record/services.py:128 | `str(i)` is non-empty and starts with '-' exactly for a negative `i` |
| Strings.ParseInt | scripts/data_import.py:196-197 | `int()` on a text either reads a value or raises ValueError, no other error |
| Strings.ParseIntForms | scripts/data_import.py:196-197 | `int()` succeeds exactly on digits, or a sign followed by digits, once the surrounding blanks are stripped; only a leading '-' gives a negative value |
| Strings.ParseIntOfIntToString | training_record/services.py:128 | `int(str(i)) == i` for every integer, so the ids named in error messages can be read back |
| Strings.ParseIntOfNatToString | scripts/data_import.py:206 | `int(str(n)) == n` for a non-negative `n` |
| Strings.ParseIntOfNegative | scripts/data_import.py:206 | `int(str(i)) == i` for a negative `i` |
| Strings.ParseIntOfMinus | scripts/data_import.py:206 | a minus sign before a numeral reads back as the negated value |
| Strings.IntToStringInjective | scripts/data_import.py:339 | distinct staff numbers give distinct usernames `f'{int(zgh)}'` |
| Strings.Strip | scripts/data_import.py:192 | `strip` returns a string no longer than its input that neither starts nor ends with a blank |
| Strings.StripUnchanged | scripts/data_import.py:192 | a string without surrounding blanks is left as it is |
| Strings.Split | auth/tasks.py:126 | `split('-')` yields at least one piece, no piece holds the separator, and joining the pieces gives back the string |
| Strings.SplitJoin | auth/tasks.py:126-127 | splitting undoes joining when no part contains the separator |
| Strings.SplitWithoutSeparator | auth/tasks.py:126 | a string without the separator splits into itself alone |
| Strings.SplitAfterPiece | auth/tasks.py:126 | the piece before the first separator is the first part of the split |
| Cells.CellToInt | scripts/data_import.py:196-197 | `int()` keeps a number; a text it cannot read raises ValueError |
| Cells.CellAt | training_record/services.py:116 | `sheet.cell(i, j)` gives the cell inside the sheet and raises IndexError outside it |
| Infra.NameToValue | infra/models.py:25-26 | the inverted dict has exactly the names of the pairs as keys, and each name maps to the value of one of its pairs |
| Infra.NameToValueAt | infra/models.py:25-26 | with distinct names, every name maps to its own value |
| Infra.NameToValueSize | infra/models.py:25-26 | with distinct names, the dict has one entry per pair |
| Infra.HttpMethodNamesDistinct | infra/models.py:13-22 | the eight method names are distinct |
| Infra.HttpMethodsDictAt | infra/models.py:13-26 | for every `(val, name)` of HTTP_METHODS, `HTTP_METHODS_DICT[name] == val` |
| Infra.HttpMethodsDictSize | infra/models.py:13-26 | HTTP_METHODS_DICT has exactly 8 entries |
| Infra.HttpPostIsOne | infra/models.py:23-26 | `HTTP_METHODS_DICT['POST']` is 1 |
| Infra.HttpMethodsRoundTrip | infra/models.py:13-26 | name to value to name round-trips: each stored value is the position of its name in the table |
| Infra.IndexOf | infra/models.py:51 | the position found is the first occurrence of the character, and None means it does not occur |
| Infra.IndexOfAfterPiece | infra/models.py:51 | in `a + c + b` with no `c` in `a`, the first `c` is at position `|a|` |
| Infra.ParseNumberFieldOf | infra/models.py:51 | a numeral followed by a blank reads back as its value and the rest |
| Infra.OperationLogStringAffixes | infra/models.py:50-52 | `OperationLog.__str__` starts with the time and an opening parenthesis and ends with a blank, the url and a closing parenthesis |
| Infra.OperationLogStringParses | infra/models.py:50-52 | the string `'{time}({requester} {method} {url})'` determines the time, requester, method and url it was made from |
| Infra.NotificationString | infra/models.py:79-82 | `Notification.__str__` ends with '(已读)' exactly when `read_time` is set and with '(未读)' otherwise, after the sender, time and recipient |
| TrainingEvent.EventCount | training_event/services.py:84-86 | the number of enrollment rows of an event is at most the number of rows |
| TrainingEvent.EventCountConcat | training_event/services.py:84-86 | the count of a concatenation is the sum of the counts |
| TrainingEvent.EventCountPositive | training_event/services.py:103-106 | an event that has an enrollment row has a count of at least one, so the decrement never goes below zero |
| TrainingEvent.EventCountZero | training_event/services.py:48 | an event no row refers to has no enrollments |
| TrainingEvent.SameKeySamePosition | training_event/migrations/0001_initial.py:92 | under the `(campus_event, user)` unique key, two rows for the same pair are the same row |
| TrainingEvent.RemoveAt | training_event/services.py:106-108 | deleting a row keeps the unique keys and takes exactly one off the count of that row's event |
| TrainingEvent.RemoveAtCount | training_event/services.py:106-108 | deleting a row lowers only its own event's count, by one |
| TrainingEvent.RemoveAtKeepsRows | training_event/services.py:108 | deleting a row keeps the unique keys and adds no row |
| TrainingEvent.Position | training_event/services.py:103-104 | the position found holds the enrollment with that id |
| TrainingEvent.EnrollmentStatus | training_event/services.py:127-135 | the keys are exactly the queried event ids (objects turned into ids), and a value is true exactly when the user has an enrollment for that event |
| TrainingEvent.EnrolledData | training_event/services.py:157-159 | the dict holds exactly the queried events the user is enrolled in, each with the id of one of the user's enrollments for it |
| TrainingEvent.EnrollmentIds | training_event/services.py:154-162 | the keys are exactly the queried event ids, and a value is None exactly when the user has no enrollment for that event, otherwise the id of one |
| TrainingEvent.EnrollmentIdsMatchStatus | training_event/services.py:134-162 | the id is None exactly where the status map says False |
| TrainingEvent.EnrollmentIdIsTheEnrollment | training_event/services.py:157-162 | with `(campus_event, user)` unique, the id returned is the id of the user's one enrollment for that event |
| TrainingEvent.DeleteKeepsConsistent | training_event/services.py:101-108 | decrementing the event's counter and deleting the row keeps every counter equal to its number of enrollments and within capacity |
| TrainingEvent.EnrollKeepsConsistent | training_event/services.py:81-87 | adding a row for a user not yet enrolled in an event with room left, and counting it, keeps the counters exact and within capacity |
| TrainingEvent.EventStore.constructor | training_event/services.py:17-58 | empty tables are consistent |
| TrainingEvent.EventStore.ReviewCampusEvent | training_event/services.py:20-23 | sets `reviewed` and changes nothing else, so a second review is a no-op |
| TrainingEvent.EventStore.CreateCampusEvent | training_event/services.py:47-55 | one new event with no enrollments, one coefficient row per entry linked to it, and the requester's object permissions |
| TrainingEvent.EventStore.CreateEnrollment | training_event/services.py:77-91 | '报名人数已满' with nothing changed when the event is full; IntegrityError when the pair is already enrolled; otherwise exactly one row more, the counter up by exactly one and the user's object permissions, keeping `num_enrolled <= num_participants` |
| TrainingEvent.EventStore.DeleteEnrollment | training_event/services.py:101-108 | removes exactly that enrollment and decrements only its own event's counter by one |
| TrainingEvent.EnrollThenDelete | training_event/services.py:77-108 | an enrollment created and then deleted leaves every event counter as it was |
| TrainingRecord.Review | training_record/services.py:149-177 | '无此培训记录！' unless the id names a record without a campus event; '无权更改！' unless its status is the stage's source status; otherwise exactly the stage's approved status on approval and its rejected status on rejection, never the source status |
| TrainingRecord.CampusRecordsAreNeverReviewed | training_record/services.py:149-151 | a record of a campus event is never reviewable, whatever its status |
| TrainingRecord.ReviewTwiceFails | training_record/services.py:153-154 | after a successful review, the same review fails with '无权更改！' whichever decision it carries |
| TrainingRecord.StagesChain | training_record/services.py:153-192 | the school stage takes up exactly the department's approvals; no decision returns a record to SUBMITTED; rejections and the school's decisions end the pipeline |
| TrainingRecord.LookupCell | training_record/services.py:116-136 | an id cell outside the sheet raises IndexError; a cell `int()` cannot read raises ValueError; an unknown id gives '编号为<id><what>'; otherwise the id, which is in the table |
| TrainingRecord.RowPair | training_record/services.py:123-136 | a good row's user and coefficient exist |
| TrainingRecord.FirstBadRow | training_record/services.py:122-136 | the row found is the first bad row at or after the start, and None means every row from there on is good |
| TrainingRecord.ImportRows | training_record/services.py:122-142 | the rows succeed exactly when no row is bad; the first bad row's error is returned; otherwise one (user, coefficient) pair per row, in order |
| TrainingRecord.ImportPlan | training_record/services.py:104-142 | an unreadable file gives '无效的表格'; an empty sheet raises IndexError; success reads an existing event from cell (0, 0) and yields nrows − 1 pairs |
| TrainingRecord.CampusRecords | training_record/services.py:137-140 | one FEEDBACK_REQUIRED record of the event per pair, with that pair's user and coefficient |
| TrainingRecord.ImportNamesUnknownUser | training_record/services.py:125-128 | an unknown user id aborts the import with the message naming that id when the rows above it are good |
| TrainingRecord.InsertAll | training_record/services.py:137-142 | the new rows land under consecutive fresh ids and the old rows are kept |
| TrainingRecord.AddEventOk | training_record/services.py:54-63 | a new off-campus event, and a default coefficient when none was given, keep the tables consistent |
| TrainingRecord.InsertAllOk | training_record/services.py:137-142 | inserting records that refer to existing rows keeps the tables consistent |
| TrainingRecord.AddRowsOk | training_record/services.py:71-81 | content and attachment rows of an existing record keep every row linked to an existing record |
| TrainingRecord.RowsOkGrow | training_record/services.py:65-69 | adding records keeps every row linked to an existing record |
| TrainingRecord.RecordStore.constructor | training_record/services.py:20 | empty record tables over existing users, events and coefficients are consistent |
| TrainingRecord.RecordStore.AdminReview | training_record/services.py:147-214 | a stage's decision sets the new status and appends exactly one log (source status, new status, actor, time), returning the record and the log; on failure nothing changes |
| TrainingRecord.RecordStore.DepartmentAdminReview | training_record/services.py:147-179 | SUBMITTED goes to DEPARTMENT_ADMIN_APPROVED or DEPARTMENT_ADMIN_REJECTED with one log whose pre-status is SUBMITTED; both failure messages leave records and logs unchanged |
| TrainingRecord.RecordStore.SchoolAdminReview | training_record/services.py:182-214 | DEPARTMENT_ADMIN_APPROVED goes to SCHOOL_ADMIN_APPROVED or SCHOOL_ADMIN_REJECTED with one log whose pre-status is DEPARTMENT_ADMIN_APPROVED; the same two failures |
| TrainingRecord.RecordStore.CreateOffCampusRecord | training_record/services.py:44-82 | a missing event is reported before a missing or non-User user, and nothing is created; otherwise one event, one SUBMITTED record, the default participator coefficient (0, both roundings NONE) when none is given, and one content and one attachment row per entry, with None read as empty |
| TrainingRecord.RecordStore.AddOffCampusRecord | training_record/services.py:53-81 | the creations once the guards have passed, under fresh ids |
| TrainingRecord.RecordStore.AddRecord | training_record/services.py:54-69 | the event, the coefficient when none was given, and the record referring to both |
| TrainingRecord.RecordStore.AddEvent | training_record/services.py:54-63 | the new event and, when no coefficient was given, the event's default participator coefficient |
| TrainingRecord.RecordStore.AddRows | training_record/services.py:71-81 | one content row per entry and one attachment row per path, appended in order |
| TrainingRecord.RecordStore.CreateCampusRecordsFromExcel | training_record/services.py:102-144 | fails exactly as the plan does, keeping no record; otherwise one FEEDBACK_REQUIRED record per row below the first, under fresh ids, and their number nrows − 1 is returned |
| TrainingRecord.RecordStore.AddRecords | training_record/services.py:137-142 | commits the records under consecutive fresh ids and keeps the tables consistent |
| TrainingRecord.RecordStore.CreateFeedback | training_record/services.py:220-229 | exactly one feedback, and the record's status becomes FEEDBACK_SUBMITTED whatever it was; a missing record raises DoesNotExist |
| TrainingRecord.ContentsOf | training_record/services.py:71-75 | one content row per entry, in order, linked to the record |
| TrainingRecord.AttachmentsOf | training_record/services.py:77-81 | one attachment row per path, in order, linked to the record |
| TrainingRecord.ContentRows | training_record/services.py:71-75 | the loop creates exactly the content rows ContentsOf describes |
| TrainingRecord.AttachmentRows | training_record/services.py:77-81 | the loop creates exactly the attachment rows AttachmentsOf describes |
| TrainingRecord.ReadRows | training_record/services.py:122-136 | the row loop gives exactly what ImportRows describes |
| Org.Children | auth/tasks.py:71 | `child_departments.all()` lists exactly the departments whose super department is `d`, each once, in id order |
| Org.Leaves | auth/tasks.py:68-77 | `find_all_child_department(d)` returns at least one department; the only failure is a walk that would not end |
| Org.LeavesOf | auth/tasks.py:72-74 | the leaves of a list of children are at least as many as the children; the only failure is a walk that would not end |
| Org.LeavesOfCollects | auth/tasks.py:72-74 | the loop over the children collects exactly the leaves of each child, in order |
| Org.LeavesAreSubtreeLeaves | auth/tasks.py:68-77 | `find_all_child_department(d)` returns exactly the leaf departments of d's subtree; a childless `d` gives `[d]` |
| Org.LeavesSound | auth/tasks.py:68-77 | everything returned is a leaf below `d` |
| Org.LeavesComplete | auth/tasks.py:68-77 | every leaf below `d` is returned |
| Org.LeavesIgnoreNewRoot | auth/tasks.py:96-99 | creating a parentless department leaves the leaves below every department as they were |
| Org.LeafHasNoChildren | auth/tasks.py:72-76 | a leaf has no children |
| Org.LeavesTerminate | auth/tasks.py:68-77 | on a tree of bounded depth the recursion never gives up |
| Org.ChainUp | scripts/data_import.py:75-78 | the walk from `d` through super departments to the first department without one: a walk up that ends at a root; DoesNotExist for an unknown id; Diverges past the fuel |
| Org.ChainUpUnique | scripts/data_import.py:75-78 | the chain found is the only walk up from `d` to a root |
| Org.RootOnlyAtEnd | scripts/data_import.py:76 | a root appears on a walk only at its end |
| AuthTasks.FindRaw | auth/tasks.py:80-82 | the department with that raw id and the lowest id, or None when there is none |
| AuthTasks.FindGroup | auth/tasks.py:23-24 | the group with that name and the lowest id, or None when there is none |
| AuthTasks.GroupNameAffixes | auth/tasks.py:59-61 | a department's group `'{name}-{rawid}-{suffix}'` starts with the prefix the name sync filters on and ends with '-' and its suffix |
| AuthTasks.RenamedGroupName | auth/tasks.py:126-127 | a name that does not split on '-' into exactly three pieces raises ValueError |
| AuthTasks.RenameKeepsRawIdAndSuffix | auth/tasks.py:120-127 | `'{old}-{rawid}-{suffix}'` becomes `'{new}-{rawid}-{suffix}'` when no piece contains '-' |
| AuthTasks.RenamedStartsWithNewName | auth/tasks.py:126-127 | a renamed group starts with the new name followed by the old name's raw id |
| AuthTasks.RenameAll | auth/tasks.py:120-128 | every group starting with the prefix is renamed, the others are untouched and no group id changes; ValueError when one renamed name does not split into three |
| AuthTasks.RenameGroups | auth/tasks.py:123-128 | the rename loop gives exactly what RenameAll describes |
| AuthTasks.WithoutTeacherGroups | auth/tasks.py:107-109 | the memberships left are exactly those whose group name does not end with '-专任教师' |
| AuthTasks.GroupKinds | auth/tasks.py:107-109 | a department's teacher group passes the `endswith('-专任教师')` filter and its administrator group does not |
| AuthTasks.Evicted | auth/tasks.py:107-110 | an evicted teacher has no department and keeps only the groups that are not teacher groups; nothing else about them changes |
| AuthTasks.EvictFrom | auth/tasks.py:106-110 | after evicting a leaf, no teacher is in it, and every teacher who was not in it is unchanged |
| AuthTasks.EvictAll | auth/tasks.py:105-110 | after the eviction loop, no teacher is in any of the leaves, and the set of teachers is the same |
| AuthTasks.EvictAllEvictsLeafTeachers | auth/tasks.py:105-110 | the eviction loop evicts exactly the teachers of the leaf departments (teacher groups and department removed) and leaves every other teacher as they were |
| AuthTasks.StepsMore | auth/tasks.py:49-52 | a walk that stops within some number of steps stops the same way with more |
| AuthTasks.StepRank | auth/tasks.py:49-52 | when every walk stops, the step counts rank the walks |
| AuthTasks.LowerShrinks | auth/tasks.py:49-52 | each step of a walk that does not stop leaves fewer entries of lower rank |
| AuthTasks.StepsWithinLower | auth/tasks.py:49-52 | a walk stops within the number of entries of lower rank |
| AuthTasks.RankedStops | auth/tasks.py:49-52 | on a closed map that a rank orders, every walk stops |
| AuthTasks.Terminal | auth/tasks.py:49-52 | the end of a walk maps to itself, and it is the start exactly when the start maps to itself |
| AuthTasks.TerminalIsFirstFixed | auth/tasks.py:49-52 | the terminal is the first self-mapped department on the walk |
| AuthTasks.Terminals | auth/tasks.py:44-55 | the table of terminals has the map's keys |
| AuthTasks.TerminalFacts | auth/tasks.py:49-52 | a terminal is its own terminal, and a step that does not stop keeps the terminal and lowers the rank |
| AuthTasks.TerminalsTable | auth/tasks.py:44-55 | the table of terminals has those facts |
| AuthTasks.TerminalTableIsTerminals | auth/tasks.py:44-55 | those facts determine the table of terminals |
| AuthTasks.CompressingStep | auth/tasks.py:49-54 | on a partly compressed map, each entry still leads to its terminal and on down in rank |
| AuthTasks.UpdateAdministrative | auth/tasks.py:44-55 | succeeds exactly on a closed map whose walks stop, and then every entry maps to the first self-mapped department on its walk; a value that is not a key raises KeyError; a cycle is reported as Diverges |
| AuthTasks.TerminalsAnyRank | auth/tasks.py:44-55 | the terminals do not depend on the rank that orders the walks |
| AuthTasks.UpdateAdministrativeOnTrees | auth/tasks.py:44-55 | on a closed map that any rank orders, the map's walks stop and update_administrative gives every entry its terminal |
| AuthTasks.CompressAll | auth/tasks.py:46-54 | the for loop, over the entries in any order, ends with every entry mapped to its terminal |
| AuthTasks.CompressFrom | auth/tasks.py:47-54 | one turn of the loop maps its entry and every entry already done to their terminals |
| AuthTasks.WalkToTerminal | auth/tasks.py:47-52 | the inner while loop ends at the entry's terminal, and every department passed has that terminal |
| AuthTasks.Compress | auth/tasks.py:53-54 | the departments passed are rewritten to the terminal and nothing else changes |
| AuthTasks.TerminalsAreFixed | auth/tasks.py:44-55 | after update_administrative, every entry maps to a department that maps to itself |
| AuthTasks.InitialAdministrative | auth/tasks.py:133-141 | a department whose super or grand-super department is the school maps to itself, any other one to its super department; AttributeError when the grand-super department is read from a department without a super department |
| AuthTasks.ChainToSchool | auth/tasks.py:22-27 | the chain the while loop walks: a walk up from the department, no longer than the fuel, whose last department and only that one has the school's raw id |
| AuthTasks.ChainGroups | auth/tasks.py:20-27 | a successful walk hands over at least one group |
| AuthTasks.ChainGroupsFollowChain | auth/tasks.py:20-27 | the handler receives, department by department from `dep` up to and including the school, exactly the group `'{name}-{rawid}-专任教师'` |
| AuthTasks.WalkGroups | auth/tasks.py:20-27 | the while loop gives exactly what ChainGroups describes |
| AuthTasks.DefaultSuper | auth/tasks.py:91-92 | an empty source parent id becomes '10141'; any other is kept |
| AuthTasks.InfoName | auth/tasks.py:94-95 | the name in a row with that id, or DoesNotExist when no row has it |
| AuthTasks.SuperName | auth/tasks.py:90-95 | the school's name for the school, otherwise the name in the table |
| AuthTasks.ParentChanges | auth/tasks.py:86-88 | the parent is re-synced when there is none; when it is not re-synced, the current parent carries the row's `lsdw` |
| AuthTasks.WithoutSchool | auth/tasks.py:40 | exactly the rows whose id is not the school's |
| AuthTasks.NewDepartmentOk | auth/tasks.py:80-82 | a new parentless department keeps every super department existing |
| AuthTasks.ChangedDepartmentOk | auth/tasks.py:111 | a super department that exists keeps the tables consistent |
| AuthTasks.NewGroupOk | auth/tasks.py:63-64 | a new group keeps the tables consistent |
| AuthTasks.RenamedGroupsOk | auth/tasks.py:125-128 | renamed groups keep their ids and the tables consistent |
| AuthTasks.FindGroupIgnoresNew | auth/tasks.py:64 | a group added under a fresh id does not change an earlier lookup |
| AuthTasks.FindRawIgnoresNew | auth/tasks.py:80-82 | a department added under a fresh id does not change an earlier lookup |
| AuthTasks.FindGroupGrows | auth/tasks.py:64 | a group found stays found as groups are added |
| AuthTasks.EmptyLsdwAlwaysMoves | auth/tasks.py:86-92 | an empty source parent id counts as a parent change on every run, even when the parent already is the school, since the raw id is compared before the default applies |
| AuthTasks.ExtendsTrans | auth/tasks.py:79-141 | the tables only ever grow, step after step |
| AuthTasks.FindRawStable | auth/tasks.py:149-152 | the lookup by raw id finds the same department on a table that extends the one it was made on |
| AuthTasks.FindRawKeeps | auth/tasks.py:149-152 | a department found stays the one found as departments are added |
| AuthTasks.Collected | auth/tasks.py:133-141 | the map the department loop builds has one entry per department synced, and each holds the value the last pass over that department stored |
| AuthTasks.PassStep | auth/tasks.py:79-141 | one more synced row keeps every earlier row synced: its department is still found by raw id, and the last pass over each department still holds |
| AuthTasks.ResolvedIsFixed | auth/tasks.py:44-55 | after update_administrative, the map has the loop's keys and every entry maps to a department that maps to itself |
| AuthTasks.LooksUpOf | auth/tasks.py:148-152 | the dict the second loop builds has exactly the raw ids of the rows other than the school's, each mapped to the department found by that raw id |
| AuthTasks.RenameAllIs | auth/tasks.py:125-128 | a table renamed group by group is the one RenameAll describes |
| AuthTasks.Elems | auth/tasks.py:188-194 | the set of the groups handed to the handler |
| AuthTasks.NewTeacher | auth/tasks.py:169-173 | a new user is in the '个人权限' group only, has no usable password and no department |
| AuthTasks.SyncedTeacher | auth/tasks.py:168-194 | the teacher takes the row's name; an unknown department id leaves no department; a failure comes only from a known department |
| AuthTasks.SyncedUnknownDepartment | auth/tasks.py:175-185 | an unknown department removes every '-专任教师' membership and the department, keeping the other groups |
| AuthTasks.SyncedMovedTeacher | auth/tasks.py:186-194 | a changed department removes the old chain's groups, sets the department and its administrative department from the map, and adds the new chain's groups |
| AuthTasks.SyncedNewTeacher | auth/tasks.py:169-173 | a newly created user joins '个人权限' and has no usable password |
| AuthTasks.SyncedTeacherIdempotent | auth/tasks.py:168-194 | syncing a teacher a second time from the same row changes nothing |
| AuthTasks.SyncedAll | auth/tasks.py:167-211 | the teacher loop never removes a user; the lemmas below state what it does to each |
| AuthTasks.SyncedAllPrefixFails | auth/tasks.py:167-215 | when one row fails, the whole loop fails |
| AuthTasks.SyncedAllUsers | auth/tasks.py:168-170 | after the loop there is a user for every staff number and no other new one |
| AuthTasks.SyncedAllLeavesOthers | auth/tasks.py:168-211 | the users no row names are left as they were |
| AuthTasks.SyncedAllLastRowWins | auth/tasks.py:168-211 | every user ends as the last row naming them left them |
| AuthTasks.Directory.constructor | auth/tasks.py:38-39 | empty tables are consistent |
| AuthTasks.Directory.GetOrCreateDepartment | auth/tasks.py:80-82 | the department with that raw id, created under the next id exactly when none exists |
| AuthTasks.Directory.GetOrCreateGroup | auth/tasks.py:64 | the group with that name, created exactly when none exists; no group is lost or renamed |
| AuthTasks.Directory.UpdateGroupAndPerms | auth/tasks.py:57-66 | both the '-管理员' and the '-专任教师' group exist afterwards, and model permissions are assigned exactly when the department was created |
| AuthTasks.Directory.EvictTeachers | auth/tasks.py:105-110 | the teachers of every leaf lose their teacher groups and their department |
| AuthTasks.Directory.GetOrCreateSuper | auth/tasks.py:96-100 | the super department with that raw id, created with its groups when missing, changing no leaf set |
| AuthTasks.Directory.EvictBelow | auth/tasks.py:102-110 | the teachers of exactly the leaves below the old super department are evicted |
| AuthTasks.Directory.Reparent | auth/tasks.py:86-112 | the teachers below the old super department are evicted, and the department's new super department exists and carries the source parent id after the default, nothing else changing |
| AuthTasks.Directory.SyncName | auth/tasks.py:119-130 | a new name renames every group prefixed `'{old}-{rawid}-'` and becomes the department's name; ValueError leaves groups and departments unchanged |
| AuthTasks.Directory.SyncType | auth/tasks.py:114-116 | the department takes the row's type and nothing else changes |
| AuthTasks.Directory.SyncFields | auth/tasks.py:86-130 | afterwards the department has the row's name, type and a super department carrying the row's parent id, and every other department is as it was |
| AuthTasks.Directory.SyncDepartment | auth/tasks.py:79-141 | the row's department is the one found by raw id; it has the row's name, type and a parent carrying the row's parent id, and its administrative entry is the starting rule's value; every other department is as it was |
| AuthTasks.Directory.SyncRows | auth/tasks.py:79-141 | the loop, row by row: on success the map it returns is the one Collected builds from the passes, and each pass holds as SyncDepartment states it |
| AuthTasks.Directory.SyncDepartments | auth/tasks.py:30-156 | on success the school exists, each row but the school's was synced in turn (name, type, parent, starting administrative entry), the returned map is update_administrative of the loop's map, and the dict maps each such row's raw id to its department |
| AuthTasks.Directory.LookUpAll | auth/tasks.py:148-152 | the dict has exactly the rows' raw ids, each mapped to the department found by that raw id, and no table changes |
| AuthTasks.Directory.SyncTeacher | auth/tasks.py:168-211 | one turn of the teacher loop, exactly as SyncedTeacher states it |
| AuthTasks.Directory.SyncTeachers | auth/tasks.py:159-216 | the personal group exists; the loop succeeds exactly when SyncedAll does, and then the teachers are what it gives; once the school exists the departments do not change |
| AuthTasks.Directory.SyncBoth | auth/tasks.py:223-228 | the department pass succeeds as SyncDepartments states it, and then the teachers are what SyncedAll gives from the teachers that pass left, with its dict and map |
| AuthTasks.Directory.UpdateTeachersAndDepartments | auth/tasks.py:219-228 | on any failure every table is as it was; on success the departments are synced as SyncDepartments states, the teachers are what SyncedAll gives with the resulting dict and map, and every staff number has a user |
| DataImport.ScriptGroupNameShared | scripts/data_import.py:62-63 | two departments share the group of a type exactly when their names agree |
| DataImport.ScriptGroupNameAffixes | scripts/data_import.py:62-63 | the script's group `'{name}-{type}'` starts with the department's name and '-' and ends with '-' and the group type |
| DataImport.TeacherAndAdminGroupsDiffer | scripts/data_import.py:62-63 | no teacher group is named like an administrator group |
| DataImport.AdminIndex | scripts/data_import.py:79-82 | position 0 on a chain shorter than three, otherwise the third from the end |
| DataImport.AdministrativeOf | scripts/data_import.py:71-85 | with `deps` the chain from the department to the root, `deps[0]` when `len(deps) < 3`, else `deps[-3]`; fails exactly when the walk does |
| DataImport.ChainDistinct | scripts/data_import.py:76-78 | a walk up to a root never meets a department twice |
| DataImport.SuffixUp | scripts/data_import.py:76-78 | what follows an entry of a walk up is a walk up |
| DataImport.PrefixUp | scripts/data_import.py:76-78 | what leads up to an entry of a walk up is a walk up |
| DataImport.AdministrativeNearRoot | scripts/data_import.py:79-82 | the result is the department itself or the ancestor two levels below the root |
| DataImport.AdministrativeIdempotent | scripts/data_import.py:79-82 | the result is its own administrative department |
| DataImport.InitialAlongChain | auth/tasks.py:133-141 | along the chain up to the school, the synchronisation's starting rule maps the two departments nearest the school to themselves and every other one to the next |
| DataImport.InitialStopsAt | auth/tasks.py:133-141 | under the starting rule, the chain stops at the department get_administrative_department picks |
| DataImport.ChainReachesRoot | scripts/data_import.py:75-78 | below a single root, every chain climbs past its start and ends at the root |
| DataImport.ChainStopsAtAdministrative | scripts/data_import.py:75-82 | under the synchronised map, the chain from `d` stops exactly at its administrative department |
| DataImport.AdministrativeAgreesWithSync | scripts/data_import.py:71-85 | on a tree whose only root is the school, the synchronisation's rule resolved by update_administrative assigns every department below the school the department get_administrative_department picks |
| DataImport.TerminalOfStoppingPath | auth/tasks.py:49-52 | the terminal of a walk that stops is its last department, whatever the rank |
| DataImport.RowParser2018 | scripts/data_import.py:159-160 | `row[1:9]`: the cells from the second, at most eight |
| DataImport.RowParser2017 | scripts/data_import.py:163-165 | `(row[4], row[2], row[1], row[3], row[5], row[6], coef, 0)` with coef 4 exactly when `row[5] == '专家'`, else 1; IndexError on fewer than seven cells |
| DataImport.RoleOf | scripts/data_import.py:190-192 | a known role gives one of the role values; an unknown one raises KeyError, a number AttributeError |
| DataImport.NormaliseRow | scripts/data_import.py:188-206 | ValueError unless there are eight fields; a row without a department name or a staff number is skipped; otherwise the role, the hours and the coefficient as read |
| DataImport.ParticipateIsParticipant | scripts/data_import.py:190-191 | '参加' and '参与' give the same row |
| DataImport.OneParses | scripts/data_import.py:194-197 | the default coefficient '1' reads as 1 |
| DataImport.MissingHoursDefault | scripts/data_import.py:193-195 | when the hours or the coefficient are empty, the coefficient is 1 and the hours are the workload |
| DataImport.HoursAndCoefficient | scripts/data_import.py:193-195 | the coefficient cell is truthy and the hours are the hours cell or the workload; with both given they are kept as they are |
| DataImport.StaffNumberForms | scripts/data_import.py:204-206 | a nonzero staff number given as a number or as its text gives the same row |
| DataImport.Row2017Workload | scripts/data_import.py:163-197 | a 2017 expert row keeps coefficient 4 only when hours are given; without hours it falls back to coefficient 1 and the workload 0 |
| DataImport.ConverterGetOrDefault | scripts/data_import.py:256-260 | the converter's value for a key it knows; otherwise the default when it is truthy, else the key |
| DataImport.ConverterIdempotent | scripts/data_import.py:304-308 | without a default, converting twice is converting once when no converted value is itself a code |
| DataImport.CellString | scripts/data_import.py:293 | a text is kept, a number is written as a numeral `int()` reads back |
| DataImport.DepartmentOfCell | scripts/data_import.py:340 | the department with that raw id, None when unknown |
| DataImport.TeacherRow | scripts/data_import.py:335-343 | a row already read or with an unknown department is skipped; an empty row raises IndexError, fewer than ten cells or an unreadable staff number ValueError; otherwise the username `f'{int(zgh)}'`, the name and the department |
| DataImport.RowsRead | scripts/data_import.py:333-360 | the usernames the loop collects are read from some row's staff number; the only errors are IndexError and ValueError |
| DataImport.RowsReadStep | scripts/data_import.py:333-360 | one more row extends the usernames by what that row reads against those collected before it, or stops with its error |
| DataImport.NumericStaffNumberNotSkipped | scripts/data_import.py:335 | a staff number read as a number is never found among the usernames read, so the row is never skipped as repeated |
| DataImport.RepeatedRowSkipped | scripts/data_import.py:335-360 | a row whose staff number is text in the script's format is skipped the second time |
| DataImport.WalkUp | scripts/data_import.py:151-155 | every department walked exists |
| DataImport.TeacherGroupIdsSnoc | scripts/data_import.py:152-154 | one more department on the walk adds its cached teacher group |
| DataImport.WalkTeacherGroups | scripts/data_import.py:322-331 | a successful walk hands at least one existing group to the handler |
| DataImport.TeacherGroupsAlong | scripts/data_import.py:327-331 | one teacher group per department of the walk, in order, found by name; DoesNotExist exactly when one is missing |
| DataImport.WalkFromChainEntry | scripts/data_import.py:326-331 | walking from one entry of the chain to a later one hands over the groups of exactly the departments between them |
| DataImport.WalkToAdministrative | scripts/data_import.py:322-331 | for a teacher placed under get_administrative_department, the walk covers exactly the departments from theirs up to the administrative one |
| DataImport.WalkChain | scripts/data_import.py:75-78 | the while loop gives exactly the chain ChainUp describes |
| DataImport.ChangedOnlyGroups | scripts/data_import.py:154 | changing one user's groups keeps every placed user placed |
| DataImport.Importer.constructor | scripts/data_import.py:61-70 | the memos start empty |
| DataImport.Importer.GetOrCreateGroup | scripts/data_import.py:61-67 | the group `'{department.name}-{group_type}'`, from the memo when cached, otherwise found or created and then cached |
| DataImport.Importer.GetAdministrativeDepartment | scripts/data_import.py:71-85 | None for no department; otherwise the memo's answer or the pick on the chain, memoised under the department's id |
| DataImport.Importer.JoinTeacherGroup | scripts/data_import.py:153-154 | the user joins the teacher group of the department, and nothing else changes |
| DataImport.Importer.AddTeacherGroups | scripts/data_import.py:151-155 | the user joins the teacher group of every department from `d` up to the root |
| DataImport.Importer.GetOrCreateUser | scripts/data_import.py:143-156 | the user with these modelled fields, created without a usable password when the username is new, IntegrityError when taken by a user with other fields; then the chain-wide teacher groups |
| DataImport.Importer.UpdateUserGroups | scripts/data_import.py:322-331 | the user joins the teacher group of every department from their department up to their administrative one |
| DataImport.Importer.ImportTeacher | scripts/data_import.py:333-360 | one turn of the teacher loop: skipped rows change nothing; a teacher read is placed under the administrative department of their department, and a created one also joins the walk's groups and '个人权限' |
| DataImport.Importer.JoinNewTeacher | scripts/data_import.py:357-359 | a created teacher joins the groups from their department up to the administrative one, then the personal group |
| DataImport.Importer.ReadNext | scripts/data_import.py:333-360 | one turn of the loop: the usernames grow exactly as RowsReadStep says, a row that cannot be read fails, and every teacher read stays placed |
| DataImport.Importer.ReadTeachers | scripts/data_import.py:312-362 | the usernames read from the third row on are exactly those RowsRead collects, the loop fails whenever RowsRead does, and every teacher read is placed under the administrative department of their department |

## Left out

- Spreadsheet and file I/O (`xlrd`, `tempfile`, opening workbooks) is not modelled. The models take a sheet as a sequence of rows of cells. A file xlrd cannot read is the `None` sheet.
- Cells hold integers or texts only. Float cells, and the truncation of `int()` on them, are not modelled.
- `int()` on a text accepts surrounding blanks, an optional minus or plus sign and decimal digits. Underscores between digits, Unicode decimal digits other than ASCII 0-9, and white space other than blanks, are not modelled.
- `Strings.Strip` removes blanks only, not other white space.
- Row locking (`select_for_update`), concurrency and the database itself are not modelled. Each service is one sequential step.
- A service inside `transaction.atomic` commits or changes nothing. This holds for the record creation, the spreadsheet import and the department and teacher synchronisation.
- The `@transaction.atomic` around the script's `populate` is not modelled. Each modelled step of the script states its own effect.
- `PermissionService.assign_object_permissions` is not modelled, nor are `assign_model_perms_for_department`, `assign_perm` and `assign_model_perms_for_special_groups`. Their code is not part of this model. A grant is recorded as a row of a grants table or of the set of departments whose model permissions were assigned. Permission contents are not modelled.
- Dates, times and ages are not modelled: `now()`, `strptime`, `days // 365`, onboarding times and the default time windows. A time is an opaque value given as a parameter.
- The remaining User fields are not modelled. These are gender, age, tenure status, education background, technical title, teaching type, phone, email and onboard time, in both the synchronisation and the script. The model keeps the username, first name, department, administrative department, groups and password state. The converter calls of `extract_teacher_information` are modelled only through `DataImport.ConverterGetOrDefault`.
- `set_unusable_password` is a flag on new users, in both the synchronisation and the script. The script never calls `user.save()` after it (scripts/data_import.py:149-150), so the cleared password stays on the user object it returns. The model's user table holds that object.
- `CoefficientCalculationService` and all workload arithmetic are not modelled, because hours and coefficients are floats and `calculate_event_workload` is not part of this model.
- The rest of `read_workload_content` after the row normalisation is not modelled. This covers `random.choice` of a program, Faker texts, the creation of events, enrollments, coefficients and records, and the printing. `DataImport.NormaliseRow` stops at the normalised row.
- The following script functions are not modelled, because they only create fixed data or read a departments file: `read_departments_information`, `get_dlut_department`, `get_dlut_admin`, `get_dlut_admin_group`, `make_programs`, `assign_model_perms`, `populate_initial_data` and `populate`.
- The `departments` dict of `read_teachers_information` is the parameter `byRaw`. It is built from `Department.objects.all()`, which is outside the model.
- Logging, `prod_logger` warnings, `print` and `ProgressBar` are not modelled.
- When several rows match a `get` lookup, the model takes the lowest id. Django would raise MultipleObjectsReturned instead. `FindRaw` and `FindGroup` state this.
- The role names of `EventCoefficient.ROLE_CHOICES_MAP` are taken from the model's choices in `training_event/migrations/0001_initial.py:65`, because the model file is not part of this model.
- A new record's default status is SUBMITTED. `training_record/models.py` is not part of this model, and SUBMITTED is the status the review stages start from.
- AuthTasks.EvictFrom: `User.objects` and `User.all_objects` are both modelled as the whole user table. The eviction at auth/tasks.py:106 goes through `User.objects`, which may hide users, such as soft-deleted ones, that the `all_objects` manager of the teacher sync at auth/tasks.py:169 sees. The model evicts those users too. In the same way, `DataImport.UserMatches` finds a user that `User.objects.get_or_create` at scripts/data_import.py:144 would not see. There the source's insert would raise IntegrityError instead. The User model and its managers are not part of this model.
- Group names are not unique in the model. Django's `Group.name` is unique, so the `group.save()` of a rename raises IntegrityError when another group already has the new name. `AuthTasks.RenameAll` then gives two groups the same name, and `AuthTasks.DirectoryOk` does not demand distinct names.
- The field validation of `OffCampusEvent.objects.create` and `RecordContent.objects.create` is not modelled. The ORM raises on a dict whose keys or values the model class rejects. `TrainingRecord.RecordStore.CreateOffCampusRecord` succeeds once its own checks pass, because the model classes are not part of this model.
- UpdateAdministrative: reports KeyError before Diverges, whatever the order of the dict. Python raises whichever it meets first while it iterates the dict. Both are failures, and the transaction rolls back either way.
- UpdateTeachersAndDepartments: the teachers after the department pass appear only as the state SyncedAll starts from. The evictions that pass makes are stated by `AuthTasks.Directory.EvictBelow` and `AuthTasks.Directory.Reparent`, not again at this level.
- Walks along parent pointers carry fuel, and running out of it is reported as `Diverges`. On a cyclic tree the Python loops never end, and the recursion exhausts the stack. The fuel is the number of departments, so no walk on a real tree runs out.
- DataImport.CellString: a numeric name cell is written as its integer numeral, not as Python's float text.
- DataImport.AdministrativeAgreesWithSync is stated for any rank that orders the map's walks, not for the map update_administrative builds. `AuthTasks.UpdateAdministrativeOnTrees` makes that link: update_administrative returns these terminals whatever the rank.
- TrainingEvent.EventStore.DeleteEnrollment requires the enrollment to exist, since the caller passes an enrollment instance.
- The `ReviewScenario` and `CapacityScenario` methods are worked examples without contracts of their own. They are not in the table.
- Views, serializers, urls, admin, mock CAS, secure files and the data warehouse statistics are framework glue and are not modelled. So are `close_record`, `update_off_campus_record_from_raw_data` and `get_number_of_records_without_feedback`, which are not in the modelled services.
