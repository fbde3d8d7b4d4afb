# Makerspace task board — a Dafny model

The modelled system is a makerspace task board.
- **Staff members** claim, unclaim and complete tasks. They see their scheduled and claimed hours for the week against a budget.
- **Managers** edit their team's skills, delete users and export the task and user collections as CSV.
- **Developers** publish release notes and triage bug reports from a developer portal.
- **The back end**:
  - reads the university's academic calendar to find the quarter start dates;
  - deletes a user together with their task assignments;
  - rolls recurring tasks over to their next due date.
- **The scheduling client** (the When I Work wrapper) groups shifts by employee and sums shift hours over a week, a quarter and an academic year.

One Dafny module models each core file:

| module | file | form |
|---|---|---|
| `Board` | `board.js` | the task board page: a class whose fields are the page's `currentUser` and `tasksData` |
| `UserDash` | `userdash.js` | the personal dashboard page, in the same form |
| `Staff` | `staff.js` | the staff page, in the same form, plus the weekly hours computation |
| `WhenIWork` | `wheniwork.js` | the scheduling client: a class holding its `users` list |
| `Server` | `server/server.js` | the quarter-dates endpoint, the delete-user endpoint (a class over the two collections) and the recurring-task job |
| `Manager` | `manager.js` | the manager page: a class over `allUsers`, `allTasks` and `selectedUser` |
| `DevPortal` | `devportal.js` | the portal's version record and report list, as a class |
| `Export` | `export.js` | the CSV export, as loops that build the text |

The shared helper modules are:
- `Records`: the task and user documents;
- `Seqs`: `filter`, `indexOf`+`splice`, `arrayRemove`;
- `Strings`: ASCII `toLowerCase`, `trim`, `split`, `join` and integer printing;
- `Clock`: milliseconds since the epoch, in UTC, with the weekday and civil-calendar arithmetic of `Date`.

Calls to Firestore, to the scheduling service, to the calendar page and to the identity service are not modelled. Each appears as an input instead:
- a `storeOk` flag, for whether the write succeeded;
- an `Option` holding the fetched data;
- a `now` timestamp, for the current time.

## Model

| member | source | states |
|---|---|---|
| Seqs.Filter | board.js:134 | `filter` keeps exactly the elements that pass, and never lengthens the list |
| Seqs.FilterMultiset | manager.js:405 | filtering keeps every copy of a passing element and none of the others |
| Seqs.FilterAppend | userdash.js:146-148 | filtering a concatenation is the concatenation of the filtered parts, so order is kept |
| Seqs.FilterRanks | wheniwork.js:275-282 | each kept element sits in the filtered list at the number of kept elements before it, so kept elements keep their order |
| Seqs.FindFirst | board.js:162 | `find`/`findIndex` returns the first position that passes, or nothing when none does |
| Seqs.MapListedStep | server/server.js:387-412 | listing one more key updates that entry once more, which an idempotent update leaves as it was |
| Seqs.IndexOf | userdash.js:215-218 | `indexOf` is -1 (None) exactly when the element is absent; otherwise it is the first index holding it |
| Seqs.RemoveFirstSpec | userdash.js:215-218 | `indexOf` then `splice(i, 1)` removes exactly one copy when there is one and otherwise changes nothing |
| Seqs.RemoveFirstAppended | userdash.js:215-218 | removing an id that was just pushed restores the list it was pushed onto |
| Seqs.RemoveAll | server/server.js:402-403 | `arrayRemove` and `filter(x => x !== v)` remove every copy of the value and keep every other value's count |
| Seqs.RemoveAllIdempotent | server/server.js:402-403 | removing a value twice is the same as removing it once |
| Seqs.RemoveFirstDistinct | userdash.js:192-218 | on a list without duplicates, the page's local `splice` and the store's `arrayRemove` agree, and the list stays without duplicates |
| Seqs.FilterDistinct | manager.js:263 | filtering a list without duplicates leaves none |
| Strings.ToLower | manager.js:286 | `toLowerCase` keeps the length and lowers each ASCII capital |
| Strings.Trim | devportal.js:276-277 | `trim` removes only white space, and only from the two ends |
| Strings.Split | server/server.js:288 | `split` yields at least one piece, and no piece holds the separator |
| Strings.SplitJoin | devportal.js:190 | joining the pieces of a `split` with the separator gives back the original text |
| Strings.SplitJoinBack | export.js:64 | splitting a `join` of separator-free fields gives back the fields |
| Strings.NatToString | server/server.js:230 | decimal printing yields digits only, with no leading zero |
| Strings.NatToStringValue | server/server.js:230 | the printed digits read back as the number printed |
| Strings.NatToStringDecimal | manager.js:278-279 | `parseInt` of a printed number is that number, and `isNaN` is false for it |
| Strings.LexMax | server/server.js:246-247 | `sort().reverse()[0]` is a member of the list that no other member follows in string order |
| Strings.LexLessTotal | server/server.js:246 | the default sort order compares any two distinct strings |
| Strings.LexLessTransitive | server/server.js:246 | the default sort order is transitive |
| Clock.Weekday | server/server.js:486 | `getDay` lies in 0..6 |
| Clock.AddDays | server/server.js:472 | `setDate(getDate() + n)` moves the day by n, keeps the time of day, and moves forward when n is positive |
| Clock.WeekdayAddDays | server/server.js:494-495 | moving n days moves the weekday by n, modulo 7 |
| Clock.StartOfWeek | staff.js:104-106 | the start of the week is the Sunday midnight at or before now, less than a week before it |
| Clock.CalendarAnchors | server/server.js:481 | the day numbers behind `new Date(y, m, d)` roll month overflow into the next month and year |
| Clock.EpochCivil | server/server.js:223-225 | day 0 is 1 January 1970, the reference for `getMonth` and `getFullYear` |
| Records.FindTask | board.js:162 | `find` by task id returns the first task with that id, or nothing when there is none |
| Records.FindUser | manager.js:169 | `find` by user id returns the first user with that id, or nothing when there is none |
| Board.OpenBadges | board.js:81-93 | there are no "Open" badges exactly when no slot is open or the assignment section is hidden (no assignee and at most one slot); otherwise they fill the slots up to `workerSlots` |
| Board.ClaimButtonMatchesGuard | board.js:98-105 | the card shows the Claim button exactly when a claim would pass the handler's guards, and the assigned notice exactly when the user already holds the task |
| Board.ClaimKeepsWellAssigned | board.js:191-197 | a successful claim adds the user once, fills one more slot and never exceeds the slot count |
| Board.ActiveTasks | board.js:134 | the board lists exactly the tasks that are not completed; together with the completed tasks they account for every task |
| Board.CompletedSplit | board.js:134 | the active and the completed tasks together number all the tasks |
| Board.RenderBoard | board.js:129-147 | the empty-board message appears exactly when every task is completed; otherwise one card per active task, in order, each with its task's "Open" badge count and footer |
| Board.BoardPage.constructor | board.js:5-6 | the page starts with the signed-in user and the loaded tasks |
| Board.BoardPage.HandleClaim | board.js:158-208 | an unknown task, a full task and a task already held are refused; a store failure changes nothing; success adds the user to the task and the task to the user |
| UserDash.DashboardTasks | userdash.js:146-148 | the dashboard keeps exactly the tasks whose id is among the user's assigned jobs |
| UserDash.RenderDashboard | userdash.js:140-161 | the empty message appears exactly when no task is assigned to the user; otherwise there is a card for each assigned task that is not completed |
| UserDash.UnclaimUndoesClaim | userdash.js:203-219 | unclaiming right after a claim restores the task and the user's job list |
| UserDash.UnclaimMatchesStore | userdash.js:192-219 | on a task without duplicate assignees, the local splice equals the store's `arrayRemove` |
| UserDash.UserDashPage.constructor | userdash.js:5-6 | the page starts with the signed-in user and the loaded tasks |
| UserDash.UserDashPage.HandleUnclaim | userdash.js:177-230 | an unknown task or one not held is refused; a store failure changes nothing; success removes the user from the task and the task from the user |
| UserDash.UserDashPage.HandleComplete | userdash.js:233-273 | an unknown task or one not held is refused; success marks the task completed and drops it from the user's jobs |
| Staff.CurrentWeekByDay | staff.js:103-113 | a date is in the current week exactly when its day lies between that week's Sunday and Saturday |
| Staff.ScheduledWeekIsCurrentWeek | staff.js:103-113 | the staff page's week test and the scheduling client's week bounds agree |
| Staff.WeekShiftHoursInsert | staff.js:142-166 | the week's shift hours add a shift's length exactly when it starts this week and does not carry the tool's tag |
| Staff.ScheduleUserFor | staff.js:143-146 | no schedule user exactly when the user has no (or a zero) schedule id or no schedule user has it; otherwise the first schedule user with that id |
| Staff.WeekTaskHoursUpdate | staff.js:171-197 | changing one task changes the week's task hours by the difference of that task's contributions |
| Staff.CompletingAddsHours | staff.js:465-550 | completing a held task now adds exactly its hours to the week's total |
| Staff.UpdateCircularProgress | staff.js:220-255 | the remaining hours are budget minus used; the over-budget flag is set exactly when used exceeds the budget; the percentage is used over budget, capped at 100, and 0 without a budget |
| Staff.ShiftIdsAfterDelete | staff.js:381-393 | the user's shift-id entry is dropped exactly when a shift was deleted; other entries are kept |
| Staff.StaffPage.constructor | staff.js:8-9 | the page starts with the signed-in user and the loaded tasks |
| Staff.StaffPage.RenderWeeklyHours | staff.js:116-204 | the gauge shows this week's scheduled plus claimed hours against the user's allowed hours |
| Staff.StaffPage.HandleUnclaim | staff.js:367-462 | refusal changes nothing; a store failure keeps only the shift-id cleanup; success also removes the user from the task and the task from the user |
| Staff.StaffPage.HandleComplete | staff.js:465-550 | an unknown task or one not held is refused; success marks the task completed now and drops it from the user's jobs |
| WhenIWork.ShiftHoursInSplit | wheniwork.js:310-322 | the hours in a window are the hours in its two halves |
| WhenIWork.HoursInSplit | wheniwork.js:370-382 | the hours summed over all users split the same way |
| WhenIWork.HoursInNonNegative | wheniwork.js:310-322 | with non-negative shift hours, every window's total is non-negative |
| WhenIWork.NestedWindowHours | wheniwork.js:355-382 | a window inside another never holds more hours |
| WhenIWork.OwnerIndex | wheniwork.js:194-199 | the owner of a shift is the first user with the shift's user id, or nobody |
| WhenIWork.ShiftsOwnedByCount | wheniwork.js:194-199 | each user receives every copy of the shifts they own and nothing else |
| WhenIWork.ClearShifts | wheniwork.js:189-191 | every user's shift list starts empty, and nothing else changes |
| WhenIWork.AttachShifts | wheniwork.js:194-199 | after grouping, each user holds exactly their own shifts, in fetch order |
| WhenIWork.SortedQuarterStarts | wheniwork.js:275-282 | one start per known quarter present, each that quarter's start, in the fixed quarter order |
| WhenIWork.QuarterStartsInOrder | wheniwork.js:275-282 | keeping the present quarters in the fixed order puts each present quarter's start at its rank, and earlier quarters at lower ranks |
| WhenIWork.PresentStarts | wheniwork.js:275-282 | every start kept belongs to a present known quarter |
| WhenIWork.FirstContainingSpec | wheniwork.js:288-302 | the quarter picked is the first one whose window holds now, or none when no window does |
| WhenIWork.QuarterWindowUnique | wheniwork.js:288-302 | with increasing start dates, a window holding now is the one picked |
| WhenIWork.ResolveQuarter | wheniwork.js:288-307 | the loop picks the same quarter as the specification |
| WhenIWork.ScheduleClient.constructor | wheniwork.js:14 | the client starts with the given users |
| WhenIWork.ScheduleClient.GetUser | wheniwork.js:149-165 | an empty search or no users gives nothing; otherwise every matching user, with every copy |
| WhenIWork.ScheduleClient.Initialize | wheniwork.js:168-205 | a failed user fetch keeps the old users; a failed shift fetch keeps the fetched users; otherwise each user holds their own shifts |
| WhenIWork.ScheduleClient.HoursBetween | wheniwork.js:310-322 | the loop sums exactly the hours of the shifts starting in the window |
| WhenIWork.ScheduleClient.GetScheduledWeek | wheniwork.js:210-242 | the week's hours are the hours of shifts starting from Sunday midnight for seven days |
| WhenIWork.ScheduleClient.GetScheduledQuarter | wheniwork.js:244-325 | zero without quarter data or a current quarter; otherwise the hours in the current quarter's window |
| WhenIWork.ScheduleClient.GetScheduledYear | wheniwork.js:327-385 | zero without an autumn quarter; otherwise the hours from autumn's start to a year later |
| Server.AcademicYearString | server/server.js:227-233 | from August on, the year is "this-next"; before it, "last-this" |
| Server.StartYear | server/server.js:288 | the start year is the text before the first hyphen, or all of it |
| Server.StartYearOfAcademicYear | server/server.js:288 | the start year of a computed academic year is its first year |
| Server.YearsOf | server/server.js:238-247 | one academic year per calendar entry, in order; the `Set` dedupe is not needed, since only membership and the maximum are used |
| Server.TargetYear | server/server.js:241-249 | the requested year when the data holds it; otherwise the latest year in the data; nothing without data |
| Server.BeginTitleMatches | server/server.js:296-297 | "BEGIN", the quarter code, any white space and the year, in any case, match the begin pattern |
| Server.FirstBeginEvent | server/server.js:297 | the event found is the first whose title matches the begin pattern |
| Server.QuarterKeys | server/server.js:279-284 | the quarter names, lowered, are the keys the client reads |
| Server.QuarterKeysDistinct | server/server.js:279-284 | the four quarter keys are distinct |
| Server.QuartersUpToSpec | server/server.js:290-307 | after n quarters, the map holds exactly the found ones among the first n keys |
| Server.ExtractQuarters | server/server.js:290-307 | only quarter keys occur, each exactly when its begin event exists, holding that event's date |
| Server.GetQuarterDates | server/server.js:222-317 | no data or no begin/end title fails; otherwise the chosen and requested years, and exactly the quarters whose begin events are in the chosen year's events, with their dates |
| Server.CleanupTask | server/server.js:393-411 | the user and their name leave the task, other assignees keep their counts, and the user's shift id goes |
| Server.CleanupIdempotent | server/server.js:393-411 | cleaning a task twice is the same as cleaning it once |
| Server.CleanedTasks | server/server.js:387-418 | only the user's listed tasks whose update succeeds change, and none of those still lists the user |
| Server.CleanedTasksStep | server/server.js:387-412 | one more listed task cleans that task, unless it is missing or its update fails |
| Server.Store.RemoveFromTasks | server/server.js:387-418 | the loop over the user's jobs leaves exactly the cleaned tasks and the users untouched |
| Server.Store.constructor | server/server.js:350-372 | the store starts with the given collections |
| Server.Store.DeleteUser | server/server.js:329-434 | a missing token, a non-manager caller, a missing id, self-deletion and an unknown user are refused in that order, changing nothing; otherwise the tasks are cleaned (skipping failed updates), and the user is dropped unless deleting their document fails, which answers 500 |
| Server.Insert | server/server.js:487 | insertion keeps a sorted list sorted and adds one copy |
| Server.SortNumbers | server/server.js:487 | the numeric sort gives a sorted permutation |
| Server.FirstAfter | server/server.js:490 | `find(day => day > currentDay)` gives the first listed day after today, and the smallest on a sorted list |
| Server.SortKeepsMembers | server/server.js:487 | sorting keeps the same set of days |
| Server.CustomRecurrenceIsNearest | server/server.js:485-500 | custom recurrence moves 1 to 7 days, to the nearest listed weekday after today |
| Server.NearestListed | server/server.js:490-500 | both branches of the custom step reach the nearest listed weekday |
| Server.NearestLaterThisWeek | server/server.js:492-495 | a later day this week is the nearest listed weekday |
| Server.NearestNextWeek | server/server.js:496-499 | otherwise the first listed day next week is the nearest |
| Server.NothingListedBefore | server/server.js:496-499 | no listed weekday comes before next week's first listed day |
| Server.NextDueDateMovesForward | server/server.js:466-508 | every frequency except monthly moves the due date forward and keeps its time of day; custom lands on a listed weekday |
| Server.CustomNextDue | server/server.js:485-500 | the custom step lands later, on a listed weekday |
| Server.LandsOnListed | server/server.js:494-499 | adding a listed offset lands on a listed weekday |
| Server.ProcessRecurringTasks | server/server.js:437-539 | due recurring tasks roll over and the others are untouched; the report lists the rolled-over tasks |
| Server.ProcessedMatchesRollOvers | server/server.js:524-533 | the report has one entry per due task, with that task's old and new due dates |
| Server.RollOverUnassignsEveryone | server/server.js:515-520 | a rolled-over task is open again and has no assignees |
| DevPortal.Print | devportal.js:207 | a printed version has the x.y.z form |
| DevPortal.ParseSpec | devportal.js:190 | a version text parses exactly when it has the x.y.z form |
| DevPortal.ParseParts | devportal.js:190 | parsing reads the three numbers |
| DevPortal.ParsePrint | devportal.js:190-207 | parsing a printed version gives the version back |
| DevPortal.Increment | devportal.js:192-205 | major resets minor and patch; minor resets patch; patch only bumps patch; any other kind changes nothing |
| DevPortal.IncrementIsNext | devportal.js:192-205 | the increment is greater, and is the smallest version greater at its level |
| DevPortal.IncrementVersion | devportal.js:189-208 | exactly an x.y.z text gives a result, and it is the canonical printing of the increment of its parsed version (no leading zeros) |
| DevPortal.IncrementVersionPrinted | devportal.js:189-208 | incrementing a printed version prints the incremented version |
| DevPortal.ManualVersion | devportal.js:229-236 | a manual version is accepted exactly when its trimmed text has the x.y.z form |
| DevPortal.TrimAll | devportal.js:280-289 | each input is trimmed |
| DevPortal.NonBlank | devportal.js:280-289 | exactly the non-empty trimmed entries are kept |
| DevPortal.NonBlankEmpty | devportal.js:296 | no entries remain exactly when every input is blank |
| DevPortal.Draft | devportal.js:275-289 | the draft holds the trimmed message and name, the non-blank lists, and the heading without its "v" |
| DevPortal.PublishCheck | devportal.js:291-310 | a missing message comes first; then empty lists; publication needs both plus a successful write |
| DevPortal.FindReport | devportal.js:414 | `find` by report id returns the first report with that id |
| DevPortal.Toggled | devportal.js:417-434 | toggling flips the completion flag and sets the completion time exactly when it completes |
| DevPortal.ToggleTwice | devportal.js:417-434 | toggling twice restores the flag, and the report itself when its time matches |
| DevPortal.ActiveReports | devportal.js:335 | the active list holds exactly the open reports |
| DevPortal.CompletedReports | devportal.js:336 | the completed list holds exactly the completed reports |
| DevPortal.ReportsPartition | devportal.js:335-336 | the two lists split the reports without loss or duplication |
| DevPortal.ToggleMovesReport | devportal.js:413-446 | a toggle moves one report between the two lists |
| DevPortal.Portal.constructor | devportal.js:50-77 | the portal starts with the stored version record, or the default "1.0.0" record with nothing listed when none is stored, and the loaded reports |
| DevPortal.Portal.PublishVersion | devportal.js:274-329 | the outcome is the publication check of the draft; only a publication replaces the version record |
| DevPortal.Portal.Publish | devportal.js:291-317 | only a publication replaces the version record, and reports never change |
| DevPortal.Portal.ToggleReportStatus | devportal.js:413-446 | an unknown report or a failed write changes nothing; otherwise only that report is toggled |
| Manager.RegularUsers | manager.js:137 | the team list holds exactly the users who are not managers |
| Manager.BadgeFor | manager.js:150-152 | red from five active tasks, yellow from three, green below |
| Manager.BadgeMonotone | manager.js:146-152 | more active tasks never give a milder badge |
| Manager.RenderTeamList | manager.js:132-155 | the empty message appears exactly when every user is a manager; otherwise one entry per regular user, badged by their active-task count |
| Manager.AvailableFor | manager.js:262-263 | the skills offered are exactly the known skills the user lacks, without repeats |
| Manager.FindByName | manager.js:285-287 | the name match is the first skill equal to the input ignoring case |
| Manager.SelectSkill | manager.js:273-294 | empty input cancels; a number picks that entry when it is in range; a name picks a skill equal to it ignoring case |
| Manager.NumberSelects | manager.js:277-282 | typing an entry's number picks that entry |
| Manager.NameSelects | manager.js:283-288 | typing an entry's name in any case picks that entry |
| Manager.ChosenIsNew | manager.js:262-294 | the skill chosen is a known skill the user does not already have |
| Manager.WithSkill | manager.js:307-308 | adding appends the skill to the user's list |
| Manager.WithoutSkill | manager.js:340-345 | removing drops one copy of the skill |
| Manager.AddThenRemove | manager.js:298-361 | removing a freshly added skill restores the user |
| Manager.RemoveMatchesStore | manager.js:335-345 | on a list without duplicates, the local splice equals the store's `arrayRemove` |
| Manager.Replaced | manager.js:311-314 | the updated user replaces its entry in the user list; other entries are kept |
| Manager.WithoutUser | manager.js:405 | the deleted user leaves the list and every other user stays |
| Manager.PurgedAll | manager.js:408-413 | the task list keeps its length |
| Manager.PurgedAllSpec | manager.js:408-413 | the user leaves every task; tasks without the user are unchanged; other assignees keep their counts |
| Manager.PurgedNoActive | manager.js:408-413 | after deletion, the user has no active tasks |
| Manager.DeleteCheck | manager.js:364-400 | deletion needs the typed name to match, a signed-in manager and a successful server call |
| Manager.ManagerPage.constructor | manager.js:5-8 | the page starts with the loaded users and tasks and no selection |
| Manager.ManagerPage.OpenUserDialog | manager.js:168-169 | the selected user is the user with that id, if any |
| Manager.ManagerPage.AddSkill | manager.js:298-324 | without a selection nothing happens; a store failure changes nothing; success appends the skill to the selected user and its list entry |
| Manager.ManagerPage.ShowAddSkillPrompt | manager.js:259-295 | the outcome covers no selection, no skill left, a cancelled prompt, an invalid choice and an added new skill, in the source's order |
| Manager.ManagerPage.RemoveSkill | manager.js:327-361 | nothing happens without confirmation or when the store fails; success drops the skill from the selected user and its list entry |
| Manager.ManagerPage.ConfirmDeleteUser | manager.js:364-427 | only a confirmed, successful deletion drops the user, purges them from the tasks and clears the selection; any other outcome changes nothing |
| Export.ExportKindOf | export.js:29-36 | "tasks" and "users" are recognised in any case; anything else exports nothing |
| Export.TasksInAnyCase | export.js:31 | any capitalisation of "tasks" selects the task export |
| Export.Quoted | export.js:49 | a quoted field is the text between two double quotes |
| Export.YesNo | export.js:55 | "Yes" exactly for true, "No" exactly for false |
| Export.TaskFields | export.js:47-63 | a task row has one field per header, starting with the id, with Yes/No for the completed and apprentice flags |
| Export.UserFields | export.js:88-95 | a user row has one field per header, starting with the id |
| Export.TaskRows | export.js:45-65 | one row per task document, in order |
| Export.UserRows | export.js:86-97 | one row per user document, in order |
| Export.ExportTasks | export.js:39-77 | the loop builds the prefix, the header line and one line per task |
| Export.ExportUsers | export.js:80-109 | the loop builds the prefix, the header line and one line per user |
| Export.CsvLines | export.js:42-64 | without newlines in the fields, the text after the prefix splits into the header line, one line per row and a final empty piece |
| Export.LineFields | export.js:64 | without commas in the fields, a line splits back into its fields |
| Export.TaskHeadersPlain | export.js:41 | the task headers contain neither a comma nor a newline |
| Export.UserHeadersPlain | export.js:82 | the user headers contain neither a comma nor a newline |
| Export.TasksCsvLines | export.js:39-77 | the task export reads back as one line per task, each with as many columns as headers when no field holds a comma |
| Export.UsersCsvLines | export.js:80-109 | the user export reads back as one line per user, each with as many columns as headers when no field holds a comma |
| Export.HeaderColumns | export.js:41-42 | each header line splits back into its headers |

## Left out

- Strings.LexLess: compares strings by code point, while the default `sort()` (server/server.js:246) compares UTF-16 code units; the two orders differ where one string has a character above U+FFFF and the other, at the same place, one from U+E000 to U+FFFF.
- Server.Store.DeleteUser: a failed update is taken per task, not per attempt, so a task listed twice whose first update fails and second succeeds is not modelled; the identity-service deletion (server/server.js:378-384) is not modelled, since its failure is logged and the handler goes on.
- I/O: Firestore, fetch, the scheduling service's HTTP API, the identity service's token checks, Slack notifications, the DOM, HTML, alerts, dialogs and redirects are not modelled; their results are inputs (`storeOk`, `serverOk`, `shiftDeleted`, `failedTasks`, `deleteOk`, `Option` data) and the rendered views are datatypes.
- Time is milliseconds in UTC, so local time zones and daylight-saving shifts are not modelled; `new Date()` is the `now` input.
- Two writes in one handler (task and user) share one `storeOk`, so a failure of the second write after the first succeeded is not modelled.
- Server.ProcessRecurringTasks: rolls every due task; a failed write that aborts the source's run midway is not modelled.
- Server.NextDueDateMovesForward: monthly recurrence is modelled by `Clock.AddOneMonth`, with day overflow, but is not proved to move forward; only the other frequencies are.
- Calendar page scraping, `JSON.parse` and `new Date(event.Date)` are not modelled; events and start times arrive parsed.
- The date range of the shift fetch in `initialize` (wheniwork.js:175-177) is part of the fetched input.
- Strings.ToLower: ASCII letters only, because Unicode case mapping is out of scope.
- Manager.SelectSkill: treats as numeric only an optional sign, digits and an optional fraction after trimming; other texts `isNaN` accepts ("1e1", "0x2", "Infinity", ".5") are not modelled.
- DevPortal.IncrementVersion: gives no result for a current version not of the x.y.z form. The source splits on `.` and converts each part with `Number`, so it still prints a result there: extra parts are kept ("1.2.3.4" with patch gives "1.2.4.4"), missing parts are filled by major or minor ("1.2" with major gives "2.0.0"), surrounding spaces are ignored (" 1.2.3" gives "1.2.4"), and only a part that is not a number, or a missing part that is incremented, prints `NaN`.
- WhenIWork.ScheduleClient.GetScheduledQuarter: the re-login branch and the token cache are not modelled; the last quarter's window ends on 1 September of the next year (month index 8), as the code builds it, not 1 August as its comment says.
- WhenIWork.ScheduleClient.GetScheduledWeek: counts every shift of the week, including the ones the staff page leaves out by tag, as the source does.
- Staff.ScheduleUserFor: staff.js imports `getUserById` and `deleteWIWShift` (staff.js:5, used at staff.js:145 and staff.js:387), but the export list of wheniwork.js (wheniwork.js:208) names neither, so as an ES module staff.js fails to link. The model is of the evidently intended page: it takes the first schedule user with that id, and Staff.StaffPage.HandleUnclaim's `shiftDeleted` input stands for the missing `deleteWIWShift`.
- The manager page's `selectedUser` aliases its entry in `allUsers`; the model replaces that entry explicitly.
- Firestore's `arrayUnion` is modelled as the local `push`; they agree when the value is absent, which Manager.ChosenIsNew proves for the add-skill prompt.
- Export: field names are read as written (`dueDate`, `slots`, `wiwShiftIds`, `name`, `assignedTaskIds`), even where other pages store the value under another name; date, number and text fields are the template's printed values; `encodeURI`, the download link and the ready page are not modelled; quotes inside fields are not escaped, as in the source.
- Clock.CalendarAnchors: the civil calendar is checked on anchor dates only; it is not proved to invert `MakeDay` for every date.
- Server.ExtractQuarters: the begin pattern uses the start year for every quarter, so "Begin SQ2026" in a 2025-2026 calendar does not match, although the code's comment lists it; the model follows the code.
