/** The back end: the academic quarter dates it extracts from the college
    calendar, the manager-only user deletion with its clean-up of the
    user's tasks, and the periodic processing of recurring tasks. The
    database is the `Store` class; requests to other services and token
    verification are inputs. */
module Server {
  import opened Seqs
  import opened Strings
  import opened Clock
  import opened Records
  import W = WhenIWork

  // ---- Academic year and quarter dates ----

  /** The academic year `now` falls in, as `"YYYY-YYYY"`: from August on it
      starts in the current year, before August in the previous one. */
  function AcademicYearString(now: int): (r: string)
    ensures var c := CivilFromDays(DayOf(now));
            var start := if c.monthIndex >= 7 then c.year else c.year - 1;
            r == IntToString(start) + "-" + IntToString(start + 1)
  {
    var c := CivilFromDays(DayOf(now));
    if c.monthIndex >= 7 then IntToString(c.year) + "-" + IntToString(c.year + 1)
    else IntToString(c.year - 1) + "-" + IntToString(c.year)
  }

  /** `s.split('-')[0]`: the text before the first hyphen. */
  function StartYear(s: string): (r: string)
    ensures '-' !in r
    ensures r == s || (|r| < |s| && s[|r|] == '-' && r == s[..|r|])
  {
    if s == [] then []
    else if s[0] == '-' then []
    else [s[0]] + StartYear(s[1..])
  }

  /** Splitting the requested academic year at its hyphen gives back its
      start year, for any year from 0 on. */
  lemma StartYearOfAcademicYear(now: int)
    requires CivilFromDays(DayOf(now)).year >= 1
    ensures var c := CivilFromDays(DayOf(now));
            StartYear(AcademicYearString(now)) == NatToString(if c.monthIndex >= 7 then c.year else c.year - 1)
  {
    var c := CivilFromDays(DayOf(now));
    var start: nat := if c.monthIndex >= 7 then c.year else c.year - 1;
    StartYearOfDigits(NatToString(start), "-" + IntToString(start + 1));
    assert NatToString(start) + "-" + IntToString(start + 1) == NatToString(start) + ("-" + IntToString(start + 1));
  }

  lemma {:induction false} StartYearOfDigits(digits: string, rest: string)
    requires forall i :: 0 <= i < |digits| ==> '0' <= digits[i] <= '9'
    requires rest != [] && rest[0] == '-'
    ensures StartYear(digits + rest) == digits
  {
    if digits == [] {
      assert digits + rest == rest;
    } else {
      assert (digits + rest)[1..] == digits[1..] + rest;
      StartYearOfDigits(digits[1..], rest);
    }
  }

  /** An entry of the college calendar. */
  datatype CalendarEvent = CalendarEvent(
    academicYear: string,
    eventType: string,
    /** None only when the entry has no link title at all (undefined or
        null); an empty title is Some(""). */
    linkTitle: Option<string>,
    /** The entry's date, as a time value. */
    date: int)

  /** The academic years of the entries, one per entry. The handler
      collects them into a `Set`; the duplicates kept here change nothing,
      since the years are only tested for membership and their maximum is
      taken. */
  function YearsOf(events: seq<CalendarEvent>): (r: seq<string>)
    ensures |r| == |events|
    ensures forall k :: 0 <= k < |r| ==> r[k] == events[k].academicYear
  {
    seq(|events|, k requires 0 <= k < |events| => events[k].academicYear)
  }

  /** The academic year to extract: the requested one when the calendar
      has it; otherwise the greatest year of the calendar in string order;
      none for an empty calendar. */
  function TargetYear(events: seq<CalendarEvent>, requested: string): (r: Option<string>)
    ensures r.None? <==> events == []
    ensures r.Some? ==> r.value in YearsOf(events)
    ensures r.Some? && requested in YearsOf(events) ==> r.value == requested
    ensures r.Some? && requested !in YearsOf(events) ==>
              forall y :: y in YearsOf(events) ==> !LexLess(r.value, y)
  {
    var years := YearsOf(events);
    if requested in years then Some(requested)
    else if years == [] then None
    else Some(LexMax(years))
  }

  /** `new RegExp(`BEGIN ${abbrev}\s*${year}`, 'i').test(title)`, with ASCII
      case folding. */
  predicate MatchesBegin(title: string, abbrev: string, year: string)
  {
    exists i, k | 0 <= i <= |title| && 0 <= k <= |title| :: BeginAt(title, "BEGIN " + abbrev, year, i, k)
  }

  /** At index `i` the title holds `prefix` (ignoring case), then `k` white
      space characters, then `year` (ignoring case). */
  predicate BeginAt(title: string, prefix: string, year: string, i: int, k: int)
  {
    0 <= i && 0 <= k && i + |prefix| + k + |year| <= |title| &&
    ToLower(title[i..i + |prefix|]) == ToLower(prefix) &&
    (forall m :: i + |prefix| <= m < i + |prefix| + k ==> IsJsSpace(title[m])) &&
    ToLower(title[i + |prefix| + k..i + |prefix| + k + |year|]) == ToLower(year)
  }

  /** A title matches wherever it holds `BEGIN ` and the abbreviation, in
      any case, then any run of white space (none included), then the year:
      "BEGIN AQ2025 ALL CLASSES", "Begin SQ2025 Day & Evening Classes" and
      "BEGIN SUMMER 2025 TERM" are all begin titles. */
  lemma BeginTitleMatches(before: string, spelled: string, spaces: string, yearText: string, after: string,
                          abbrev: string, year: string)
    requires ToLower(spelled) == ToLower("BEGIN " + abbrev)
    requires forall c :: c in spaces ==> IsJsSpace(c)
    requires ToLower(yearText) == ToLower(year)
    ensures MatchesBegin(before + spelled + spaces + yearText + after, abbrev, year)
  {
    var title := before + spelled + spaces + yearText + after;
    BeginAtParts(before, spelled, spaces, yearText, after, "BEGIN " + abbrev, year);
    assert BeginAt(title, "BEGIN " + abbrev, year, |before|, |spaces|);
  }

  /** The parts of a title laid end to end put the match at the end of
      `before`. */
  lemma BeginAtParts(before: string, spelled: string, spaces: string, yearText: string, after: string,
                     prefix: string, year: string)
    requires ToLower(spelled) == ToLower(prefix)
    requires forall c :: c in spaces ==> IsJsSpace(c)
    requires ToLower(yearText) == ToLower(year)
    ensures BeginAt(before + spelled + spaces + yearText + after, prefix, year, |before|, |spaces|)
  {
    var title := before + spelled + spaces + yearText + after;
    assert |spelled| == |prefix| && |yearText| == |year|;
    ConcatSlices(before, spelled, spaces, yearText, after);
    var lo := |before| + |spelled|;
    forall m | lo <= m < lo + |spaces|
      ensures IsJsSpace(title[m])
    {
      assert title[m] == title[lo..lo + |spaces|][m - lo];
      assert title[m] in spaces;
    }
  }

  lemma SameLower(a: string, b: string)
    requires |a| == |b| && forall i :: 0 <= i < |a| ==> LowerChar(a[i]) == LowerChar(b[i])
    ensures ToLower(a) == ToLower(b)
  {
  }

  /** `allYearEvents.find(e => e.LinkTitle && beginPattern.test(e.LinkTitle))`. */
  function FirstBeginEvent(events: seq<CalendarEvent>, abbrev: string, year: string): (r: Option<nat>)
    ensures r.Some? ==> r.value < |events| && events[r.value].linkTitle.Some? &&
                        MatchesBegin(events[r.value].linkTitle.value, abbrev, year)
    ensures forall k :: 0 <= k < |events| && (r.None? || k < r.value) ==>
              events[k].linkTitle.None? || !MatchesBegin(events[k].linkTitle.value, abbrev, year)
  {
    if events == [] then None
    else if events[0].linkTitle.Some? && MatchesBegin(events[0].linkTitle.value, abbrev, year) then Some(0)
    else
      var rest := FirstBeginEvent(events[1..], abbrev, year);
      if rest.None? then None else Some(rest.value + 1)
  }

  /** The quarter names and their abbreviations in the calendar, in the
      order they are looked up. */
  const QuarterNames: seq<string> := ["Autumn", "Winter", "Spring", "Summer"]
  const QuarterAbbrevs: seq<string> := ["AQ", "WQ", "SQ", "SUMMER"]

  /** The lower-cased quarter names are the keys the scheduling client
      looks up. */
  lemma QuarterKeys()
    ensures forall q :: 0 <= q < 4 ==> ToLower(QuarterNames[q]) == W.QuarterOrder[q]
  {
    LowerOf("Autumn", "autumn");
    LowerOf("Winter", "winter");
    LowerOf("Spring", "spring");
    LowerOf("Summer", "summer");
  }

  lemma QuarterKeysDistinct()
    ensures forall q, j :: 0 <= q < j < 4 ==> W.QuarterOrder[q] != W.QuarterOrder[j]
  {
    assert forall q :: 0 <= q < 4 ==> W.QuarterOrder[q][0] == ['a', 'w', 's', 's'][q];
    assert W.QuarterOrder[2][1] != W.QuarterOrder[3][1];
  }

  lemma LowerOf(a: string, b: string)
    requires |a| == |b| && forall i :: 0 <= i < |a| ==> LowerChar(a[i]) == b[i]
    ensures ToLower(a) == b
  {
  }

  /** The entry of quarter `q` when its begin event is found: the date of
      the first event of the year whose title matches, and the quarter's
      name. */
  function QuarterFound(events: seq<CalendarEvent>, year: string, q: nat): Option<W.QuarterEntry>
    requires q < 4
  {
    match FirstBeginEvent(events, QuarterAbbrevs[q], year)
    case None => None
    case Some(i) => Some(W.QuarterEntry(events[i].date, QuarterNames[q]))
  }

  /** The `quarters` object after looking up the first `n` quarters, where
      `found[q]` is what the lookup of quarter `q` found. */
  function QuartersUpTo(found: seq<Option<W.QuarterEntry>>, n: nat): map<string, W.QuarterEntry>
    requires n <= |found| <= 4
  {
    if n == 0 then map[]
    else
      var m := QuartersUpTo(found, n - 1);
      match found[n - 1]
      case None => m
      case Some(e) => m[W.QuarterOrder[n - 1] := e]
  }

  lemma {:induction false} QuartersUpToSpec(found: seq<Option<W.QuarterEntry>>, n: nat)
    requires n <= |found| <= 4
    ensures forall key :: key in QuartersUpTo(found, n) ==> key in W.QuarterOrder[..n]
    ensures forall q :: 0 <= q < n ==> (W.QuarterOrder[q] in QuartersUpTo(found, n) <==> found[q].Some?)
    ensures forall q :: 0 <= q < n && found[q].Some? ==> QuartersUpTo(found, n)[W.QuarterOrder[q]] == found[q].value
  {
    if n > 0 {
      QuartersUpToSpec(found, n - 1);
      QuarterKeysDistinct();
      var m, r := QuartersUpTo(found, n - 1), QuartersUpTo(found, n);
      assert W.QuarterOrder[..n] == W.QuarterOrder[..n - 1] + [W.QuarterOrder[n - 1]];
      forall q | 0 <= q < n - 1
        ensures (W.QuarterOrder[q] in r <==> W.QuarterOrder[q] in m)
        ensures W.QuarterOrder[q] in r ==> r[W.QuarterOrder[q]] == m[W.QuarterOrder[q]]
      {
        assert W.QuarterOrder[q] != W.QuarterOrder[n - 1];
      }
    }
  }

  /** What the `quarters` object holds: for each quarter whose begin event
      is found among the year's events, its lower-cased name maps to the
      event's date and the quarter's name; no other key is set. */
  predicate QuartersFoundIn(quarters: map<string, W.QuarterEntry>, yearEvents: seq<CalendarEvent>, year: string)
  {
    (forall key :: key in quarters ==> key in W.QuarterOrder) &&
    (forall q :: 0 <= q < 4 ==> (W.QuarterOrder[q] in quarters <==> QuarterFound(yearEvents, year, q).Some?)) &&
    (forall q :: 0 <= q < 4 && W.QuarterOrder[q] in quarters ==>
       quarters[W.QuarterOrder[q]] == QuarterFound(yearEvents, year, q).value)
  }

  /** The loop over the four quarters that builds the `quarters` object. */
  method ExtractQuarters(yearEvents: seq<CalendarEvent>, year: string) returns (quarters: map<string, W.QuarterEntry>)
    ensures QuartersFoundIn(quarters, yearEvents, year)
  {
    QuarterKeys();
    ghost var found := seq(4, q requires 0 <= q < 4 => QuarterFound(yearEvents, year, q));
    quarters := map[];
    var q := 0;
    while q < 4
      invariant 0 <= q <= 4
      invariant quarters == QuartersUpTo(found, q)
    {
      var beginEntry := QuarterFound(yearEvents, year, q);
      if beginEntry.Some? {
        quarters := quarters[ToLower(QuarterNames[q]) := beginEntry.value];
      }
      q := q + 1;
    }
    QuartersUpToSpec(found, 4);
    assert W.QuarterOrder[..4] == W.QuarterOrder;
  }

  /** The body of a successful `/api/quarter-dates` response. */
  datatype QuarterDates = QuarterDates(academicYear: string, requestedYear: string, quarters: map<string, W.QuarterEntry>)

  /** Evaluating the relevant-events filter reads `LinkTitle.includes` of
      every begin/end event of the target year, and fails on one that has
      no title. */
  predicate TitleMissing(events: seq<CalendarEvent>, target: string)
  {
    exists e :: e in events && e.academicYear == target && e.eventType == "Begin/End Date" && e.linkTitle.None?
  }

  /** `/api/quarter-dates`: the calendar is the parsed calendar page (None
      when it cannot be fetched or parsed). The response is an error for a
      missing or empty calendar or an untitled begin/end event of the target
      year; otherwise the quarters found among the target year's events,
      named with the target year's start year. */
  method GetQuarterDates(calendar: Option<seq<CalendarEvent>>, now: int) returns (r: Option<QuarterDates>)
    ensures r.None? <==>
              calendar.None? || calendar.value == [] ||
              TitleMissing(calendar.value, TargetYear(calendar.value, AcademicYearString(now)).value)
    ensures r.Some? ==>
              var target := TargetYear(calendar.value, AcademicYearString(now)).value;
              r.value.academicYear == target && r.value.requestedYear == AcademicYearString(now) &&
              QuartersFoundIn(r.value.quarters,
                              Filter(calendar.value, (e: CalendarEvent) => e.academicYear == target), StartYear(target))
  {
    if calendar.None? {
      return None;
    }
    var events := calendar.value;
    var academicYearString := AcademicYearString(now);
    var targetYear := TargetYear(events, academicYearString);
    if targetYear.None? {
      return None;
    }
    var target := targetYear.value;
    var allYearEvents := Filter(events, (e: CalendarEvent) => e.academicYear == target);
    if TitleMissing(events, target) {
      return None;
    }
    var quarters := ExtractQuarters(allYearEvents, StartYear(target));
    r := Some(QuarterDates(target, academicYearString, quarters));
  }

  // ---- Deleting a user ----

  datatype DeleteResponse =
    | Unauthorized        // 401: no valid token
    | Forbidden           // 403: the caller is not a manager
    | MissingUserId       // 400
    | CannotDeleteSelf    // 400
    | UserNotFound        // 404
    | DeleteFailed        // 500: deleting the user's document threw
    | Deleted(userName: string)

  /** `userData.fullName || 'Unknown User'`. */
  function DisplayName(u: User): string
  {
    if u.fullName == "" then "Unknown User" else u.fullName
  }

  /** What deleting a user does to one of their tasks: every occurrence of
      their ID and name goes, and so does their shift-ID entry when it holds
      a (non-zero) shift ID. */
  function CleanupTask(t: Task, userId: string, userName: string): (r: Task)
    ensures userId !in r.assignedTo && userName !in r.assignedToNames
    ensures forall x :: x != userId ==> multiset(r.assignedTo)[x] == multiset(t.assignedTo)[x]
    ensures forall x :: x != userName ==> multiset(r.assignedToNames)[x] == multiset(t.assignedToNames)[x]
    ensures r.wiwShiftIDs.Keys <= t.wiwShiftIDs.Keys
    ensures forall k :: k in t.wiwShiftIDs && k != userId ==> k in r.wiwShiftIDs && r.wiwShiftIDs[k] == t.wiwShiftIDs[k]
    ensures userId in r.wiwShiftIDs ==> r.wiwShiftIDs[userId] == 0
    ensures r == t.(assignedTo := r.assignedTo, assignedToNames := r.assignedToNames, wiwShiftIDs := r.wiwShiftIDs)
  {
    var ids := if userId in t.wiwShiftIDs && t.wiwShiftIDs[userId] != 0 then t.wiwShiftIDs - {userId} else t.wiwShiftIDs;
    t.(assignedTo := RemoveAll(t.assignedTo, userId),
       assignedToNames := RemoveAll(t.assignedToNames, userName),
       wiwShiftIDs := ids)
  }

  /** Cleaning a task twice is cleaning it once, so a job listed twice in
      the user's jobs is harmless. */
  lemma CleanupIdempotent(t: Task, userId: string, userName: string)
    ensures CleanupTask(CleanupTask(t, userId, userName), userId, userName) == CleanupTask(t, userId, userName)
  {
    var c := CleanupTask(t, userId, userName);
    assert RemoveAll(c.assignedTo, userId) == c.assignedTo;
    assert RemoveAll(c.assignedToNames, userName) == c.assignedToNames;
  }

  /** The tasks after deleting a user: those listed in the user's jobs are
      cleaned, except those whose update failed (`failed`), which the
      handler skips; all others (even ones that still name the user) are
      left as they were. */
  function CleanedTasks(tasks: map<string, Task>, jobIds: seq<string>, failed: set<string>, userId: string, userName: string): (r: map<string, Task>)
    ensures r.Keys == tasks.Keys
    ensures forall k :: k in tasks && (k !in jobIds || k in failed) ==> r[k] == tasks[k]
    ensures forall k :: k in tasks && k in jobIds && k !in failed ==> userId !in r[k].assignedTo
  {
    MapListed(tasks, jobIds, failed, t => CleanupTask(t, userId, userName))
  }

  /** Cleaning one more listed task: the task, if it exists and its update
      does not fail, is cleaned (again, which changes nothing when it was
      listed before). */
  lemma CleanedTasksStep(tasks: map<string, Task>, jobIds: seq<string>, i: nat, failed: set<string>, userId: string, userName: string)
    requires i < |jobIds|
    ensures var before := CleanedTasks(tasks, jobIds[..i], failed, userId, userName);
            CleanedTasks(tasks, jobIds[..i + 1], failed, userId, userName) ==
              if jobIds[i] in before && jobIds[i] !in failed then before[jobIds[i] := CleanupTask(before[jobIds[i]], userId, userName)] else before
  {
    if jobIds[i] in tasks {
      CleanupIdempotent(tasks[jobIds[i]], userId, userName);
    }
    MapListedStep(tasks, jobIds, i, failed, t => CleanupTask(t, userId, userName));
  }

  /** The database: the `tasks` and `users` collections by document ID. */
  class Store {
    var tasks: map<string, Task>
    var users: map<string, User>

    constructor(tasks: map<string, Task>, users: map<string, User>)
      ensures this.tasks == tasks && this.users == users
    {
      this.tasks := tasks;
      this.users := users;
    }

    /** The loop over the deleted user's jobs: each existing task whose
        update does not throw is cleaned of the user. */
    method RemoveFromTasks(jobIds: seq<string>, failedTasks: set<string>, userId: string, userName: string)
      modifies this
      ensures tasks == CleanedTasks(old(tasks), jobIds, failedTasks, userId, userName)
      ensures users == old(users)
    {
      var i := 0;
      ghost var tasks0 := tasks;
      while i < |jobIds|
        invariant 0 <= i <= |jobIds|
        invariant users == old(users)
        invariant tasks == CleanedTasks(tasks0, jobIds[..i], failedTasks, userId, userName)
      {
        var taskId := jobIds[i];
        CleanedTasksStep(tasks0, jobIds, i, failedTasks, userId, userName);
        if taskId in tasks && taskId !in failedTasks {
          tasks := tasks[taskId := CleanupTask(tasks[taskId], userId, userName)];
        }
        i := i + 1;
      }
      assert jobIds[..i] == jobIds;
    }

    /** `/api/delete-user`: `caller` is the UID of a verified token. The
        checks run in order (token, manager role, user ID given, not the
        caller, user exists); then every task in the user's jobs is cleaned,
        except those whose update throws (`failedTasks`: the handler logs
        and goes on), and the user's document is deleted. When that delete
        throws (`deleteOk` false) the answer is a 500, and the task cleanup
        already done stays. */
    method DeleteUser(caller: Option<string>, userId: string, failedTasks: set<string>, deleteOk: bool) returns (resp: DeleteResponse)
      modifies this
      ensures caller.None? ==> resp == Unauthorized
      ensures caller.Some? ==>
                resp == (if caller.value !in old(users) || old(users)[caller.value].role != "manager" then Forbidden
                         else if userId == "" then MissingUserId
                         else if userId == caller.value then CannotDeleteSelf
                         else if userId !in old(users) then UserNotFound
                         else if !deleteOk then DeleteFailed
                         else Deleted(DisplayName(old(users)[userId])))
      ensures resp.Deleted? || resp == DeleteFailed ==>
                tasks == CleanedTasks(old(tasks), old(users)[userId].assignedJobIds, failedTasks, userId, DisplayName(old(users)[userId]))
      ensures resp.Deleted? ==> users == old(users) - {userId}
      ensures !resp.Deleted? ==> users == old(users)
      ensures !resp.Deleted? && resp != DeleteFailed ==> tasks == old(tasks)
    {
      if caller.None? {
        return Unauthorized;
      }
      var callerUid := caller.value;
      if callerUid !in users || users[callerUid].role != "manager" {
        return Forbidden;
      }
      if userId == "" {
        return MissingUserId;
      }
      if userId == callerUid {
        return CannotDeleteSelf;
      }
      if userId !in users {
        return UserNotFound;
      }
      var userData := users[userId];
      var userName := DisplayName(userData);

      RemoveFromTasks(userData.assignedJobIds, failedTasks, userId, userName);

      if !deleteOk {
        return DeleteFailed;
      }
      users := users - {userId};
      resp := Deleted(userName);
    }
  }

  // ---- Recurring tasks ----

  predicate Sorted(s: seq<int>)
  {
    forall i, j :: 0 <= i < j < |s| ==> s[i] <= s[j]
  }

  function Insert(x: int, s: seq<int>): (r: seq<int>)
    requires Sorted(s)
    ensures Sorted(r) && multiset(r) == multiset(s) + multiset{x}
    ensures |r| == |s| + 1
  {
    if s == [] || x <= s[0] then [x] + s
    else
      assert Sorted(s[1..]);
      var rest := Insert(x, s[1..]);
      assert s == [s[0]] + s[1..];
      LowerBound(s[0], s[1..], x, rest);
      SortedCons(s[0], rest);
      [s[0]] + rest
  }

  lemma SortedCons(b: int, s: seq<int>)
    requires Sorted(s) && forall k :: 0 <= k < |s| ==> b <= s[k]
    ensures Sorted([b] + s)
  {
    var r := [b] + s;
    forall i, j | 0 <= i < j < |r| ensures r[i] <= r[j] {
      assert r[j] == s[j - 1];
      if i > 0 {
        assert r[i] == s[i - 1];
      }
    }
  }

  /** A bound below every element of `s` and below `x` is below every
      element of a list holding exactly those. */
  lemma LowerBound(b: int, s: seq<int>, x: int, r: seq<int>)
    requires b <= x && (forall k :: 0 <= k < |s| ==> b <= s[k])
    requires multiset(r) == multiset(s) + multiset{x}
    ensures forall k :: 0 <= k < |r| ==> b <= r[k]
  {
    forall k | 0 <= k < |r| ensures b <= r[k] {
      assert r[k] in multiset(r);
      if r[k] != x {
        assert r[k] in multiset(s);
        var j :| 0 <= j < |s| && s[j] == r[k];
      }
    }
  }

  /** `[...days].sort((a, b) => a - b)`: the same days in ascending order. */
  function SortNumbers(s: seq<int>): (r: seq<int>)
    ensures Sorted(r) && multiset(r) == multiset(s)
  {
    if s == [] then []
    else
      assert s == [s[0]] + s[1..];
      Insert(s[0], SortNumbers(s[1..]))
  }

  /** `sortedDays.find(day => day > currentDay)`. */
  function FirstAfter(s: seq<int>, d: int): (r: Option<int>)
    ensures r.None? <==> forall x :: x in s ==> x <= d
    ensures r.Some? ==> r.value in s && r.value > d
    ensures r.Some? && Sorted(s) ==> forall x :: x in s && x > d ==> r.value <= x
  {
    if s == [] then None
    else if s[0] > d then
      assert s[0] in s;
      Some(s[0])
    else
      var r := FirstAfter(s[1..], d);
      assert s == [s[0]] + s[1..];
      assert forall x :: x in s <==> x == s[0] || x in s[1..];
      assert Sorted(s) ==> Sorted(s[1..]);
      r
  }

  /** The number of days from a due date on weekday `currentDay` to the next
      listed weekday: a later day of the same week, else the earliest listed
      day of the next week. */
  function CustomDaysToAdd(days: seq<int>, currentDay: int): int
    requires days != []
  {
    DaysToNextListed(SortNumbers(days), currentDay)
  }

  /** The step of `CustomDaysToAdd` once the days are sorted. */
  function DaysToNextListed(sortedDays: seq<int>, currentDay: int): int
    requires sortedDays != []
  {
    match FirstAfter(sortedDays, currentDay)
    case Some(nextDay) => nextDay - currentDay
    case None => (7 - currentDay) + sortedDays[0]
  }

  predicate ValidWeekdays(days: seq<int>)
  {
    forall d :: d in days ==> 0 <= d < 7
  }

  /** Weekday `(currentDay + m) % 7` is one of the listed days. */
  predicate ListedAfter(days: seq<int>, currentDay: int, m: int)
  {
    (currentDay + m) % 7 in days
  }

  lemma SortKeepsMembers(days: seq<int>)
    ensures forall x :: x in days <==> x in SortNumbers(days)
  {
    var sortedDays := SortNumbers(days);
    forall x ensures x in days <==> x in sortedDays {
      assert x in days <==> x in multiset(days);
      assert x in sortedDays <==> x in multiset(sortedDays);
    }
  }

  /** With listed days that are weekdays, the custom recurrence moves the due
      date forward by one to seven days onto a listed weekday, and onto the
      nearest one: no listed weekday is skipped. */
  lemma CustomRecurrenceIsNearest(days: seq<int>, currentDay: int)
    requires days != [] && ValidWeekdays(days) && 0 <= currentDay < 7
    ensures 1 <= CustomDaysToAdd(days, currentDay) <= 7
    ensures ListedAfter(days, currentDay, CustomDaysToAdd(days, currentDay))
    ensures forall m :: 1 <= m < CustomDaysToAdd(days, currentDay) ==> !ListedAfter(days, currentDay, m)
  {
    SortKeepsMembers(days);
    NearestListed(days, SortNumbers(days), currentDay);
  }

  lemma NearestListed(days: seq<int>, sortedDays: seq<int>, currentDay: int)
    requires days != [] && ValidWeekdays(days) && 0 <= currentDay < 7
    requires Sorted(sortedDays) && forall x :: x in days <==> x in sortedDays
    ensures sortedDays != []
    ensures 1 <= DaysToNextListed(sortedDays, currentDay) <= 7
    ensures ListedAfter(days, currentDay, DaysToNextListed(sortedDays, currentDay))
    ensures forall m :: 1 <= m < DaysToNextListed(sortedDays, currentDay) ==> !ListedAfter(days, currentDay, m)
  {
    match FirstAfter(sortedDays, currentDay)
    case Some(nextDay) =>
      NearestLaterThisWeek(days, sortedDays, currentDay, nextDay);
    case None =>
      NearestNextWeek(days, sortedDays, currentDay);
  }

  lemma NearestLaterThisWeek(days: seq<int>, sortedDays: seq<int>, currentDay: int, nextDay: int)
    requires ValidWeekdays(days) && 0 <= currentDay < 7
    requires Sorted(sortedDays) && forall x :: x in days <==> x in sortedDays
    requires FirstAfter(sortedDays, currentDay) == Some(nextDay)
    ensures 1 <= nextDay - currentDay <= 7
    ensures ListedAfter(days, currentDay, nextDay - currentDay)
    ensures forall m :: 1 <= m < nextDay - currentDay ==> !ListedAfter(days, currentDay, m)
  {
    assert nextDay in sortedDays;
    assert nextDay in days;
    assert nextDay < 7;
    assert (currentDay + (nextDay - currentDay)) % 7 == nextDay;
    forall m | 1 <= m < nextDay - currentDay ensures !ListedAfter(days, currentDay, m) {
      var d := currentDay + m;
      assert d % 7 == d;
      assert d in days ==> d in sortedDays && d > currentDay;
      assert d in sortedDays && d > currentDay ==> nextDay <= d;
    }
  }

  lemma NearestNextWeek(days: seq<int>, sortedDays: seq<int>, currentDay: int)
    requires days != [] && ValidWeekdays(days) && 0 <= currentDay < 7
    requires Sorted(sortedDays) && forall x :: x in days <==> x in sortedDays
    requires FirstAfter(sortedDays, currentDay).None?
    ensures sortedDays != []
    ensures 1 <= 7 - currentDay + sortedDays[0] <= 7
    ensures ListedAfter(days, currentDay, 7 - currentDay + sortedDays[0])
    ensures forall m :: 1 <= m < 7 - currentDay + sortedDays[0] ==> !ListedAfter(days, currentDay, m)
  {
    assert days[0] in days;
    var first := sortedDays[0];
    assert first in days;
    assert forall x :: x in days ==> x <= currentDay && first <= x by {
      forall x | x in days ensures x <= currentDay && first <= x {
        assert x in sortedDays;
        var k :| 0 <= k < |sortedDays| && sortedDays[k] == x;
        assert k == 0 || sortedDays[0] <= sortedDays[k];
      }
    }
    NothingListedBefore(days, currentDay, first);
    assert (currentDay + (7 - currentDay + first)) % 7 == first;
  }

  /** With every listed day at or before the current one, no listed day
      comes before the earliest one of the next week. */
  lemma NothingListedBefore(days: seq<int>, currentDay: int, first: int)
    requires ValidWeekdays(days) && 0 <= currentDay < 7
    requires first in days && forall x :: x in days ==> x <= currentDay && first <= x
    ensures forall m :: 1 <= m < 7 - currentDay + first ==> !ListedAfter(days, currentDay, m)
  {
    forall m | 1 <= m < 7 - currentDay + first ensures !ListedAfter(days, currentDay, m) {
      if currentDay + m < 7 {
        assert (currentDay + m) % 7 == currentDay + m;
      } else {
        assert (currentDay + m) % 7 == currentDay + m - 7;
      }
    }
  }

  /** The next due date of a recurring task that is due at `due`. An
      unknown frequency and a custom one without days recur weekly. */
  function NextDueDate(due: int, frequency: string, days: seq<int>): int
  {
    if frequency == "daily" then AddDays(due, 1)
    else if frequency == "weekly" then AddDays(due, 7)
    else if frequency == "biweekly" then AddDays(due, 14)
    else if frequency == "monthly" then AddOneMonth(due)
    else if frequency == "custom" && days != [] then AddDays(due, CustomDaysToAdd(days, Weekday(DayOf(due))))
    else AddDays(due, 7)
  }

  /** `task.recurrenceFrequency || 'weekly'`. */
  function Frequency(t: Task): string
  {
    if t.recurrenceFrequency == "" then "weekly" else t.recurrenceFrequency
  }

  /** The period of every frequency but `monthly` is a whole number of days
      that the next due date moves forward by, keeping the time of day; a
      custom recurrence lands on one of its listed weekdays. */
  lemma NextDueDateMovesForward(due: int, frequency: string, days: seq<int>)
    requires frequency != "monthly"
    requires frequency == "custom" ==> ValidWeekdays(days)
    ensures NextDueDate(due, frequency, days) > due
    ensures NextDueDate(due, frequency, days) % DayMs == due % DayMs
    ensures frequency == "custom" && days != [] ==> Weekday(DayOf(NextDueDate(due, frequency, days))) in days
  {
    if frequency == "custom" && days != [] {
      CustomNextDue(due, days);
    } else if frequency == "daily" {
      assert NextDueDate(due, frequency, days) == AddDays(due, 1);
    } else if frequency == "biweekly" {
      assert NextDueDate(due, frequency, days) == AddDays(due, 14);
    } else {
      assert NextDueDate(due, frequency, days) == AddDays(due, 7);
    }
  }

  /** The custom case of `NextDueDateMovesForward`. */
  lemma CustomNextDue(due: int, days: seq<int>)
    requires days != [] && ValidWeekdays(days)
    ensures var next := AddDays(due, CustomDaysToAdd(days, Weekday(DayOf(due))));
            next > due && Weekday(DayOf(next)) in days
  {
    var cd := Weekday(DayOf(due));
    CustomRecurrenceIsNearest(days, cd);
    LandsOnListed(due, days, CustomDaysToAdd(days, cd));
  }

  lemma LandsOnListed(due: int, days: seq<int>, n: int)
    requires ListedAfter(days, Weekday(DayOf(due)), n)
    ensures Weekday(DayOf(AddDays(due, n))) in days
  {
    WeekdayAddDays(due, n);
  }

  /** A task the run rolls over: recurring, with a due date that is not
      later than `now`. */
  predicate IsDue(t: Task, now: int)
  {
    t.recurring && t.due.Some? && t.due.value <= now
  }

  /** The rolled-over task: the next due date, not completed, nobody
      assigned. */
  function RollOver(t: Task): Task
    requires t.due.Some?
  {
    t.(due := Some(NextDueDate(t.due.value, Frequency(t), t.recurrenceDays)),
       completed := false, assignedTo := [], assignedToNames := [])
  }

  /** One entry of the list the run returns. */
  datatype Processed = Processed(id: string, title: string, oldDueDate: int, newDueDate: int)

  function ProcessedEntries(tasks: seq<Task>, now: int): seq<Processed>
  {
    if tasks == [] then []
    else
      var t := tasks[|tasks| - 1];
      ProcessedEntries(tasks[..|tasks| - 1], now) +
        (if IsDue(t, now) then [Processed(t.id, t.title, t.due.value, RollOver(t).due.value)] else [])
  }

  /** `processRecurringTasks` over the task collection: every recurring
      task due by `now` is rolled over, every other task is left alone, and
      the run reports the rolled-over tasks in collection order. */
  method ProcessRecurringTasks(tasks: seq<Task>, now: int) returns (updated: seq<Task>, processed: seq<Processed>)
    ensures |updated| == |tasks|
    ensures forall k :: 0 <= k < |tasks| ==> updated[k] == if IsDue(tasks[k], now) then RollOver(tasks[k]) else tasks[k]
    ensures processed == ProcessedEntries(tasks, now)
  {
    updated := tasks;
    processed := [];
    var k := 0;
    while k < |tasks|
      invariant 0 <= k <= |tasks|
      invariant RolledUpTo(tasks, now, k, updated)
      invariant processed == ProcessedEntries(tasks[..k], now)
    {
      var task := tasks[k];
      ghost var prev := updated;
      ProcessedSnoc(tasks, now, k);
      if task.recurring && task.due.Some? && task.due.value <= now {
        var rolled := RollOver(task);
        updated := updated[k := rolled];
        processed := processed + [Processed(task.id, task.title, task.due.value, rolled.due.value)];
        ProcessStep(tasks, now, k, prev, updated);
      } else {
        ProcessStep(tasks, now, k, prev, updated);
      }
      k := k + 1;
    }
    assert tasks[..k] == tasks;
  }

  lemma ProcessedSnoc(tasks: seq<Task>, now: int, k: nat)
    requires k < |tasks|
    ensures ProcessedEntries(tasks[..k + 1], now) ==
            ProcessedEntries(tasks[..k], now) +
              (if IsDue(tasks[k], now) then [Processed(tasks[k].id, tasks[k].title, tasks[k].due.value, RollOver(tasks[k]).due.value)] else [])
  {
    assert tasks[..k + 1][..k] == tasks[..k];
  }

  /** One task of the loop in `ProcessRecurringTasks`: the `k`-th task is
      rolled over when due and every other task keeps its place. */
  lemma ProcessStep(tasks: seq<Task>, now: int, k: nat, prev: seq<Task>, next: seq<Task>)
    requires k < |tasks| && RolledUpTo(tasks, now, k, prev)
    requires next == if IsDue(tasks[k], now) then prev[k := RollOver(tasks[k])] else prev
    ensures RolledUpTo(tasks, now, k + 1, next)
  {
  }

  /** The first `k` tasks are as the run leaves them and the rest are as
      they were. */
  predicate RolledUpTo(tasks: seq<Task>, now: int, k: nat, updated: seq<Task>)
  {
    |updated| == |tasks| &&
    (forall j :: 0 <= j < k && j < |tasks| ==> updated[j] == if IsDue(tasks[j], now) then RollOver(tasks[j]) else tasks[j]) &&
    (forall j :: k <= j < |tasks| ==> updated[j] == tasks[j])
  }

  /** The run reports exactly the tasks it rolls over, each with the due
      date it had and the one it now has. */
  lemma {:induction false} ProcessedMatchesRollOvers(tasks: seq<Task>, now: int)
    ensures |ProcessedEntries(tasks, now)| == Count(tasks, (t: Task) => IsDue(t, now))
    ensures forall p :: p in ProcessedEntries(tasks, now) ==>
              exists t :: t in tasks && IsDue(t, now) && p.id == t.id && p.oldDueDate == t.due.value &&
                          p.newDueDate == RollOver(t).due.value
  {
    if tasks != [] {
      ProcessedMatchesRollOvers(tasks[..|tasks| - 1], now);
      var t := tasks[|tasks| - 1];
      assert forall u :: u in tasks[..|tasks| - 1] ==> u in tasks;
      assert t in tasks;
    }
  }

  /** After a roll-over nobody is assigned, so on the user dashboard a
      user who still lists the task among their jobs is refused when they
      unclaim or complete it. */
  lemma RollOverUnassignsEveryone(t: Task, userId: string)
    requires t.due.Some?
    ensures userId !in RollOver(t).assignedTo && !RollOver(t).completed
    ensures RollOver(t).completedDate == t.completedDate && RollOver(t).wiwShiftIDs == t.wiwShiftIDs
  {
  }
}
