/** The staff page: the weekly-hours budget ring (scheduled shifts of the
    week plus tasks completed this week against the user's allowed hours)
    and the unclaim and complete handlers, which on this page also look
    after the task's schedule-service shift and its completion date. The
    task cards of this page are the dashboard's (`UserDash`). */
module Staff {
  import opened Seqs
  import opened Strings
  import opened Clock
  import opened Records
  import W = WhenIWork

  /** `isDateInCurrentWeek`: from Sunday 00:00 of the current week up to,
      not including, the next Sunday 00:00. */
  predicate IsDateInCurrentWeek(now: int, date: int)
  {
    StartOfWeek(now) <= date < StartOfWeek(now) + WeekMs
  }

  /** The same week by day numbers: the date falls on the Sunday of the
      current week or one of the six days after it. */
  lemma CurrentWeekByDay(now: int, date: int)
    ensures IsDateInCurrentWeek(now, date) <==>
            DayOf(now) - Weekday(DayOf(now)) <= DayOf(date) <= DayOf(now) - Weekday(DayOf(now)) + 6
  {
    var s := StartOfWeek(now);
    var d := DayOf(s);
    assert s == d * DayMs;
    assert IsDateInCurrentWeek(now, date) <==> d <= DayOf(date) < d + 7 by {
      if s <= date < s + WeekMs {
        assert d * DayMs <= date < (d + 7) * DayMs;
      }
      if d <= DayOf(date) < d + 7 {
        assert DayOf(date) * DayMs <= date < (DayOf(date) + 1) * DayMs;
      }
    }
  }

  /** The scheduling client's week, closed at Saturday 23:59:59.999, is
      this page's half-open week. */
  lemma ScheduledWeekIsCurrentWeek(now: int, t: int)
    ensures StartOfWeek(now) <= t <= W.EndOfWeekInclusive(now) <==> IsDateInCurrentWeek(now, t)
  {
  }

  /** The note the task manager puts on the shifts it creates. */
  const TaskManagerTag: string := "(Created via IRL Task Manager"

  predicate CreatedByTaskManager(s: W.Shift)
  {
    s.notes.Some? && Contains(s.notes.value, TaskManagerTag)
  }

  /** The length of a shift in hours, from its start and end times. */
  function ShiftDuration(s: W.Shift): real
  {
    (s.endTime - s.startTime) as real / HourMs as real
  }

  /** A shift counts toward the week when it starts this week and was not
      created by the task manager (its hours are already counted through
      the task). */
  predicate ShiftCounts(s: W.Shift, now: int)
  {
    IsDateInCurrentWeek(now, s.startTime) && !CreatedByTaskManager(s)
  }

  function WeekShiftHours(shifts: seq<W.Shift>, now: int): real
  {
    if shifts == [] then 0.0
    else
      var last := shifts[|shifts| - 1];
      WeekShiftHours(shifts[..|shifts| - 1], now) + (if ShiftCounts(last, now) then ShiftDuration(last) else 0.0)
  }

  /** A shift adds its duration wherever it sits in the list when it
      counts, and nothing otherwise; in particular a shift the task manager
      created never changes the week's hours. */
  lemma {:induction false} WeekShiftHoursInsert(a: seq<W.Shift>, s: W.Shift, b: seq<W.Shift>, now: int)
    ensures WeekShiftHours(a + [s] + b, now) ==
            WeekShiftHours(a + b, now) + (if ShiftCounts(s, now) then ShiftDuration(s) else 0.0)
    decreases |b|
  {
    if b == [] {
      assert a + [s] + b == a + [s];
      assert (a + [s])[..|a|] == a;
      assert a + b == a;
    } else {
      var b', last := b[..|b| - 1], b[|b| - 1];
      assert (a + [s] + b)[..|a + [s] + b| - 1] == a + [s] + b';
      assert (a + b)[..|a + b| - 1] == a + b';
      WeekShiftHoursInsert(a, s, b', now);
    }
  }

  /** `getUserById(currentUser.wiwUserId)`: the first schedule user with
      that ID; nothing when the user has no (or a zero) schedule ID. */
  function ScheduleUserFor(u: User, scheduleUsers: seq<W.ScheduleUser>): (r: Option<W.ScheduleUser>)
    ensures r.None? <==> u.wiwUserId.None? || u.wiwUserId.value == 0 ||
                         forall k :: 0 <= k < |scheduleUsers| ==> scheduleUsers[k].id != u.wiwUserId.value
    ensures r.Some? ==> u.wiwUserId.Some? && u.wiwUserId.value != 0 &&
                        exists k :: 0 <= k < |scheduleUsers| && scheduleUsers[k] == r.value &&
                                    r.value.id == u.wiwUserId.value &&
                                    forall j :: 0 <= j < k ==> scheduleUsers[j].id != u.wiwUserId.value
  {
    if u.wiwUserId.None? || u.wiwUserId.value == 0 then None
    else
      match W.OwnerIndex(scheduleUsers, u.wiwUserId.value)
      case None => None
      case Some(k) => Some(scheduleUsers[k])
  }

  /** The scheduled hours of the week; 0 without a schedule user or
      without shifts. */
  function ScheduledWeekHours(u: User, scheduleUsers: seq<W.ScheduleUser>, now: int): real
  {
    match ScheduleUserFor(u, scheduleUsers)
    case None => 0.0
    case Some(su) => if su.shifts.Some? then WeekShiftHours(su.shifts.value, now) else 0.0
  }

  /** The date a completed task is counted on: its completion date, or,
      for older tasks without one, its due date. */
  function TaskDate(t: Task): Option<int>
  {
    if t.completedDate.Some? then t.completedDate else t.due
  }

  /** A task counts toward the user's week when the user is assigned to
      it, it is completed, and its date falls this week. */
  predicate TaskCounts(t: Task, userId: string, now: int)
  {
    userId in t.assignedTo && t.completed && TaskDate(t).Some? && IsDateInCurrentWeek(now, TaskDate(t).value)
  }

  function TaskContribution(t: Task, userId: string, now: int): real
  {
    if TaskCounts(t, userId, now) then HoursOf(t) else 0.0
  }

  function WeekTaskHours(tasks: seq<Task>, userId: string, now: int): real
  {
    if tasks == [] then 0.0
    else WeekTaskHours(tasks[..|tasks| - 1], userId, now) + TaskContribution(tasks[|tasks| - 1], userId, now)
  }

  /** Replacing one task changes the week's task hours by the difference
      of the two tasks' contributions, and by nothing else. */
  lemma {:induction false} WeekTaskHoursUpdate(tasks: seq<Task>, i: nat, t: Task, userId: string, now: int)
    requires i < |tasks|
    ensures WeekTaskHours(tasks[i := t], userId, now) ==
            WeekTaskHours(tasks, userId, now) - TaskContribution(tasks[i], userId, now) + TaskContribution(t, userId, now)
  {
    var n := |tasks|;
    if i == n - 1 {
      assert tasks[i := t][..n - 1] == tasks[..n - 1];
    } else {
      assert tasks[i := t][..n - 1] == tasks[..n - 1][i := t];
      WeekTaskHoursUpdate(tasks[..n - 1], i, t, userId, now);
    }
  }

  /** Completing an assigned, not yet completed task on this page adds its
      hours to the user's week: the completion date is now, which is always
      in the current week. */
  lemma CompletingAddsHours(tasks: seq<Task>, i: nat, userId: string, now: int)
    requires i < |tasks| && userId in tasks[i].assignedTo && !tasks[i].completed
    ensures WeekTaskHours(tasks[i := tasks[i].(completed := true, completedDate := Some(now))], userId, now) ==
            WeekTaskHours(tasks, userId, now) + HoursOf(tasks[i])
  {
    WeekTaskHoursUpdate(tasks, i, tasks[i].(completed := true, completedDate := Some(now)), userId, now);
  }

  /** The hours used this week: scheduled shifts plus completed tasks. */
  function WeeklyUsage(u: User, scheduleUsers: seq<W.ScheduleUser>, tasks: seq<Task>, now: int): real
  {
    ScheduledWeekHours(u, scheduleUsers, now) + WeekTaskHours(tasks, u.id, now)
  }

  /** What the budget ring shows. */
  datatype Progress = Progress(used: real, budget: real, remaining: real, percentage: real, overBudget: bool)

  /** `updateCircularProgress`: the remaining hours, the share of the
      budget used as a percentage capped at 100 (0 without a positive
      budget), and whether the budget is exceeded. */
  function UpdateCircularProgress(used: real, budget: real): (p: Progress)
    ensures p.used == used && p.budget == budget
    ensures p.remaining == budget - used
    ensures p.overBudget <==> used > budget
    ensures p.percentage <= 100.0
    ensures budget <= 0.0 ==> p.percentage == 0.0
    ensures budget > 0.0 && used <= budget ==> p.percentage * budget == used * 100.0
    ensures budget > 0.0 && used >= budget ==> p.percentage == 100.0
  {
    var remaining := budget - used;
    var percentage :=
      if budget > 0.0 then
        var share := used / budget * 100.0;
        if share < 100.0 then share else 100.0
      else 0.0;
    Progress(used, budget, remaining, percentage, remaining < 0.0)
  }

  /** The shift-ID map after the unclaim handler's attempt to delete the
      user's shift: the user's entry goes only when it holds a (non-zero)
      shift ID and the schedule service deleted that shift. */
  function ShiftIdsAfterDelete(ids: map<string, int>, userId: string, deleted: bool): (r: map<string, int>)
    ensures r.Keys <= ids.Keys
    ensures forall k :: k in r ==> r[k] == ids[k]
    ensures forall k :: k in ids && k != userId ==> k in r
    ensures userId in r <==> userId in ids && (ids[userId] == 0 || !deleted)
  {
    if userId in ids && ids[userId] != 0 && deleted then ids - {userId} else ids
  }

  /** The staff page's state. */
  class StaffPage {
    var currentUser: User
    var tasksData: seq<Task>

    constructor(user: User, tasks: seq<Task>)
      ensures currentUser == user && tasksData == tasks
    {
      currentUser := user;
      tasksData := tasks;
    }

    /** `renderWeeklyHours`: adds up the user's scheduled shifts of the
        week and their completed tasks of the week, and draws the ring. */
    method RenderWeeklyHours(schedule: W.ScheduleClient, now: int) returns (p: Progress)
      ensures p == UpdateCircularProgress(WeeklyUsage(currentUser, schedule.users, tasksData, now), currentUser.allowedHours)
    {
      var allowedHours := currentUser.allowedHours;
      var weeklyHours := 0.0;

      var whenIWorkHours := 0.0;
      var wiwUser := ScheduleUserFor(currentUser, schedule.users);
      if wiwUser.Some? && wiwUser.value.shifts.Some? {
        var shifts := wiwUser.value.shifts.value;
        var j := 0;
        while j < |shifts|
          invariant 0 <= j <= |shifts|
          invariant whenIWorkHours == WeekShiftHours(shifts[..j], now)
        {
          var shift := shifts[j];
          assert shifts[..j + 1][..j] == shifts[..j];
          if IsDateInCurrentWeek(now, shift.startTime) &&
             (shift.notes.None? || !Contains(shift.notes.value, TaskManagerTag)) {
            var hours := (shift.endTime - shift.startTime) as real / HourMs as real;
            whenIWorkHours := whenIWorkHours + hours;
          }
          j := j + 1;
        }
        assert shifts[..j] == shifts;
      }
      weeklyHours := weeklyHours + whenIWorkHours;

      var k := 0;
      while k < |tasksData|
        invariant 0 <= k <= |tasksData|
        invariant weeklyHours == ScheduledWeekHours(currentUser, schedule.users, now) + WeekTaskHours(tasksData[..k], currentUser.id, now)
      {
        var task := tasksData[k];
        assert tasksData[..k + 1][..k] == tasksData[..k];
        if currentUser.id in task.assignedTo && task.completed {
          if task.completedDate.Some? {
            if IsDateInCurrentWeek(now, task.completedDate.value) {
              weeklyHours := weeklyHours + HoursOf(task);
            }
          } else if task.due.Some? {
            if IsDateInCurrentWeek(now, task.due.value) {
              weeklyHours := weeklyHours + HoursOf(task);
            }
          }
        }
        k := k + 1;
      }
      assert tasksData[..k] == tasksData;

      p := UpdateCircularProgress(weeklyHours, allowedHours);
    }

    /** `handleUnclaim` of the staff page: refuse a user not assigned to the
        clicked task; otherwise try to delete the user's shift at the
        schedule service (dropping its ID from the task's map when that
        succeeds, which sticks even if the store write then fails), write
        the removal to the store and, when that succeeds, drop the user from
        the task and the task from the user's jobs. */
    method HandleUnclaim(taskId: string, shiftDeleted: bool, storeOk: bool) returns (outcome: Outcome)
      modifies this
      ensures FindTask(old(tasksData), taskId).None? ==> outcome == TaskNotFound
      ensures FindTask(old(tasksData), taskId).Some? ==>
                var t := old(tasksData)[FindTask(old(tasksData), taskId).value];
                outcome == if old(currentUser).id !in t.assignedTo then NotAssigned
                           else if storeOk then Done else StoreFailed
      ensures outcome == Done ==>
                var i := FindTask(old(tasksData), taskId).value;
                var t := old(tasksData)[i];
                tasksData == old(tasksData)[i := WithoutAssignee(t, old(currentUser)).(
                               wiwShiftIDs := ShiftIdsAfterDelete(t.wiwShiftIDs, old(currentUser).id, shiftDeleted))] &&
                currentUser == old(currentUser).(assignedJobIds := RemoveFirst(old(currentUser).assignedJobIds, taskId))
      ensures outcome == StoreFailed ==>
                var i := FindTask(old(tasksData), taskId).value;
                var t := old(tasksData)[i];
                tasksData == old(tasksData)[i := t.(wiwShiftIDs := ShiftIdsAfterDelete(t.wiwShiftIDs, old(currentUser).id, shiftDeleted))] &&
                currentUser == old(currentUser)
      ensures outcome == TaskNotFound || outcome == NotAssigned ==>
                tasksData == old(tasksData) && currentUser == old(currentUser)
    {
      var found := FindTask(tasksData, taskId);
      if found.None? {
        return TaskNotFound;
      }
      var i := found.value;
      var task := tasksData[i];
      if currentUser.id !in task.assignedTo {
        return NotAssigned;
      }
      // The map is the task's own object, so a deletion is visible in the
      // loaded task at once.
      var wiwShiftIDs := ShiftIdsAfterDelete(task.wiwShiftIDs, currentUser.id, shiftDeleted);
      task := task.(wiwShiftIDs := wiwShiftIDs);
      tasksData := tasksData[i := task];
      if !storeOk {
        return StoreFailed;
      }
      tasksData := tasksData[i := WithoutAssignee(task, currentUser).(wiwShiftIDs := wiwShiftIDs)];
      currentUser := currentUser.(assignedJobIds := RemoveFirst(currentUser.assignedJobIds, taskId));
      outcome := Done;
    }

    /** `handleComplete` of the staff page: refuse a user not assigned to
        the clicked task; otherwise write completion and the completion date
        `now` to the store and, when that succeeds, locally, and drop the
        task from the user's jobs (the user stays on the task, so its hours
        count toward their week). */
    method HandleComplete(taskId: string, now: int, storeOk: bool) returns (outcome: Outcome)
      modifies this
      ensures FindTask(old(tasksData), taskId).None? ==> outcome == TaskNotFound
      ensures FindTask(old(tasksData), taskId).Some? ==>
                var t := old(tasksData)[FindTask(old(tasksData), taskId).value];
                outcome == if old(currentUser).id !in t.assignedTo then NotAssigned
                           else if storeOk then Done else StoreFailed
      ensures outcome == Done ==>
                var i := FindTask(old(tasksData), taskId).value;
                tasksData == old(tasksData)[i := old(tasksData)[i].(completed := true, completedDate := Some(now))] &&
                currentUser == old(currentUser).(assignedJobIds := RemoveFirst(old(currentUser).assignedJobIds, taskId))
      ensures outcome != Done ==> tasksData == old(tasksData) && currentUser == old(currentUser)
    {
      var found := FindTask(tasksData, taskId);
      if found.None? {
        return TaskNotFound;
      }
      var i := found.value;
      var task := tasksData[i];
      if currentUser.id !in task.assignedTo {
        return NotAssigned;
      }
      if !storeOk {
        return StoreFailed;
      }
      tasksData := tasksData[i := task.(completed := true, completedDate := Some(now))];
      currentUser := currentUser.(assignedJobIds := RemoveFirst(currentUser.assignedJobIds, taskId));
      outcome := Done;
    }
  }
}
