/** The user dashboard: the cards of the tasks the signed-in user has
    claimed, and the handlers that unclaim or complete one of them. */
module UserDash {
  import opened Seqs
  import opened Records
  import Board

  /** The tasks whose ID is among the user's jobs, in list order. */
  function DashboardTasks(tasks: seq<Task>, u: User): (r: seq<Task>)
    ensures forall t :: t in r <==> t in tasks && t.id in u.assignedJobIds
  {
    Filter(tasks, (t: Task) => t.id in u.assignedJobIds)
  }

  datatype DashboardView = NoAssignedTasks | Listing(cardIds: seq<string>)

  /** `renderBoard`: the "no assigned tasks" message when none of the
      user's jobs is among the tasks; otherwise the cards of the user's
      tasks, where a completed task renders as the empty string and so
      leaves no card. A user whose every task is completed therefore sees
      an empty listing rather than the message. */
  function RenderDashboard(tasks: seq<Task>, u: User): (v: DashboardView)
    ensures v == NoAssignedTasks <==> forall t :: t in tasks ==> t.id !in u.assignedJobIds
    ensures v.Listing? ==> forall id :: id in v.cardIds <==>
              exists t :: t in tasks && t.id == id && id in u.assignedJobIds && !t.completed
  {
    var mine := DashboardTasks(tasks, u);
    if |mine| == 0 then
      NoAssignedTasks
    else
      assert mine[0] in mine;
      var open := Filter(mine, (t: Task) => !t.completed);
      var ids := seq(|open|, k requires 0 <= k < |open| => open[k].id);
      assert forall id :: id in ids ==> exists t :: t in open && t.id == id;
      assert forall t :: t in open ==> t.id in ids by {
        forall t | t in open ensures t.id in ids {
          var k :| 0 <= k < |open| && open[k] == t;
          assert ids[k] == t.id;
        }
      }
      Listing(ids)
  }

  /** Unclaiming undoes a claim: a user who claimed a task they were not
      on, and whose name was not on it either, and then unclaims it, leaves
      the task and their job list as they were. */
  lemma UnclaimUndoesClaim(t: Task, u: User)
    requires Board.CheckClaim(t, u.id) == Done
    requires u.fullName !in t.assignedToNames && t.id !in u.assignedJobIds
    ensures WithoutAssignee(Board.ClaimedBy(t, u), u) == t
    ensures RemoveFirst(u.assignedJobIds + [t.id], t.id) == u.assignedJobIds
  {
    RemoveFirstAppended(t.assignedTo, u.id);
    RemoveFirstAppended(t.assignedToNames, u.fullName);
    RemoveFirstAppended(u.assignedJobIds, t.id);
  }

  /** The local unclaim removes the first occurrence of the user's ID; the
      store removes every occurrence. On a task where nobody is assigned
      twice (which claims preserve) the two agree, and the task stays that
      way. */
  lemma UnclaimMatchesStore(t: Task, u: User)
    requires Distinct(t.assignedTo)
    ensures WithoutAssignee(t, u).assignedTo == RemoveAll(t.assignedTo, u.id)
    ensures u.id !in WithoutAssignee(t, u).assignedTo
    ensures Distinct(WithoutAssignee(t, u).assignedTo)
  {
    RemoveFirstDistinct(t.assignedTo, u.id);
  }

  /** The dashboard page's state. */
  class UserDashPage {
    var currentUser: User
    var tasksData: seq<Task>

    constructor(user: User, tasks: seq<Task>)
      ensures currentUser == user && tasksData == tasks
    {
      currentUser := user;
      tasksData := tasks;
    }

    /** `handleUnclaim`: refuse a user not assigned to the clicked task;
        otherwise write the removal to the store and, when that succeeds,
        drop the user from the task and the task from the user's jobs. */
    method HandleUnclaim(taskId: string, storeOk: bool) returns (outcome: Outcome)
      modifies this
      ensures FindTask(old(tasksData), taskId).None? ==> outcome == TaskNotFound
      ensures FindTask(old(tasksData), taskId).Some? ==>
                var t := old(tasksData)[FindTask(old(tasksData), taskId).value];
                outcome == if old(currentUser).id !in t.assignedTo then NotAssigned
                           else if storeOk then Done else StoreFailed
      ensures outcome == Done ==>
                var i := FindTask(old(tasksData), taskId).value;
                tasksData == old(tasksData)[i := WithoutAssignee(old(tasksData)[i], old(currentUser))] &&
                currentUser == old(currentUser).(assignedJobIds := RemoveFirst(old(currentUser).assignedJobIds, taskId))
      ensures outcome != Done ==> tasksData == old(tasksData) && currentUser == old(currentUser)
    {
      var found := FindTask(tasksData, taskId);
      if found.None? {
        return TaskNotFound;
      }
      var i := found.value;
      var task := tasksData[i];
      if currentUser.id !in task.assignedTo {
        return NotAssigned;
      }
      if !storeOk {
        return StoreFailed;
      }
      tasksData := tasksData[i := WithoutAssignee(task, currentUser)];
      currentUser := currentUser.(assignedJobIds := RemoveFirst(currentUser.assignedJobIds, taskId));
      outcome := Done;
    }

    /** `handleComplete`: refuse a user not assigned to the clicked task;
        otherwise mark it completed in the store and, when that succeeds,
        locally, and drop it from the user's jobs. This page records no
        completion date. */
    method HandleComplete(taskId: string, storeOk: bool) returns (outcome: Outcome)
      modifies this
      ensures FindTask(old(tasksData), taskId).None? ==> outcome == TaskNotFound
      ensures FindTask(old(tasksData), taskId).Some? ==>
                var t := old(tasksData)[FindTask(old(tasksData), taskId).value];
                outcome == if old(currentUser).id !in t.assignedTo then NotAssigned
                           else if storeOk then Done else StoreFailed
      ensures outcome == Done ==>
                var i := FindTask(old(tasksData), taskId).value;
                tasksData == old(tasksData)[i := old(tasksData)[i].(completed := true)] &&
                currentUser == old(currentUser).(assignedJobIds := RemoveFirst(old(currentUser).assignedJobIds, taskId))
      ensures outcome != Done ==> tasksData == old(tasksData) && currentUser == old(currentUser)
    {
      var found := FindTask(tasksData, taskId);
      if found.None? {
        return TaskNotFound;
      }
      var i := found.value;
      var task := tasksData[i];
      if currentUser.id !in task.assignedTo {
        return NotAssigned;
      }
      if !storeOk {
        return StoreFailed;
      }
      tasksData := tasksData[i := task.(completed := true)];
      currentUser := currentUser.(assignedJobIds := RemoveFirst(currentUser.assignedJobIds, taskId));
      outcome := Done;
    }
  }
}
