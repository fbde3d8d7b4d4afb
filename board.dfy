/** The public task board: cards of the tasks not yet completed, each with
    its worker slots and a claim button, and the claim handler. */
module Board {
  import opened Seqs
  import opened Records

  /** `task.workerSlots || 1`: a missing or zero slot count is one slot. */
  function WorkerSlots(t: Task): int
  {
    if t.workerSlots.Some? && t.workerSlots.value != 0 then t.workerSlots.value else 1
  }

  function OpenSlots(t: Task): int
  {
    WorkerSlots(t) - |t.assignedTo|
  }

  /** The last line of a card. */
  datatype Footer = ClaimButton | AssignedNotice | AllSlotsFilled | NoFooter

  /** The claim button when a slot is open and the viewer is not assigned;
      otherwise a notice that the viewer is assigned, or that all slots are
      filled when exactly none is open; nothing when more workers are
      assigned than there are slots. */
  function CardFooter(t: Task, userId: string): Footer
  {
    if OpenSlots(t) > 0 && userId !in t.assignedTo then ClaimButton
    else if userId in t.assignedTo then AssignedNotice
    else if OpenSlots(t) == 0 then AllSlotsFilled
    else NoFooter
  }

  /** The "Assigned to" section is drawn only when someone is assigned or
      the task has more than one slot. */
  predicate ShowsAssignment(t: Task)
  {
    |t.assignedTo| > 0 || WorkerSlots(t) > 1
  }

  /** The number of grey "Open" badges of a card: none for a lone unassigned
      slot, whose section is not drawn; otherwise one per open slot. */
  function OpenBadges(t: Task): (n: nat)
    ensures n == 0 <==> OpenSlots(t) <= 0 || (|t.assignedTo| == 0 && WorkerSlots(t) <= 1)
    ensures n > 0 ==> n as int + |t.assignedTo| == WorkerSlots(t)
  {
    if ShowsAssignment(t) && OpenSlots(t) > 0 then OpenSlots(t) else 0
  }

  /** The guards of `handleClaim`, in the order it checks them. */
  function CheckClaim(t: Task, userId: string): Outcome
  {
    if userId in t.assignedTo then AlreadyAssigned
    else if |t.assignedTo| >= WorkerSlots(t) then SlotsFilled
    else Done
  }

  /** The claim button is shown exactly when a claim would pass the guards,
      and a card that says all slots are filled is one a claim is refused
      for. */
  lemma ClaimButtonMatchesGuard(t: Task, userId: string)
    ensures CardFooter(t, userId) == ClaimButton <==> CheckClaim(t, userId) == Done
    ensures CardFooter(t, userId) == AssignedNotice <==> CheckClaim(t, userId) == AlreadyAssigned
    ensures CardFooter(t, userId) == AllSlotsFilled ==> CheckClaim(t, userId) == SlotsFilled
  {
  }

  /** The local update of a claim: the user's ID and name are pushed. */
  function ClaimedBy(t: Task, u: User): Task
  {
    t.(assignedTo := t.assignedTo + [u.id], assignedToNames := t.assignedToNames + [u.fullName])
  }

  /** A task whose assignees fit its slots and appear once each. */
  predicate WellAssigned(t: Task)
  {
    |t.assignedTo| <= WorkerSlots(t) && Distinct(t.assignedTo)
  }

  /** A claim that passes the guards never overfills a task and never
      assigns anyone twice: it keeps a task well assigned, adds exactly the
      claimant, and leaves one slot fewer open. */
  lemma ClaimKeepsWellAssigned(t: Task, u: User)
    requires CheckClaim(t, u.id) == Done
    ensures |ClaimedBy(t, u).assignedTo| <= WorkerSlots(t)
    ensures OpenSlots(ClaimedBy(t, u)) == OpenSlots(t) - 1
    ensures multiset(ClaimedBy(t, u).assignedTo) == multiset(t.assignedTo) + multiset{u.id}
    ensures WellAssigned(t) ==> WellAssigned(ClaimedBy(t, u))
  {
    var s := ClaimedBy(t, u).assignedTo;
    if Distinct(t.assignedTo) {
      forall i, j | 0 <= i < j < |s| ensures s[i] != s[j] {
        if j == |s| - 1 {
          assert s[i] in t.assignedTo;
        }
      }
    }
  }

  /** `tasksData.filter(task => !task.completed)`. */
  function ActiveTasks(tasks: seq<Task>): (r: seq<Task>)
    ensures forall t :: t in r <==> t in tasks && !t.completed
    ensures |r| + Count(tasks, (t: Task) => t.completed) == |tasks|
  {
    CompletedSplit(tasks);
    Filter(tasks, (t: Task) => !t.completed)
  }

  /** Every task is either active or completed. */
  lemma {:induction false} CompletedSplit(tasks: seq<Task>)
    ensures |Filter(tasks, (t: Task) => !t.completed)| + |Filter(tasks, (t: Task) => t.completed)| == |tasks|
  {
    if tasks != [] {
      CompletedSplit(tasks[..|tasks| - 1]);
    }
  }

  datatype Card = Card(taskId: string, openBadges: nat, footer: Footer)

  datatype BoardView = NoAvailableTasks | Listing(cards: seq<Card>)

  /** `renderBoard`: the message for an empty board when every task is
      completed; otherwise one card per active task, in list order. */
  function RenderBoard(tasks: seq<Task>, userId: string): (v: BoardView)
    ensures v == NoAvailableTasks <==> forall t :: t in tasks ==> t.completed
    ensures v.Listing? ==>
              |v.cards| == |ActiveTasks(tasks)| &&
              forall k :: 0 <= k < |v.cards| ==>
                v.cards[k] == Card(ActiveTasks(tasks)[k].id, OpenBadges(ActiveTasks(tasks)[k]),
                                   CardFooter(ActiveTasks(tasks)[k], userId))
  {
    var active := ActiveTasks(tasks);
    if |active| == 0 then
      NoAvailableTasks
    else
      assert active[0] in active;
      Listing(seq(|active|, k requires 0 <= k < |active| => Card(active[k].id, OpenBadges(active[k]), CardFooter(active[k], userId))))
  }

  /** The board page's state: the signed-in user and the loaded tasks. */
  class BoardPage {
    var currentUser: User
    var tasksData: seq<Task>

    constructor(user: User, tasks: seq<Task>)
      ensures currentUser == user && tasksData == tasks
    {
      currentUser := user;
      tasksData := tasks;
    }

    /** `handleClaim`: for the task with the clicked ID, refuse a user who
        is already assigned or a task whose slots are full; otherwise write
        the claim to the store and, when that succeeds, push the user's ID
        and name onto the task and the task's ID onto the user's jobs. */
    method HandleClaim(taskId: string, storeOk: bool) returns (outcome: Outcome)
      modifies this
      ensures FindTask(old(tasksData), taskId).None? ==> outcome == TaskNotFound
      ensures FindTask(old(tasksData), taskId).Some? ==>
                var t := old(tasksData)[FindTask(old(tasksData), taskId).value];
                outcome == if CheckClaim(t, old(currentUser).id) != Done then CheckClaim(t, old(currentUser).id)
                           else if storeOk then Done else StoreFailed
      ensures outcome == Done ==>
                var i := FindTask(old(tasksData), taskId).value;
                tasksData == old(tasksData)[i := ClaimedBy(old(tasksData)[i], old(currentUser))] &&
                currentUser == old(currentUser).(assignedJobIds := old(currentUser).assignedJobIds + [taskId])
      ensures outcome != Done ==> tasksData == old(tasksData) && currentUser == old(currentUser)
    {
      var found := FindTask(tasksData, taskId);
      if found.None? {
        return TaskNotFound;
      }
      var i := found.value;
      var task := tasksData[i];
      if currentUser.id in task.assignedTo {
        return AlreadyAssigned;
      }
      if |task.assignedTo| >= WorkerSlots(task) {
        return SlotsFilled;
      }
      if !storeOk {
        return StoreFailed;
      }
      tasksData := tasksData[i := task.(assignedTo := task.assignedTo + [currentUser.id],
                                        assignedToNames := task.assignedToNames + [currentUser.fullName])];
      currentUser := currentUser.(assignedJobIds := currentUser.assignedJobIds + [taskId]);
      outcome := Done;
    }
  }
}
