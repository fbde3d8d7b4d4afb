/** The task and user documents the pages hold in their in-memory lists
    (`tasksData`, `allTasks`, `currentUser`, `allUsers`). A list field the
    document lacks (`task.assignedTo || []`) is the empty sequence; a
    missing map is the empty map. */
module Records {
  import opened Seqs

  datatype Task = Task(
    id: string,
    title: string,
    /** `Number(task.hours)`; None when it is missing or not a number. */
    hours: Option<real>,
    due: Option<int>,
    completed: bool,
    completedDate: Option<int>,
    assignedTo: seq<string>,
    assignedToNames: seq<string>,
    /** Missing (None) and 0 both fall back to one slot. */
    workerSlots: Option<int>,
    /** User ID to schedule-service shift ID; 0 stands for a falsy ID. */
    wiwShiftIDs: map<string, int>,
    recurring: bool,
    /** "" when the field is missing. */
    recurrenceFrequency: string,
    recurrenceDays: seq<int>)

  datatype User = User(
    id: string,
    fullName: string,
    email: string,
    role: string,
    skills: seq<string>,
    assignedJobIds: seq<string>,
    /** `currentUser.allowedHours || 0`. */
    allowedHours: real,
    /** The user's ID at the scheduling service, when linked. */
    wiwUserId: Option<int>)

  /** `Number(task.hours) || 0`. */
  function HoursOf(t: Task): real
  {
    if t.hours.Some? then t.hours.value else 0.0
  }

  /** `tasks.find(t => t.id === id)`, as an index. */
  function FindTask(tasks: seq<Task>, id: string): (r: Option<nat>)
    ensures r.None? <==> forall k :: 0 <= k < |tasks| ==> tasks[k].id != id
    ensures r.Some? ==> r.value < |tasks| && tasks[r.value].id == id &&
                        forall k :: 0 <= k < r.value ==> tasks[k].id != id
  {
    FindFirst(tasks, (x: Task) => x.id == id)
  }

  /** `users.findIndex(u => u.id === id)`, as an index. */
  function FindUser(users: seq<User>, id: string): (r: Option<nat>)
    ensures r.None? <==> forall k :: 0 <= k < |users| ==> users[k].id != id
    ensures r.Some? ==> r.value < |users| && users[r.value].id == id &&
                        forall k :: 0 <= k < r.value ==> users[k].id != id
  {
    FindFirst(users, (x: User) => x.id == id)
  }

  /** How a claim, unclaim or complete click ends. `TaskNotFound` is the
      silent return when no task has the clicked ID; `StoreFailed` is the
      caught error of a store write, after which the page shows an alert
      and changes nothing more. */
  datatype Outcome = Done | TaskNotFound | AlreadyAssigned | SlotsFilled | NotAssigned | StoreFailed

  /** The local update of an unclaim: the first occurrence of the user's ID
      leaves `assignedTo`, and the first occurrence of their name leaves
      `assignedToNames`. */
  function WithoutAssignee(t: Task, u: User): Task
  {
    t.(assignedTo := RemoveFirst(t.assignedTo, u.id),
       assignedToNames := RemoveFirst(t.assignedToNames, u.fullName))
  }
}
