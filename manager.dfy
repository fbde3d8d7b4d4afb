/** The manager page: the team list with its workload badges, the skill
    editor of the user dialog, and the deletion of a user. */
module Manager {
  import opened Seqs
  import opened Strings
  import opened Records

  /** `allUsers.filter(user => user.role !== "manager")`: the team list
      holds everyone but the managers, in list order. */
  function RegularUsers(users: seq<User>): (r: seq<User>)
    ensures forall u :: u in r <==> u in users && u.role != "manager"
  {
    Filter(users, (u: User) => u.role != "manager")
  }

  /** A task is active for a user when it is assigned to them and not
      completed. */
  predicate ActiveFor(t: Task, userId: string)
  {
    userId in t.assignedTo && !t.completed
  }

  /** The number of the user's active tasks. */
  function ActiveTaskCount(tasks: seq<Task>, userId: string): nat
  {
    Count(tasks, (t: Task) => ActiveFor(t, userId))
  }

  datatype Badge = Green | Yellow | Red

  /** The badge colour for a number of active tasks: red from five on,
      yellow from three on, green below. */
  function BadgeFor(n: nat): (b: Badge)
    ensures b == Red <==> n >= 5
    ensures b == Yellow <==> 3 <= n < 5
    ensures b == Green <==> n < 3
  {
    if n >= 5 then Red else if n >= 3 then Yellow else Green
  }

  function Severity(b: Badge): nat
  {
    match b
    case Green => 0
    case Yellow => 1
    case Red => 2
  }

  /** More active tasks never give a milder badge. */
  lemma BadgeMonotone(m: nat, n: nat)
    requires m <= n
    ensures Severity(BadgeFor(m)) <= Severity(BadgeFor(n))
  {
  }

  datatype TeamEntry = TeamEntry(userId: string, fullName: string, badge: Badge)

  datatype TeamView = NoTeamMembers | Team(entries: seq<TeamEntry>)

  /** `renderTeamList`: the message for an empty team when every user is a
      manager; otherwise one entry per regular user, in list order, with
      the badge of their active tasks. */
  function RenderTeamList(users: seq<User>, tasks: seq<Task>): (v: TeamView)
    ensures v == NoTeamMembers <==> forall u :: u in users ==> u.role == "manager"
    ensures v.Team? ==>
              |v.entries| == |RegularUsers(users)| &&
              forall k :: 0 <= k < |v.entries| ==>
                v.entries[k].userId == RegularUsers(users)[k].id &&
                v.entries[k].badge == BadgeFor(ActiveTaskCount(tasks, RegularUsers(users)[k].id))
  {
    var team := RegularUsers(users);
    if |team| == 0 then
      NoTeamMembers
    else
      assert team[0] in team;
      Team(seq(|team|, k requires 0 <= k < |team| =>
        TeamEntry(team[k].id, team[k].fullName, BadgeFor(ActiveTaskCount(tasks, team[k].id)))))
  }

  /** The skills a manager can hand out, in the order the prompt lists
      them. */
  const AvailableSkills: seq<string> := [
    "Textiles", "Screen Printing", "3D Printer (FDM)", "3D Printer (Resin)",
    "Laser Cutter", "Wood Shop", "Programming", "Mechanical", "Electronics",
    "3D Modeling", "Graphic Design", "Photo/Video", "CNC"]

  /** The skills the user does not have yet, in the order of the list. */
  function AvailableFor(userSkills: seq<string>): (r: seq<string>)
    ensures forall s :: s in r <==> s in AvailableSkills && s !in userSkills
    ensures Distinct(r)
  {
    assert Distinct(AvailableSkills);
    FilterDistinct(AvailableSkills, (s: string) => s !in userSkills);
    Filter(AvailableSkills, (s: string) => s !in userSkills)
  }

  /** What the add-skill prompt yields. */
  datatype Selection = Cancelled | Chosen(skill: string) | Invalid

  /** The first entry equal to `input` apart from the case of ASCII
      letters (`find` with `toLowerCase` on both sides). */
  function FindByName(available: seq<string>, input: string): (r: Option<nat>)
    ensures r.None? <==> forall k :: 0 <= k < |available| ==> ToLower(available[k]) != ToLower(input)
    ensures r.Some? ==> r.value < |available| && ToLower(available[r.value]) == ToLower(input) &&
                        forall k :: 0 <= k < r.value ==> ToLower(available[k]) != ToLower(input)
  {
    FindFirst(available, (x: string) => ToLower(x) == ToLower(input))
  }

  /** The prompt's answer read as a skill: nothing for a cancelled or empty
      answer; for a number `n`, the `n`-th listed skill when there is one;
      for other text, the first listed skill with that name in any case.
      An empty skill name would not be added. */
  function SelectSkill(available: seq<string>, input: Option<string>): (r: Selection)
    ensures r == Cancelled <==> input.None? || input.value == ""
    ensures r.Chosen? ==> r.skill in available && r.skill != ""
    ensures input.Some? && input.value != "" && IsDecimalText(input.value) ==>
              (r.Chosen? <==> 1 <= ParseIntText(input.value) <= |available| &&
                              available[ParseIntText(input.value) - 1] != "") &&
              (r.Chosen? ==> r.skill == available[ParseIntText(input.value) - 1])
    ensures input.Some? && input.value != "" && !IsDecimalText(input.value) && r.Chosen? ==>
              ToLower(r.skill) == ToLower(input.value)
  {
    if input.None? || input.value == "" then
      Cancelled
    else if IsDecimalText(input.value) then
      var index := ParseIntText(input.value) - 1;
      if 0 <= index < |available| && available[index] != "" then Chosen(available[index]) else Invalid
    else
      var found := FindByName(available, input.value);
      if found.Some? && available[found.value] != "" then Chosen(available[found.value]) else Invalid
  }

  /** Typing the number the prompt shows in front of a skill selects that
      skill. */
  lemma NumberSelects(available: seq<string>, k: nat)
    requires k < |available| && available[k] != ""
    ensures SelectSkill(available, Some(NatToString(k + 1))) == Chosen(available[k])
  {
    var text := NatToString(k + 1);
    NatToStringDecimal(k + 1);
    assert text != "" && IsDecimalText(text) && ParseIntText(text) - 1 == k;
  }

  /** Typing a listed name, in any case, selects it when no earlier entry
      has the same name in lower case. */
  lemma NameSelects(available: seq<string>, k: nat, input: string)
    requires k < |available| && available[k] != "" && !IsDecimalText(input)
    requires ToLower(input) == ToLower(available[k])
    requires forall j :: 0 <= j < k ==> ToLower(available[j]) != ToLower(available[k])
    ensures SelectSkill(available, Some(input)) == Chosen(available[k])
  {
    assert |input| == |ToLower(input)| == |available[k]|;
    var found := FindByName(available, input);
    assert found.Some?;
    assert found.value == k;
  }

  /** A skill chosen from the prompt is one of the manager's skills that
      the user lacks, so adding it keeps the user's skills free of
      duplicates. */
  lemma ChosenIsNew(userSkills: seq<string>, input: Option<string>)
    requires SelectSkill(AvailableFor(userSkills), input).Chosen?
    ensures SelectSkill(AvailableFor(userSkills), input).skill in AvailableSkills
    ensures SelectSkill(AvailableFor(userSkills), input).skill !in userSkills
    ensures Distinct(userSkills) ==> Distinct(userSkills + [SelectSkill(AvailableFor(userSkills), input).skill])
  {
    var s := SelectSkill(AvailableFor(userSkills), input).skill;
    if Distinct(userSkills) {
      DistinctAppend(userSkills, s);
    }
  }

  /** `selectedUser.skills.push(skill)`. */
  function WithSkill(u: User, skill: string): (r: User)
    ensures r.id == u.id && r.skills == u.skills + [skill]
  {
    u.(skills := u.skills + [skill])
  }

  /** `indexOf` and `splice(index, 1)` on the user's skills. */
  function WithoutSkill(u: User, skill: string): (r: User)
    ensures r.id == u.id && multiset(r.skills) == multiset(u.skills) - multiset{skill}
  {
    RemoveFirstSpec(u.skills, skill);
    u.(skills := RemoveFirst(u.skills, skill))
  }

  /** Adding a skill the user lacks and removing it again gives back the
      user. */
  lemma AddThenRemove(u: User, skill: string)
    requires skill !in u.skills
    ensures WithoutSkill(WithSkill(u, skill), skill) == u
  {
    RemoveFirstAppended(u.skills, skill);
  }

  /** On skills without duplicates, the local removal agrees with the
      store's `arrayRemove`, which drops every copy. */
  lemma RemoveMatchesStore(u: User, skill: string)
    requires Distinct(u.skills)
    ensures WithoutSkill(u, skill).skills == RemoveAll(u.skills, skill)
    ensures skill !in WithoutSkill(u, skill).skills
  {
    RemoveFirstDistinct(u.skills, skill);
  }

  /** `allUsers[allUsers.findIndex(u => u.id === user.id)] = user`, when
      there is such an entry. */
  function Replaced(users: seq<User>, u: User): (r: seq<User>)
    ensures |r| == |users|
    ensures forall k :: 0 <= k < |users| && users[k].id != u.id ==> r[k] == users[k]
    ensures (exists k :: 0 <= k < |users| && users[k].id == u.id) ==> u in r
  {
    match FindUser(users, u.id)
    case None => users
    case Some(i) =>
      assert users[i := u][i] == u;
      users[i := u]
  }

  /** `allUsers.filter(u => u.id !== id)`. */
  function WithoutUser(users: seq<User>, id: string): (r: seq<User>)
    ensures forall u :: u in r <==> u in users && u.id != id
  {
    Filter(users, (u: User) => u.id != id)
  }

  /** The local clean-up of one task after a deletion: when the user's ID
      is among the assignees, every copy of it leaves `assignedTo` and every
      copy of the user's name leaves `assignedToNames`. */
  function Purged(t: Task, u: User): Task
  {
    if u.id in t.assignedTo then
      t.(assignedTo := RemoveAll(t.assignedTo, u.id),
         assignedToNames := RemoveAll(t.assignedToNames, u.fullName))
    else
      t
  }

  /** The clean-up of every task. */
  function PurgedAll(tasks: seq<Task>, u: User): (r: seq<Task>)
    ensures |r| == |tasks|
  {
    seq(|tasks|, k requires 0 <= k < |tasks| => Purged(tasks[k], u))
  }

  /** After the clean-up no task lists the deleted user; the other
      assignees keep their places in the count, tasks the user was not on
      are untouched, and nothing but the two lists changes. */
  lemma PurgedAllSpec(tasks: seq<Task>, u: User)
    ensures forall k :: 0 <= k < |tasks| ==> u.id !in PurgedAll(tasks, u)[k].assignedTo
    ensures forall k :: 0 <= k < |tasks| && u.id !in tasks[k].assignedTo ==> PurgedAll(tasks, u)[k] == tasks[k]
    ensures forall k :: 0 <= k < |tasks| && u.id in tasks[k].assignedTo ==>
              u.fullName !in PurgedAll(tasks, u)[k].assignedToNames
    ensures forall k, x :: 0 <= k < |tasks| && x != u.id ==>
              multiset(PurgedAll(tasks, u)[k].assignedTo)[x] == multiset(tasks[k].assignedTo)[x]
    ensures forall k :: 0 <= k < |tasks| ==>
              PurgedAll(tasks, u)[k] == tasks[k].(assignedTo := PurgedAll(tasks, u)[k].assignedTo,
                                                   assignedToNames := PurgedAll(tasks, u)[k].assignedToNames)
  {
  }

  /** A deleted user has no active task left, so no badge would count
      one for them. */
  lemma {:induction false} PurgedNoActive(tasks: seq<Task>, u: User)
    ensures ActiveTaskCount(PurgedAll(tasks, u), u.id) == 0
  {
    var r := PurgedAll(tasks, u);
    forall k | 0 <= k < |r| ensures !ActiveFor(r[k], u.id) {
      assert r[k] == Purged(tasks[k], u);
    }
    FilterNone(r, (t: Task) => ActiveFor(t, u.id));
  }

  /** How a skill edit ends. */
  datatype SkillOutcome =
    NoUserSelected | AllSkillsHeld | PromptCancelled | InvalidSkill | NotConfirmed |
    SkillAdded | SkillRemoved | SkillStoreFailed

  /** How a deletion ends. */
  datatype DeleteOutcome = NoSelection | NameMismatch | NotSignedIn | ServerFailed | Deleted

  /** The checks of `confirmDeleteUser`, in order: the typed name must be
      the user's full name (a cancelled prompt never is), someone must be
      signed in, and the server must accept the request. */
  function DeleteCheck(u: User, confirmation: Option<string>, signedIn: bool, serverOk: bool): (r: DeleteOutcome)
    ensures r == Deleted <==> confirmation == Some(u.fullName) && signedIn && serverOk
    ensures r != NoSelection
  {
    if confirmation != Some(u.fullName) then NameMismatch
    else if !signedIn then NotSignedIn
    else if !serverOk then ServerFailed
    else Deleted
  }

  /** The manager page's state: the loaded users and tasks and the user
      whose dialog is open. */
  class ManagerPage {
    var allUsers: seq<User>
    var allTasks: seq<Task>
    var selectedUser: Option<User>

    constructor(users: seq<User>, tasks: seq<Task>)
      ensures allUsers == users && allTasks == tasks && selectedUser == None
    {
      allUsers := users;
      allTasks := tasks;
      selectedUser := None;
    }

    /** `openUserDialog`: the user with the clicked ID, if any. */
    method OpenUserDialog(userId: string)
      modifies this
      ensures selectedUser.Some? <==> FindUser(allUsers, userId).Some?
      ensures selectedUser.Some? ==> selectedUser.value == allUsers[FindUser(allUsers, userId).value]
      ensures allUsers == old(allUsers) && allTasks == old(allTasks)
    {
      var found := FindUser(allUsers, userId);
      selectedUser := if found.Some? then Some(allUsers[found.value]) else None;
    }

    /** `addSkill`: after the store accepts it, push the skill onto the
        selected user and put the updated user back into the list. */
    method AddSkill(skill: string, storeOk: bool) returns (outcome: SkillOutcome)
      modifies this
      ensures old(selectedUser).None? ==> outcome == NoUserSelected
      ensures old(selectedUser).Some? ==> outcome == if storeOk then SkillAdded else SkillStoreFailed
      ensures outcome == SkillAdded ==>
                var u := WithSkill(old(selectedUser).value, skill);
                selectedUser == Some(u) && allUsers == Replaced(old(allUsers), u)
      ensures outcome != SkillAdded ==> allUsers == old(allUsers) && selectedUser == old(selectedUser)
      ensures allTasks == old(allTasks)
    {
      if selectedUser.None? {
        return NoUserSelected;
      }
      if !storeOk {
        return SkillStoreFailed;
      }
      var u := WithSkill(selectedUser.value, skill);
      selectedUser := Some(u);
      allUsers := Replaced(allUsers, u);
      outcome := SkillAdded;
    }

    /** `showAddSkillPrompt`: with a user selected who lacks some skill,
        read the answer to the prompt and add the skill it selects. */
    method ShowAddSkillPrompt(input: Option<string>, storeOk: bool) returns (outcome: SkillOutcome)
      modifies this
      ensures old(selectedUser).None? ==> outcome == NoUserSelected
      ensures old(selectedUser).Some? ==>
                var available := AvailableFor(old(selectedUser).value.skills);
                outcome == if |available| == 0 then AllSkillsHeld
                           else match SelectSkill(available, input)
                                case Cancelled => PromptCancelled
                                case Invalid => InvalidSkill
                                case Chosen(_) => if storeOk then SkillAdded else SkillStoreFailed
      ensures outcome == SkillAdded ==>
                var skill := SelectSkill(AvailableFor(old(selectedUser).value.skills), input).skill;
                var u := WithSkill(old(selectedUser).value, skill);
                skill !in old(selectedUser).value.skills &&
                selectedUser == Some(u) && allUsers == Replaced(old(allUsers), u)
      ensures outcome != SkillAdded ==> allUsers == old(allUsers) && selectedUser == old(selectedUser)
      ensures allTasks == old(allTasks)
    {
      if selectedUser.None? {
        return NoUserSelected;
      }
      var available := AvailableFor(selectedUser.value.skills);
      if |available| == 0 {
        return AllSkillsHeld;
      }
      var selection := SelectSkill(available, input);
      match selection
      case Cancelled =>
        outcome := PromptCancelled;
      case Invalid =>
        outcome := InvalidSkill;
      case Chosen(skill) =>
        ChosenIsNew(selectedUser.value.skills, input);
        outcome := AddSkill(skill, storeOk);
    }

    /** `removeSkill`: after the manager confirms and the store accepts
        it, drop the first copy of the skill from the selected user and put
        the updated user back into the list. */
    method RemoveSkill(skill: string, confirmed: bool, storeOk: bool) returns (outcome: SkillOutcome)
      modifies this
      ensures old(selectedUser).None? ==> outcome == NoUserSelected
      ensures old(selectedUser).Some? ==>
                outcome == if !confirmed then NotConfirmed else if storeOk then SkillRemoved else SkillStoreFailed
      ensures outcome == SkillRemoved ==>
                var u := WithoutSkill(old(selectedUser).value, skill);
                selectedUser == Some(u) && allUsers == Replaced(old(allUsers), u)
      ensures outcome != SkillRemoved ==> allUsers == old(allUsers) && selectedUser == old(selectedUser)
      ensures allTasks == old(allTasks)
    {
      if selectedUser.None? {
        return NoUserSelected;
      }
      if !confirmed {
        return NotConfirmed;
      }
      if !storeOk {
        return SkillStoreFailed;
      }
      var u := WithoutSkill(selectedUser.value, skill);
      selectedUser := Some(u);
      allUsers := Replaced(allUsers, u);
      outcome := SkillRemoved;
    }

    /** `confirmDeleteUser`: when the typed name matches, someone is signed
        in and the server deletes the user, drop the user from the list,
        clean every task of them, and close the dialog. */
    method ConfirmDeleteUser(confirmation: Option<string>, signedIn: bool, serverOk: bool)
      returns (outcome: DeleteOutcome)
      modifies this
      ensures old(selectedUser).None? ==> outcome == NoSelection
      ensures old(selectedUser).Some? ==>
                outcome == DeleteCheck(old(selectedUser).value, confirmation, signedIn, serverOk)
      ensures outcome == Deleted ==>
                var u := old(selectedUser).value;
                allUsers == WithoutUser(old(allUsers), u.id) &&
                allTasks == PurgedAll(old(allTasks), u) &&
                selectedUser == None
      ensures outcome != Deleted ==>
                allUsers == old(allUsers) && allTasks == old(allTasks) && selectedUser == old(selectedUser)
    {
      if selectedUser.None? {
        return NoSelection;
      }
      var u := selectedUser.value;
      outcome := DeleteCheck(u, confirmation, signedIn, serverOk);
      if outcome != Deleted {
        return;
      }
      allUsers := WithoutUser(allUsers, u.id);
      ghost var tasks := allTasks;
      var i := 0;
      while i < |allTasks|
        invariant 0 <= i <= |allTasks| == |tasks|
        invariant forall k :: 0 <= k < i ==> allTasks[k] == Purged(tasks[k], u)
        invariant forall k :: i <= k < |allTasks| ==> allTasks[k] == tasks[k]
        invariant allUsers == WithoutUser(old(allUsers), u.id) && selectedUser == old(selectedUser)
      {
        var task := allTasks[i];
        if u.id in task.assignedTo {
          allTasks := allTasks[i := task.(assignedTo := RemoveAll(task.assignedTo, u.id),
                                          assignedToNames := RemoveAll(task.assignedToNames, u.fullName))];
        }
        i := i + 1;
      }
      selectedUser := None;
    }
  }
}
