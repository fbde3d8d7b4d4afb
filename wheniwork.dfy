/** The client of the scheduling service: its cached user list, the
    grouping of fetched shifts onto those users, the user search, and the
    sums of scheduled hours over the current week, academic quarter and
    academic year. Logging in and every request are inputs: a request that
    failed is `None`. */
module WhenIWork {
  import opened Seqs
  import opened Strings
  import opened Clock

  datatype Shift = Shift(
    userId: int,
    startTime: int,
    endTime: int,
    /** The service's own `hours` field of the shift. */
    hours: real,
    notes: Option<string>)

  datatype ScheduleUser = ScheduleUser(
    id: int,
    firstName: Option<string>,
    lastName: Option<string>,
    email: Option<string>,
    /** Absent until the shifts have been grouped onto the users. */
    shifts: Option<seq<Shift>>)

  function OrEmpty(s: Option<string>): string
  {
    if s.Some? then s.value else ""
  }

  /** What `getUser` compares a search against: the lower-cased
      `"first last"` and the lower-cased e-mail address. */
  predicate MatchesSearch(u: ScheduleUser, searchLower: string)
  {
    Contains(ToLower(OrEmpty(u.firstName) + " " + OrEmpty(u.lastName)), searchLower) ||
    Contains(ToLower(OrEmpty(u.email)), searchLower)
  }

  // ---- Sums of shift hours over a time window ----

  /** A half-open window `[lo, hi)` of the millisecond clock. */
  datatype Window = Window(lo: int, hi: int)
  {
    predicate Contains(t: int) { lo <= t < hi }
  }

  /** The `hours` of the shifts that start in `[lo, hi)`. */
  function ShiftHoursIn(shifts: seq<Shift>, lo: int, hi: int): real
  {
    if shifts == [] then 0.0
    else
      var last := shifts[|shifts| - 1];
      ShiftHoursIn(shifts[..|shifts| - 1], lo, hi) +
        (if lo <= last.startTime < hi then last.hours else 0.0)
  }

  /** A user whose shifts are absent (or empty) adds nothing. */
  function UserHoursIn(u: ScheduleUser, lo: int, hi: int): real
  {
    if u.shifts.Some? then ShiftHoursIn(u.shifts.value, lo, hi) else 0.0
  }

  /** The scheduled hours of all users in `[lo, hi)`. */
  function HoursIn(users: seq<ScheduleUser>, lo: int, hi: int): real
  {
    if users == [] then 0.0
    else HoursIn(users[..|users| - 1], lo, hi) + UserHoursIn(users[|users| - 1], lo, hi)
  }

  /** Splitting a window at `mid` splits its sum: a shift starting at `mid`
      belongs to the later part only. */
  lemma {:induction false} ShiftHoursInSplit(shifts: seq<Shift>, lo: int, mid: int, hi: int)
    requires lo <= mid <= hi
    ensures ShiftHoursIn(shifts, lo, hi) == ShiftHoursIn(shifts, lo, mid) + ShiftHoursIn(shifts, mid, hi)
  {
    if shifts != [] {
      ShiftHoursInSplit(shifts[..|shifts| - 1], lo, mid, hi);
    }
  }

  lemma {:induction false} HoursInSplit(users: seq<ScheduleUser>, lo: int, mid: int, hi: int)
    requires lo <= mid <= hi
    ensures HoursIn(users, lo, hi) == HoursIn(users, lo, mid) + HoursIn(users, mid, hi)
  {
    if users != [] {
      HoursInSplit(users[..|users| - 1], lo, mid, hi);
      var u := users[|users| - 1];
      if u.shifts.Some? {
        ShiftHoursInSplit(u.shifts.value, lo, mid, hi);
      }
    }
  }

  predicate NonNegativeHours(users: seq<ScheduleUser>)
  {
    forall u, s :: u in users && u.shifts.Some? && s in u.shifts.value ==> s.hours >= 0.0
  }

  lemma {:induction false} ShiftHoursInNonNegative(shifts: seq<Shift>, lo: int, hi: int)
    requires forall s :: s in shifts ==> s.hours >= 0.0
    ensures ShiftHoursIn(shifts, lo, hi) >= 0.0
  {
    if shifts != [] {
      ShiftHoursInNonNegative(shifts[..|shifts| - 1], lo, hi);
    }
  }

  lemma {:induction false} HoursInNonNegative(users: seq<ScheduleUser>, lo: int, hi: int)
    requires NonNegativeHours(users)
    ensures HoursIn(users, lo, hi) >= 0.0
  {
    if users != [] {
      var u := users[|users| - 1];
      assert NonNegativeHours(users[..|users| - 1]);
      HoursInNonNegative(users[..|users| - 1], lo, hi);
      if u.shifts.Some? {
        ShiftHoursInNonNegative(u.shifts.value, lo, hi);
      }
    }
  }

  /** With shift hours that are not negative, a window inside another never
      sums to more: the week's hours are at most the quarter's when the
      week lies inside the quarter, and so on. */
  lemma NestedWindowHours(users: seq<ScheduleUser>, outer: Window, inner: Window)
    requires NonNegativeHours(users)
    requires outer.lo <= inner.lo <= inner.hi <= outer.hi
    ensures HoursIn(users, inner.lo, inner.hi) <= HoursIn(users, outer.lo, outer.hi)
  {
    HoursInSplit(users, outer.lo, inner.lo, outer.hi);
    HoursInSplit(users, inner.lo, inner.hi, outer.hi);
    HoursInNonNegative(users, outer.lo, inner.lo);
    HoursInNonNegative(users, inner.hi, outer.hi);
  }

  // ---- Grouping shifts onto users ----

  /** `users.find(u => u.id === id)`, as an index. */
  function OwnerIndex(users: seq<ScheduleUser>, id: int): (r: Option<nat>)
    ensures r.None? <==> forall k :: 0 <= k < |users| ==> users[k].id != id
    ensures r.Some? ==> r.value < |users| && users[r.value].id == id &&
                        forall k :: 0 <= k < r.value ==> users[k].id != id
  {
    FindFirst(users, (x: ScheduleUser) => x.id == id)
  }

  /** The shifts, in input order, that grouping appends to `users[k]`:
      those whose `user_id` first matches the ID of user `k`. */
  function ShiftsOwnedBy(shifts: seq<Shift>, users: seq<ScheduleUser>, k: nat): seq<Shift>
  {
    if shifts == [] then []
    else
      var last := shifts[|shifts| - 1];
      ShiftsOwnedBy(shifts[..|shifts| - 1], users, k) +
        (if OwnerIndex(users, last.userId) == Some(k) then [last] else [])
  }

  /** Grouping sends every shift to exactly one place: all copies of a shift
      to the first user with its `user_id`, none to any other user, and a
      shift matching no user is dropped. */
  lemma {:induction false} ShiftsOwnedByCount(shifts: seq<Shift>, users: seq<ScheduleUser>, k: nat, s: Shift)
    ensures multiset(ShiftsOwnedBy(shifts, users, k))[s] ==
            if OwnerIndex(users, s.userId) == Some(k) then multiset(shifts)[s] else 0
  {
    if shifts != [] {
      var front, last := shifts[..|shifts| - 1], shifts[|shifts| - 1];
      assert shifts == front + [last];
      ShiftsOwnedByCount(front, users, k, s);
    }
  }

  /** The same list grouped onto users with the same IDs gives the same
      groups. */
  lemma SameIdsSameOwner(a: seq<ScheduleUser>, b: seq<ScheduleUser>, id: int)
    requires |a| == |b| && forall k :: 0 <= k < |a| ==> a[k].id == b[k].id
    ensures OwnerIndex(a, id) == OwnerIndex(b, id)
  {
    var ra, rb := OwnerIndex(a, id), OwnerIndex(b, id);
    if ra.Some? && rb.Some? && ra.value != rb.value {
      assert false;
    }
  }

  lemma ShiftsOwnedBySnoc(shifts: seq<Shift>, base: seq<ScheduleUser>, k: nat, i: nat)
    requires i < |shifts|
    ensures ShiftsOwnedBy(shifts[..i + 1], base, k) ==
            ShiftsOwnedBy(shifts[..i], base, k) +
              (if OwnerIndex(base, shifts[i].userId) == Some(k) then [shifts[i]] else [])
  {
    assert shifts[..i + 1][..i] == shifts[..i];
  }

  /** `users.forEach(u => u.shifts = [])`. */
  method ClearShifts(base: seq<ScheduleUser>) returns (users: seq<ScheduleUser>)
    ensures |users| == |base|
    ensures forall k :: 0 <= k < |users| ==> users[k] == base[k].(shifts := Some([]))
  {
    users := base;
    var k := 0;
    while k < |users|
      invariant 0 <= k <= |users| == |base|
      invariant forall j :: 0 <= j < k ==> users[j] == base[j].(shifts := Some([]))
      invariant forall j :: k <= j < |users| ==> users[j] == base[j]
    {
      users := users[k := users[k].(shifts := Some([]))];
      k := k + 1;
    }
  }

  /** The grouping step of `initialize`: every user gets an empty shift
      list, then each shift, in order, is appended to the list of the first
      user whose ID is the shift's `user_id`. */
  method AttachShifts(base: seq<ScheduleUser>, shifts: seq<Shift>) returns (users: seq<ScheduleUser>)
    ensures |users| == |base|
    ensures forall k :: 0 <= k < |users| ==>
              users[k] == base[k].(shifts := Some(ShiftsOwnedBy(shifts, base, k)))
  {
    users := ClearShifts(base);
    var i := 0;
    while i < |shifts|
      invariant 0 <= i <= |shifts|
      invariant |users| == |base|
      invariant forall j :: 0 <= j < |users| ==>
                  users[j] == base[j].(shifts := Some(ShiftsOwnedBy(shifts[..i], base, j)))
    {
      var shift := shifts[i];
      ghost var prev := users;
      var owner := OwnerIndex(users, shift.userId);
      if owner.Some? {
        var u := users[owner.value];
        users := users[owner.value := u.(shifts := Some(u.shifts.value + [shift]))];
      }
      AttachStep(prev, users, base, shifts, i);
      i := i + 1;
    }
    assert shifts[..i] == shifts;
  }

  /** One shift of the loop in `AttachShifts`: pushing it onto its owner
      extends the owned shifts by exactly that shift. */
  lemma AttachStep(prev: seq<ScheduleUser>, next: seq<ScheduleUser>, base: seq<ScheduleUser>, shifts: seq<Shift>, i: nat)
    requires i < |shifts| && |prev| == |base|
    requires forall j :: 0 <= j < |prev| ==>
               prev[j] == base[j].(shifts := Some(ShiftsOwnedBy(shifts[..i], base, j)))
    requires var owner := OwnerIndex(prev, shifts[i].userId);
             next == if owner.Some? then
                       prev[owner.value := prev[owner.value].(shifts := Some(prev[owner.value].shifts.value + [shifts[i]]))]
                     else prev
    ensures |next| == |base|
    ensures forall j :: 0 <= j < |next| ==>
              next[j] == base[j].(shifts := Some(ShiftsOwnedBy(shifts[..i + 1], base, j)))
  {
    var shift := shifts[i];
    var owner := OwnerIndex(prev, shift.userId);
    SameIdsSameOwner(prev, base, shift.userId);
    forall j | 0 <= j < |next|
      ensures next[j] == base[j].(shifts := Some(ShiftsOwnedBy(shifts[..i + 1], base, j)))
    {
      ShiftsOwnedBySnoc(shifts, base, j, i);
      if owner == Some(j) {
        assert ShiftsOwnedBy(shifts[..i + 1], base, j) == ShiftsOwnedBy(shifts[..i], base, j) + [shift];
        assert next[j] == prev[j].(shifts := Some(ShiftsOwnedBy(shifts[..i], base, j) + [shift]));
      } else {
        assert next[j] == prev[j];
        assert ShiftsOwnedBy(shifts[..i + 1], base, j) == ShiftsOwnedBy(shifts[..i], base, j);
      }
    }
  }

  // ---- Academic quarters ----

  /** An entry of the `quarters` object served by `/api/quarter-dates`. */
  datatype QuarterEntry = QuarterEntry(start: int, name: string)

  /** The body of a successful `/api/quarter-dates` response. */
  datatype QuarterResponse = QuarterResponse(quarters: Option<map<string, QuarterEntry>>)

  const QuarterOrder: seq<string> := ["autumn", "winter", "spring", "summer"]

  /** Whether a quarter name is a key of the served `quarters` object. */
  function PresentIn(quarters: map<string, QuarterEntry>): string -> bool
  {
    q => q in quarters
  }

  /** The number of present quarters before the `q`-th in the fixed order:
      the place of that quarter among the ordered starts. */
  function QuarterRank(quarters: map<string, QuarterEntry>, q: nat): nat
    requires q <= 4
  {
    |Filter(QuarterOrder[..q], PresentIn(quarters))|
  }

  /** The start times of the quarters present, in the fixed order autumn,
      winter, spring, summer: one start per present quarter, every start
      is a present quarter's, every present quarter's start sits at its
      rank, and ranks follow the order. */
  function SortedQuarterStarts(quarters: map<string, QuarterEntry>): (starts: seq<int>)
    ensures |starts| <= 4
    ensures |starts| == QuarterRank(quarters, 4)
    ensures forall k :: 0 <= k < |starts| ==> IsPresentStart(quarters, starts[k])
    ensures forall q :: 0 <= q < 4 && QuarterOrder[q] in quarters ==>
              QuarterRank(quarters, q) < |starts| && starts[QuarterRank(quarters, q)] == quarters[QuarterOrder[q]].start
    ensures forall a, b :: 0 <= a < b < 4 && QuarterOrder[a] in quarters && QuarterOrder[b] in quarters ==>
              QuarterRank(quarters, a) < QuarterRank(quarters, b)
  {
    var present := Filter(QuarterOrder, PresentIn(quarters));
    assert forall k :: 0 <= k < |present| ==> present[k] in present;
    var starts := seq(|present|, k requires 0 <= k < |present| => quarters[present[k]].start);
    QuarterStartsInOrder(quarters, present, starts);
    assert QuarterOrder[..4] == QuarterOrder;
    starts
  }

  lemma QuarterStartsInOrder(quarters: map<string, QuarterEntry>, present: seq<string>, starts: seq<int>)
    requires present == Filter(QuarterOrder, PresentIn(quarters))
    requires |starts| == |present|
    requires forall k :: 0 <= k < |present| ==> present[k] in quarters && starts[k] == quarters[present[k]].start
    ensures forall k :: 0 <= k < |starts| ==> IsPresentStart(quarters, starts[k])
    ensures forall q :: 0 <= q < 4 && QuarterOrder[q] in quarters ==>
              QuarterRank(quarters, q) < |starts| && starts[QuarterRank(quarters, q)] == quarters[QuarterOrder[q]].start
    ensures forall a, b :: 0 <= a < b < 4 && QuarterOrder[a] in quarters && QuarterOrder[b] in quarters ==>
              QuarterRank(quarters, a) < QuarterRank(quarters, b)
  {
    PresentStarts(quarters, present, starts);
    FilterRanks(QuarterOrder, PresentIn(quarters));
  }

  /** `t` is the start of a quarter present in the response. */
  predicate IsPresentStart(quarters: map<string, QuarterEntry>, t: int)
  {
    exists q :: 0 <= q < 4 && QuarterOrder[q] in quarters && t == quarters[QuarterOrder[q]].start
  }

  lemma PresentStarts(quarters: map<string, QuarterEntry>, present: seq<string>, starts: seq<int>)
    requires forall x :: x in present <==> x in QuarterOrder && PresentIn(quarters)(x)
    requires |starts| == |present|
    requires forall k :: 0 <= k < |present| ==> present[k] in quarters && starts[k] == quarters[present[k]].start
    ensures forall k :: 0 <= k < |starts| ==> IsPresentStart(quarters, starts[k])
  {
    forall k | 0 <= k < |starts|
      ensures IsPresentStart(quarters, starts[k])
    {
      assert present[k] in present;
      var q :| 0 <= q < 4 && QuarterOrder[q] == present[k];
    }
  }

  /** `new Date(start.getFullYear() + 1, 8, 1)`: 1 September of the year
      after the one `start` falls in. */
  function FallbackEnd(start: int): int
  {
    MakeDate(FullYear(start) + 1, 8, 1)
  }

  /** The window of the `i`-th present quarter: it ends where the next
      present quarter starts, the last one at the fallback date. */
  function QuarterWindow(starts: seq<int>, i: nat): Window
    requires i < |starts|
  {
    Window(starts[i], if i + 1 < |starts| then starts[i + 1] else FallbackEnd(starts[i]))
  }

  /** The first quarter window, from the `i`-th on, that contains `now`. */
  function FirstContaining(starts: seq<int>, i: nat, now: int): Option<Window>
    decreases |starts| - i
  {
    if i >= |starts| then None
    else if QuarterWindow(starts, i).Contains(now) then Some(QuarterWindow(starts, i))
    else FirstContaining(starts, i + 1, now)
  }

  function CurrentQuarter(quarters: map<string, QuarterEntry>, now: int): Option<Window>
  {
    FirstContaining(SortedQuarterStarts(quarters), 0, now)
  }

  /** What quarter resolution finds: the earliest window in the fixed order
      that contains `now`, and nothing exactly when no window contains it. */
  lemma {:induction false} FirstContainingSpec(starts: seq<int>, i: nat, now: int)
    ensures FirstContaining(starts, i, now).None? <==>
            forall j :: i <= j < |starts| ==> !QuarterWindow(starts, j).Contains(now)
    ensures FirstContaining(starts, i, now).Some? ==>
            exists j :: i <= j < |starts| && FirstContaining(starts, i, now) == Some(QuarterWindow(starts, j)) &&
              QuarterWindow(starts, j).Contains(now) &&
              forall j' :: i <= j' < j ==> !QuarterWindow(starts, j').Contains(now)
    decreases |starts| - i
  {
    if i < |starts| && !QuarterWindow(starts, i).Contains(now) {
      FirstContainingSpec(starts, i + 1, now);
    }
  }

  predicate StrictlyIncreasing(starts: seq<int>)
  {
    forall i, j :: 0 <= i < j < |starts| ==> starts[i] < starts[j]
  }

  /** When the quarter starts increase, the windows do not overlap, so the
      quarter containing `now` is the only one that does. */
  lemma QuarterWindowUnique(starts: seq<int>, i: nat, now: int)
    requires StrictlyIncreasing(starts)
    requires i < |starts| && QuarterWindow(starts, i).Contains(now)
    ensures FirstContaining(starts, 0, now) == Some(QuarterWindow(starts, i))
  {
    FirstContainingSpec(starts, 0, now);
    var j :| 0 <= j < |starts| && FirstContaining(starts, 0, now) == Some(QuarterWindow(starts, j)) &&
              QuarterWindow(starts, j).Contains(now) &&
              forall j' :: 0 <= j' < j ==> !QuarterWindow(starts, j').Contains(now);
    if j != i {
      assert false;
    }
  }

  /** Quarter resolution as the page runs it: a loop over the present
      quarters that stops at the first one containing `now`. */
  method ResolveQuarter(quarters: map<string, QuarterEntry>, now: int) returns (w: Option<Window>)
    ensures w == CurrentQuarter(quarters, now)
  {
    var sorted := SortedQuarterStarts(quarters);
    w := None;
    var i := 0;
    while i < |sorted|
      invariant 0 <= i <= |sorted|
      invariant FirstContaining(sorted, 0, now) == FirstContaining(sorted, i, now)
    {
      var qStart := sorted[i];
      var qEnd := if i + 1 < |sorted| then sorted[i + 1] else FallbackEnd(qStart);
      assert Window(qStart, qEnd) == QuarterWindow(sorted, i);
      if now >= qStart && now < qEnd {
        w := Some(Window(qStart, qEnd));
        break;
      }
      assert FirstContaining(sorted, i, now) == FirstContaining(sorted, i + 1, now);
      i := i + 1;
    }
  }

  /** The hours `getScheduledQuarter` reports. */
  function ScheduledQuarterHours(users: seq<ScheduleUser>, response: Option<QuarterResponse>, now: int): real
  {
    if response.None? || response.value.quarters.None? then 0.0
    else
      match CurrentQuarter(response.value.quarters.value, now)
      case None => 0.0
      case Some(w) => HoursIn(users, w.lo, w.hi)
  }

  /** The academic year: from the autumn start to the same instant one
      year later; None without an autumn quarter. */
  function AcademicYear(response: Option<QuarterResponse>): Option<Window>
  {
    if response.None? || response.value.quarters.None? || "autumn" !in response.value.quarters.value then None
    else
      var start := response.value.quarters.value["autumn"].start;
      Some(Window(start, AddOneYear(start)))
  }

  /** The last millisecond of the current week, as `getScheduledWeek`
      computes it: Saturday 23:59:59.999. */
  function EndOfWeekInclusive(now: int): int
  {
    AddDays(StartOfWeek(now), 6) + 23 * HourMs + 59 * 60000 + 59 * 1000 + 999
  }

  /** The module-level state of the client: the cached user list. */
  class ScheduleClient {
    var users: seq<ScheduleUser>

    constructor(users: seq<ScheduleUser>)
      ensures this.users == users
    {
      this.users := users;
    }

    /** `getUser`: the users whose lower-cased full name or e-mail contains
        the lower-cased search; nothing for an empty search or before any
        user is loaded. */
    function GetUser(search: string): (r: seq<ScheduleUser>)
      reads this
      ensures search == "" || users == [] ==> r == []
      ensures search != "" ==>
                forall u :: multiset(r)[u] == (if MatchesSearch(u, ToLower(search)) then multiset(users)[u] else 0)
    {
      if search == "" || users == [] then []
      else
        var lower := ToLower(search);
        forall u ensures multiset(Filter(users, v => MatchesSearch(v, lower)))[u] ==
                         if MatchesSearch(u, lower) then multiset(users)[u] else 0 {
          FilterMultiset(users, v => MatchesSearch(v, lower), u);
        }
        Filter(users, v => MatchesSearch(v, lower))
    }

    /** `initialize`: load the users, then the shifts, then give every user
        an empty shift list and append each shift to the first user whose
        ID is the shift's `user_id`. A failed request ends it early. */
    method Initialize(fetchedUsers: Option<seq<ScheduleUser>>, fetchedShifts: Option<seq<Shift>>)
      modifies this
      ensures fetchedUsers.None? ==> users == old(users)
      ensures fetchedUsers.Some? && fetchedShifts.None? ==> users == fetchedUsers.value
      ensures fetchedUsers.Some? && fetchedShifts.Some? ==>
                |users| == |fetchedUsers.value| &&
                forall k :: 0 <= k < |users| ==>
                  users[k] == fetchedUsers.value[k].(shifts := Some(ShiftsOwnedBy(fetchedShifts.value, fetchedUsers.value, k)))
    {
      if fetchedUsers.None? {
        return;
      }
      users := fetchedUsers.value;
      if fetchedShifts.None? {
        return;
      }
      users := AttachShifts(users, fetchedShifts.value);
    }

    /** The shared loop of the three `getScheduled*` functions: the hours of
        every user's shifts that start in `[lo, hi)`. */
    method HoursBetween(lo: int, hi: int) returns (h: real)
      ensures h == HoursIn(users, lo, hi)
    {
      h := 0.0;
      var i := 0;
      while i < |users|
        invariant 0 <= i <= |users|
        invariant h == HoursIn(users[..i], lo, hi)
      {
        var user := users[i];
        assert users[..i + 1][..i] == users[..i];
        if user.shifts.Some? && |user.shifts.value| != 0 {
          var shifts := user.shifts.value;
          var j := 0;
          while j < |shifts|
            invariant 0 <= j <= |shifts|
            invariant h == HoursIn(users[..i], lo, hi) + ShiftHoursIn(shifts[..j], lo, hi)
          {
            var shift := shifts[j];
            assert shifts[..j + 1][..j] == shifts[..j];
            if shift.startTime >= lo && shift.startTime < hi {
              h := h + shift.hours;
            }
            j := j + 1;
          }
          assert shifts[..j] == shifts;
        }
        i := i + 1;
      }
      assert users[..i] == users;
    }

    /** `getScheduledWeek`: the hours of shifts starting from Sunday 00:00
        through Saturday 23:59:59.999 of the current week, both ends
        included. */
    method GetScheduledWeek(now: int) returns (h: real)
      ensures h == HoursIn(users, StartOfWeek(now), StartOfWeek(now) + WeekMs)
    {
      var startOfWeek := StartOfWeek(now);
      var endOfWeek := EndOfWeekInclusive(now);
      // On an integer millisecond clock, `start <= endOfWeek` is
      // `start < endOfWeek + 1`.
      h := HoursBetween(startOfWeek, endOfWeek + 1);
    }

    /** `getScheduledQuarter`: 0 when the quarter dates cannot be fetched,
        carry no `quarters`, or place `now` in no quarter; otherwise the
        hours of shifts starting in the current quarter's window. */
    method GetScheduledQuarter(response: Option<QuarterResponse>, now: int) returns (h: real)
      ensures h == ScheduledQuarterHours(users, response, now)
    {
      if response.None? || response.value.quarters.None? {
        return 0.0;
      }
      var w := ResolveQuarter(response.value.quarters.value, now);
      if w.None? {
        return 0.0;
      }
      h := HoursBetween(w.value.lo, w.value.hi);
    }

    /** `getScheduledYear`: 0 without quarter dates or without an autumn
        quarter; otherwise the hours of shifts starting in the academic
        year. */
    method GetScheduledYear(response: Option<QuarterResponse>) returns (h: real)
      ensures AcademicYear(response).None? ==> h == 0.0
      ensures AcademicYear(response).Some? ==>
                h == HoursIn(users, AcademicYear(response).value.lo, AcademicYear(response).value.hi)
    {
      if response.None? || response.value.quarters.None? {
        return 0.0;
      }
      var quarters := response.value.quarters.value;
      if "autumn" !in quarters {
        return 0.0;
      }
      var academicYearStart := quarters["autumn"].start;
      var academicYearEnd := AddOneYear(academicYearStart);
      h := HoursBetween(academicYearStart, academicYearEnd);
    }
  }
}
