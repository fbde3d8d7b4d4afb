/** The developer portal: semantic-version bumps, the manual version check,
    publishing a version, and the bug-report list with its completion
    toggle. */
module DevPortal {
  import opened Seqs
  import opened Strings

  /** A version `major.minor.patch`, as the numbers `split('.').map(Number)`
      yields for a well-formed version string. */
  datatype Version = Version(major: nat, minor: nat, patch: nat)

  predicate IsDigit(c: char)
  {
    '0' <= c <= '9'
  }

  /** `[0-9]+`. */
  predicate DigitRun(s: string)
  {
    s != [] && forall i :: 0 <= i < |s| ==> IsDigit(s[i])
  }

  /** The dots at `i` and `j` split `s` into three digit runs. */
  predicate DotsAt(s: string, i: int, j: int)
  {
    0 <= i < j < |s| && s[i] == '.' && s[j] == '.' &&
    DigitRun(s[..i]) && DigitRun(s[i + 1..j]) && DigitRun(s[j + 1..])
  }

  /** `/^[0-9]+\.[0-9]+\.[0-9]+$/.test(s)`. */
  predicate IsVersionText(s: string)
  {
    exists i, j | 0 <= i < j < |s| :: DotsAt(s, i, j)
  }

  /** `parts.join('.')` of the three numbers. */
  function Print(v: Version): (r: string)
    ensures IsVersionText(r)
  {
    var a, b, c := NatToString(v.major), NatToString(v.minor), NatToString(v.patch);
    var r := a + "." + b + "." + c;
    assert r[..|a|] == a && r[|a| + 1..|a| + 1 + |b|] == b && r[|a| + 1 + |b| + 1..] == c;
    assert DotsAt(r, |a|, |a| + 1 + |b|);
    r
  }

  /** `split('.').map(Number)` on a string that passes the version check:
      the three numbers, leading zeros dropped; nothing for any other
      string. */
  function Parse(s: string): Option<Version>
  {
    var parts := Split(s, '.');
    if |parts| == 3 && DigitRun(parts[0]) && DigitRun(parts[1]) && DigitRun(parts[2]) then
      Some(Version(DigitsValue(parts[0]), DigitsValue(parts[1]), DigitsValue(parts[2])))
    else
      None
  }

  /** A digit run holds no dot. */
  lemma DigitRunNoDot(s: string)
    requires DigitRun(s)
    ensures '.' !in s
  {
    forall k | 0 <= k < |s| ensures s[k] != '.' {
      assert IsDigit(s[k]);
    }
  }

  /** Three dot-free parts joined by dots split back into those parts. */
  lemma SplitThree(a: string, b: string, c: string)
    requires '.' !in a && '.' !in b && '.' !in c
    ensures Split(a + "." + b + "." + c, '.') == [a, b, c]
  {
    assert a + "." + b + "." + c == a + ['.'] + (b + ['.'] + c);
    SplitPiece(a, b + ['.'] + c, '.');
    SplitPiece(b, c, '.');
    SplitPiece(c, [], '.');
  }

  /** `Parse` succeeds exactly on the strings the version pattern accepts. */
  lemma ParseSpec(s: string)
    ensures Parse(s).Some? <==> IsVersionText(s)
  {
    if IsVersionText(s) {
      ParseAccepts(s);
    }
    if Parse(s).Some? {
      ParseOnlyVersions(s);
    }
  }

  lemma ParseAccepts(s: string)
    requires IsVersionText(s)
    ensures Parse(s).Some?
  {
    var i, j :| 0 <= i < j < |s| && DotsAt(s, i, j);
    var a, b, c := s[..i], s[i + 1..j], s[j + 1..];
    assert s[..j] == a + [s[i]] + b;
    assert s == s[..j] + [s[j]] + c;
    DigitRunNoDot(a);
    DigitRunNoDot(b);
    DigitRunNoDot(c);
    SplitThree(a, b, c);
  }

  lemma ParseOnlyVersions(s: string)
    requires Parse(s).Some?
    ensures IsVersionText(s)
  {
    var parts := Split(s, '.');
    SplitJoin(s, '.');
    var a, b, c := parts[0], parts[1], parts[2];
    assert parts[1..] == [b, c] && parts[1..][1..] == [c];
    assert JoinFront([b, c], '.') == b + ['.'] + c;
    assert s == a + ['.'] + (b + ['.'] + c);
    assert s == a + "." + b + "." + c;
    assert s[..|a|] == a && s[|a| + 1..|a| + 1 + |b|] == b && s[|a| + 1 + |b| + 1..] == c;
    assert DotsAt(s, |a|, |a| + 1 + |b|);
  }

  /** Three digit runs joined by dots read back as their values. */
  lemma ParseParts(a: string, b: string, c: string)
    requires DigitRun(a) && DigitRun(b) && DigitRun(c)
    ensures Parse(a + "." + b + "." + c) == Some(Version(DigitsValue(a), DigitsValue(b), DigitsValue(c)))
  {
    DigitRunNoDot(a);
    DigitRunNoDot(b);
    DigitRunNoDot(c);
    SplitThree(a, b, c);
  }

  /** Reading a printed version gives the version back. */
  lemma ParsePrint(v: Version)
    ensures Parse(Print(v)) == Some(v)
  {
    var a, b, c := NatToString(v.major), NatToString(v.minor), NatToString(v.patch);
    assert Print(v) == a + "." + b + "." + c;
    ParseParts(a, b, c);
    NatToStringValue(v.major);
    NatToStringValue(v.minor);
    NatToStringValue(v.patch);
  }

  /** `incrementVersion` on the numbers: `major` bumps the first and zeroes
      the rest, `minor` bumps the second and zeroes the third, `patch`
      bumps the third, and any other type keeps the version. */
  function Increment(v: Version, kind: string): (r: Version)
    ensures kind == "major" ==> r.major == v.major + 1 && r.minor == 0 && r.patch == 0
    ensures kind == "minor" ==> r.major == v.major && r.minor == v.minor + 1 && r.patch == 0
    ensures kind == "patch" ==> r.major == v.major && r.minor == v.minor && r.patch == v.patch + 1
    ensures kind !in {"major", "minor", "patch"} ==> r == v
  {
    match kind
    case "major" => Version(v.major + 1, 0, 0)
    case "minor" => Version(v.major, v.minor + 1, 0)
    case "patch" => Version(v.major, v.minor, v.patch + 1)
    case _ => v
  }

  /** The order of versions: by major, then minor, then patch. */
  predicate Less(v: Version, w: Version)
  {
    v.major < w.major ||
    (v.major == w.major && (v.minor < w.minor || (v.minor == w.minor && v.patch < w.patch)))
  }

  /** Each bump gives a later version, the smallest one with its changed
      part: a bump never goes backwards and skips no release of its kind. */
  lemma IncrementIsNext(v: Version, kind: string, w: Version)
    requires kind in {"major", "minor", "patch"}
    ensures Less(v, Increment(v, kind))
    ensures kind == "major" && w.major > v.major ==> !Less(w, Increment(v, kind))
    ensures kind == "minor" && w.major == v.major && w.minor > v.minor ==> !Less(w, Increment(v, kind))
    ensures kind == "patch" && Less(v, w) ==> !Less(w, Increment(v, kind))
  {
  }

  /** `incrementVersion(currentVersion, type)` on text: the bumped version
      printed, for a current version that passes the version check. */
  function IncrementVersion(current: string, kind: string): (r: Option<string>)
    ensures r.Some? <==> IsVersionText(current)
    ensures r.Some? ==> Parse(current).Some? && Parse(r.value) == Some(Increment(Parse(current).value, kind))
    ensures r.Some? ==> r.value == Print(Increment(Parse(current).value, kind))
  {
    ParseSpec(current);
    match Parse(current)
    case None => None
    case Some(v) =>
      ParsePrint(Increment(v, kind));
      Some(Print(Increment(v, kind)))
  }

  /** Bumping a printed version prints the bumped version. */
  lemma IncrementVersionPrinted(v: Version, kind: string)
    ensures IncrementVersion(Print(v), kind) == Some(Print(Increment(v, kind)))
  {
    ParsePrint(v);
  }

  /** `setManualVersion`: the trimmed input is offered for publishing
      exactly when it matches the version pattern. */
  function ManualVersion(input: string): (r: Option<string>)
    ensures r.Some? <==> IsVersionText(Trim(input))
    ensures r.Some? ==> r.value == Trim(input) && Parse(r.value).Some?
  {
    var version := Trim(input);
    ParseSpec(version);
    if Parse(version).Some? then Some(version) else None
  }

  /** `.map(input => input.value.trim())`. */
  function TrimAll(inputs: seq<string>): (r: seq<string>)
    ensures |r| == |inputs| && forall k :: 0 <= k < |inputs| ==> r[k] == Trim(inputs[k])
  {
    seq(|inputs|, k requires 0 <= k < |inputs| => Trim(inputs[k]))
  }

  /** `.filter(val => val.length > 0)` after the trim: the non-blank
      entries, trimmed, in input order. */
  function NonBlank(inputs: seq<string>): (r: seq<string>)
    ensures |r| <= |inputs|
    ensures forall x :: x in r <==> x in TrimAll(inputs) && x != ""
  {
    Filter(TrimAll(inputs), (x: string) => x != "")
  }

  /** The list is empty exactly when every input is blank. */
  lemma NonBlankEmpty(inputs: seq<string>)
    ensures NonBlank(inputs) == [] <==> forall k :: 0 <= k < |inputs| ==> Trim(inputs[k]) == ""
  {
    var t := TrimAll(inputs);
    if exists k :: 0 <= k < |inputs| && Trim(inputs[k]) != "" {
      var k :| 0 <= k < |inputs| && Trim(inputs[k]) != "";
      assert t[k] != "" && t[k] in t;
      assert t[k] in NonBlank(inputs);
    } else {
      assert forall i :: 0 <= i < |t| ==> t[i] == Trim(inputs[i]) == "";
      FilterNone(t, (x: string) => x != "");
    }
  }

  /** What the publish dialog holds, read as `publishVersion` reads it:
      the version is the heading without its first `v`, the message and
      name are trimmed, and blank bug fixes and features are dropped. */
  datatype Release = Release(version: string, message: string, devName: string,
                             bugFixes: seq<string>, features: seq<string>)

  function Draft(heading: string, message: string, devName: string,
                 bugFixInputs: seq<string>, featureInputs: seq<string>): (d: Release)
    ensures d.message == Trim(message) && d.devName == Trim(devName)
    ensures d.bugFixes == NonBlank(bugFixInputs) && d.features == NonBlank(featureInputs)
    ensures heading != [] && heading[0] == 'v' ==> d.version == heading[1..]
    ensures 'v' !in heading ==> d.version == heading
  {
    RemoveFirstSpec(heading, 'v');
    Release(RemoveFirst(heading, 'v'), Trim(message), Trim(devName), NonBlank(bugFixInputs), NonBlank(featureInputs))
  }

  datatype PublishOutcome = Published | MissingMessage | NothingListed | PublishFailed

  /** How a publish ends: refused for a blank message, refused for a
      release listing nothing, or the store write's result. */
  function PublishCheck(d: Release, storeOk: bool): (r: PublishOutcome)
    ensures r == MissingMessage <==> d.message == ""
    ensures r == NothingListed <==> d.message != "" && d.bugFixes == [] && d.features == []
    ensures r == Published <==> d.message != "" && (d.bugFixes != [] || d.features != []) && storeOk
  {
    if d.message == "" then MissingMessage
    else if d.bugFixes == [] && d.features == [] then NothingListed
    else if storeOk then Published else PublishFailed
  }

  /** A bug report or feature request. */
  datatype Report = Report(id: string, completed: bool, completedAt: Option<int>)

  /** `allReports.find(r => r.id === reportId)`, as an index. */
  function FindReport(reports: seq<Report>, id: string): (r: Option<nat>)
    ensures r.None? ==> forall k :: 0 <= k < |reports| ==> reports[k].id != id
    ensures r.Some? ==> r.value < |reports| && reports[r.value].id == id &&
                        forall k :: 0 <= k < r.value ==> reports[k].id != id
  {
    FindFirst(reports, (x: Report) => x.id == id)
  }

  /** The local update of `toggleReportStatus`: the status flips, and the
      completion time is set on completing and cleared on reopening. */
  function Toggled(r: Report, now: int): (t: Report)
    ensures t.id == r.id && t.completed == !r.completed
    ensures t.completedAt.Some? <==> t.completed
    ensures t.completedAt.Some? ==> t.completedAt.value == now
  {
    r.(completed := !r.completed, completedAt := if !r.completed then Some(now) else None)
  }

  /** Toggling twice restores the status; the completion time is then the
      second toggle's, or none. */
  lemma ToggleTwice(r: Report, now1: int, now2: int)
    ensures Toggled(Toggled(r, now1), now2).completed == r.completed
    ensures r.completedAt.Some? == r.completed ==>
              (Toggled(Toggled(r, now1), now2) == r <==> r.completedAt == (if r.completed then Some(now2) else None))
  {
  }

  /** `allReports.filter(r => !r.completed)`. */
  function ActiveReports(reports: seq<Report>): (r: seq<Report>)
    ensures forall x :: x in r <==> x in reports && !x.completed
  {
    Filter(reports, (x: Report) => !x.completed)
  }

  /** `allReports.filter(r => r.completed)`. */
  function CompletedReports(reports: seq<Report>): (r: seq<Report>)
    ensures forall x :: x in r <==> x in reports && x.completed
  {
    Filter(reports, (x: Report) => x.completed)
  }

  /** The two lists partition the reports: every report is in exactly one
      of them, as often as it is in the whole list. */
  lemma ReportsPartition(reports: seq<Report>)
    ensures multiset(ActiveReports(reports)) + multiset(CompletedReports(reports)) == multiset(reports)
    ensures |ActiveReports(reports)| + |CompletedReports(reports)| == |reports|
  {
    forall x ensures (multiset(ActiveReports(reports)) + multiset(CompletedReports(reports)))[x] == multiset(reports)[x] {
      FilterMultiset(reports, (y: Report) => !y.completed, x);
      FilterMultiset(reports, (y: Report) => y.completed, x);
    }
    assert multiset(ActiveReports(reports)) + multiset(CompletedReports(reports)) == multiset(reports);
    assert |multiset(ActiveReports(reports))| == |ActiveReports(reports)|;
  }

  /** The portal's state: the published version record and the reports. */
  class Portal {
    var version: string
    var versionMessage: string
    var versionDevName: string
    var versionBugFixes: seq<string>
    var versionFeatures: seq<string>
    var allReports: seq<Report>

    /** The page after loading: the stored version record when there is
        one, otherwise the default record "1.0.0" with nothing listed (the
        source also writes that default to the store). */
    constructor(stored: Option<Release>, reports: seq<Report>)
      ensures stored.Some? ==> Record() == stored.value
      ensures stored.None? ==> Record() == Release("1.0.0", "", "", [], [])
      ensures allReports == reports
    {
      var r := if stored.Some? then stored.value else Release("1.0.0", "", "", [], []);
      version, versionMessage, versionDevName := r.version, r.message, r.devName;
      versionBugFixes, versionFeatures := r.bugFixes, r.features;
      allReports := reports;
    }

    /** `publishVersion`: the dialog is read into a release, which is then
        published. */
    method PublishVersion(heading: string, message: string, devName: string,
                          bugFixInputs: seq<string>, featureInputs: seq<string>, storeOk: bool)
      returns (outcome: PublishOutcome)
      modifies this
      ensures var d := Draft(heading, message, devName, bugFixInputs, featureInputs);
              outcome == PublishCheck(d, storeOk) &&
              (outcome == Published ==> Record() == d) &&
              (outcome != Published ==> Record() == old(Record()))
      ensures allReports == old(allReports)
    {
      var d := Draft(heading, message, devName, bugFixInputs, featureInputs);
      outcome := Publish(d, storeOk);
    }

    /** The published version record. */
    function Record(): Release
      reads this
    {
      Release(version, versionMessage, versionDevName, versionBugFixes, versionFeatures)
    }

    /** The checks and the update of `publishVersion` on a collected
        release: a blank message or a release with neither bug fixes nor
        features is refused; otherwise the release is written to the store
        and, when that succeeds, becomes the local version record. */
    method Publish(d: Release, storeOk: bool) returns (outcome: PublishOutcome)
      modifies this
      ensures outcome == PublishCheck(d, storeOk)
      ensures outcome == Published ==> Record() == d
      ensures outcome != Published ==> Record() == old(Record())
      ensures allReports == old(allReports)
    {
      if d.message == "" {
        return MissingMessage;
      }
      if d.bugFixes == [] && d.features == [] {
        return NothingListed;
      }
      if !storeOk {
        return PublishFailed;
      }
      version, versionMessage, versionDevName := d.version, d.message, d.devName;
      versionBugFixes, versionFeatures := d.bugFixes, d.features;
      outcome := Published;
    }

    /** `toggleReportStatus`: an unknown ID does nothing; otherwise the
        store is updated and, when that succeeds, the first report with the
        ID is toggled locally. */
    method ToggleReportStatus(reportId: string, now: int, storeOk: bool) returns (toggled: bool)
      modifies this
      ensures toggled <==> FindReport(old(allReports), reportId).Some? && storeOk
      ensures toggled ==>
                var i := FindReport(old(allReports), reportId).value;
                allReports == old(allReports)[i := Toggled(old(allReports)[i], now)]
      ensures !toggled ==> allReports == old(allReports)
      ensures version == old(version) && versionMessage == old(versionMessage) &&
              versionDevName == old(versionDevName) && versionBugFixes == old(versionBugFixes) &&
              versionFeatures == old(versionFeatures)
    {
      var found := FindReport(allReports, reportId);
      if found.None? || !storeOk {
        return false;
      }
      var i := found.value;
      allReports := allReports[i := Toggled(allReports[i], now)];
      toggled := true;
    }
  }

  /** A toggle moves the report from one list to the other and leaves the
      rest of both lists as they were. */
  lemma ToggleMovesReport(reports: seq<Report>, i: nat, now: int)
    requires i < |reports|
    ensures var after := reports[i := Toggled(reports[i], now)];
            |ActiveReports(after)| == |ActiveReports(reports)| + (if reports[i].completed then 1 else -1) &&
            |CompletedReports(after)| == |CompletedReports(reports)| + (if reports[i].completed then -1 else 1)
  {
    var after := reports[i := Toggled(reports[i], now)];
    assert reports == reports[..i] + [reports[i]] + reports[i + 1..];
    assert after == reports[..i] + [Toggled(reports[i], now)] + reports[i + 1..];
    FilterAppend(reports[..i] + [reports[i]], reports[i + 1..], (x: Report) => !x.completed);
    FilterAppend(reports[..i], [reports[i]], (x: Report) => !x.completed);
    FilterAppend(reports[..i] + [Toggled(reports[i], now)], reports[i + 1..], (x: Report) => !x.completed);
    FilterAppend(reports[..i], [Toggled(reports[i], now)], (x: Report) => !x.completed);
    ReportsPartition(reports);
    ReportsPartition(after);
  }
}
