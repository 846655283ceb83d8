/** The pure part of imgui_te_exporters.cpp: the folds and selections the
    result exporters compute over the list of tests before they write
    anything — log-line presence, the pass/fail summary, the per-group
    statistics, the JUnit status names and failure message, and the
    markdown gate and row filter. */
module TeExporters {
  import opened Wrappers
  import opened Arith
  import opened TeEngine

  // ---------------------------------------------------------------------
  // Test records
  // ---------------------------------------------------------------------

  /** A test's duration above this many microseconds (5 seconds) makes it
      slow (SLOW_TEST_SECONDS). */
  const SLOW_TEST_MICROS: int := 5_000_000

  /** ImU64 arithmetic wraps modulo 2^64. */
  const U64_MOD: int := 0x1_0000_0000_0000_0000

  /** What the exporters read of an ImGuiTest: its name and category, its
      group and status, its log, and its start and end times in
      microseconds. */
  datatype TestRecord = TestRecord(
    name: string,
    category: string,
    group: Group,
    status: Status,
    log: TestLog,
    startTime: int,
    endTime: int)

  /** The two verbosity settings of ImGuiTestEngineIO the exporters use. */
  datatype IoConfig = IoConfig(verboseLevel: VerboseLevel, verboseLevelOnError: VerboseLevel)

  predicate IsU64(x: int) {
    0 <= x < U64_MOD
  }

  /** EndTime - StartTime as ImU64: the difference when the clock did not
      run backwards, and the wrapped difference otherwise. */
  function Duration(t: TestRecord): (d: int)
    ensures IsU64(d)
    ensures IsU64(t.startTime) && IsU64(t.endTime) ==>
      d == if t.startTime <= t.endTime then t.endTime - t.startTime
           else t.endTime - t.startTime + U64_MOD
  {
    U64Difference(t.endTime, t.startTime);
    (t.endTime - t.startTime) % U64_MOD
  }

  lemma U64Difference(a: int, b: int)
    ensures IsU64(a) && IsU64(b) ==>
      (a - b) % U64_MOD == if b <= a then a - b else a - b + U64_MOD
  {
    if IsU64(a) && IsU64(b) {
      if b <= a {
        DivModUnique(a - b, U64_MOD, 0, a - b);
      } else {
        DivModUnique(a - b, U64_MOD, -1, a - b + U64_MOD);
      }
    }
  }

  /** `(double)duration / 1000000.0 > SLOW_TEST_SECONDS`: the conversion
      and division are monotone and 5.0 * 10^6 is exact, so on integer
      microseconds this is a strict comparison with 5,000,000. */
  predicate IsSlow(t: TestRecord) {
    Duration(t) > SLOW_TEST_MICROS
  }

  // ---------------------------------------------------------------------
  // ImGuiTestEngine_HasAnyLogLines
  // ---------------------------------------------------------------------

  /** The scan over the line index, stopping at the first line whose level
      is at most `level`. */
  function AnyLineAtMost(lines: seq<LogLineInfo>, level: VerboseLevel): (r: bool)
    ensures r <==> exists i :: 0 <= i < |lines| && LevelAtMost(lines[i].level, level)
  {
    if |lines| == 0 then false
    else if LevelAtMost(lines[0].level, level) then true
    else
      var rest := AnyLineAtMost(lines[1..], level);
      assert forall i :: 1 <= i < |lines| ==> lines[i] == lines[1..][i - 1];
      rest
  }

  /** HasAnyLogLines(log, level): some line of the log has a level at most
      `level`. */
  function HasAnyLogLines(log: TestLog, level: VerboseLevel): (r: bool)
    ensures r <==> exists i :: 0 <= i < |log.lineInfo| && LevelAtMost(log.lineInfo[i].level, level)
  {
    AnyLineAtMost(log.lineInfo, level)
  }

  /** The loop of the source, returning at the first qualifying line. */
  method HasAnyLogLinesLoop(log: TestLog, level: VerboseLevel) returns (found: bool)
    ensures found <==> exists i :: 0 <= i < |log.lineInfo| && LevelAtMost(log.lineInfo[i].level, level)
  {
    var i := 0;
    while i < |log.lineInfo|
      invariant 0 <= i <= |log.lineInfo|
      invariant forall j :: 0 <= j < i ==> !LevelAtMost(log.lineInfo[j].level, level)
    {
      if LevelAtMost(log.lineInfo[i].level, level) {
        return true;
      }
      i := i + 1;
    }
    return false;
  }

  /** A more talkative level finds every line a quieter one finds. */
  lemma HasAnyLogLinesMonotone(log: TestLog, a: VerboseLevel, b: VerboseLevel)
    requires LevelAtMost(a, b)
    ensures HasAnyLogLines(log, a) ==> HasAnyLogLines(log, b)
  {
    if HasAnyLogLines(log, a) {
      var i :| 0 <= i < |log.lineInfo| && LevelAtMost(log.lineInfo[i].level, a);
      LevelOrderIsTotal(log.lineInfo[i].level, a, b);
    }
  }

  lemma {:induction false} ExtractCountPositive(log: TestLog, n: int, min: VerboseLevel, max: VerboseLevel)
    requires 0 <= n <= |log.lineInfo| && OffsetsInBuffer(log)
    ensures ExtractLines(log, n, min, max).0 > 0
      <==> exists i :: 0 <= i < n && LevelAtMost(min, log.lineInfo[i].level) && LevelAtMost(log.lineInfo[i].level, max)
  {
    if n > 0 {
      ExtractCountPositive(log, n - 1, min, max);
      ExtractStep(log, n, min, max);
    }
  }

  /** The exporters' presence test agrees with the log's own extraction:
      a log has a line at `level` or quieter exactly when extracting the
      range [Silent, level] counts at least one line. */
  lemma HasAnyLogLinesIsExtraction(log: TestLog, level: VerboseLevel)
    requires OffsetsInBuffer(log)
    ensures HasAnyLogLines(log, level)
      <==> ExtractLinesForVerboseLevels(log, Silent, level, None).0 > 0
  {
    ExtractCountPositive(log, |log.lineInfo|, Silent, level);
  }

  // ---------------------------------------------------------------------
  // ImGuiTestEngine_ExportResultSummary
  // ---------------------------------------------------------------------

  /** The counters of the summary loop over the tests of group `g`: those
      with a status other than Unknown, and those that succeeded. */
  function SummaryCounts(tests: seq<TestRecord>, g: Group): (r: (int, int))
    ensures 0 <= r.1 <= r.0 <= |tests|
  {
    if |tests| == 0 then (0, 0)
    else
      var (tested, success) := SummaryCounts(tests[..|tests| - 1], g);
      var t := tests[|tests| - 1];
      if t.group != g then (tested, success)
      else (tested + (if t.status != Status.Unknown then 1 else 0),
            success + (if t.status == Success then 1 else 0))
  }

  /** The names of the tests of group `g` that failed, in order. */
  function ErrorNames(tests: seq<TestRecord>, g: Group): (r: seq<string>)
    ensures |r| <= |tests|
  {
    if |tests| == 0 then []
    else
      var t := tests[|tests| - 1];
      ErrorNames(tests[..|tests| - 1], g) + (if t.group == g && t.status == Status.Error then [t.name] else [])
  }

  /** What the summary states: the two counts, and the list of failing
      tests, which is only written when fewer tests passed than ran. */
  datatype ResultSummary = ResultSummary(tested: int, success: int, failing: Option<seq<string>>)

  /** "Tests Result: OK" rather than "Errors". */
  predicate SummaryOk(r: ResultSummary) {
    r.success == r.tested
  }

  function ExportResultSummary(tests: seq<TestRecord>, g: Group): (r: ResultSummary)
    ensures 0 <= r.success <= r.tested <= |tests|
    ensures r.failing.Some? <==> !SummaryOk(r)
  {
    var (tested, success) := SummaryCounts(tests, g);
    ResultSummary(tested, success, if success < tested then Some(ErrorNames(tests, g)) else None)
  }

  /** The result is OK exactly when every test of the group was either not
      run or succeeded. */
  lemma {:induction false} SummaryOkIff(tests: seq<TestRecord>, g: Group)
    ensures SummaryOk(ExportResultSummary(tests, g))
      <==> forall i :: 0 <= i < |tests| && tests[i].group == g ==>
             tests[i].status == Status.Unknown || tests[i].status == Success
  {
    if |tests| > 0 {
      var front := tests[..|tests| - 1];
      SummaryOkIff(front, g);
      assert forall i :: 0 <= i < |front| ==> front[i] == tests[i];
    }
  }

  lemma {:induction false} ErrorNamesListed(tests: seq<TestRecord>, g: Group, i: int)
    requires 0 <= i < |tests| && tests[i].group == g && tests[i].status == Status.Error
    ensures tests[i].name in ErrorNames(tests, g)
  {
    var front := tests[..|tests| - 1];
    if i < |tests| - 1 {
      assert front[i] == tests[i];
      ErrorNamesListed(front, g, i);
    }
  }

  /** The failing list names exactly the failed tests of the group. */
  lemma {:induction false} ErrorNamesExactly(tests: seq<TestRecord>, g: Group, s: string)
    ensures s in ErrorNames(tests, g)
      <==> exists i :: 0 <= i < |tests| && tests[i].group == g && tests[i].status == Status.Error && tests[i].name == s
  {
    if |tests| > 0 {
      var front := tests[..|tests| - 1];
      ErrorNamesExactly(front, g, s);
      assert forall i :: 0 <= i < |front| ==> front[i] == tests[i];
    }
  }

  /** A failed test of the group makes the result "Errors" and is named in
      the failing list. */
  lemma ErrorTestIsListed(tests: seq<TestRecord>, g: Group, i: int)
    requires 0 <= i < |tests| && tests[i].group == g && tests[i].status == Status.Error
    ensures var r := ExportResultSummary(tests, g);
      !SummaryOk(r) && r.failing.Some? && tests[i].name in r.failing.value
  {
    SummaryOkIff(tests, g);
    ErrorNamesListed(tests, g, i);
  }

  /** The summary's counters are the group's tests that ran and those that
      passed. */
  lemma {:induction false} SummaryCountsAreCounts(tests: seq<TestRecord>, g: Group)
    ensures ExportResultSummary(tests, g).tested == CountIn(tests, g, Ran)
    ensures ExportResultSummary(tests, g).success == CountIn(tests, g, Passed)
  {
    if |tests| > 0 {
      SummaryCountsAreCounts(tests[..|tests| - 1], g);
    }
  }

  /** When the failing list is written, it names exactly the group's
      failed tests. */
  lemma FailingListIsErrors(tests: seq<TestRecord>, g: Group, s: string)
    ensures var r := ExportResultSummary(tests, g);
      r.failing.Some? ==>
        (s in r.failing.value
         <==> exists i :: 0 <= i < |tests| && tests[i].group == g && tests[i].status == Status.Error && tests[i].name == s)
  {
    ErrorNamesExactly(tests, g, s);
  }

  /** A test that is still queued counts as run but not as passed, so the
      summary says "Errors" with an empty failing list. */
  lemma QueuedTestGivesEmptyFailingList()
    ensures var t := TestRecord("t", "c", Tests, Queued, EmptyLog(), 0, 0);
      ExportResultSummary([t], Tests) == ResultSummary(1, 0, Some([]))
  {
    var t := TestRecord("t", "c", Tests, Queued, EmptyLog(), 0, 0);
    assert [t][..0] == [];
  }

  // ---------------------------------------------------------------------
  // ImGuiTestEngine_GetTestSuiteStatistics
  // ---------------------------------------------------------------------

  /** ImGuiTestGroupStatistics; TimeElapsed is an ImU64 in microseconds. */
  datatype GroupStatistics = GroupStatistics(
    name: string,
    tests: int,
    passed: int,
    failures: int,
    disabled: int,
    logOutput: int,
    slowTests: int,
    timeElapsed: int)

  /** The statistics array is indexed by the group, so a test outside the
      two real groups would index out of bounds. */
  predicate KnownGroups(tests: seq<TestRecord>) {
    forall i :: 0 <= i < |tests| ==> tests[i].group != Group.Unknown
  }

  function GroupName(g: Group): string {
    match g
    case Tests => "tests"
    case Perfs => "perfs"
    case Unknown => ""
  }

  /** The index's row for `g` before the loop: its name and zero counts. */
  function EmptyStatistics(g: Group): GroupStatistics {
    GroupStatistics(GroupName(g), 0, 0, 0, 0, 0, 0, 0)
  }

  /** Whether a test's log shows output at the verbosity the exporters use
      for it: the on-error level for a failed test, the normal level for
      every other. */
  predicate LogsOutput(t: TestRecord, cfg: IoConfig) {
    if t.status == Status.Error then HasAnyLogLines(t.log, cfg.verboseLevelOnError)
    else HasAnyLogLines(t.log, cfg.verboseLevel)
  }

  /** One iteration of the loop, applied to the test's own group. */
  function AddTest(s: GroupStatistics, t: TestRecord, cfg: IoConfig): GroupStatistics {
    s.(tests := s.tests + 1,
       timeElapsed := (s.timeElapsed + Duration(t)) % U64_MOD,
       failures := s.failures + (if t.status == Status.Error then 1 else 0),
       logOutput := s.logOutput + (if LogsOutput(t, cfg) then 1 else 0),
       slowTests := s.slowTests + (if IsSlow(t) then 1 else 0),
       passed := s.passed + (if t.status == Success then 1 else 0),
       disabled := s.disabled + (if t.status == Status.Unknown then 1 else 0))
  }

  /** What a statistics counter counts. */
  datatype Criterion = Member | Passed | Failed | Disabled | Ran | HasOutput(cfg: IoConfig) | Slow

  predicate Meets(t: TestRecord, c: Criterion) {
    match c
    case Member => true
    case Passed => t.status == Success
    case Failed => t.status == Status.Error
    case Disabled => t.status == Status.Unknown
    case Ran => t.status != Status.Unknown
    case HasOutput(cfg) => LogsOutput(t, cfg)
    case Slow => IsSlow(t)
  }

  /** The number of tests of group `g` that meet `c`. */
  function CountIn(tests: seq<TestRecord>, g: Group, c: Criterion): (r: nat)
    ensures r <= |tests|
  {
    if |tests| == 0 then 0
    else
      var t := tests[|tests| - 1];
      CountIn(tests[..|tests| - 1], g, c) + (if t.group == g && Meets(t, c) then 1 else 0)
  }

  /** The number of tests of any group that meet `c`. */
  function CountAll(tests: seq<TestRecord>, c: Criterion): (r: nat)
    ensures r <= |tests|
  {
    if |tests| == 0 then 0
    else CountAll(tests[..|tests| - 1], c) + (if Meets(tests[|tests| - 1], c) then 1 else 0)
  }

  /** The total duration of the tests of group `g`, without wrap-around. */
  function TotalDuration(tests: seq<TestRecord>, g: Group): nat {
    if |tests| == 0 then 0
    else
      var t := tests[|tests| - 1];
      TotalDuration(tests[..|tests| - 1], g) + (if t.group == g then Duration(t) else 0)
  }

  /** The statistics of group `g` stated counter by counter: each counts
      the group's tests that meet its criterion, and the elapsed time is
      the group's total duration modulo 2^64. */
  function ExpectedStatistics(tests: seq<TestRecord>, g: Group, cfg: IoConfig): GroupStatistics {
    GroupStatistics(
      GroupName(g),
      CountIn(tests, g, Member),
      CountIn(tests, g, Passed),
      CountIn(tests, g, Failed),
      CountIn(tests, g, Disabled),
      CountIn(tests, g, HasOutput(cfg)),
      CountIn(tests, g, Slow),
      TotalDuration(tests, g) % U64_MOD)
  }

  lemma ExpectedStatisticsOfNone(g: Group, cfg: IoConfig)
    ensures ExpectedStatistics([], g, cfg) == EmptyStatistics(g)
  {
  }

  /** Extending the list by test `i` applies one loop iteration to that
      test's group and leaves the other group alone. */
  lemma ExpectedStatisticsStep(tests: seq<TestRecord>, i: int, g: Group, cfg: IoConfig)
    requires 0 <= i < |tests|
    ensures tests[i].group == g ==>
      ExpectedStatistics(tests[..i + 1], g, cfg) == AddTest(ExpectedStatistics(tests[..i], g, cfg), tests[i], cfg)
    ensures tests[i].group != g ==>
      ExpectedStatistics(tests[..i + 1], g, cfg) == ExpectedStatistics(tests[..i], g, cfg)
  {
    var t := tests[i];
    var before, after := ExpectedStatistics(tests[..i], g, cfg), ExpectedStatistics(tests[..i + 1], g, cfg);
    CountInStep(tests, i, g, Member);
    CountInStep(tests, i, g, Passed);
    CountInStep(tests, i, g, Failed);
    CountInStep(tests, i, g, Disabled);
    CountInStep(tests, i, g, HasOutput(cfg));
    CountInStep(tests, i, g, Slow);
    TotalDurationStep(tests, i, g);
    if t.group == g {
      ModAddMod(TotalDuration(tests[..i], g), Duration(t), U64_MOD);
      var stepped := AddTest(before, t, cfg);
      assert after.tests == stepped.tests && after.passed == stepped.passed;
      assert after.failures == stepped.failures && after.disabled == stepped.disabled;
      assert after.logOutput == stepped.logOutput && after.slowTests == stepped.slowTests;
      assert after.timeElapsed == stepped.timeElapsed;
    }
  }

  lemma CountInStep(tests: seq<TestRecord>, i: int, g: Group, c: Criterion)
    requires 0 <= i < |tests|
    ensures CountIn(tests[..i + 1], g, c)
      == CountIn(tests[..i], g, c) + (if tests[i].group == g && Meets(tests[i], c) then 1 else 0)
  {
    var pre := tests[..i + 1];
    assert pre[..i] == tests[..i] && pre[i] == tests[i];
  }

  lemma TotalDurationStep(tests: seq<TestRecord>, i: int, g: Group)
    requires 0 <= i < |tests|
    ensures TotalDuration(tests[..i + 1], g)
      == TotalDuration(tests[..i], g) + (if tests[i].group == g then Duration(tests[i]) else 0)
  {
    var pre := tests[..i + 1];
    assert pre[..i] == tests[..i] && pre[i] == tests[i];
  }

  /** The loop of GetTestSuiteStatistics: every test adds to its own
      group's row. The result holds, for each group, the statistics stated
      counter by counter. */
  method GetTestSuiteStatistics(tests: seq<TestRecord>, cfg: IoConfig) returns (stats: seq<GroupStatistics>)
    requires KnownGroups(tests)
    ensures |stats| == GROUP_COUNT
    ensures stats[GroupValue(Tests)] == ExpectedStatistics(tests, Tests, cfg)
    ensures stats[GroupValue(Perfs)] == ExpectedStatistics(tests, Perfs, cfg)
  {
    stats := [EmptyStatistics(Tests), EmptyStatistics(Perfs)];
    ExpectedStatisticsOfNone(Tests, cfg);
    ExpectedStatisticsOfNone(Perfs, cfg);
    var i := 0;
    while i < |tests|
      invariant 0 <= i <= |tests| && |stats| == GROUP_COUNT
      invariant stats[0] == ExpectedStatistics(tests[..i], Tests, cfg)
      invariant stats[1] == ExpectedStatistics(tests[..i], Perfs, cfg)
    {
      var t := tests[i];
      var k := GroupValue(t.group);
      stats := stats[k := AddTest(stats[k], t, cfg)];
      ExpectedStatisticsStep(tests, i, Tests, cfg);
      ExpectedStatisticsStep(tests, i, Perfs, cfg);
      i := i + 1;
    }
    assert tests[..i] == tests;
  }

  /** Passed, failed and disabled tests are disjoint, so together they
      are at most the group's tests; so are the tests with log output and
      the slow ones. */
  lemma {:induction false} StatisticsBounds(tests: seq<TestRecord>, g: Group, cfg: IoConfig)
    ensures var s := ExpectedStatistics(tests, g, cfg);
      && s.passed + s.failures + s.disabled <= s.tests
      && s.logOutput <= s.tests && s.slowTests <= s.tests
  {
    if |tests| > 0 {
      StatisticsBounds(tests[..|tests| - 1], g, cfg);
    }
  }

  /** With every test in a real group, the two groups split the tests
      between them. */
  lemma {:induction false} GroupsPartition(tests: seq<TestRecord>, c: Criterion)
    requires KnownGroups(tests)
    ensures CountIn(tests, Tests, c) + CountIn(tests, Perfs, c) == CountAll(tests, c)
  {
    if |tests| > 0 {
      var front := tests[..|tests| - 1];
      assert KnownGroups(front) by {
        forall i | 0 <= i < |front| ensures front[i].group != Group.Unknown {
          assert front[i] == tests[i];
        }
      }
      GroupsPartition(front, c);
    }
  }

  lemma {:induction false} CountInPositive(tests: seq<TestRecord>, g: Group, c: Criterion)
    ensures CountIn(tests, g, c) > 0 <==> exists i :: 0 <= i < |tests| && tests[i].group == g && Meets(tests[i], c)
  {
    if |tests| > 0 {
      var front := tests[..|tests| - 1];
      CountInPositive(front, g, c);
      assert forall i :: 0 <= i < |front| ==> front[i] == tests[i];
    }
  }

  // ---------------------------------------------------------------------
  // JUnit export
  // ---------------------------------------------------------------------

  /** The totals of the <testsuites> tag: the sums of the two groups'
      tests, failures and disabled tests. */
  datatype SuiteTotals = SuiteTotals(tests: int, failures: int, disabled: int)

  function JUnitTotals(stats: seq<GroupStatistics>): SuiteTotals
    requires |stats| == GROUP_COUNT
  {
    SuiteTotals(stats[0].tests + stats[1].tests,
                stats[0].failures + stats[1].failures,
                stats[0].disabled + stats[1].disabled)
  }

  /** The totals count every test once: all of them, the failed ones and
      the ones not run. */
  lemma JUnitTotalsCountEveryTest(tests: seq<TestRecord>, cfg: IoConfig)
    requires KnownGroups(tests)
    ensures var r := JUnitTotals([ExpectedStatistics(tests, Tests, cfg), ExpectedStatistics(tests, Perfs, cfg)]);
      && r.tests == |tests|
      && r.failures == CountAll(tests, Failed)
      && r.disabled == CountAll(tests, Disabled)
  {
    var stats := [ExpectedStatistics(tests, Tests, cfg), ExpectedStatistics(tests, Perfs, cfg)];
    GroupsPartition(tests, Member);
    AllMembers(tests);
    assert JUnitTotals(stats).tests == CountIn(tests, Tests, Member) + CountIn(tests, Perfs, Member);
    GroupsPartition(tests, Failed);
    assert JUnitTotals(stats).failures == CountIn(tests, Tests, Failed) + CountIn(tests, Perfs, Failed);
    GroupsPartition(tests, Disabled);
    assert JUnitTotals(stats).disabled == CountIn(tests, Tests, Disabled) + CountIn(tests, Perfs, Disabled);
  }

  lemma {:induction false} AllMembers(tests: seq<TestRecord>)
    ensures CountAll(tests, Member) == |tests|
  {
    if |tests| > 0 {
      AllMembers(tests[..|tests| - 1]);
    }
  }

  /** teststatus_names, indexed by Status + 1. */
  const STATUS_NAMES: seq<string> := ["skipped", "success", "queued", "running", "error", "suspended"]

  function StatusName(s: Status): (r: string)
    ensures r in STATUS_NAMES
  {
    StatusValueRoundTrip(s);
    STATUS_NAMES[StatusValue(s) + 1]
  }

  /** The status a name in the table stands for. */
  function StatusOfName(name: string): Option<Status> {
    if name == "skipped" then Some(Status.Unknown)
    else if name == "success" then Some(Success)
    else if name == "queued" then Some(Queued)
    else if name == "running" then Some(Running)
    else if name == "error" then Some(Status.Error)
    else if name == "suspended" then Some(Suspended)
    else None
  }

  /** Each status has its own name, which reads back as the status; so
      no two statuses share a name. */
  lemma StatusNameRoundTrip(s: Status)
    ensures StatusOfName(StatusName(s)) == Some(s)
  {
  }

  lemma StatusNamesDistinct(a: Status, b: Status)
    ensures StatusName(a) == StatusName(b) ==> a == b
  {
    StatusNameRoundTrip(a);
    StatusNameRoundTrip(b);
  }

  /** The backward scan for the failure message: from line `i` down to
      line 0, skip lines above the on-error level and stop at the first
      Error line. */
  function FailureLineFrom(lines: seq<LogLineInfo>, i: int, onError: VerboseLevel): (r: Option<int>)
    requires -1 <= i < |lines|
    ensures r.Some? ==> 0 <= r.value <= i
    decreases i + 1
  {
    if i < 0 then None
    else if !LevelAtMost(lines[i].level, onError) then FailureLineFrom(lines, i - 1, onError)
    else if lines[i].level == VerboseLevel.Error then Some(i)
    else FailureLineFrom(lines, i - 1, onError)
  }

  /** The scan starts at the second-to-last line: the last line of a
      failed test is the engine's generic failure notice. */
  function FailureLine(log: TestLog, onError: VerboseLevel): Option<int> {
    FailureLineFrom(log.lineInfo, if |log.lineInfo| >= 1 then |log.lineInfo| - 2 else -1, onError)
  }

  /** The message of the <failure> tag: the text of the chosen line up to
      its newline, or empty when no line was chosen. */
  function FailureMessage(log: TestLog, onError: VerboseLevel): string
    requires OffsetsInBuffer(log)
  {
    match FailureLine(log, onError)
    case None => ""
    case Some(i) => LineText(log.buffer, log.lineInfo[i].lineOffset)
  }

  lemma {:induction false} FailureLineFromIff(lines: seq<LogLineInfo>, i: int, onError: VerboseLevel, k: int)
    requires -1 <= i < |lines|
    ensures FailureLineFrom(lines, i, onError) == Some(k)
      <==> LevelAtMost(VerboseLevel.Error, onError) && 0 <= k <= i && lines[k].level == VerboseLevel.Error
           && forall j :: k < j <= i ==> lines[j].level != VerboseLevel.Error
    decreases i + 1
  {
    if i >= 0 {
      FailureLineFromIff(lines, i - 1, onError, k);
    }
  }

  /** The failure message comes from the last Error line before the final
      line, provided the on-error level shows errors at all. */
  lemma FailureLineIff(log: TestLog, onError: VerboseLevel, k: int)
    ensures var n := |log.lineInfo|;
      FailureLine(log, onError) == Some(k)
      <==> LevelAtMost(VerboseLevel.Error, onError) && 0 <= k < n - 1
           && log.lineInfo[k].level == VerboseLevel.Error
           && forall j :: k < j < n - 1 ==> log.lineInfo[j].level != VerboseLevel.Error
  {
    var n := |log.lineInfo|;
    FailureLineFromIff(log.lineInfo, if n >= 1 then n - 2 else -1, onError, k);
  }

  /** With a Silent on-error level every Error line is skipped, so the
      message is empty. */
  lemma SilentOnErrorGivesNoMessage(log: TestLog)
    requires OffsetsInBuffer(log)
    ensures FailureMessage(log, Silent) == ""
  {
    if FailureLine(log, Silent).Some? {
      FailureLineIff(log, Silent, FailureLine(log, Silent).value);
    }
  }

  /** The parts of a <testcase> element besides its attributes. */
  datatype TestCaseParts = TestCaseParts(
    status: string,
    failure: Option<string>,
    skipped: bool,
    systemOut: bool,
    systemErr: bool)

  function TestCase(t: TestRecord, cfg: IoConfig): (r: TestCaseParts)
    requires OffsetsInBuffer(t.log)
  {
    TestCaseParts(
      StatusName(t.status),
      if t.status == Status.Error then Some(FailureMessage(t.log, cfg.verboseLevelOnError)) else None,
      t.status == Status.Unknown,
      t.status != Status.Unknown && HasAnyLogLines(t.log, cfg.verboseLevel),
      t.status != Status.Unknown && HasAnyLogLines(t.log, VerboseLevel.Error))
  }

  /** A skipped test has neither output section, a failed one always has
      a failure element, and a test is never both skipped and failed. */
  lemma TestCaseShape(t: TestRecord, cfg: IoConfig)
    requires OffsetsInBuffer(t.log)
    ensures var r := TestCase(t, cfg);
      && (r.skipped <==> StatusOfName(r.status) == Some(Status.Unknown))
      && (r.failure.Some? <==> StatusOfName(r.status) == Some(Status.Error))
      && !(r.skipped && r.failure.Some?)
      && (r.skipped ==> !r.systemOut && !r.systemErr)
  {
    StatusNameRoundTrip(t.status);
  }

  /** The per-group output sections are written when the group's disabled
      count is below its test count, which is exactly when some test of
      the group has a status other than Unknown. */
  lemma {:induction false} SuiteOutputGate(tests: seq<TestRecord>, g: Group, cfg: IoConfig)
    ensures var s := ExpectedStatistics(tests, g, cfg);
      s.disabled < s.tests <==> exists i :: 0 <= i < |tests| && tests[i].group == g && tests[i].status != Status.Unknown
  {
    if |tests| > 0 {
      var front := tests[..|tests| - 1];
      SuiteOutputGate(front, g, cfg);
      StatisticsBounds(front, g, cfg);
      assert forall i :: 0 <= i < |front| ==> front[i] == tests[i];
    }
  }

  // ---------------------------------------------------------------------
  // Markdown export
  // ---------------------------------------------------------------------

  /** A group's statistics are worth reporting when it has log output, a
      failure or a slow test. */
  predicate Useful(s: GroupStatistics) {
    s.logOutput > 0 || s.failures > 0 || s.slowTests > 0
  }

  /** The gate of the markdown export over both groups' statistics. */
  predicate HasUsefulInformation(stats: seq<GroupStatistics>)
    requires |stats| == GROUP_COUNT
  {
    Useful(stats[0]) || Useful(stats[1])
  }

  /** What makes a single test worth reporting. */
  predicate UsefulTest(t: TestRecord, cfg: IoConfig) {
    t.status == Status.Error || IsSlow(t) || LogsOutput(t, cfg)
  }

  lemma UsefulInGroup(tests: seq<TestRecord>, g: Group, cfg: IoConfig)
    ensures Useful(ExpectedStatistics(tests, g, cfg))
      <==> exists i :: 0 <= i < |tests| && tests[i].group == g && UsefulTest(tests[i], cfg)
  {
    CountInPositive(tests, g, Failed);
    CountInPositive(tests, g, Slow);
    CountInPositive(tests, g, HasOutput(cfg));
  }

  /** The export goes ahead exactly when some test failed, was slow, or
      logged at its verbosity. */
  lemma UsefulInformationIff(tests: seq<TestRecord>, cfg: IoConfig)
    requires KnownGroups(tests)
    ensures HasUsefulInformation([ExpectedStatistics(tests, Tests, cfg), ExpectedStatistics(tests, Perfs, cfg)])
      <==> exists i :: 0 <= i < |tests| && UsefulTest(tests[i], cfg)
  {
    UsefulInGroup(tests, Tests, cfg);
    UsefulInGroup(tests, Perfs, cfg);
    if exists i :: 0 <= i < |tests| && UsefulTest(tests[i], cfg) {
      var i :| 0 <= i < |tests| && UsefulTest(tests[i], cfg);
      assert tests[i].group == Tests || tests[i].group == Perfs;
    }
  }

  /** The status column: U+2014 for a test that neither failed nor
      succeeded, U+1F534 for a failure, U+26A0 for a success with warnings
      and U+2705 for a clean success. */
  datatype Icon = EmDash | RedCircle | WarningSign | CheckMark

  function CodePoint(i: Icon): int {
    match i
    case EmDash => 0x2014
    case RedCircle => 0x1F534
    case WarningSign => 0x26A0
    case CheckMark => 0x2705
  }

  /** The bytes the source writes for each icon, as values 0..255. */
  function IconBytes(i: Icon): seq<int> {
    match i
    case EmDash => [0xE2, 0x80, 0x94]
    case RedCircle => [0xF0, 0x9F, 0x94, 0xB4]
    case WarningSign => [0xE2, 0x9A, 0xA0]
    case CheckMark => [0xE2, 0x9C, 0x85]
  }

  /** UTF-8 encoding of a code point (section 3 of RFC 3629), as byte
      values. */
  function Utf8Encode(cp: int): (r: seq<int>)
    requires 0 <= cp < 0x110000
    ensures 1 <= |r| <= 4
  {
    if cp < 0x80 then [cp]
    else if cp < 0x800 then [0xC0 + cp / 0x40, 0x80 + cp % 0x40]
    else if cp < 0x10000 then [0xE0 + cp / 0x1000, 0x80 + (cp / 0x40) % 0x40, 0x80 + cp % 0x40]
    else [0xF0 + cp / 0x40000, 0x80 + (cp / 0x1000) % 0x40, 0x80 + (cp / 0x40) % 0x40, 0x80 + cp % 0x40]
  }

  /** The icon bytes are the UTF-8 encodings of their code points. */
  lemma IconBytesAreUtf8(i: Icon)
    ensures IconBytes(i) == Utf8Encode(CodePoint(i))
  {
  }

  function MarkdownStatus(t: TestRecord): (i: Icon)
    ensures i == RedCircle <==> t.status == Status.Error
    ensures i == WarningSign || i == CheckMark <==> t.status == Success
  {
    if t.status == Status.Error then RedCircle
    else if t.status == Success then
      (if HasAnyLogLines(t.log, Warning) then WarningSign else CheckMark)
    else EmDash
  }

  /** The verbosity a row's log lines are printed at. */
  function RowLevel(t: TestRecord, cfg: IoConfig): VerboseLevel {
    if t.status == Status.Error then cfg.verboseLevelOnError else cfg.verboseLevel
  }

  /** The row printed for a test and the statistics agree on which log
      lines count. */
  lemma RowLevelIsLogOutputLevel(t: TestRecord, cfg: IoConfig)
    ensures LogsOutput(t, cfg) <==> HasAnyLogLines(t.log, RowLevel(t, cfg))
  {
  }

  /** In non-verbose mode a test that succeeded or did not run is left
      out when it took under 5 seconds and logged nothing at its
      verbosity. */
  predicate SkipRow(t: TestRecord, cfg: IoConfig, verbose: bool) {
    && !verbose
    && (t.status == Success || t.status == Status.Unknown)
    && Duration(t) < SLOW_TEST_MICROS
    && !HasAnyLogLines(t.log, RowLevel(t, cfg))
  }

  /** A table row: the icon, the group's name, the test's name, its
      duration and the verbosity its log lines are printed at. */
  datatype MarkdownRow = MarkdownRow(icon: Icon, group: string, name: string, duration: int, level: VerboseLevel)

  function Row(t: TestRecord, cfg: IoConfig): MarkdownRow {
    MarkdownRow(MarkdownStatus(t), GroupName(t.group), t.name, Duration(t), RowLevel(t, cfg))
  }

  function MarkdownRows(tests: seq<TestRecord>, cfg: IoConfig, verbose: bool): (r: seq<MarkdownRow>)
    ensures |r| <= |tests|
  {
    if |tests| == 0 then []
    else
      var t := tests[|tests| - 1];
      MarkdownRows(tests[..|tests| - 1], cfg, verbose) + (if SkipRow(t, cfg, verbose) then [] else [Row(t, cfg)])
  }

  /** The markdown export: nothing when there is nothing useful to say,
      else the table's rows. */
  function ExportMarkdown(tests: seq<TestRecord>, cfg: IoConfig, verbose: bool): Option<seq<MarkdownRow>>
    requires KnownGroups(tests)
  {
    var stats := [ExpectedStatistics(tests, Tests, cfg), ExpectedStatistics(tests, Perfs, cfg)];
    if HasUsefulInformation(stats) then Some(MarkdownRows(tests, cfg, verbose)) else None
  }

  /** The rows are exactly the rows of the tests that are not skipped. */
  lemma {:induction false} MarkdownRowsAreKeptTests(tests: seq<TestRecord>, cfg: IoConfig, verbose: bool, r: MarkdownRow)
    ensures r in MarkdownRows(tests, cfg, verbose)
      <==> exists i :: 0 <= i < |tests| && !SkipRow(tests[i], cfg, verbose) && Row(tests[i], cfg) == r
  {
    if |tests| > 0 {
      var front := tests[..|tests| - 1];
      MarkdownRowsAreKeptTests(front, cfg, verbose, r);
      assert forall i :: 0 <= i < |front| ==> front[i] == tests[i];
    }
  }

  /** In verbose mode every test has a row, in order. */
  lemma {:induction false} VerboseKeepsEveryRow(tests: seq<TestRecord>, cfg: IoConfig)
    ensures |MarkdownRows(tests, cfg, true)| == |tests|
    ensures forall i :: 0 <= i < |tests| ==> MarkdownRows(tests, cfg, true)[i] == Row(tests[i], cfg)
  {
    if |tests| > 0 {
      var front := tests[..|tests| - 1];
      VerboseKeepsEveryRow(front, cfg);
      assert forall i :: 0 <= i < |front| ==> front[i] == tests[i];
    }
  }

  /** The gate lets through every row the filter keeps for a test that
      failed, succeeded or did not run, unless the test took exactly 5
      seconds: such a row shows a failure, a slow test or log output, all
      of which the gate counts. */
  lemma GateCoversKeptRows(tests: seq<TestRecord>, cfg: IoConfig, i: int)
    requires KnownGroups(tests) && 0 <= i < |tests|
    requires var t := tests[i];
      t.status == Status.Error || t.status == Success || t.status == Status.Unknown
    requires !SkipRow(tests[i], cfg, false)
    requires Duration(tests[i]) != SLOW_TEST_MICROS
    ensures ExportMarkdown(tests, cfg, false).Some?
  {
    RowLevelIsLogOutputLevel(tests[i], cfg);
    assert UsefulTest(tests[i], cfg);
    UsefulInformationIff(tests, cfg);
  }

  /** The two gaps in that coverage: a clean success that took exactly 5
      seconds is neither slow nor skipped, and a test still queued is never
      skipped; either alone gives a kept row and no export. */
  lemma GateGaps()
    ensures var t := TestRecord("t", "c", Tests, Success, EmptyLog(), 0, SLOW_TEST_MICROS);
      !SkipRow(t, IoConfig(Info, Info), false) && ExportMarkdown([t], IoConfig(Info, Info), false) == None
    ensures var t := TestRecord("t", "c", Tests, Queued, EmptyLog(), 0, 0);
      !SkipRow(t, IoConfig(Info, Info), false) && ExportMarkdown([t], IoConfig(Info, Info), false) == None
  {
    var cfg := IoConfig(Info, Info);
    var slow := TestRecord("t", "c", Tests, Success, EmptyLog(), 0, SLOW_TEST_MICROS);
    var queued := TestRecord("t", "c", Tests, Queued, EmptyLog(), 0, 0);
    U64Difference(SLOW_TEST_MICROS, 0);
    U64Difference(0, 0);
    UsefulInformationIff([slow], cfg);
    UsefulInformationIff([queued], cfg);
  }
}
