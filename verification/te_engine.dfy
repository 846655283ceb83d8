/** The data model of imgui_te_engine.h: the verbose-level, status and
    group enums, the test log and its line index, the item-info record
    with its bitfields, and the per-test user-variables setup. */
module TeEngine {
  import opened Wrappers
  import opened Arith

  // ---------------------------------------------------------------------
  // Enums
  // ---------------------------------------------------------------------

  /** ImGuiTestVerboseLevel, from least to most talkative. */
  datatype VerboseLevel = Silent | Error | Warning | Info | Debug | Trace

  /** The number of verbose levels (ImGuiTestVerboseLevel_COUNT), which is
      the size of the per-level line counters. */
  const VERBOSE_LEVEL_COUNT: int := 6

  /** The enum value of a level. */
  function LevelValue(l: VerboseLevel): int {
    match l
    case Silent => 0
    case Error => 1
    case Warning => 2
    case Info => 3
    case Debug => 4
    case Trace => 5
  }

  /** The level with a given enum value, if any. */
  function LevelFromValue(v: int): (r: Option<VerboseLevel>)
    ensures r.Some? <==> 0 <= v < VERBOSE_LEVEL_COUNT
  {
    if v == 0 then Some(Silent)
    else if v == 1 then Some(VerboseLevel.Error)
    else if v == 2 then Some(Warning)
    else if v == 3 then Some(Info)
    else if v == 4 then Some(Debug)
    else if v == 5 then Some(Trace)
    else None
  }

  /** Every level indexes the per-level counters, and its value names it
      back. */
  lemma LevelValueRoundTrip(l: VerboseLevel)
    ensures 0 <= LevelValue(l) < VERBOSE_LEVEL_COUNT
    ensures LevelFromValue(LevelValue(l)) == Some(l)
  {
  }

  lemma LevelFromValueRoundTrip(v: int)
    requires 0 <= v < VERBOSE_LEVEL_COUNT
    ensures LevelValue(LevelFromValue(v).value) == v
  {
  }

  /** Levels compare as their enum values do, as the source's `<=` on
      the enum does. */
  predicate LevelAtMost(a: VerboseLevel, b: VerboseLevel) {
    LevelValue(a) <= LevelValue(b)
  }

  /** The comparison is a total order. */
  lemma LevelOrderIsTotal(a: VerboseLevel, b: VerboseLevel, c: VerboseLevel)
    ensures LevelAtMost(a, a)
    ensures LevelAtMost(a, b) || LevelAtMost(b, a)
    ensures LevelAtMost(a, b) && LevelAtMost(b, a) ==> a == b
    ensures LevelAtMost(a, b) && LevelAtMost(b, c) ==> LevelAtMost(a, c)
  {
  }

  /** ImGuiTestStatus. */
  datatype Status = Unknown | Success | Queued | Running | Error | Suspended

  /** The enum value of a status; Unknown is -1. */
  function StatusValue(s: Status): int {
    match s
    case Unknown => -1
    case Success => 0
    case Queued => 1
    case Running => 2
    case Error => 3
    case Suspended => 4
  }

  /** The status with a given enum value, if any. */
  function StatusFromValue(v: int): (r: Option<Status>)
    ensures r.Some? <==> -1 <= v <= 4
  {
    if v == -1 then Some(Status.Unknown)
    else if v == 0 then Some(Success)
    else if v == 1 then Some(Queued)
    else if v == 2 then Some(Running)
    else if v == 3 then Some(Status.Error)
    else if v == 4 then Some(Suspended)
    else None
  }

  /** Status + 1 indexes a six-entry table, and the value names the
      status back. */
  lemma StatusValueRoundTrip(s: Status)
    ensures 0 <= StatusValue(s) + 1 < 6
    ensures StatusFromValue(StatusValue(s)) == Some(s)
  {
  }

  /** ImGuiTestGroup. */
  datatype Group = Unknown | Tests | Perfs

  /** The number of real groups (ImGuiTestGroup_COUNT). */
  const GROUP_COUNT: int := 2

  /** The enum value of a group; Unknown is -1. */
  function GroupValue(g: Group): int {
    match g
    case Unknown => -1
    case Tests => 0
    case Perfs => 1
  }

  /** The group with a given enum value, if any. */
  function GroupFromValue(v: int): (r: Option<Group>)
    ensures r.Some? <==> -1 <= v < GROUP_COUNT
  {
    if v == -1 then Some(Group.Unknown)
    else if v == 0 then Some(Tests)
    else if v == 1 then Some(Perfs)
    else None
  }

  /** A known group indexes the per-group statistics array, and the value
      names the group back. */
  lemma GroupValueRoundTrip(g: Group)
    ensures g != Group.Unknown <==> 0 <= GroupValue(g) < GROUP_COUNT
    ensures GroupFromValue(GroupValue(g)) == Some(g)
  {
  }

  // ---------------------------------------------------------------------
  // ImGuiTestLog
  // ---------------------------------------------------------------------

  /** ImGuiTestLogLineInfo: the level of a line and where it starts in the
      log's text buffer. */
  datatype LogLineInfo = LogLineInfo(level: VerboseLevel, lineOffset: int)

  /** ImGuiTestLog: the text, the line index, and one line counter per
      level. */
  datatype TestLog = TestLog(buffer: string, lineInfo: seq<LogLineInfo>, countPerLevel: seq<int>)

  /** IsEmpty(): the text buffer is empty. */
  function IsEmpty(log: TestLog): bool {
    |log.buffer| == 0
  }

  /** A logged line: its level and its text, without the newline. */
  datatype LogEntry = LogEntry(level: VerboseLevel, text: string)

  /** Text that fits on one line. */
  predicate SingleLine(s: string) {
    forall i :: 0 <= i < |s| ==> s[i] != '\n'
  }

  predicate SingleLines(es: seq<LogEntry>) {
    forall i :: 0 <= i < |es| ==> SingleLine(es[i].text)
  }

  /** The log with nothing in it. */
  function EmptyLog(): (log: TestLog)
    ensures IsEmpty(log) && |log.lineInfo| == 0 && |log.countPerLevel| == VERBOSE_LEVEL_COUNT
  {
    TestLog("", [], [0, 0, 0, 0, 0, 0])
  }

  /** Appending one line: its text and a newline go to the end of the
      buffer, its start offset and level to the index, and its level's
      counter goes up by one. */
  function AppendLine(log: TestLog, e: LogEntry): (r: TestLog)
    requires |log.countPerLevel| == VERBOSE_LEVEL_COUNT
    ensures |r.countPerLevel| == VERBOSE_LEVEL_COUNT
    ensures !IsEmpty(r)
  {
    var v := LevelValue(e.level);
    TestLog(log.buffer + e.text + "\n",
            log.lineInfo + [LogLineInfo(e.level, |log.buffer|)],
            log.countPerLevel[v := log.countPerLevel[v] + 1])
  }

  /** The log that results from appending the lines in order. */
  function Render(es: seq<LogEntry>): (r: TestLog)
    ensures |r.countPerLevel| == VERBOSE_LEVEL_COUNT
    ensures |r.lineInfo| == |es|
  {
    if |es| == 0 then EmptyLog() else AppendLine(Render(es[..|es| - 1]), es[|es| - 1])
  }

  /** The lines joined, each followed by a newline. */
  function Concat(es: seq<LogEntry>): string {
    if |es| == 0 then "" else Concat(es[..|es| - 1]) + es[|es| - 1].text + "\n"
  }

  /** A log is empty exactly when no line was appended. */
  lemma RenderIsEmpty(es: seq<LogEntry>)
    ensures IsEmpty(Render(es)) <==> |es| == 0
  {
  }

  lemma {:induction false} ConcatAppend(a: seq<LogEntry>, b: seq<LogEntry>)
    ensures Concat(a + b) == Concat(a) + Concat(b)
    decreases |b|
  {
    if |b| == 0 {
      assert a + b == a;
    } else {
      assert (a + b)[..|a + b| - 1] == a + b[..|b| - 1];
      ConcatAppend(a, b[..|b| - 1]);
    }
  }

  /** The buffer is the lines joined, and each index entry has the line's
      level and starts where the earlier lines end. */
  lemma {:induction false} RenderLayout(es: seq<LogEntry>)
    ensures Render(es).buffer == Concat(es)
    ensures forall i :: 0 <= i < |es| ==>
      Render(es).lineInfo[i] == LogLineInfo(es[i].level, |Concat(es[..i])|)
  {
    RenderBuffer(es);
    forall i | 0 <= i < |es|
      ensures Render(es).lineInfo[i] == LogLineInfo(es[i].level, |Concat(es[..i])|)
    {
      RenderLineInfo(es, i);
    }
  }

  lemma {:induction false} RenderBuffer(es: seq<LogEntry>)
    ensures Render(es).buffer == Concat(es)
  {
    if |es| > 0 {
      RenderBuffer(es[..|es| - 1]);
    }
  }

  lemma {:induction false} RenderLineInfo(es: seq<LogEntry>, i: int)
    requires 0 <= i < |es|
    ensures Render(es).lineInfo[i] == LogLineInfo(es[i].level, |Concat(es[..i])|)
    decreases |es|
  {
    var front := es[..|es| - 1];
    RenderStep(es);
    RenderBuffer(front);
    if i < |es| - 1 {
      RenderLineInfo(front, i);
      assert front[..i] == es[..i];
    } else {
      assert es[..i] == front;
    }
  }

  /** Rendering one more line extends the buffer and the index. */
  lemma RenderStep(es: seq<LogEntry>)
    requires |es| > 0
    ensures var front, last := Render(es[..|es| - 1]), es[|es| - 1];
      && Render(es).buffer == front.buffer + last.text + "\n"
      && Render(es).lineInfo == front.lineInfo + [LogLineInfo(last.level, |front.buffer|)]
  {
  }

  /** The index of the first newline at or after the start of `s`, or
      |s| when there is none (what `strstr(line_start, "\n")` finds). */
  function IndexOfNewline(s: string): (k: nat)
    ensures k <= |s| && (k < |s| ==> s[k] == '\n')
  {
    if |s| == 0 || s[0] == '\n' then 0 else 1 + IndexOfNewline(s[1..])
  }

  lemma {:induction false} NewlineAfterLine(t: string, rest: string)
    requires SingleLine(t)
    ensures IndexOfNewline(t + "\n" + rest) == |t|
    ensures (t + "\n" + rest)[..|t|] == t && (t + "\n" + rest)[..|t| + 1] == t + "\n"
  {
    if |t| > 0 {
      assert (t + "\n" + rest)[1..] == t[1..] + "\n" + rest;
      NewlineAfterLine(t[1..], rest);
    }
  }

  /** The text of the line starting at `offset`, without its newline;
      the rest of the buffer when no newline follows. */
  function LineText(buffer: string, offset: int): (r: string)
    requires 0 <= offset <= |buffer|
    ensures |r| <= |buffer| - offset
  {
    var rest := buffer[offset..];
    rest[..IndexOfNewline(rest)]
  }

  /** The line starting at `offset` with its newline, if it has one. */
  function LineWithNewline(buffer: string, offset: int): (r: string)
    requires 0 <= offset <= |buffer|
  {
    var rest := buffer[offset..];
    var k := IndexOfNewline(rest);
    if k < |rest| then rest[..k + 1] else rest
  }

  lemma ConcatLast(pre: seq<LogEntry>, e: LogEntry)
    ensures Concat(pre + [e]) == Concat(pre) + e.text + "\n"
    ensures Concat(pre + [e]) == Concat(pre) + (e.text + "\n")
  {
    assert (pre + [e])[..|pre|] == pre;
    assert Concat(pre) + e.text + "\n" == Concat(pre) + (e.text + "\n");
  }

  lemma Assoc(a: string, b: string, c: string)
    ensures (a + b) + c == a + (b + c)
  {
  }

  /** The joined text around line `i`. */
  lemma ConcatSplit(es: seq<LogEntry>, i: int)
    requires 0 <= i < |es|
    ensures Concat(es) == Concat(es[..i]) + (es[i].text + "\n" + Concat(es[i + 1..]))
  {
    var pre, front, post := es[..i], es[..i + 1], es[i + 1..];
    ConcatFront(es, i);
    SplitAt(es, i + 1);
    ConcatAppend(front, post);
    Assoc(Concat(pre), es[i].text + "\n", Concat(post));
  }

  lemma ConcatFront(es: seq<LogEntry>, i: int)
    requires 0 <= i < |es|
    ensures Concat(es[..i + 1]) == Concat(es[..i]) + (es[i].text + "\n")
  {
    var front := es[..i + 1];
    assert front[..i] == es[..i] && front[i] == es[i];
    assert Concat(front) == Concat(es[..i]) + es[i].text + "\n";
    Assoc(Concat(es[..i]), es[i].text, "\n");
  }

  lemma SplitAt<T>(s: seq<T>, k: int)
    requires 0 <= k <= |s|
    ensures s == s[..k] + s[k..]
  {
  }

  lemma DropPrefix(a: string, b: string)
    ensures (a + b)[|a|..] == b
  {
  }

  /** Reading line `i` of a rendered log gives back its text. */
  lemma RenderLine(es: seq<LogEntry>, i: int)
    requires SingleLines(es) && 0 <= i < |es|
    ensures var log := Render(es);
      log.lineInfo[i].level == es[i].level
      && 0 <= log.lineInfo[i].lineOffset <= |log.buffer|
      && LineText(log.buffer, log.lineInfo[i].lineOffset) == es[i].text
      && LineWithNewline(log.buffer, log.lineInfo[i].lineOffset) == es[i].text + "\n"
  {
    RenderLayout(es);
    ConcatSplit(es, i);
    var line := es[i].text + "\n" + Concat(es[i + 1..]);
    DropPrefix(Concat(es[..i]), line);
    assert SingleLine(es[i].text);
    NewlineAfterLine(es[i].text, Concat(es[i + 1..]));
  }

  /** The lines of `es` whose level lies in [min, max]. */
  function Selected(es: seq<LogEntry>, min: VerboseLevel, max: VerboseLevel): (r: seq<LogEntry>)
    ensures |r| <= |es|
  {
    if |es| == 0 then []
    else
      var front := Selected(es[..|es| - 1], min, max);
      var e := es[|es| - 1];
      if LevelAtMost(min, e.level) && LevelAtMost(e.level, max) then front + [e] else front
  }

  /** The selection keeps exactly the lines in range, in order. */
  lemma {:induction false} SelectedIsFilter(es: seq<LogEntry>, min: VerboseLevel, max: VerboseLevel, e: LogEntry)
    ensures e in Selected(es, min, max) <==> e in es && LevelAtMost(min, e.level) && LevelAtMost(e.level, max)
  {
    if |es| > 0 {
      SelectedIsFilter(es[..|es| - 1], min, max, e);
      assert es == es[..|es| - 1] + [es[|es| - 1]];
    }
  }

  /** Every line of the index starts inside the buffer. */
  predicate OffsetsInBuffer(log: TestLog) {
    forall i :: 0 <= i < |log.lineInfo| ==> 0 <= log.lineInfo[i].lineOffset <= |log.buffer|
  }

  /** The number of lines at level `l`. */
  function CountOfLevel(es: seq<LogEntry>, l: VerboseLevel): nat {
    if |es| == 0 then 0
    else CountOfLevel(es[..|es| - 1], l) + (if es[|es| - 1].level == l then 1 else 0)
  }

  /** Each per-level counter holds the number of lines logged at its
      level, which is also the number of lines extracted for the range
      [l, l]. */
  lemma {:induction false} RenderCounts(es: seq<LogEntry>, l: VerboseLevel)
    ensures Render(es).countPerLevel[LevelValue(l)] == CountOfLevel(es, l)
    ensures CountOfLevel(es, l) == |Selected(es, l, l)|
  {
    if |es| > 0 {
      var front := es[..|es| - 1];
      RenderCounts(front, l);
      LevelValueRoundTrip(es[|es| - 1].level);
      LevelValueRoundTrip(l);
      assert LevelAtMost(l, es[|es| - 1].level) && LevelAtMost(es[|es| - 1].level, l)
        <==> es[|es| - 1].level == l;
    }
  }

  /** The scan over the line index: the number of lines whose level lies
      in [min, max], and those lines with their newlines, in order. */
  function ExtractLines(log: TestLog, n: int, min: VerboseLevel, max: VerboseLevel): (r: (int, string))
    requires 0 <= n <= |log.lineInfo|
    requires OffsetsInBuffer(log)
    ensures 0 <= r.0 <= n
  {
    if n == 0 then (0, "")
    else
      var (c, t) := ExtractLines(log, n - 1, min, max);
      var line := log.lineInfo[n - 1];
      if LevelAtMost(min, line.level) && LevelAtMost(line.level, max)
      then (c + 1, t + LineWithNewline(log.buffer, line.lineOffset))
      else (c, t)
  }

  /** ExtractLinesForVerboseLevels(level_min, level_max, out_buffer): the
      number of lines with level_min <= level <= level_max, and, when an
      output buffer is given, that buffer with those lines appended. A
      null buffer (None) only counts. */
  function ExtractLinesForVerboseLevels(log: TestLog, min: VerboseLevel, max: VerboseLevel, out: Option<string>)
    : (r: (int, Option<string>))
    requires OffsetsInBuffer(log)
    ensures 0 <= r.0 <= |log.lineInfo|
    ensures r.1.Some? <==> out.Some?
    ensures out.Some? ==> |out.value| <= |r.1.value| && r.1.value[..|out.value|] == out.value
  {
    var (c, t) := ExtractLines(log, |log.lineInfo|, min, max);
    (c, if out.Some? then Some(out.value + t) else None)
  }

  /** Line offsets of a rendered log lie inside its buffer. */
  lemma {:induction false} RenderOffsets(es: seq<LogEntry>)
    ensures OffsetsInBuffer(Render(es))
  {
    if |es| > 0 {
      var front := Render(es[..|es| - 1]);
      RenderOffsets(es[..|es| - 1]);
      RenderStep(es);
      var log := Render(es);
      forall i | 0 <= i < |log.lineInfo|
        ensures 0 <= log.lineInfo[i].lineOffset <= |log.buffer|
      {
        if i < |front.lineInfo| {
          assert log.lineInfo[i] == front.lineInfo[i];
        }
      }
    }
  }

  /** The number of newlines in a text. */
  function Newlines(s: string): nat {
    if |s| == 0 then 0 else Newlines(s[..|s| - 1]) + (if s[|s| - 1] == '\n' then 1 else 0)
  }

  lemma {:induction false} NewlinesAppend(a: string, b: string)
    ensures Newlines(a + b) == Newlines(a) + Newlines(b)
    decreases |b|
  {
    if |b| == 0 {
      assert a + b == a;
    } else {
      assert (a + b)[..|a + b| - 1] == a + b[..|b| - 1];
      NewlinesAppend(a, b[..|b| - 1]);
    }
  }

  lemma {:induction false} NewlinesOfLine(t: string)
    requires SingleLine(t)
    ensures Newlines(t) == 0
  {
    if |t| > 0 {
      NewlinesOfLine(t[..|t| - 1]);
    }
  }

  /** Joined single lines hold one newline per line. */
  lemma {:induction false} NewlinesOfConcat(es: seq<LogEntry>)
    requires SingleLines(es)
    ensures Newlines(Concat(es)) == |es|
  {
    if |es| > 0 {
      var front := es[..|es| - 1];
      var last := es[|es| - 1];
      NewlinesOfConcat(front);
      assert SingleLine(last.text);
      NewlinesAppend(Concat(front) + last.text, "\n");
      NewlinesAppend(Concat(front), last.text);
      NewlinesOfLine(last.text);
    }
  }

  lemma SelectedStep(es: seq<LogEntry>, n: int, min: VerboseLevel, max: VerboseLevel)
    requires 0 < n <= |es|
    ensures var e := es[n - 1];
      Selected(es[..n], min, max)
        == if LevelAtMost(min, e.level) && LevelAtMost(e.level, max)
           then Selected(es[..n - 1], min, max) + [e] else Selected(es[..n - 1], min, max)
  {
    var pre := es[..n];
    assert pre[..|pre| - 1] == es[..n - 1];
    assert pre[|pre| - 1] == es[n - 1];
  }

  lemma ExtractStep(log: TestLog, n: int, min: VerboseLevel, max: VerboseLevel)
    requires 0 < n <= |log.lineInfo| && OffsetsInBuffer(log)
    ensures var line := log.lineInfo[n - 1];
      var inRange := LevelAtMost(min, line.level) && LevelAtMost(line.level, max);
      && ExtractLines(log, n, min, max).0
           == ExtractLines(log, n - 1, min, max).0 + (if inRange then 1 else 0)
      && ExtractLines(log, n, min, max).1
           == ExtractLines(log, n - 1, min, max).1 + (if inRange then LineWithNewline(log.buffer, line.lineOffset) else "")
  {
  }

  /** Line `i` of the index has the level of `e` and reads back as its
      text followed by a newline. */
  predicate LineHolds(log: TestLog, i: int, e: LogEntry)
    requires 0 <= i < |log.lineInfo| && OffsetsInBuffer(log)
  {
    log.lineInfo[i].level == e.level
    && LineWithNewline(log.buffer, log.lineInfo[i].lineOffset) == e.text + "\n"
  }

  /** The scan over the first `n` lines of an index whose lines read back
      as `es` yields the lines of `es[..n]` in range, in order. */
  lemma {:induction false} ExtractOfLines(log: TestLog, es: seq<LogEntry>, n: int, min: VerboseLevel, max: VerboseLevel)
    requires OffsetsInBuffer(log) && 0 <= n <= |es| == |log.lineInfo|
    requires forall i :: 0 <= i < n ==> LineHolds(log, i, es[i])
    ensures ExtractLines(log, n, min, max).0 == |Selected(es[..n], min, max)|
    ensures ExtractLines(log, n, min, max).1 == Concat(Selected(es[..n], min, max))
    decreases n
  {
    if n == 0 {
      assert es[..n] == [];
    } else {
      var e := es[n - 1];
      var sel := Selected(es[..n - 1], min, max);
      var prev := ExtractLines(log, n - 1, min, max);
      ExtractOfLines(log, es, n - 1, min, max);
      assert prev.0 == |sel| && prev.1 == Concat(sel);
      assert LineHolds(log, n - 1, e);
      ExtractStep(log, n, min, max);
      SelectedStep(es, n, min, max);
      if LevelAtMost(min, e.level) && LevelAtMost(e.level, max) {
        ConcatLast(sel, e);
        assert Selected(es[..n], min, max) == sel + [e];
        assert ExtractLines(log, n, min, max).1 == prev.1 + (e.text + "\n");
      } else {
        assert Selected(es[..n], min, max) == sel;
        assert ExtractLines(log, n, min, max).1 == prev.1;
      }
    }
  }

  /** The documented contract on a log of single lines: the count is the
      number of lines whose level lies in [min, max], the appended text is
      exactly those lines in order, and the count equals the number of
      newlines appended. */
  lemma ExtractOfRender(es: seq<LogEntry>, min: VerboseLevel, max: VerboseLevel, out: Option<string>)
    requires SingleLines(es)
    ensures OffsetsInBuffer(Render(es))
    ensures var r := ExtractLinesForVerboseLevels(Render(es), min, max, out);
      && r.0 == |Selected(es, min, max)|
      && (out.Some? ==> r.1 == Some(out.value + Concat(Selected(es, min, max))))
      && r.0 == Newlines(Concat(Selected(es, min, max)))
  {
    RenderOffsets(es);
    var log := Render(es);
    forall i | 0 <= i < |es| ensures LineHolds(log, i, es[i]) {
      RenderLine(es, i);
    }
    ExtractOfLines(log, es, |es|, min, max);
    assert es[..|es|] == es;
    var sel := Selected(es, min, max);
    assert SingleLines(sel) by {
      forall i | 0 <= i < |sel| ensures SingleLine(sel[i].text) {
        SelectedIsFilter(es, min, max, sel[i]);
      }
    }
    NewlinesOfConcat(sel);
  }

  // ---------------------------------------------------------------------
  // ImGuiTestItemInfo
  // ---------------------------------------------------------------------

  /** ImGuiTestItemInfo without its window pointer, rectangles and debug
      label: the three bitfields and the plain fields. */
  datatype ItemInfo = ItemInfo(
    refCount: int,        // int RefCount : 8
    navLayer: int,        // unsigned int NavLayer : 1
    depth: int,           // int Depth : 16
    timestampMain: int,
    timestampStatus: int,
    id: bv32,
    parentId: bv32,
    statusFlags: int)

  const REF_COUNT_BITS: nat := 8
  const NAV_LAYER_BITS: nat := 1
  const DEPTH_BITS: nat := 16

  /** Every bitfield holds a value of its width. */
  predicate BitfieldsFit(info: ItemInfo) {
    && -Pow2(REF_COUNT_BITS - 1) <= info.refCount < Pow2(REF_COUNT_BITS - 1)
    && 0 <= info.navLayer < Pow2(NAV_LAYER_BITS)
    && -Pow2(DEPTH_BITS - 1) <= info.depth < Pow2(DEPTH_BITS - 1)
  }

  /** The constructor and the member initialisers. */
  function NewItemInfo(): (info: ItemInfo)
    ensures BitfieldsFit(info)
    ensures info.refCount == 0 && info.navLayer == 0 && info.depth == 0
    ensures info.timestampMain == -1 && info.timestampStatus == -1
    ensures info.id == 0 && info.parentId == 0 && info.statusFlags == 0
  {
    ItemInfo(0, 0, 0, -1, -1, 0, 0, 0)
  }

  /** Assigning the three bitfields, as C++ stores into them. */
  function SetBitfields(info: ItemInfo, refCount: int, navLayer: int, depth: int): (r: ItemInfo)
    ensures BitfieldsFit(r)
    ensures (r.refCount - refCount) % Pow2(REF_COUNT_BITS) == 0
    ensures (r.navLayer - navLayer) % Pow2(NAV_LAYER_BITS) == 0
    ensures (r.depth - depth) % Pow2(DEPTH_BITS) == 0
    ensures r.timestampMain == info.timestampMain && r.timestampStatus == info.timestampStatus
    ensures r.id == info.id && r.parentId == info.parentId && r.statusFlags == info.statusFlags
  {
    info.(refCount := WrapSigned(refCount, REF_COUNT_BITS),
          navLayer := WrapUnsigned(navLayer, NAV_LAYER_BITS),
          depth := WrapSigned(depth, DEPTH_BITS))
  }

  /** A user incrementing RefCount past 127 sees it wrap to -128. */
  lemma RefCountWraps()
    ensures SetBitfields(NewItemInfo(), 127 + 1, 0, 0).refCount == -128
  {
    assert Pow2(REF_COUNT_BITS) == 256 && Pow2(REF_COUNT_BITS - 1) == 128;
  }

  /** Values of the bitfields' widths are stored unchanged. */
  lemma SetBitfieldsKeepsFittingValues(info: ItemInfo, refCount: int, navLayer: int, depth: int)
    requires BitfieldsFit(ItemInfo(refCount, navLayer, depth, 0, 0, 0, 0, 0))
    ensures var r := SetBitfields(info, refCount, navLayer, depth);
      r.refCount == refCount && r.navLayer == navLayer && r.depth == depth
  {
    WrapKeepsFittingValues(refCount, REF_COUNT_BITS);
    WrapKeepsFittingValues(navLayer, NAV_LAYER_BITS);
    WrapKeepsFittingValues(depth, DEPTH_BITS);
  }

  // ---------------------------------------------------------------------
  // ImGuiTest::SetVarsDataType
  // ---------------------------------------------------------------------

  /** The type `T` of the user variables, by identity and sizeof. */
  datatype VarsType = VarsType(name: string, size: nat)

  /** The function pointers the test stores: the per-type thunks the
      template instantiates, and the user's post-initialisation function
      (by identity). */
  datatype VarsFn = Construct(t: VarsType) | Destroy(t: VarsType) | PostConstruct(t: VarsType) | UserFn(id: int)

  /** The user-variables fields of ImGuiTest; None is NULL. */
  datatype VarsSetup = VarsSetup(
    varsSize: nat,
    varsConstructor: Option<VarsFn>,
    varsPostConstructor: Option<VarsFn>,
    varsPostConstructorUserFn: Option<VarsFn>,
    varsDestructor: Option<VarsFn>)

  /** The fields of a fresh ImGuiTest. */
  const NO_VARS: VarsSetup := VarsSetup(0, None, None, None, None)

  /** SetVarsDataType<T>(post_initialize): records sizeof(T) and T's
      constructor and destructor thunks; the post-constructor and the user
      function are installed only when `post_initialize` is not NULL. */
  function SetVarsDataType(v: VarsSetup, t: VarsType, postInitialize: Option<int>): (r: VarsSetup)
    ensures r.varsSize == t.size
    ensures r.varsConstructor == Some(Construct(t)) && r.varsDestructor == Some(Destroy(t))
    ensures postInitialize.Some? ==>
      r.varsPostConstructor == Some(PostConstruct(t)) && r.varsPostConstructorUserFn == Some(UserFn(postInitialize.value))
    ensures postInitialize.None? ==>
      r.varsPostConstructor == v.varsPostConstructor && r.varsPostConstructorUserFn == v.varsPostConstructorUserFn
  {
    var r := v.(varsSize := t.size, varsConstructor := Some(Construct(t)), varsDestructor := Some(Destroy(t)));
    if postInitialize.Some? then
      r.(varsPostConstructor := Some(PostConstruct(t)), varsPostConstructorUserFn := Some(UserFn(postInitialize.value)))
    else r
  }

  /** Setting the same type twice is setting it once. */
  lemma SetVarsDataTypeIdempotent(v: VarsSetup, t: VarsType, post: Option<int>)
    ensures SetVarsDataType(SetVarsDataType(v, t, post), t, post) == SetVarsDataType(v, t, post)
  {
  }

  /** On a fresh test without post_initialize, no post-constructor is
      installed. */
  lemma NoPostConstructorByDefault(t: VarsType)
    ensures SetVarsDataType(NO_VARS, t, None).varsPostConstructor.None?
    ensures SetVarsDataType(NO_VARS, t, None).varsPostConstructorUserFn.None?
  {
  }

  /** Re-typing without post_initialize keeps the post-constructor of the
      earlier type: the stored thunk still casts to that earlier type. */
  lemma RetypeKeepsEarlierPostConstructor(t1: VarsType, t2: VarsType, f: int)
    ensures var v := SetVarsDataType(SetVarsDataType(NO_VARS, t1, Some(f)), t2, None);
      v.varsConstructor == Some(Construct(t2)) && v.varsPostConstructor == Some(PostConstruct(t1))
  {
  }
}
