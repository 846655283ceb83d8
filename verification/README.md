# Dear ImGui Test Engine: a verified model of its self-contained core

This project models the parts of Dear ImGui Test Engine that compute
something without driving a live Dear ImGui context. It proves properties
of each part in Dafny.

- **Decorated path hashing** (`ImHashDecoratedPath`). This is a byte-wise
  CRC-32 with the reflected polynomial `0xEDB88320`, started from `~seed`
  and complemented at the end. Three rules sit on top of it:
  - an unescaped `/` is skipped;
  - a backslash makes the next byte hash literally;
  - `###` resets the running value to `~seed` before its first `#` is
    hashed.
- **String helpers** of `imgui_te_util.cpp`:
  - the path separator fix-up;
  - the key-modifier prefix string;
  - the command-line splitter.
- **Inline helpers of `imgui_te_utils.h`**:
  - the `ImMovingAverage` ring buffer, modelled over unbounded integers
    (see "Left out");
  - the cell indexing of the CSV parser.
- **The test data model of `imgui_te_engine.h`**:
  - the verbose-level, status and group enums;
  - the test log, with its line index, per-level counters and the
    documented contract of `ExtractLinesForVerboseLevels`;
  - the defaults and bitfields of `ImGuiTestItemInfo`;
  - `ImGuiTest::SetVarsDataType`.
- **The pure part of the result exporters** (`imgui_te_exporters.cpp`).
  These are everything the exporters compute before they write a byte:
  - log-line presence;
  - the pass/fail summary;
  - the per-group statistics and the JUnit totals;
  - the JUnit status names and failure message;
  - the markdown gate, status icon and row filter.
- **Two helpers of the widget tests** (`imgui_tests_widgets.cpp`):
  - the per-type slider ranges;
  - the `ExampleSelection` set, whose cached size must equal the number
    of selected items.

Modules follow the source files:
- `PathHash` and `TeUtil` model `imgui_te_util.cpp`;
- `TeUtils` models `imgui_te_utils.h`;
- `TeEngine` models `imgui_te_engine.h`;
- `TeExporters` models `imgui_te_exporters.cpp`;
- `WidgetsTests` models `imgui_tests_widgets.cpp`;
- `Arith` holds the integer facts they share: C++ truncating division and
  two's complement wrap-around;
- `Wrappers` holds `Option`.

Integers are unbounded except where the source's width matters:
- the CRC is a `bv32`;
- `ImU64` durations wrap modulo 2^64;
- the `ImGuiTestItemInfo` bitfields wrap to their 8, 1 and 16 bits.

A test record carries what the exporters read of an `ImGuiTest`:
- name and category;
- group and status;
- log;
- start and end time in microseconds.

The verbosity settings of `ImGuiTestEngineIO` are a parameter.

## Model

| member | source | states |
|---|---|---|
| PathHash.BuildCrc32Table | imgui_te_util.cpp:17-28 | The lookup table has 256 entries; entry i is i put through 8 shift/xor rounds with 0xEDB88320; entry 0 is 0 and entry 1 is non-zero, so the `!crc32_lut[1]` guard recognises a built table |
| PathHash.TableEntryOne | imgui_te_util.cpp:18-26 | The table entries for 0 and 1 are 0 and 0x77073096, the standard CRC-32 table values |
| PathHash.Crc32CheckValue | imgui_te_util.cpp:34-35 | With seed 0 the plain CRC-32 of "123456789" is 0xCBF43926, the check value of the CRC-32 in section 8 of RFC 1952 |
| PathHash.HashByte | imgui_te_util.cpp:42-60 | One round of the hashing loop: the escape, slash and reset rules and the table lookup, equal to one step of the reference definition |
| PathHash.HashLoop | imgui_te_util.cpp:35-61 | The loop over the zero-terminated string computes the reference hash state, starting from `~seed` with no pending escape |
| PathHash.ImHashDecoratedPath | imgui_te_util.cpp:15-63 | The whole function equals the reference definition HashDecoratedPath |
| PathHash.HashUnderSeed | imgui_te_util.cpp:30-35 | When the seed is not overridden, the result is the hash run started from `~seed` |
| PathHash.SameEffectiveSeed | imgui_te_util.cpp:30-32 | The result depends on the seed only through the effective seed, which is 0 for a path starting with `/` |
| PathHash.SameRunSameHash | imgui_te_util.cpp:34-62 | Two strings whose hash runs from the same initial value end alike hash alike |
| PathHash.HashFromWithoutEscapes | imgui_te_util.cpp:40-61 | Without `\` or `#` in the input, the loop computes the raw CRC of the input with every `/` removed |
| PathHash.SlashesAreTransparent | imgui_te_util.cpp:10-12 | Without `\` or `#` in the input, the hash is the CRC-32 of the input with its slashes removed, so "Hello/world" hashes like "Helloworld" |
| PathHash.UndecoratedPathIsCrc32 | imgui_te_util.cpp:17-35 | With no `/`, `\` or `#` in the input, the result is the standard reflected CRC-32 of the input under the seed |
| PathHash.RootAnchorIgnoresSeed | imgui_te_util.cpp:30-32 | A path starting with `/` hashes the same under every seed as under seed 0 |
| PathHash.HashFromEscaped | imgui_te_util.cpp:42-46 | Once every `/`, `\` and `#` is escaped with a backslash, the loop computes the raw CRC of the unescaped bytes |
| PathHash.EscapedPathHashesLiterally | imgui_te_util.cpp:13 | Any byte string hashes, once escaped, exactly like its plain CRC-32, so "Hello\\/world" hashes like "Hello/world" |
| PathHash.ResetFrom | imgui_te_util.cpp:55-57 | At a `###`, whatever came before is forgotten: the state continues as if the hash had started at that `#` |
| PathHash.HashOfReset | imgui_te_util.cpp:55-57 | A string ending in a `###` suffix hashes like the suffix alone (when the effective seeds agree) |
| PathHash.ResetDiscardsPrefix | imgui_te_util.cpp:55-57 | `x + "###" + y` hashes like `"###" + y`: everything before the `###` is irrelevant and the three `#` are still hashed; a preceding backslash does not prevent the reset |
| PathHash.HashFromAppend | imgui_te_util.cpp:40-61 | Appending a non-`#` byte advances the finished state by exactly one loop round |
| PathHash.TrailingBackslashIgnored | imgui_te_util.cpp:42-46 | A trailing lone backslash contributes nothing to the hash |
| TeUtil.FixSeparators | imgui_te_util.cpp:73-84 | The rewrite keeps the length, turns each foreign separator into the native one and keeps every other character |
| TeUtil.FixSeparatorsInPlace | imgui_te_util.cpp:73-84 | The in-place loop over the buffer computes FixSeparators |
| TeUtil.FixSeparatorsRemovesForeign | imgui_te_util.cpp:73-84 | After the rewrite no foreign separator is left; every other character is unchanged and each foreign one became the native one |
| TeUtil.FixSeparatorsIdempotent | imgui_te_util.cpp:73-84 | Fixing twice is fixing once |
| TeUtil.GetImGuiKeyModsPrefixStr | imgui_te_util.cpp:206-218 | The output is the prefix cut to fit the buffer: a prefix of the full string, the whole string when it is shorter than the buffer, and exactly bufSize - 1 characters otherwise |
| TeUtil.ModsPrefixRoundTrip | imgui_te_util.cpp:206-218 | The prefix determines the four modifier bits: reading Ctrl+, Alt+, Shift+, Super+ back in that order gives the flags masked to the four bits |
| TeUtil.ModsPrefixEmpty | imgui_te_util.cpp:208-217 | The prefix is empty exactly when none of the four modifier bits is set, flags 0 included |
| TeUtil.ParseModTokens | imgui_te_util.cpp:212-217 | The token string, one token per set bit in the fixed order, reads back to the flags masked to the four bits |
| TeUtil.IndexOfSpaceIsFirst | imgui_te_util.cpp:98 | The strchr model returns the first space: no space comes before it |
| TeUtil.DropSpacesIsSuffix | imgui_te_util.cpp:96-97 | Skipping leading spaces leaves a suffix that starts with a non-space, and everything dropped was a space |
| TeUtil.ParseSplitCommandLine | imgui_te_util.cpp:86-132 | argc is 1 plus the number of tokens counted by the first pass; argv has argc + 1 entries, starts with "main.exe" and ends with NULL |
| TeUtil.SkipSpaces | imgui_te_util.cpp:96-97 | The skipping loop stops at the first non-space of the rest |
| TeUtil.CountStep | imgui_te_util.cpp:92-104 | One round of the first pass moves forward and counts one token |
| TeUtil.CountLoop | imgui_te_util.cpp:90-105 | The first pass returns 1 plus the token count |
| TeUtil.FillStep | imgui_te_util.cpp:119-126 | One round of the second pass cuts one token at the next space without skipping spaces |
| TeUtil.FillLoop | imgui_te_util.cpp:116-127 | The second pass cuts exactly the requested number of tokens |
| TeUtil.SplitCommandLine | imgui_te_util.cpp:86-132 | Both passes together compute ParseSplitCommandLine |
| TeUtil.CountJoined | imgui_te_util.cpp:90-105 | The first pass counts n tokens in n non-empty words joined by single spaces |
| TeUtil.FillJoined | imgui_te_util.cpp:112-128 | The second pass cuts the words back out of their single-space join |
| TeUtil.SplitJoinedWords | imgui_te_util.cpp:86-132 | For single-space-separated words, argc is the word count plus one and argv[1..] are exactly those words |
| TeUtil.LeadingSpaceCount | imgui_te_util.cpp:96-97 | The first pass skips a leading space and counts every word |
| TeUtil.LeadingSpaceFill | imgui_te_util.cpp:119-126 | The second pass cuts an empty token at a leading space and so drops the last word |
| TeUtil.LeadingSpaceShiftsWords | imgui_te_util.cpp:90-128 | As written, a leading space gives argv = "main.exe", "", then all words but the last |
| TeUtil.LeadingSpaceLosesWord | imgui_te_util.cpp:90-128 | As written, " a b" yields argv = {"main.exe", "", "a", NULL}: "b" is lost |
| TeUtil.ParseSplitCommandLineFixed | imgui_te_util.cpp:86-132 | With both passes skipping leading spaces, the argc/argv shape is the same as in ParseSplitCommandLine |
| TeUtil.FillSkippingMatchesCount | imgui_te_util.cpp:90-128 | With the fix, the second pass cuts exactly the tokens the first pass counts |
| TeUtil.FixedFillsCountedTokens | imgui_te_util.cpp:90-128 | With the fix, argv[1..argc] are exactly the tokens the first pass counts |
| TeUtil.FixedIgnoresLeadingSpaces | imgui_te_util.cpp:96-97 | With the fix, any number of leading spaces changes nothing |
| TeUtil.FixedSplitsJoinedWords | imgui_te_util.cpp:86-132 | With the fix, single-space-separated words still come back unchanged |
| TeUtil.FixedLeadingSpace | imgui_te_util.cpp:90-128 | With the fix, a leading space keeps every word in place |
| TeUtil.FixedKeepsEveryWord | imgui_te_util.cpp:90-128 | With the fix, " a b" yields argv = {"main.exe", "a", "b", NULL} |
| TeUtil.InnerSpacesLoseWord | imgui_te_util.cpp:90-128 | As written, "a  b" (two spaces) yields argc = 3 and argv = {"main.exe", "a", "", NULL}: "b" is lost |
| TeUtil.FixedInnerSpaces | imgui_te_util.cpp:90-128 | With the fix, "a  b" yields argc = 3 and argv = {"main.exe", "a", "b", NULL} |
| TeUtils.Init | imgui_test_engine/imgui_te_utils.h:156 | Init(count) gives a valid buffer of count zero samples with accumulator, index and fill count all 0 |
| TeUtils.NewMovingAverage | imgui_test_engine/imgui_te_utils.h:155 | The default constructor gives a valid empty buffer |
| TeUtils.AddSample | imgui_test_engine/imgui_te_utils.h:157 | AddSample keeps the invariant (accumulator = sum of samples, index inside the window, fill count bounded). It writes v at the old index and changes no other slot. The index advances by one and wraps to 0; the fill count grows by one until it reaches the window size |
| TeUtils.GetAverage | imgui_test_engine/imgui_te_utils.h:158 | The average is the accumulator divided by the fill count, truncated toward zero |
| TeUtils.SumUpdate | imgui_test_engine/imgui_te_utils.h:157 | Overwriting one sample changes the sum by the difference, which is the accumulator update |
| TeUtils.AddSamples | imgui_test_engine/imgui_te_utils.h:157 | Adding any samples keeps the invariant and the window size |
| TeUtils.TracksStep | imgui_test_engine/imgui_te_utils.h:157 | One AddSample keeps the buffer equal to the reference ring of the sample history |
| TeUtils.TracksFromInit | imgui_test_engine/imgui_te_utils.h:156-157 | After Init(n) and any samples, the buffer is the reference ring of those samples |
| TeUtils.MovingAverageWindow | imgui_test_engine/imgui_te_utils.h:156-160 | After Init(n) and samples xs: the accumulator is the sum of the last min(\|xs\|, n) samples and the fill count is their number. The index is \|xs\| mod n, IsFull holds exactly when \|xs\| >= n, and GetAverage is the truncated mean of that window |
| TeUtils.GetSampleCount | imgui_test_engine/imgui_te_utils.h:159 | The window size; Init states that it is the count passed in, and AddSamples that adding samples never changes it |
| TeUtils.IsFull | imgui_test_engine/imgui_te_utils.h:160 | Whether every slot holds a real sample; MovingAverageWindow states that it holds exactly when at least that many samples were added |
| TeUtils.MovingAverageSlots | imgui_test_engine/imgui_te_utils.h:157 | Each slot holds the latest sample written to it |
| TeUtils.NewCsvParser | imgui_test_engine/imgui_te_utils.h:175 | The constructor takes the column count (default -1) and starts with no rows and no cells |
| TeUtils.CellIndexInRange | imgui_test_engine/imgui_te_utils.h:180 | For 0 <= row < Rows and 0 <= col < Columns, row * Columns + col lies in [0, Rows * Columns) |
| TeUtils.CellIndexInverse | imgui_test_engine/imgui_te_utils.h:173 | The flat index gives back the row and the column, so the row-major layout is one-to-one |
| TeUtils.GetCell | imgui_test_engine/imgui_te_utils.h:180 | Under the asserted bounds, the read index is inside the loaded table and the cell is the entry at row * Columns + col |
| TeUtils.GetCellDistinct | imgui_test_engine/imgui_te_utils.h:173-180 | Different cells are read from different positions |
| TeEngine.LevelValueRoundTrip | imgui_test_engine/imgui_te_engine.h:49-58 | Each verbose level's value is in [0, COUNT) with COUNT = 6, a valid index into CountPerLevel, and maps back to the level |
| TeEngine.LevelFromValue | imgui_test_engine/imgui_te_engine.h:49-58 | Exactly the values 0..5 name a verbose level |
| TeEngine.LevelFromValueRoundTrip | imgui_test_engine/imgui_te_engine.h:49-58 | Every value 0..5 maps to a level with that value |
| TeEngine.LevelOrderIsTotal | imgui_test_engine/imgui_te_engine.h:49-58 | The order Silent < Error < Warning < Info < Debug < Trace is a total order |
| TeEngine.StatusFromValue | imgui_test_engine/imgui_te_engine.h:60-68 | Exactly the values -1..4 name a status |
| TeEngine.StatusValueRoundTrip | imgui_test_engine/imgui_te_engine.h:60-68 | Status + 1 is a valid index into a 6-entry table, and each status value maps back to the status |
| TeEngine.GroupFromValue | imgui_test_engine/imgui_te_engine.h:71-77 | Exactly the values -1..1 name a group |
| TeEngine.GroupValueRoundTrip | imgui_test_engine/imgui_te_engine.h:71-77 | A group other than Unknown indexes an array of COUNT groups, and each value maps back to its group |
| TeEngine.EmptyLog | imgui_test_engine/imgui_te_engine.h:302-309 | A new log is empty, has no lines and has one counter per verbose level |
| TeEngine.AppendLine | imgui_test_engine/imgui_te_engine.h:302-306 | Appending a line keeps one counter per level and makes the log non-empty |
| TeEngine.RenderIsEmpty | imgui_test_engine/imgui_te_engine.h:310 | IsEmpty holds exactly when the text buffer is empty, which for a log built from lines is when no line was added |
| TeEngine.IsEmpty | imgui_test_engine/imgui_te_engine.h:310 | Whether the text buffer is empty; RenderIsEmpty states that for a log built from lines this holds exactly when no line was added |
| TeEngine.RenderBuffer | imgui_test_engine/imgui_te_engine.h:302-306 | The buffer of a log built from lines is their texts, each followed by a newline |
| TeEngine.RenderLineInfo | imgui_test_engine/imgui_te_engine.h:296-306 | Line i records its level and the offset where its text starts in the buffer |
| TeEngine.RenderLine | imgui_test_engine/imgui_te_engine.h:296-306 | For single-line messages, the text from line i's offset up to the next newline is exactly that line's message |
| TeEngine.RenderOffsets | imgui_test_engine/imgui_te_engine.h:296-306 | Every recorded offset lies inside the buffer |
| TeEngine.RenderCounts | imgui_test_engine/imgui_te_engine.h:306 | CountPerLevel[l] is the number of lines at level l, which is the size of the [l, l] selection |
| TeEngine.SelectedIsFilter | imgui_test_engine/imgui_te_engine.h:318-321 | A line is selected exactly when it is in the log and its level lies in the inclusive range [min, max] |
| TeEngine.ExtractLinesForVerboseLevels | imgui_test_engine/imgui_te_engine.h:313-322 | The count is at most the number of lines; a buffer comes back exactly when one was passed, and the lines are appended after its old contents |
| TeEngine.ExtractLines | imgui_test_engine/imgui_te_engine.h:313-322 | The scan over the line index counts at most the lines it visits; ExtractOfLines states that the count is the number of lines in [min, max] and the text is those lines in order |
| TeEngine.ExtractOfLines | imgui_test_engine/imgui_te_engine.h:313-322 | Scanning the line index returns the number of lines in [min, max] and their texts in log order |
| TeEngine.ExtractOfRender | imgui_test_engine/imgui_te_engine.h:313-322 | For a log of single-line messages, the count is the number of lines with level in [min, max], the buffer receives exactly those lines in order, and the count equals the number of newlines appended |
| TeEngine.NewlinesOfConcat | imgui_test_engine/imgui_te_engine.h:315 | The text of n single-line messages holds exactly n newlines |
| TeEngine.NewItemInfo | imgui_test_engine/imgui_te_engine.h:251-271 | A new item info has RefCount = NavLayer = Depth = 0, both timestamps -1, ID = ParentID = StatusFlags = 0, and its bitfields fit |
| TeEngine.SetBitfields | imgui_test_engine/imgui_te_engine.h:253-255 | Storing into the bitfields leaves each value in the range of its 8-bit signed, 1-bit unsigned or 16-bit signed field, congruent to the stored value modulo 2^bits, and leaves the other fields unchanged |
| TeEngine.RefCountWraps | imgui_test_engine/imgui_te_engine.h:253 | Storing 128 into the 8-bit RefCount gives -128 |
| TeEngine.SetBitfieldsKeepsFittingValues | imgui_test_engine/imgui_te_engine.h:253-255 | Values that fit their bitfields are stored unchanged |
| TeEngine.SetVarsDataType | imgui_test_engine/imgui_te_engine.h:379-390 | VarsSize becomes sizeof(T) and constructor and destructor are those of T. The post-constructor and its user function are installed exactly when post_initialize is non-null; otherwise they keep their old values |
| TeEngine.SetVarsDataTypeIdempotent | imgui_test_engine/imgui_te_engine.h:379-390 | Calling SetVarsDataType twice with the same arguments is calling it once |
| TeEngine.NoPostConstructorByDefault | imgui_test_engine/imgui_te_engine.h:367-390 | On a fresh test, calling it without post_initialize installs no post-constructor |
| TeEngine.RetypeKeepsEarlierPostConstructor | imgui_test_engine/imgui_te_engine.h:385-389 | A second call without post_initialize keeps the post-constructor installed by the first |
| Arith.TruncDiv | imgui_tests/imgui_tests_widgets.cpp:65-78 | C++ division truncates toward zero: the quotient times the divisor lies within one divisor of the dividend, on the dividend's side of zero |
| Arith.WrapSigned | imgui_test_engine/imgui_te_engine.h:253-255 | A value stored into a signed field of n bits lands in [-2^(n-1), 2^(n-1)) and is congruent to it modulo 2^n |
| Arith.WrapUnsigned | imgui_test_engine/imgui_te_engine.h:254 | A value stored into an unsigned field of n bits lands in [0, 2^n) and is congruent to it modulo 2^n |
| Arith.WrapKeepsFittingValues | imgui_test_engine/imgui_te_engine.h:253-255 | A value that fits is stored unchanged |
| TeExporters.Duration | imgui_test_engine/imgui_te_exporters.cpp:161 | EndTime - StartTime as ImU64: the difference when the clock did not run backwards, otherwise the difference wrapped modulo 2^64 |
| TeExporters.HasAnyLogLines | imgui_test_engine/imgui_te_exporters.cpp:94-100 | True exactly when some line has a level at most the given one |
| TeExporters.HasAnyLogLinesLoop | imgui_test_engine/imgui_te_exporters.cpp:94-100 | The loop with its early return computes the same predicate |
| TeExporters.HasAnyLogLinesMonotone | imgui_test_engine/imgui_te_exporters.cpp:94-100 | Raising the level can only turn the answer from false to true |
| TeExporters.HasAnyLogLinesIsExtraction | imgui_test_engine/imgui_te_exporters.cpp:94-100 | There is a line at or below the level exactly when extracting [Silent, level] returns a positive count |
| TeExporters.ExportResultSummary | imgui_test_engine/imgui_te_exporters.cpp:56-92 | 0 <= passed <= tested <= number of tests, and the failing list is printed exactly when the result is not OK |
| TeExporters.SummaryCountsAreCounts | imgui_test_engine/imgui_te_exporters.cpp:61-69 | count_tested is the number of the group's tests with a status other than Unknown, and count_success the number with Success |
| TeExporters.SummaryCounts | imgui_test_engine/imgui_te_exporters.cpp:61-69 | The summary loop's two counters satisfy 0 <= count_success <= count_tested <= number of tests; SummaryCountsAreCounts states which tests each one counts |
| TeExporters.SummaryOkIff | imgui_test_engine/imgui_te_exporters.cpp:61-91 | "OK" is printed exactly when every test of the group is Unknown or Success |
| TeExporters.ErrorTestIsListed | imgui_test_engine/imgui_te_exporters.cpp:77-88 | A failed test of the group makes the result "Errors" and is named in the failing list |
| TeExporters.ErrorNamesExactly | imgui_test_engine/imgui_te_exporters.cpp:79-85 | A name is in the collected failing list if and only if some test of the group with that name has status Error |
| TeExporters.FailingListIsErrors | imgui_test_engine/imgui_te_exporters.cpp:77-88 | When the summary carries a failing list, it names exactly the failed tests of the group |
| TeExporters.QueuedTestGivesEmptyFailingList | imgui_test_engine/imgui_te_exporters.cpp:61-88 | A test still Queued counts as tested but not passed, so the result is "Errors" with an empty failing list |
| TeExporters.CountInPositive | imgui_test_engine/imgui_te_exporters.cpp:156-181 | A group's count for a criterion is positive exactly when some test of the group meets it |
| TeExporters.ExpectedStatisticsOfNone | imgui_test_engine/imgui_te_exporters.cpp:140-155 | With no tests, every counter and the elapsed time are 0 |
| TeExporters.ExpectedStatisticsStep | imgui_test_engine/imgui_te_exporters.cpp:158-181 | Each test updates only its own group's statistics, by one application of the loop body (AddTest). Summing the ImU64 elapsed time modulo 2^64 step by step gives the wrapped total duration. The other group is unchanged |
| TeExporters.GetTestSuiteStatistics | imgui_test_engine/imgui_te_exporters.cpp:152-182 | The loop leaves each group's statistics equal to its reference counts over the tests: the group's size, Failures = Error, Passed = Success and Disabled = Unknown. LogOutput is judged at the on-error level for Error tests and at the normal level otherwise; SlowTests counts durations over 5,000,000 us; TimeElapsed is the duration sum mod 2^64 |
| TeExporters.StatisticsBounds | imgui_test_engine/imgui_te_exporters.cpp:160-180 | Passed + Failures + Disabled <= Tests, LogOutput <= Tests and SlowTests <= Tests |
| TeExporters.GroupsPartition | imgui_test_engine/imgui_te_exporters.cpp:159 | With every test in a real group, the two groups' counts add up to the count over all tests |
| TeExporters.JUnitTotalsCountEveryTest | imgui_test_engine/imgui_te_exporters.cpp:208-217 | The testsuites totals are the number of tests, the number of failed tests and the number of unknown-status tests |
| TeExporters.JUnitTotals | imgui_test_engine/imgui_te_exporters.cpp:208-217 | The testsuites totals add the two groups' rows; JUnitTotalsCountEveryTest states that they count all tests, the failed ones and the unknown-status ones |
| TeExporters.StatusName | imgui_test_engine/imgui_te_exporters.cpp:244 | The status attribute is names[Status + 1], one of the six names |
| TeExporters.StatusNameRoundTrip | imgui_test_engine/imgui_te_exporters.cpp:224 | The name determines the status: Unknown is "skipped", Success "success", Queued "queued", Running "running", Error "error", Suspended "suspended" |
| TeExporters.StatusNamesDistinct | imgui_test_engine/imgui_te_exporters.cpp:224 | Different statuses have different names |
| TeExporters.FailureLineFromIff | imgui_test_engine/imgui_te_exporters.cpp:254-267 | The backward scan from line i picks line k exactly when Error is shown at the on-error level, line k is an Error line and no later line up to i is |
| TeExporters.FailureLineIff | imgui_test_engine/imgui_te_exporters.cpp:252-267 | The failure message comes from the last Error line before the final line, provided the on-error level shows errors; otherwise there is none |
| TeExporters.FailureLine | imgui_test_engine/imgui_te_exporters.cpp:252-267 | The backward scan for the failure message starts at the second-to-last line; FailureLineIff states that it picks the last Error line before the final one, or none |
| TeExporters.FailureMessage | imgui_test_engine/imgui_te_exporters.cpp:252-270 | The failure text is the chosen line up to its newline, or empty when no line is chosen; FailureLineIff states which line is chosen |
| TeExporters.SilentOnErrorGivesNoMessage | imgui_test_engine/imgui_te_exporters.cpp:257 | With a Silent on-error level the failure message is empty |
| TeExporters.TestCaseShape | imgui_test_engine/imgui_te_exporters.cpp:244-296 | A testcase is skipped exactly when its status name is "skipped" and has a failure element exactly when it is "error"; never both, and a skipped test has no system-out or system-err |
| TeExporters.TestCase | imgui_test_engine/imgui_te_exporters.cpp:241-297 | One testcase element: status name, failure message for an Error test, skipped flag and the system-out/system-err presence; TestCaseShape states how these fit together |
| TeExporters.SuiteOutputGate | imgui_test_engine/imgui_te_exporters.cpp:300 | The per-suite output sections are written exactly when some test of the group has a status other than Unknown |
| TeExporters.UsefulInGroup | imgui_test_engine/imgui_te_exporters.cpp:351 | A group has useful information exactly when one of its tests failed, was slow or logged at its verbosity |
| TeExporters.UsefulInformationIff | imgui_test_engine/imgui_te_exporters.cpp:347-355 | The markdown export goes ahead exactly when some test failed, was slow or logged at its verbosity |
| TeExporters.IconBytesAreUtf8 | imgui_test_engine/imgui_te_exporters.cpp:372-383 | The four status icons' byte strings are the UTF-8 encodings (section 3 of RFC 3629) of U+2014, U+1F534, U+26A0 and U+2705 |
| TeExporters.MarkdownStatus | imgui_test_engine/imgui_te_exporters.cpp:372-384 | The red circle is shown exactly for failures; the warning sign or check mark exactly for successes, the warning sign when some line is at Warning or below |
| TeExporters.RowLevelIsLogOutputLevel | imgui_test_engine/imgui_te_exporters.cpp:371-377 | A row's verbosity is the one the statistics use for LogOutput: the on-error level for failures, the normal one otherwise |
| TeExporters.MarkdownRowsAreKeptTests | imgui_test_engine/imgui_te_exporters.cpp:368-398 | The rows are exactly those of the tests the filter keeps |
| TeExporters.MarkdownRows | imgui_test_engine/imgui_te_exporters.cpp:368-398 | There is at most one row per test; MarkdownRowsAreKeptTests states that the rows are exactly those of the tests the filter keeps |
| TeExporters.ExportMarkdown | imgui_test_engine/imgui_te_exporters.cpp:340-403 | The markdown export gives the table's rows or nothing; UsefulInformationIff states when it goes ahead and MarkdownRowsAreKeptTests which rows it holds |
| TeExporters.VerboseKeepsEveryRow | imgui_test_engine/imgui_te_exporters.cpp:388 | In verbose mode every test has a row, in order |
| TeExporters.GateCoversKeptRows | imgui_test_engine/imgui_te_exporters.cpp:347-390 | A kept row of a failed, successful or unrun test whose duration is not exactly 5 s implies the gate lets the export through |
| TeExporters.GateGaps | imgui_test_engine/imgui_te_exporters.cpp:347-390 | A clean success of exactly 5 s, or a test still Queued, has its row kept while the gate suppresses the export |
| WidgetsTests.GetSliderTestRanges | imgui_tests/imgui_tests_widgets.cpp:44-90 | A range is given exactly for the ten data types; any other type takes the asserting default branch |
| WidgetsTests.TypeLimits | imgui_tests/imgui_tests_widgets.cpp:48-79 | The type limits used are INT8_MIN..UINT64_MAX of the C++ fixed-width types |
| Arith.Pow2Values | imgui_tests/imgui_tests_widgets.cpp:48-79 | The powers of two behind the 8-, 16-, 32- and 64-bit limits have their decimal values |
| WidgetsTests.SmallTypesUseFullRange | imgui_tests/imgui_tests_widgets.cpp:48-63 | The 8- and 16-bit types use their full range |
| WidgetsTests.WideTypesUseHalfRange | imgui_tests/imgui_tests_widgets.cpp:64-79 | The 32- and 64-bit types use their limits halved with truncating division, and twice each bound stays inside the type |
| WidgetsTests.SliderRangeWellFormed | imgui_tests/imgui_tests_widgets.cpp:44-90 | Every range has min < max; an integer range lies inside its type, and an unsigned one starts at 0 |
| WidgetsTests.NewSelection | imgui_tests/imgui_tests_widgets.cpp:3988 | A new selection is valid, selects nothing and has pivot 0 |
| WidgetsTests.Clear | imgui_tests/imgui_tests_widgets.cpp:3989 | Clear leaves nothing selected and SelectionSize 0, and keeps the pivot |
| WidgetsTests.GetSelected | imgui_tests/imgui_tests_widgets.cpp:3990 | An index reads as selected exactly when it is in the selected set (a missing key reads as 0) |
| WidgetsTests.SetSelected | imgui_tests/imgui_tests_widgets.cpp:3985-3991 | SetSelected adds or removes exactly n and keeps SelectionSize equal to the number of selected indices |
| WidgetsTests.SetSelectedNoOp | imgui_tests/imgui_tests_widgets.cpp:3991 | Setting an index to the value it already has changes neither the selected set nor SelectionSize |
| WidgetsTests.SetRangeFrom | imgui_tests/imgui_tests_widgets.cpp:4001 | The loop from n to hi sets every index in [n, hi] to v and leaves all others unchanged |
| WidgetsTests.SetRangeEffect | imgui_tests/imgui_tests_widgets.cpp:4001 | SetRange sets every index in [min(n1, n2), max(n1, n2)] to v and leaves every other index unchanged |
| WidgetsTests.SetRange | imgui_tests/imgui_tests_widgets.cpp:4001 | The selection stays valid and keeps its range reference; SetRangeEffect states that exactly the indices between the two ends, inclusive, are set to v |
| WidgetsTests.SetRangeSymmetric | imgui_tests/imgui_tests_widgets.cpp:4001 | The argument order does not matter |
| WidgetsTests.SetRangeLoop | imgui_tests/imgui_tests_widgets.cpp:4001 | The swapping loop of the source keeps the selection valid, sets the inclusive range to v and changes nothing else |
| WidgetsTests.Indices | imgui_tests/imgui_tests_widgets.cpp:4002 | The indices 0..count-1, count of them |
| WidgetsTests.SelectAll | imgui_tests/imgui_tests_widgets.cpp:4002 | SelectAll(count) selects exactly 0..count-1 with SelectionSize = count, and keeps the pivot |

## Left out

- File and console output of the exporters is not modelled: `fopen`/`fprintf`/`fclose`, `printf` and console colours. The model stops at the values the exporters print: counts, names, flags and selected lines.
- `ImGuiTestEngine_PrintResultSummary` is not modelled. It reads its counts through `ImGuiTestEngine_GetResult`, which is not part of this model. `ExportResultSummary`, which computes its own counts, is.
- `ImGuiTestEngine_PrintLogLines` is modelled only through the level it filters on. Its text output (indent, `strstr` line end, XML escape) is I/O.
- XML escaping and `ImTimestampToISO8601` are not modelled; they are declared but not defined in these files. `FormatSecondsToTimespanString` is float formatting.
- The `double` conversions of durations are not modelled directly. `(double)d / 1e6 > 5.0` is modelled as `d > 5_000_000`. For an integer d this comparison is exact: 5,000,000 is exactly representable, and rounding is monotone.
- `ImGetTimeInMicroseconds` reads the wall clock, and `ImDebugShowInputTextState` and `ImParseDateFromCompilerIntoYMD` are UI and date formatting. Start and end times are plain parameters of a test record.
- `GetImGuiKeyName` is a name table over imgui.h's key enum, which is not part of this model. The modifier bit values and the `ImGuiDataType` codes follow imgui.h's declarations as the constants of the model.
- The `ImHashDecoratedPath(str, str_end, seed)` overload declared at imgui_test_engine/imgui_te_utils.h:31 is not modelled. Its definition is not part of this model; the zero-terminated version is modelled, with the string as the bytes before its NUL.
- `ImGuiTestLog::UpdateLineOffsets` and the body of `ExtractLinesForVerboseLevels` are not part of this model. The extraction is modelled from its documented contract and applied to logs of single-line messages. Multi-line messages, where a line offset covers several newlines, are not modelled.
- `ImGuiTestItemList` is a wrapper over `ImPool`, which is not part of this model. The window pointer, rectangles and debug label of `ImGuiTestItemInfo` are geometry and display data the defaults do not constrain.
- `ImGuiCSVParser::Load` and `Clear` read files. Only the indexing of a loaded table is modelled.
- The float and double branches of `GetSliderTestRanges` are modelled as the integer pair (-1000000000, 1000000000), not as floating-point values.
- The registered test bodies of imgui_tests_widgets.cpp drive a live Dear ImGui context, as do `ExampleSelection::BeginMultiSelect`/`EndMultiSelect`. None of them is modelled.
- ImGuiStorage is modelled as a map from index to int. Its sorted-vector layout is not modelled; keys are the indices themselves, which matches the source because the `(ImGuiID)` cast of an index is one-to-one.
- TeUtils.AddSample / TeUtils.GetAverage: `ImMovingAverage<TYPE>` is a template. The model takes TYPE to be an unbounded integer. With a floating-point TYPE, `Accum += v - Samples[Idx]` drifts from the exact sum of the window, and GetAverage with FillAmount 0 gives NaN instead of dividing by zero. With a fixed-width integer TYPE, Accum can overflow. Neither is modelled.
- WidgetsTests.SetRangeFrom: the source's `int` loop counter overflows when the range ends at `INT_MAX`. The model uses unbounded integers and does not reproduce that.
- TeExporters.GetTestSuiteStatistics: the per-group `int` counters are unbounded here; only `TimeElapsed`, an `ImU64`, wraps.
- TeExporters.GetTestSuiteStatistics requires every test to be in group Tests or Perfs. A test of group Unknown (-1) would make the source index `testsuites[-1]`, which is undefined behaviour and is not modelled. The markdown export has the same requirement.
- The scheduler, coroutines, watchdogs, input simulator and item registry are not modelled. Only their declarations appear in these files.

## Findings

| source | as written | input that shows it | evidently intended | confidence | as-written member | corrected member |
|---|---|---|---|---|---|---|
| imgui_te_util.cpp:90-128 | The counting pass skips the spaces before each token, but the filling pass cuts at the very next space without skipping any. Any leading space, or any run of two or more spaces between words, makes the second pass produce empty tokens, and the trailing words are never stored | `" a b"`: argc = 3, argv = {"main.exe", "", "a", NULL}; `"a  b"`: argc = 3, argv = {"main.exe", "a", "", NULL}; in both "b" is lost | Both passes skip leading spaces, giving argv = {"main.exe", "a", "b", NULL} | not executed | TeUtil.LeadingSpaceShiftsWords, TeUtil.LeadingSpaceLosesWord, TeUtil.InnerSpacesLoseWord | TeUtil.ParseSplitCommandLineFixed, TeUtil.FixedLeadingSpace, TeUtil.FixedKeepsEveryWord, TeUtil.FixedInnerSpaces |
