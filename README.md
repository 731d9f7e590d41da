# SNMP interface utilization: walk parsing and counter deltas

The program compares two SNMP walks of the same device, taken some time
apart. It lists the interfaces that the walks have in common. For a
selected interface it builds one snapshot from each walk and shows the
time between the walks, the octet, discard and error deltas, and the
link utilization. The walks are text dumps, one `OID = TYPE: value` line
per object. The OIDs are those of the MIB-II ifTable (RFC 1213) and
sysUpTime. Counters are Counter32 values (section 7.1.6 of RFC 2578).
sysUpTime is in TimeTicks, hundredths of a second (section 7.1.8 of
RFC 2578).

The parsing and delta logic exists in three revisions. Each has the same
three static methods: `FindInterfaces`, `BuildCompleteSNMPInterface` and
`CalculateStatistics`. Each UI also has a small rule that decides which
snapshot is the earlier one.

- `JavaText` holds the Java behaviour the parser relies on:
  - `String.startsWith`, `indexOf` and `substring`;
  - `Long.parseLong` and `Integer.parseInt`, as a decimal parse that may fail;
  - `Long.toString`;
  - 64-bit two's-complement `long` arithmetic (`Wrap64`) and truncating division.
- `WalkModel` holds what the revisions share:
  - the OIDs;
  - the `Snapshot`, `IfEntry` and `Row` datatypes;
  - the nine-way else-if chain that routes a line to one snapshot field (`Classify`);
  - the specification `Build` of one pass over a walk, with its lemmas;
  - the single-wrap counter correction (`CounterDelta`);
  - utilization over exact reals.
- `SnmpMain` models the newer `src/main/java/com/adamjhowell/snmpinterface/Main.java`.
- `SnmpController` models `Controller.java` in the same directory. Its three methods are those of the newer Main, so the class adds only the static `WALK`/`IF_INDEX` state and the handler.
- `SnmpLegacy` models the older `src/com/adamjhowell/snmpinterface/Main.java`.

The imperative parts become Dafny methods, each proved against a
specification function:
- the nine-accumulator loop of `BuildCompleteSNMPInterface`;
- the `forEach` of `FindInterfaces`;
- the row lists built by successive `add` calls;
- the setter calls on the older revision's `SNMPInterfaceDelta` record.

The properties are lemmas about those functions.

## Model

| member | source | states |
|---|---|---|
| JavaText.IndexOfFrom | src/main/java/com/adamjhowell/snmpinterface/Main.java:206 | `indexOf` returns -1 or a position where the pattern occurs, and no occurrence lies before the returned position |
| JavaText.ParseDecimal | src/main/java/com/adamjhowell/snmpinterface/Main.java:204 | a string parses exactly when it is digits only, or '-' or '+' followed by at least one digit, and its value is in range; the result is that value |
| JavaText.ParseLongDecimalText | src/main/java/com/adamjhowell/snmpinterface/Main.java:204 | `Long.parseLong` reads back every value that `Long.toString` writes |
| JavaText.ParseIntThenParseLong | src/com/adamjhowell/snmpinterface/Main.java:180 | whatever `Integer.parseInt` accepts, `Long.parseLong` accepts with the same value |
| JavaText.Wrap64 | src/main/java/com/adamjhowell/snmpinterface/Main.java:409-426 | `long` arithmetic is exact whenever the true result fits in 64 bits |
| JavaText.Wrap64Congruent | src/main/java/com/adamjhowell/snmpinterface/Main.java:409-426 | the `long` result differs from the true result by a multiple of 2^64 |
| JavaText.Wrap64Unique | src/main/java/com/adamjhowell/snmpinterface/Main.java:409-426 | it is the only `long` that does, so `Wrap64` is two's-complement wrap-around and not, say, saturation |
| JavaText.TruncDiv | src/com/adamjhowell/snmpinterface/Main.java:354 | `long` division by a positive divisor truncates toward zero |
| WalkModel.ClassifyMatches | src/main/java/com/adamjhowell/snmpinterface/Main.java:253-336 | the chosen branch's prefix is a prefix of the line |
| WalkModel.ClassifyEarlierMiss | src/main/java/com/adamjhowell/snmpinterface/Main.java:253-336 | no earlier branch of the chain matches the line |
| WalkModel.IndexPrefixAliasing | src/main/java/com/adamjhowell/snmpinterface/Main.java:259-335 | a line for index n ≥ 10 also starts with the prefix for index n / 10, so index 1 matches lines for 10-19 |
| WalkModel.Extract | src/main/java/com/adamjhowell/snmpinterface/Main.java:255-335 | the description always yields its value text; a numeric field fails exactly when `Long.parseLong` rejects its text |
| WalkModel.Set | src/main/java/com/adamjhowell/snmpinterface/Main.java:253-336 | one accumulator receives the new value and every other accumulator keeps its value |
| WalkModel.Initial | src/main/java/com/adamjhowell/snmpinterface/Main.java:243-251 | every accumulator starts at its default: 0, or "" for the description |
| WalkModel.ApplyLine | src/main/java/com/adamjhowell/snmpinterface/Main.java:253-336 | an unmatched line changes nothing; a matched line updates only its own field; the pass fails exactly on a value that does not parse |
| WalkModel.BuildStep | src/main/java/com/adamjhowell/snmpinterface/Main.java:253-336 | the pass over one more line applies that line to the snapshot of the prefix |
| WalkModel.BuildKeepsIndex | src/main/java/com/adamjhowell/snmpinterface/Main.java:337-346 | the snapshot carries the requested index |
| WalkModel.BuildDefaults | src/main/java/com/adamjhowell/snmpinterface/Main.java:243-251 | a field that no line matches keeps its default |
| WalkModel.BuildLastMatchWins | src/main/java/com/adamjhowell/snmpinterface/Main.java:253-336 | a field holds the value of the last line routed to it |
| WalkModel.BuildKeepsField | src/main/java/com/adamjhowell/snmpinterface/Main.java:253-336 | lines routed to other fields do not change a field |
| WalkModel.BuildFailurePersists | src/main/java/com/adamjhowell/snmpinterface/Controller.java:381-466 | once a parse has thrown, the rest of the walk does not matter |
| WalkModel.BuildFailsAt | src/main/java/com/adamjhowell/snmpinterface/Controller.java:383-386 | one unparsable value, e.g. a non-numeric sysUpTime, makes the whole build fail |
| WalkModel.BuildFailureHasCause | src/main/java/com/adamjhowell/snmpinterface/Controller.java:381-466 | a failed build has an unparsable value on some routed line |
| WalkModel.BuildFailsIff | src/main/java/com/adamjhowell/snmpinterface/Controller.java:381-466 | the build fails if and only if some routed line holds an unparsable value |
| WalkModel.DescrLines | src/main/java/com/adamjhowell/snmpinterface/Main.java:187-192 | the filter keeps every line that contains the ifDescr OID and no other line |
| WalkModel.DescrLinesAppend | src/main/java/com/adamjhowell/snmpinterface/Main.java:187-192 | filtering a walk split in two filters each part and concatenates, so the kept lines stay in walk order with duplicates |
| WalkModel.DescrLinesOne | src/main/java/com/adamjhowell/snmpinterface/Main.java:187-192 | a single line is kept exactly when it contains the ifDescr OID |
| WalkModel.CounterDelta | src/main/java/com/adamjhowell/snmpinterface/Main.java:409-426 | for counters in Counter32 range the corrected delta lies in 0..4294967295, and it is the plain difference when the counter did not wrap |
| WalkModel.Ticks | src/main/java/com/adamjhowell/snmpinterface/Main.java:379-392 | the tick difference is non-zero when sysUpTime increases, and it is the exact positive difference for non-negative values |
| WalkModel.HalfUp | src/main/java/com/adamjhowell/snmpinterface/Main.java:438-459 | the nearest integer, with a tie going away from zero |
| WalkModel.RoundHalfUp3 | src/main/java/com/adamjhowell/snmpinterface/Main.java:438-459 | a multiple of 0.001 within half a step of the input, with a tie going away from zero (ROUND_HALF_UP); non-negative for non-negative input |
| WalkModel.UtilizationNonNegative | src/main/java/com/adamjhowell/snmpinterface/Main.java:429-460 | utilization of a non-negative octet count up to two Counter32 deltas, over positive time and speed, is not negative |
| SnmpMain.EntryOf | src/main/java/com/adamjhowell/snmpinterface/Main.java:198-209 | one interface line gives an entry exactly when its index text parses, with that index and the description between `" = "`+12 and the last character |
| SnmpMain.InterfacesOf | src/main/java/com/adamjhowell/snmpinterface/Main.java:198-216 | no more interfaces than prefix-matching lines |
| SnmpMain.SourceLines | src/main/java/com/adamjhowell/snmpinterface/Main.java:198-216 | each interface comes from a distinct line, in increasing line order |
| SnmpMain.SourceLinesSound | src/main/java/com/adamjhowell/snmpinterface/Main.java:198-216 | the k-th interface is the entry parsed from its source line, which starts with the ifDescr prefix |
| SnmpMain.SourceLinesCover | src/main/java/com/adamjhowell/snmpinterface/Main.java:199-216 | every prefix line whose index parses yields an interface, so a bad index skips only its own line |
| SnmpMain.FindInterfaces | src/main/java/com/adamjhowell/snmpinterface/Main.java:180-228 | null exactly when the filtered ifDescr lines differ in content or order, which is symmetric in the two walks; otherwise the interfaces of those lines |
| SnmpMain.DescrLineRoundTrip | src/main/java/com/adamjhowell/snmpinterface/Main.java:198-209 | the line written for (n, d) parses back to the interface (n, d), e.g. index 7 and "eth0" |
| SnmpMain.DescrLineSeparator | src/main/java/com/adamjhowell/snmpinterface/Main.java:204-206 | in such a line the separator sits right after the index digits, and the description fills the value slot |
| SnmpMain.BuildCompleteSNMPInterface | src/main/java/com/adamjhowell/snmpinterface/Main.java:241-347 | the nine-accumulator loop returns the snapshot of `Build`, or fails exactly as `Build` does |
| SnmpMain.Statistics | src/main/java/com/adamjhowell/snmpinterface/Main.java:379-406 | null unless sysUpTime strictly increases; otherwise the table starts with the time row |
| SnmpMain.StatisticsMismatchLayout | src/main/java/com/adamjhowell/snmpinterface/Main.java:396-406 | unequal speeds give exactly the time row and the "Interface Speeds"/"Do Not Match" row |
| SnmpMain.StatisticsLayout | src/main/java/com/adamjhowell/snmpinterface/Main.java:409-521 | equal non-zero speeds give the 14 rows in their fixed order; zero speed gives 12, with the "interface speed is zero" row in place of the three utilization rows |
| SnmpMain.UtilizationRows | src/main/java/com/adamjhowell/snmpinterface/Main.java:429-477 | three utilization rows when ticks and speed are non-zero; only the zero-speed notice when speed is zero |
| SnmpMain.CorrectedDelta | src/main/java/com/adamjhowell/snmpinterface/Main.java:409-421 | the in-place correction (subtract, then add COUNTER32MAX once if negative) computes `CounterDelta` |
| SnmpMain.CountBlock | src/main/java/com/adamjhowell/snmpinterface/Main.java:480-521 | the discard and error blocks, corrected delta by corrected delta, produce `CountRows` |
| SnmpMain.CalculateStatistics | src/main/java/com/adamjhowell/snmpinterface/Main.java:360-525 | the row list built by successive `add` calls equals `Statistics` |
| SnmpMain.OctetRowsTotal | src/main/java/com/adamjhowell/snmpinterface/Main.java:409-426 | for in-range counters the octet deltas lie in 0..4294967295 and the total is their exact sum |
| SnmpMain.CountRowsTotal | src/main/java/com/adamjhowell/snmpinterface/Main.java:480-521 | discard and error deltas are non-negative and each total is the exact sum of its in and out deltas |
| SnmpMain.TotalUtilizationIsMean | src/main/java/com/adamjhowell/snmpinterface/Controller.java:262-305 | before rounding, total utilization is the mean of in and out utilization |
| SnmpMain.UtilizationRowsNonNegative | src/main/java/com/adamjhowell/snmpinterface/Main.java:429-460 | for non-negative increasing sysUpTimes, positive speed and Counter32 octet counters, the three utilization rows are non-negative percentages |
| SnmpMain.StatisticsUtilizationNonNegative | src/main/java/com/adamjhowell/snmpinterface/Main.java:409-477 | under the same conditions the table has 14 rows and rows 5 to 7 are non-negative percentages |
| SnmpMain.CounterDeltaWrapIsOneShort | src/main/java/com/adamjhowell/snmpinterface/Main.java:89 | after a wrap the corrected delta is one less than the Counter32 modular difference, since COUNTER32MAX is 2^32 - 1 |
| SnmpMain.CounterDeltaExample | src/main/java/com/adamjhowell/snmpinterface/Main.java:409-421 | 4294967000 → 1000 gives 1295 |
| SnmpMain.OrderedStatistics | src/main/java/com/adamjhowell/snmpinterface/Main.java:700-716 | equal sysUpTimes give exactly the one "identical" row; otherwise the table is `Statistics` with the snapshot of smaller sysUpTime first; it starts with the time row, which is positive when both sysUpTimes are non-negative |
| SnmpMain.OrderedStatisticsSymmetric | src/main/java/com/adamjhowell/snmpinterface/Main.java:700-716 | the handler's table does not depend on which walk came first |
| SnmpController.Controller.constructor | src/main/java/com/adamjhowell/snmpinterface/Controller.java:52-53 | `WALK` and `IF_INDEX` start out null |
| SnmpController.Controller.BuildCompleteSNMPInterface | src/main/java/com/adamjhowell/snmpinterface/Controller.java:367-467 | afterwards `WALK` is the given walk and `IF_INDEX` the given index, and the snapshot is that of `Build` |
| SnmpController.Controller.ShowInterfaceStatistics | src/main/java/com/adamjhowell/snmpinterface/Controller.java:610-641 | builds both snapshots for the selected index and shows the handler's table; `IF_INDEX` ends as the selection, and `WALK` as the second walk, or the first walk if its build threw |
| SnmpLegacy.AddEntry | src/com/adamjhowell/snmpinterface/Main.java:177-186 | adding one line throws exactly when it is an interface line whose index `Integer.parseInt` rejects |
| SnmpLegacy.InterfacesOrThrow | src/com/adamjhowell/snmpinterface/Main.java:177-186 | when nothing throws, every prefix line gives one interface, with an index in `int` range |
| SnmpLegacy.ThrowsIff | src/com/adamjhowell/snmpinterface/Main.java:180 | the scan throws if and only if some prefix line has a bad index |
| SnmpLegacy.AgreesWithNewerRevision | src/com/adamjhowell/snmpinterface/Main.java:177-186 | when the older scan does not throw, the walk meets the newer revision's shape precondition and the older scan returns what the newer revision returns |
| SnmpLegacy.OverflowingIndexThrows | src/com/adamjhowell/snmpinterface/Main.java:180-182 | a line whose index exceeds `int` range throws in `Integer.parseInt` before the description is cut, even when it is too short to hold one, where the newer revision's `Long.parseLong` would accept the index |
| SnmpLegacy.FindInterfaces | src/com/adamjhowell/snmpinterface/Main.java:163-196 | null exactly when the filtered lines differ; otherwise it throws or returns the interfaces |
| SnmpLegacy.Statistics | src/com/adamjhowell/snmpinterface/Main.java:337-362 | null if the speeds differ or sysUpTime does not increase; otherwise 12 rows, or 10 at speed zero, with the fractional time at row 1 |
| SnmpLegacy.StatisticsLayout | src/com/adamjhowell/snmpinterface/Main.java:340-457 | rows in the order speed, time, octets, utilization, discards, errors; at speed zero the "Unable to calculate utilization..." and "interface speed is zero" rows replace the four utilization rows |
| SnmpLegacy.UtilizationRows | src/com/adamjhowell/snmpinterface/Main.java:385-417 | the "Total delta" and "Total Utilization" rows appear only when time and speed are non-zero |
| SnmpLegacy.StatisticsAsWritten | src/com/adamjhowell/snmpinterface/Main.java:337 | the speed test compares boxed `Long` objects, so it agrees with `Statistics` whenever it returns a table |
| SnmpLegacy.AsWrittenRejectsEqualSpeeds | src/com/adamjhowell/snmpinterface/Main.java:337 | equal speeds outside -128..127 are reported as a mismatch (null) although the value comparison gives a table |
| SnmpLegacy.InterfaceDelta.constructor | src/com/adamjhowell/snmpinterface/Main.java:334 | a new delta record holds zeros |
| SnmpLegacy.InterfaceDelta.Fill | src/com/adamjhowell/snmpinterface/Main.java:354-455 | the setters store each computed delta in its field |
| SnmpLegacy.CalculateStatistics | src/com/adamjhowell/snmpinterface/Main.java:319-461 | the rows equal `Statistics`; the record holds whole-second time, the corrected deltas and the unrounded utilizations, or zeros where utilization is not computed |
| SnmpLegacy.UtilizationBlock | src/com/adamjhowell/snmpinterface/Main.java:385-417 | computes the utilization rows and values, or the notices and zeros |
| SnmpLegacy.CountBlock | src/com/adamjhowell/snmpinterface/Main.java:420-457 | computes the four discard and error rows and their corrected deltas |
| SnmpLegacy.RecordedTimeIsWholeSeconds | src/com/adamjhowell/snmpinterface/Main.java:353-354 | for positive ticks, the record's time is ticks/100 rounded down, below the displayed ticks/100.0 unless ticks is a multiple of 100 |
| SnmpLegacy.DeltasInRange | src/com/adamjhowell/snmpinterface/Main.java:365-455 | for in-range counters every delta row lies in 0..4294967295, and "Total delta" is the sum of the octet deltas |
| SnmpLegacy.TotalUtilizationIsMean | src/com/adamjhowell/snmpinterface/Main.java:388-402 | without rounding, "Total Utilization" is exactly the mean of in and out utilization |
| SnmpLegacy.UtilizationNonNegativeRows | src/com/adamjhowell/snmpinterface/Main.java:385-402 | for a non-negative earlier sysUpTime, positive speed and Counter32 octet counters, the inbound, outbound and total utilization lines are non-negative |
| SnmpLegacy.ComparedWithNewerRevision | src/com/adamjhowell/snmpinterface/Main.java:337-457 | the older revision gives null exactly where the newer one shows the speed mismatch; the octet deltas agree; the newer utilizations are the older ones rounded half up |
| SnmpLegacy.OrderedStatistics | src/com/adamjhowell/snmpinterface/Main.java:603-617 | equal sysUpTimes give the two "identical" rows; otherwise the result is `Statistics` with the snapshot of smaller sysUpTime first: null exactly on a speed mismatch (by value), else a table whose time row is positive when both sysUpTimes are non-negative |
| SnmpLegacy.OrderedStatisticsSymmetric | src/com/adamjhowell/snmpinterface/Main.java:603-617 | the handler's table does not depend on which walk came first |

## Left out

- Reading the walk files (`ReadFile`), the JavaFX UI, the JSON export and the logging are not modelled. A walk is a sequence of lines given as a parameter.
- Doubles, `BigDecimal.setScale(3, ROUND_HALF_UP)` and the `NumberFormat` comma grouping are not modelled. Utilization is an exact real and the rounding is an exact half-up rounding of that real.
- Statistic rows are (description, value) pairs. This stands for the `InterfaceStats` pairs of the newer revisions and the concatenated strings of the older one, without their text formatting. Suffixes such as " seconds" are dropped.
- JavaText.ParseDecimal: only ASCII digits '0'-'9' are modelled. Java's `Long.parseLong` and `Integer.parseInt` read digits through `Character.digit`, which also accepts other Unicode decimal digits. A walk whose numbers use such digits builds in Java but fails here.
- `substring` and `indexOf` failures (a line too short, a missing `" = "`) are preconditions (`WellShaped`, `AllShaped`, `LineShaped`, and in the older revision `AllShapedInt`, `LineShapedInt`), not modelled exceptions. The older revision's preconditions demand a well-formed description only where `Integer.parseInt` accepts the index, since a rejected index throws before the description is cut. Only parse failures are modelled.
- The data-carrier classes (`SNMPInterface`, `SNMPInterfaceDelta`, `InterfaceStats` and their copies) are datatypes, except for the record that the older `CalculateStatistics` fills in place. The `src/sample` prototype is not part of this model.
- `SnmpController.Controller.BuildCompleteSNMPInterface`: `Controller.java` repeats the newer Main's `FindInterfaces`, `BuildCompleteSNMPInterface` and `CalculateStatistics`. They are modelled once, in `SnmpMain`; the controller's method adds the static writes and delegates.
- The older revision's `BuildCompleteSNMPInterface` (src/com/adamjhowell/snmpinterface/Main.java:209-306) is the newer loop and is modelled by `SnmpMain.BuildCompleteSNMPInterface`.
- `SnmpMain.BuildCompleteSNMPInterface`: each iteration looks up the line's branch with `Classify`, which is proved to be the first matching branch of the chain. The method does not repeat the `startsWith` tests one by one.
- The older revision does not compile against its own model classes. It passes an `int` index where a `Long` is expected, and calls an `SNMPInterfaceDelta(walk1, walk2)` constructor that does not exist. The model widens the index to a `long` and starts the record from zero-filled fields.
- SnmpLegacy.CalculateStatistics and SnmpLegacy.OrderedStatistics use the corrected speed comparison, by value (`SnmpLegacy.Statistics`). As written, src/com/adamjhowell/snmpinterface/Main.java:337 compares boxed `Long`s, so equal speeds outside -128..127 give null there and in the handler. That behaviour is modelled only by `SnmpLegacy.StatisticsAsWritten` (see Findings).
- `SnmpLegacy.CalculateStatistics`: returns the `SNMPInterfaceDelta` record alongside the rows so that its contents can be stated. The source builds the record and drops it.

## Findings

| source | as written | input that shows it | evidently intended | confidence | as-written member | corrected member |
|---|---|---|---|---|---|---|
| src/com/adamjhowell/snmpinterface/Main.java:337 | `walk1.getIfSpeed() == walk2.getIfSpeed()` compares two boxed `Long` objects by identity; only values in -128..127 are shared by `Long.valueOf` | both snapshots with ifSpeed 100000000 and sysUpTime 100 then 200: the method returns null as if the speeds differed | compare the speeds by value, as the newer revision does with `.equals` (src/main/java/com/adamjhowell/snmpinterface/Main.java:396) | high for the boxed comparison; not executed | SnmpLegacy.AsWrittenRejectsEqualSpeeds | SnmpLegacy.Statistics |
