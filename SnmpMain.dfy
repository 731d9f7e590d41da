/**
 * The newer revision of the program (src/main/java/.../Main.java):
 * FindInterfaces, BuildCompleteSNMPInterface, CalculateStatistics and the
 * ordering rule of the interface table's mouse handler.
 */
module SnmpMain {
  import opened JavaText
  import opened WalkModel

  // ---------------------------------------------------------------------
  // FindInterfaces

  /** A line the forEach of FindInterfaces acts on: it starts with the ifDescr OID. */
  predicate IsInterfaceLine(line: string) {
    StartsWith(line, IfDescrOid)
  }

  /**
   * The substring calls of FindInterfaces do not throw on this line: a line
   * that starts with the ifDescr OID holds a separator, and when its index
   * parses, the description bounds lie within the line.
   */
  predicate LineShaped(line: string) {
    IsInterfaceLine(line) ==>
      Contains(line, Separator) && (ParseLong(IndexText(line)).Some? ==> DescrExtractable(line))
  }

  predicate AllShaped(lines: seq<string>) {
    forall k {:trigger LineShaped(lines[k])} :: 0 <= k < |lines| ==> LineShaped(lines[k])
  }

  /** The interface one line yields, or None when Long.parseLong rejects its index (the caught exception). */
  function EntryOf(line: string): (r: Option<IfEntry>)
    requires IsInterfaceLine(line) && LineShaped(line)
    ensures r.Some? <==> ParseLong(IndexText(line)).Some?
    ensures r.Some? ==> Some(r.value.ifIndex) == ParseLong(IndexText(line)) && r.value.ifDescr == DescrText(line)
  {
    match ParseLong(IndexText(line))
    case None => None
    case Some(n) => Some(IfEntry(n, DescrText(line)))
  }

  /** The number of lines that start with the ifDescr OID. */
  function CountInterfaceLines(lines: seq<string>): nat {
    if lines == [] then 0
    else CountInterfaceLines(lines[..|lines| - 1]) + (if IsInterfaceLine(lines[|lines| - 1]) then 1 else 0)
  }

  /** The interfaces the forEach collects from the filtered lines, in order. */
  function InterfacesOf(lines: seq<string>): (r: seq<IfEntry>)
    requires AllShaped(lines)
    ensures |r| <= CountInterfaceLines(lines)
  {
    if lines == [] then []
    else
      var init := lines[..|lines| - 1];
      var last := lines[|lines| - 1];
      assert AllShaped(init) by {
        assert forall k :: 0 <= k < |init| ==> init[k] == lines[k];
      }
      InterfacesOf(init) + (if IsInterfaceLine(last) && EntryOf(last).Some? then [EntryOf(last).value] else [])
  }

  /** The positions of the lines the interfaces come from, strictly increasing. */
  function SourceLines(lines: seq<string>): (idx: seq<nat>)
    requires AllShaped(lines)
    ensures |idx| == |InterfacesOf(lines)|
    ensures forall k :: 0 <= k < |idx| ==> idx[k] < |lines|
    ensures forall k, m :: 0 <= k < m < |idx| ==> idx[k] < idx[m]
  {
    if lines == [] then []
    else
      var init := lines[..|lines| - 1];
      var last := lines[|lines| - 1];
      assert AllShaped(init) by {
        assert forall k :: 0 <= k < |init| ==> init[k] == lines[k];
      }
      var found := IsInterfaceLine(last) && EntryOf(last).Some?;
      assert |InterfacesOf(lines)| == |InterfacesOf(init)| + (if found then 1 else 0);
      if found then SourceLines(init) + [|lines| - 1] else SourceLines(init)
  }

  /** Each interface comes from its source line: a line starting with the ifDescr OID whose entry it is. */
  lemma {:induction false} SourceLinesSound(lines: seq<string>, k: nat)
    requires AllShaped(lines) && k < |InterfacesOf(lines)|
    ensures IsInterfaceLine(lines[SourceLines(lines)[k]])
    ensures EntryOf(lines[SourceLines(lines)[k]]) == Some(InterfacesOf(lines)[k])
  {
    var init := lines[..|lines| - 1];
    var last := lines[|lines| - 1];
    assert AllShaped(init) by {
      assert forall j :: 0 <= j < |init| ==> init[j] == lines[j];
    }
    var found := IsInterfaceLine(last) && EntryOf(last).Some?;
    var tail := if found then [EntryOf(last).value] else [];
    assert InterfacesOf(lines) == InterfacesOf(init) + tail;
    if k < |InterfacesOf(init)| {
      SourceLinesSound(init, k);
      assert SourceLines(lines)[k] == SourceLines(init)[k];
      assert InterfacesOf(lines)[k] == InterfacesOf(init)[k];
      assert lines[SourceLines(lines)[k]] == init[SourceLines(init)[k]];
    } else {
      assert found && SourceLines(lines)[k] == |lines| - 1;
    }
  }

  /** No line is skipped unless its index fails to parse: every line starting with the OID whose index parses is a source. */
  lemma {:induction false} SourceLinesCover(lines: seq<string>, j: nat)
    requires AllShaped(lines) && j < |lines|
    requires IsInterfaceLine(lines[j]) && EntryOf(lines[j]).Some?
    ensures j in SourceLines(lines)
  {
    var init := lines[..|lines| - 1];
    assert AllShaped(init) by {
      assert forall k :: 0 <= k < |init| ==> init[k] == lines[k];
    }
    var prev := SourceLines(init);
    if j < |lines| - 1 {
      assert init[j] == lines[j];
      SourceLinesCover(init, j);
      assert SourceLines(lines) == prev || SourceLines(lines) == prev + [|lines| - 1];
    } else {
      assert SourceLines(lines) == prev + [j];
    }
  }

  /** Extending the lines by one extends the interfaces by that line's entry, if any. */
  lemma InterfacesOfStep(lines: seq<string>, i: nat)
    requires AllShaped(lines) && i < |lines|
    ensures AllShaped(lines[..i]) && AllShaped(lines[..i + 1])
    ensures InterfacesOf(lines[..i + 1]) == InterfacesOf(lines[..i])
              + (if IsInterfaceLine(lines[i]) && EntryOf(lines[i]).Some? then [EntryOf(lines[i]).value] else [])
  {
    assert lines[..i + 1][..i] == lines[..i];
  }

  /**
   * FindInterfaces(walk1, walk2): null when the lines containing the ifDescr
   * OID differ between the walks; otherwise the (index, description) of each
   * such line that starts with the OID, skipping lines whose index does not
   * parse.
   */
  method FindInterfaces(walk1: seq<string>, walk2: seq<string>) returns (r: Option<seq<IfEntry>>)
    requires DescrLines(walk1) == DescrLines(walk2) ==> AllShaped(DescrLines(walk1))
    ensures r.None? <==> DescrLines(walk1) != DescrLines(walk2)
    ensures r.Some? ==> r.value == InterfacesOf(DescrLines(walk1))
  {
    var ifList1 := DescrLines(walk1);
    var ifList2 := DescrLines(walk2);
    if ifList1 != ifList2 {
      return None;
    }
    var found: seq<IfEntry> := [];
    assert ifList1[..0] == [];
    for i := 0 to |ifList1|
      invariant AllShaped(ifList1[..i])
      invariant found == InterfacesOf(ifList1[..i])
    {
      var line := ifList1[i];
      InterfacesOfStep(ifList1, i);
      assert LineShaped(line);
      if StartsWith(line, IfDescrOid) {
        IndexOfAfterPrefix(line, IfDescrOid, Separator);
        var index := ParseLong(line[21..IndexOf(line, Separator)]);
        if index.Some? {
          var descr := line[IndexOf(line, Separator) + 12..|line| - 1];
          found := found + [IfEntry(index.value, descr)];
        }
      }
    }
    assert ifList1[..|ifList1|] == ifList1;
    return Some(found);
  }

  /** The ifDescr line that snmpwalk prints for interface n with description d. */
  function DescrLine(n: JavaLong, d: string): string {
    IfDescrOid + DecimalText(n) + Separator + "STRING: \"" + d + "\""
  }

  /** Long.toString never writes a blank. */
  lemma DecimalTextNoBlank(n: int, j: nat)
    requires j < |DecimalText(n)|
    ensures DecimalText(n)[j] != ' '
  {
    var s := DecimalText(n);
    if n >= 0 {
      AllDigitsAt(s, j);
    } else if j > 0 {
      AllDigitsAt(s[1..], j - 1);
    }
  }

  /**
   * FindInterfaces reads back what snmpwalk prints: the line for interface n
   * with description d yields the entry (n, d), whatever the description
   * holds, because the first separator follows the index.
   */
  lemma DescrLineRoundTrip(n: JavaLong, d: string)
    ensures IsInterfaceLine(DescrLine(n, d)) && LineShaped(DescrLine(n, d))
    ensures EntryOf(DescrLine(n, d)) == Some(IfEntry(n, d))
  {
    var line := DescrLine(n, d);
    var at := DescrLineSeparator(n, d);
    assert IndexText(line) == line[|IfDescrOid|..at] == DecimalText(n);
    ParseLongDecimalText(n);
    assert DescrText(line) == line[at + 12..|line| - 1] == d;
  }

  /** The first separator of the line follows the index, and the line starts with the ifDescr OID. */
  lemma DescrLineSeparator(n: JavaLong, d: string) returns (at: nat)
    ensures IsInterfaceLine(DescrLine(n, d)) && Contains(DescrLine(n, d), Separator)
    ensures at == IndexOf(DescrLine(n, d), Separator) == |IfDescrOid| + |DecimalText(n)|
    ensures |DescrLine(n, d)| == at + 12 + |d| + 1
    ensures DescrLine(n, d)[|IfDescrOid|..at] == DecimalText(n)
    ensures DescrLine(n, d)[at + 12..|DescrLine(n, d)| - 1] == d
  {
    var line := DescrLine(n, d);
    var index := DecimalText(n);
    var head := IfDescrOid + index;
    var rest := Separator + "STRING: \"" + d + "\"";
    assert line == head + rest;
    forall j | 0 <= j < |head|
      ensures head[j] != ' '
    {
      if j >= |IfDescrOid| {
        DecimalTextNoBlank(n, j - |IfDescrOid|);
      }
    }
    assert rest[..|Separator|] == Separator;
    IndexOfAfterHead(head, rest, Separator);
    assert line[..|IfDescrOid|] == IfDescrOid;
    at := |head|;
    assert line[|IfDescrOid|..at] == index;
    assert line[at + 12..|line| - 1] == rest[12..|rest| - 1] == d;
  }

  // ---------------------------------------------------------------------
  // BuildCompleteSNMPInterface

  /**
   * BuildCompleteSNMPInterface(walk, ifIndex): one pass over the walk in which
   * the else-if chain stores the value of each line in at most one of nine
   * accumulators; None is the NumberFormatException that escapes when a
   * numeric value does not parse.
   */
  method BuildCompleteSNMPInterface(walk: seq<string>, ifIndex: JavaLong) returns (r: Option<Snapshot>)
    requires WellShaped(walk, ifIndex)
    ensures r == Build(walk, ifIndex)
  {
    var sysUpTime: JavaLong := 0;
    var ifDescr: string := "";
    var ifSpeed: JavaLong := 0;
    var ifInOctets: JavaLong := 0;
    var ifInDiscards: JavaLong := 0;
    var ifInErrors: JavaLong := 0;
    var ifOutOctets: JavaLong := 0;
    var ifOutDiscards: JavaLong := 0;
    var ifOutErrors: JavaLong := 0;
    for i := 0 to |walk|
      invariant WellShaped(walk[..i], ifIndex)
      invariant Build(walk[..i], ifIndex) == Some(Snapshot(ifIndex, ifDescr, sysUpTime, ifSpeed,
                  ifInOctets, ifInDiscards, ifInErrors, ifOutOctets, ifOutDiscards, ifOutErrors))
    {
      var line := walk[i];
      ghost var before := Snapshot(ifIndex, ifDescr, sysUpTime, ifSpeed,
        ifInOctets, ifInDiscards, ifInErrors, ifOutOctets, ifOutDiscards, ifOutErrors);
      var branch := Classify(line, ifIndex);
      assert Extractable(line, branch);
      if branch == SysUpTime {
        var text := line[SysUpTimeValueOffset..];
        StepNumeric(walk, ifIndex, i, before, SysUpTime, text);
        var value := ParseLong(text);
        if value.None? {
          return None;
        }
        sysUpTime := value.value;
      } else if branch == IfDescr {
        StepDescr(walk, ifIndex, i, before);
        ifDescr := line[IndexOf(line, Separator) + 12..|line| - 1];
      } else if branch == IfSpeed {
        var text := line[IndexOf(line, Separator) + 12..];
        StepNumeric(walk, ifIndex, i, before, IfSpeed, text);
        var value := ParseLong(text);
        if value.None? {
          return None;
        }
        ifSpeed := value.value;
      } else if branch == IfInOctets {
        var text := line[IndexOf(line, Separator) + 14..];
        StepNumeric(walk, ifIndex, i, before, IfInOctets, text);
        var value := ParseLong(text);
        if value.None? {
          return None;
        }
        ifInOctets := value.value;
      } else if branch == IfInDiscards {
        var text := line[IndexOf(line, Separator) + 14..];
        StepNumeric(walk, ifIndex, i, before, IfInDiscards, text);
        var value := ParseLong(text);
        if value.None? {
          return None;
        }
        ifInDiscards := value.value;
      } else if branch == IfInErrors {
        var text := line[IndexOf(line, Separator) + 14..];
        StepNumeric(walk, ifIndex, i, before, IfInErrors, text);
        var value := ParseLong(text);
        if value.None? {
          return None;
        }
        ifInErrors := value.value;
      } else if branch == IfOutOctets {
        var text := line[IndexOf(line, Separator) + 14..];
        StepNumeric(walk, ifIndex, i, before, IfOutOctets, text);
        var value := ParseLong(text);
        if value.None? {
          return None;
        }
        ifOutOctets := value.value;
      } else if branch == IfOutDiscards {
        var text := line[IndexOf(line, Separator) + 14..];
        StepNumeric(walk, ifIndex, i, before, IfOutDiscards, text);
        var value := ParseLong(text);
        if value.None? {
          return None;
        }
        ifOutDiscards := value.value;
      } else if branch == IfOutErrors {
        var text := line[IndexOf(line, Separator) + 14..];
        StepNumeric(walk, ifIndex, i, before, IfOutErrors, text);
        var value := ParseLong(text);
        if value.None? {
          return None;
        }
        ifOutErrors := value.value;
      } else {
        StepUnmatched(walk, ifIndex, i, before);
      }
    }
    assert walk[..|walk|] == walk;
    return Some(Snapshot(ifIndex, ifDescr, sysUpTime, ifSpeed,
      ifInOctets, ifInDiscards, ifInErrors, ifOutOctets, ifOutDiscards, ifOutErrors));
  }

  // ---------------------------------------------------------------------
  // CalculateStatistics

  const TimeRowLabel: string := "Time Delta"
  const MismatchRow: Row := Row("Interface Speeds", Message("Do Not Match"))
  const NoTimeRow: Row := Row("Unable to calculate utilization", Message("no time has passed between walks"))
  const ZeroSpeedRow: Row := Row("Unable to calculate utilization", Message("interface speed is zero"))

  const OctetLabels: seq<string> := ["Interface Speed", "Inbound Octet Delta", "Outbound Octet Delta", "Total Delta"]
  const UtilizationLabels: seq<string> := ["Inbound Utilization", "Outbound Utilization", "Total Utilization"]
  const CountLabels: seq<string> := [
    "Inbound Discards", "Outbound Discards", "Total Discards",
    "Inbound Errors", "Outbound Errors", "Total Errors"]

  /** The fourteen row descriptions, in order, when the speeds match and are not zero. */
  const FullLabels: seq<string> := [TimeRowLabel] + OctetLabels + UtilizationLabels + CountLabels

  /** The twelve row descriptions when both speeds are zero: one notice replaces the utilization rows. */
  const ZeroSpeedLabels: seq<string> := [TimeRowLabel] + OctetLabels + [ZeroSpeedRow.description] + CountLabels

  /** The first row: the sysUpTime difference in seconds (ticks are hundredths of a second). */
  function TimeRow(walk1: Snapshot, walk2: Snapshot): Row {
    Row(TimeRowLabel, Seconds(Ticks(walk1.sysUpTime, walk2.sysUpTime) as real / 100.0))
  }

  /** The speed row and the three octet rows. */
  function OctetRows(walk1: Snapshot, walk2: Snapshot): seq<Row> {
    var inOctets := CounterDelta(walk1.ifInOctets, walk2.ifInOctets);
    var outOctets := CounterDelta(walk1.ifOutOctets, walk2.ifOutOctets);
    [Row("Interface Speed", Count(walk1.ifSpeed)),
     Row("Inbound Octet Delta", Count(inOctets)),
     Row("Outbound Octet Delta", Count(outOctets)),
     Row("Total Delta", Count(Wrap64(inOctets + outOctets)))]
  }

  /** The rows between "Total Delta" and the discard rows. */
  function UtilizationRows(walk1: Snapshot, walk2: Snapshot): (rows: seq<Row>)
    ensures Ticks(walk1.sysUpTime, walk2.sysUpTime) != 0 && walk1.ifSpeed != 0 ==> |rows| == 3
    ensures Ticks(walk1.sysUpTime, walk2.sysUpTime) != 0 && walk1.ifSpeed == 0 ==> rows == [ZeroSpeedRow]
  {
    var ticks := Ticks(walk1.sysUpTime, walk2.sysUpTime);
    var speed := walk1.ifSpeed;
    var inOctets := CounterDelta(walk1.ifInOctets, walk2.ifInOctets);
    var outOctets := CounterDelta(walk1.ifOutOctets, walk2.ifOutOctets);
    if ticks != 0 && speed != 0 then
      [Row("Inbound Utilization", Percent(RoundHalfUp3(Utilization(inOctets, ticks, speed)))),
       Row("Outbound Utilization", Percent(RoundHalfUp3(Utilization(outOctets, ticks, speed)))),
       Row("Total Utilization", Percent(RoundHalfUp3(TotalUtilization(Wrap64(inOctets + outOctets), ticks, speed))))]
    else
      (if ticks as real / 100.0 == 0.0 then [NoTimeRow] else []) + (if speed == 0 then [ZeroSpeedRow] else [])
  }

  /** The discard and error rows, each direction followed by the total. */
  function CountRows(walk1: Snapshot, walk2: Snapshot): seq<Row> {
    var inDiscards := CounterDelta(walk1.ifInDiscards, walk2.ifInDiscards);
    var outDiscards := CounterDelta(walk1.ifOutDiscards, walk2.ifOutDiscards);
    var inErrors := CounterDelta(walk1.ifInErrors, walk2.ifInErrors);
    var outErrors := CounterDelta(walk1.ifOutErrors, walk2.ifOutErrors);
    [Row("Inbound Discards", Count(inDiscards)),
     Row("Outbound Discards", Count(outDiscards)),
     Row("Total Discards", Count(Wrap64(inDiscards + outDiscards))),
     Row("Inbound Errors", Count(inErrors)),
     Row("Outbound Errors", Count(outErrors)),
     Row("Total Errors", Count(Wrap64(inErrors + outErrors)))]
  }

  /**
   * What CalculateStatistics(walk1, walk2) returns: null unless walk1's
   * sysUpTime is the smaller; the time row and a mismatch row when the speeds
   * differ; otherwise the full table in its fixed order.
   */
  function Statistics(walk1: Snapshot, walk2: Snapshot): (r: Option<seq<Row>>)
    ensures r.None? <==> !(walk1.sysUpTime < walk2.sysUpTime)
    ensures r.Some? ==> |r.value| >= 2 && r.value[0] == TimeRow(walk1, walk2)
  {
    if !(walk1.sysUpTime < walk2.sysUpTime) then None
    else if walk1.ifSpeed != walk2.ifSpeed then Some([TimeRow(walk1, walk2), MismatchRow])
    else Some([TimeRow(walk1, walk2)] + OctetRows(walk1, walk2) + UtilizationRows(walk1, walk2) + CountRows(walk1, walk2))
  }

  /** The descriptions of two lists of rows, one after the other. */
  lemma LabelsAppend(a: seq<Row>, b: seq<Row>)
    ensures Labels(a + b) == Labels(a) + Labels(b)
  {
    assert forall k :: 0 <= k < |a + b| ==> Labels(a + b)[k] == (Labels(a) + Labels(b))[k];
  }

  /** When the speeds differ the table is the time row and the mismatch notice. */
  lemma StatisticsMismatchLayout(walk1: Snapshot, walk2: Snapshot)
    requires walk1.sysUpTime < walk2.sysUpTime && walk1.ifSpeed != walk2.ifSpeed
    ensures Labels(Statistics(walk1, walk2).value) == [TimeRowLabel, MismatchRow.description]
    ensures Statistics(walk1, walk2).value == [TimeRow(walk1, walk2), MismatchRow]
  {
  }

  /**
   * When the speeds match the rows come in the fixed order: time, speed and
   * octets, then three utilization rows (or, for speed zero, the zero-speed
   * notice), then discards and errors.
   */
  lemma StatisticsLayout(walk1: Snapshot, walk2: Snapshot)
    requires walk1.sysUpTime < walk2.sysUpTime && walk1.ifSpeed == walk2.ifSpeed
    ensures walk1.ifSpeed != 0 ==> Labels(Statistics(walk1, walk2).value) == FullLabels
    ensures walk1.ifSpeed == 0 ==> Labels(Statistics(walk1, walk2).value) == ZeroSpeedLabels
    ensures walk1.ifSpeed == 0 ==> Statistics(walk1, walk2).value[5] == ZeroSpeedRow
  {
    var time := [TimeRow(walk1, walk2)];
    var octets := OctetRows(walk1, walk2);
    var util := UtilizationRows(walk1, walk2);
    var counts := CountRows(walk1, walk2);
    assert Statistics(walk1, walk2).value == time + octets + util + counts;
    LabelsAppend(time, octets);
    LabelsAppend(time + octets, util);
    LabelsAppend(time + octets + util, counts);
    assert Labels(time) == [TimeRowLabel];
    assert Labels(octets) == OctetLabels;
    assert Labels(counts) == CountLabels;
    if walk1.ifSpeed != 0 {
      assert Labels(util) == UtilizationLabels;
    } else {
      assert util == [ZeroSpeedRow];
      assert Labels(util) == [ZeroSpeedRow.description];
    }
  }

  /** One counter's delta as each block of CalculateStatistics computes it: a long subtraction, then COUNTER32MAX added once if it is negative. */
  method CorrectedDelta(earlier: JavaLong, later: JavaLong) returns (delta: JavaLong)
    ensures delta == CounterDelta(earlier, later)
  {
    delta := Wrap64(later - earlier);
    if delta < 0 {
      delta := Wrap64(delta + Counter32Max);
    }
  }

  /**
   * CalculateStatistics(walk1, walk2), appending one row at a time; the
   * deltas are long subtractions corrected once by COUNTER32MAX.
   */
  method CalculateStatistics(walk1: Snapshot, walk2: Snapshot) returns (r: Option<seq<Row>>)
    ensures r == Statistics(walk1, walk2)
  {
    var stats: seq<Row> := [];
    var ticks := Wrap64(walk2.sysUpTime - walk1.sysUpTime);
    assert ticks == Ticks(walk1.sysUpTime, walk2.sysUpTime);
    if walk1.sysUpTime < walk2.sysUpTime {
      stats := stats + [Row(TimeRowLabel, Seconds(ticks as real / 100.0))];
      assert stats == [TimeRow(walk1, walk2)];
    } else {
      return None;
    }
    if walk1.ifSpeed == walk2.ifSpeed {
      stats := stats + [Row("Interface Speed", Count(walk1.ifSpeed))];
    } else {
      stats := stats + [MismatchRow];
      assert stats == [TimeRow(walk1, walk2), MismatchRow];
      assert Statistics(walk1, walk2) == Some([TimeRow(walk1, walk2), MismatchRow]);
      return Some(stats);
    }

    var inOctetDelta := CorrectedDelta(walk1.ifInOctets, walk2.ifInOctets);
    stats := stats + [Row("Inbound Octet Delta", Count(inOctetDelta))];
    var outOctetDelta := CorrectedDelta(walk1.ifOutOctets, walk2.ifOutOctets);
    stats := stats + [Row("Outbound Octet Delta", Count(outOctetDelta))];
    var totalOctetDelta := Wrap64(inOctetDelta as int + outOctetDelta);
    stats := stats + [Row("Total Delta", Count(totalOctetDelta))];
    assert stats == [TimeRow(walk1, walk2)] + OctetRows(walk1, walk2);
    ghost var octets := stats;

    if ticks != 0 && walk1.ifSpeed != 0 {
      var inUtilization := Utilization(inOctetDelta, ticks, walk1.ifSpeed);
      stats := stats + [Row("Inbound Utilization", Percent(RoundHalfUp3(inUtilization)))];
      var outUtilization := Utilization(outOctetDelta, ticks, walk1.ifSpeed);
      stats := stats + [Row("Outbound Utilization", Percent(RoundHalfUp3(outUtilization)))];
      var totalUtilization := TotalUtilization(totalOctetDelta, ticks, walk1.ifSpeed);
      stats := stats + [Row("Total Utilization", Percent(RoundHalfUp3(totalUtilization)))];
      assert stats == octets + UtilizationRows(walk1, walk2);
    } else {
      if ticks as real / 100.0 == 0.0 {
        stats := stats + [NoTimeRow];
      }
      if walk1.ifSpeed == 0 {
        stats := stats + [ZeroSpeedRow];
      }
      assert stats == octets + UtilizationRows(walk1, walk2);
    }
    ghost var head := stats;
    assert head == [TimeRow(walk1, walk2)] + OctetRows(walk1, walk2) + UtilizationRows(walk1, walk2);

    var counts := CountBlock(walk1, walk2);
    stats := stats + counts;
    return Some(stats);
  }

  /** The discard and error blocks of CalculateStatistics: each direction's corrected delta, then their sum. */
  method CountBlock(walk1: Snapshot, walk2: Snapshot) returns (rows: seq<Row>)
    ensures rows == CountRows(walk1, walk2)
  {
    var inDiscardDelta := CorrectedDelta(walk1.ifInDiscards, walk2.ifInDiscards);
    rows := [Row("Inbound Discards", Count(inDiscardDelta))];
    var outDiscardDelta := CorrectedDelta(walk1.ifOutDiscards, walk2.ifOutDiscards);
    rows := rows + [Row("Outbound Discards", Count(outDiscardDelta))];
    rows := rows + [Row("Total Discards", Count(Wrap64(inDiscardDelta as int + outDiscardDelta)))];
    var inErrorDelta := CorrectedDelta(walk1.ifInErrors, walk2.ifInErrors);
    rows := rows + [Row("Inbound Errors", Count(inErrorDelta))];
    var outErrorDelta := CorrectedDelta(walk1.ifOutErrors, walk2.ifOutErrors);
    rows := rows + [Row("Outbound Errors", Count(outErrorDelta))];
    rows := rows + [Row("Total Errors", Count(Wrap64(inErrorDelta as int + outErrorDelta)))];
  }

  /** Every counter of a snapshot holds a Counter32 value. */
  predicate CountersInRange(s: Snapshot) {
    InCounter32(s.ifInOctets) && InCounter32(s.ifOutOctets) && InCounter32(s.ifInDiscards)
    && InCounter32(s.ifOutDiscards) && InCounter32(s.ifInErrors) && InCounter32(s.ifOutErrors)
  }

  /** For Counter32 octet counters both octet rows lie in 0..COUNTER32MAX and "Total Delta" is their exact sum. */
  lemma OctetRowsTotal(walk1: Snapshot, walk2: Snapshot)
    requires InCounter32(walk1.ifInOctets) && InCounter32(walk2.ifInOctets)
    requires InCounter32(walk1.ifOutOctets) && InCounter32(walk2.ifOutOctets)
    ensures var rows := OctetRows(walk1, walk2);
            && rows[1].value.Count? && rows[2].value.Count? && rows[3].value.Count?
            && 0 <= rows[1].value.n <= Counter32Max && 0 <= rows[2].value.n <= Counter32Max
            && rows[3].value.n == rows[1].value.n + rows[2].value.n
  {
  }

  /** For Counter32 counters every discard and error row is non-negative and each total is the exact sum of its pair. */
  lemma CountRowsTotal(walk1: Snapshot, walk2: Snapshot)
    requires CountersInRange(walk1) && CountersInRange(walk2)
    ensures var rows := CountRows(walk1, walk2);
            && (forall k :: 0 <= k < 6 ==> rows[k].value.Count? && rows[k].value.n >= 0)
            && rows[2].value.n == rows[0].value.n + rows[1].value.n
            && rows[5].value.n == rows[3].value.n + rows[4].value.n
  {
  }

  /** Before rounding, total utilization is the mean of the inbound and outbound utilizations. */
  lemma TotalUtilizationIsMean(inOctets: JavaLong, outOctets: JavaLong, ticks: JavaLong, speed: JavaLong)
    requires InCounter32(inOctets) && InCounter32(outOctets) && ticks != 0 && speed != 0
    ensures TotalUtilization(Wrap64(inOctets + outOctets), ticks, speed)
            == (Utilization(inOctets, ticks, speed) + Utilization(outOctets, ticks, speed)) / 2.0
  {
    var d := (ticks as real / 100.0) * (speed as real);
    assert d != 0.0 by {
      assert ticks as real / 100.0 != 0.0;
    }
    var a := (inOctets * 800) as real;
    var b := (outOctets * 800) as real;
    assert Utilization(inOctets, ticks, speed) == a / d;
    assert Utilization(outOctets, ticks, speed) == b / d;
    assert Utilization(inOctets + outOctets, ticks, speed) == (a + b) / d;
    assert (a + b) / d == a / d + b / d;
  }

  /**
   * For non-negative, increasing sysUpTimes, a positive speed and Counter32
   * octet counters, the three utilization rows are non-negative percentages.
   */
  lemma UtilizationRowsNonNegative(walk1: Snapshot, walk2: Snapshot)
    requires 0 <= walk1.sysUpTime < walk2.sysUpTime && walk1.ifSpeed > 0
    requires InCounter32(walk1.ifInOctets) && InCounter32(walk2.ifInOctets)
    requires InCounter32(walk1.ifOutOctets) && InCounter32(walk2.ifOutOctets)
    ensures var rows := UtilizationRows(walk1, walk2);
            |rows| == 3 && forall k :: 0 <= k < 3 ==> rows[k].value.Percent? && rows[k].value.percent >= 0.0
  {
    var ticks := Ticks(walk1.sysUpTime, walk2.sysUpTime);
    var inOctets := CounterDelta(walk1.ifInOctets, walk2.ifInOctets);
    var outOctets := CounterDelta(walk1.ifOutOctets, walk2.ifOutOctets);
    assert ticks > 0;
    var total := Wrap64(inOctets + outOctets);
    assert total == inOctets + outOctets;
    UtilizationNonNegative(inOctets, ticks, walk1.ifSpeed);
    UtilizationNonNegative(outOctets, ticks, walk1.ifSpeed);
    UtilizationNonNegative(total, ticks, walk1.ifSpeed);
    var inUtil := RoundHalfUp3(Utilization(inOctets, ticks, walk1.ifSpeed));
    var outUtil := RoundHalfUp3(Utilization(outOctets, ticks, walk1.ifSpeed));
    var totalUtil := RoundHalfUp3(TotalUtilization(total, ticks, walk1.ifSpeed));
    assert UtilizationRows(walk1, walk2) ==
      [Row("Inbound Utilization", Percent(inUtil)), Row("Outbound Utilization", Percent(outUtil)),
       Row("Total Utilization", Percent(totalUtil))];
  }

  /** The same, read off the full table: rows 5 to 7 of the fourteen are non-negative percentages. */
  lemma StatisticsUtilizationNonNegative(walk1: Snapshot, walk2: Snapshot)
    requires 0 <= walk1.sysUpTime < walk2.sysUpTime && walk1.ifSpeed == walk2.ifSpeed && walk1.ifSpeed > 0
    requires InCounter32(walk1.ifInOctets) && InCounter32(walk2.ifInOctets)
    requires InCounter32(walk1.ifOutOctets) && InCounter32(walk2.ifOutOctets)
    ensures var rows := Statistics(walk1, walk2).value;
            |rows| == 14 && forall k :: 5 <= k < 8 ==> rows[k].value.Percent? && rows[k].value.percent >= 0.0
  {
    UtilizationRowsNonNegative(walk1, walk2);
    var util := UtilizationRows(walk1, walk2);
    var head := [TimeRow(walk1, walk2)] + OctetRows(walk1, walk2);
    assert |head| == 5;
    var rows := Statistics(walk1, walk2).value;
    assert rows == head + util + CountRows(walk1, walk2);
    assert forall k :: 5 <= k < 8 ==> rows[k] == util[k - 5];
  }

  /** The corrected delta of a counter that wrapped is one less than the Counter32 modular difference. */
  lemma CounterDeltaWrapIsOneShort(earlier: JavaLong, later: JavaLong)
    requires InCounter32(earlier) && InCounter32(later) && later < earlier
    ensures CounterDelta(earlier, later) == (later - earlier) % Counter32Modulus - 1
  {
  }

  /** A counter read as 4294967000 and later as 1000 gives the delta 1295. */
  lemma CounterDeltaExample()
    ensures CounterDelta(4294967000, 1000) == 1295
  {
  }

  // ---------------------------------------------------------------------
  // The ordering rule of the interface table's mouse handler

  const IdenticalRow: Row := Row("Unable to calculate utilization", Message("The time stamps on the two files are identical"))

  /**
   * The handler's table: CalculateStatistics with the snapshot of smaller
   * sysUpTime first, or one notice when the sysUpTimes are equal.
   */
  function OrderedStatistics(s1: Snapshot, s2: Snapshot): (rows: seq<Row>)
    ensures s1.sysUpTime == s2.sysUpTime <==> rows == [IdenticalRow]
    ensures s1.sysUpTime < s2.sysUpTime ==> Some(rows) == Statistics(s1, s2)
    ensures s1.sysUpTime > s2.sysUpTime ==> Some(rows) == Statistics(s2, s1)
    ensures s1.sysUpTime != s2.sysUpTime ==> |rows| >= 2 && rows[0].description == TimeRowLabel
    ensures s1.sysUpTime != s2.sysUpTime && 0 <= s1.sysUpTime && 0 <= s2.sysUpTime ==>
              rows[0].value.Seconds? && rows[0].value.seconds > 0.0
  {
    if s1.sysUpTime < s2.sysUpTime then Statistics(s1, s2).value
    else if s1.sysUpTime > s2.sysUpTime then Statistics(s2, s1).value
    else [IdenticalRow]
  }

  /** The order in which the two walks are given does not change the handler's table. */
  lemma OrderedStatisticsSymmetric(s1: Snapshot, s2: Snapshot)
    ensures OrderedStatistics(s1, s2) == OrderedStatistics(s2, s1)
  {
  }
}
