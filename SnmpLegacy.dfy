/**
 * The older revision of the program (src/com/adamjhowell/snmpinterface/Main.java):
 * FindInterfaces, whose Integer.parseInt is not guarded, CalculateStatistics,
 * which checks the speeds first, does not round and fills an
 * SNMPInterfaceDelta record, and the ordering rule of its mouse handler.
 * Its BuildCompleteSNMPInterface is the loop of the newer revision,
 * SnmpMain.BuildCompleteSNMPInterface, line for line.
 */
module SnmpLegacy {
  import opened JavaText
  import opened WalkModel
  import SnmpMain

  // ---------------------------------------------------------------------
  // FindInterfaces

  /** What FindInterfaces(walk1, walk2) does: returns null, throws a NumberFormatException, or returns the interfaces. */
  datatype Outcome = Incompatible | Thrown | Found(interfaces: seq<IfEntry>)

  /** A line starting with the ifDescr OID whose index text Integer.parseInt rejects. */
  predicate BadIndex(line: string) {
    SnmpMain.IsInterfaceLine(line) && Contains(line, Separator) && ParseInt(IndexText(line)).None?
  }

  /**
   * The substring calls of the older FindInterfaces do not throw on this
   * line: a line that starts with the ifDescr OID holds a separator, and when
   * Integer.parseInt accepts its index, the description bounds lie within the
   * line. An index that parseInt rejects throws before the description is cut.
   */
  predicate LineShapedInt(line: string) {
    SnmpMain.IsInterfaceLine(line) ==>
      Contains(line, Separator) && (ParseInt(IndexText(line)).Some? ==> DescrExtractable(line))
  }

  predicate AllShapedInt(lines: seq<string>) {
    forall k {:trigger LineShapedInt(lines[k])} :: 0 <= k < |lines| ==> LineShapedInt(lines[k])
  }

  /** The forEach body on one line: None when Integer.parseInt throws, else the list with the line's interface added. */
  function AddEntry(found: seq<IfEntry>, line: string): (r: Option<seq<IfEntry>>)
    requires LineShapedInt(line)
    ensures r.None? <==> BadIndex(line)
    ensures r.Some? && !SnmpMain.IsInterfaceLine(line) ==> r.value == found
  {
    if !SnmpMain.IsInterfaceLine(line) then Some(found)
    else
      match ParseInt(IndexText(line))
      case None => None
      case Some(n) =>
        ParseIntThenParseLong(IndexText(line));
        Some(found + [IfEntry(n, DescrText(line))])
  }

  /**
   * The interfaces the forEach collects from the filtered lines, or None when
   * the exception of some line's Integer.parseInt ends the call.
   */
  function InterfacesOrThrow(lines: seq<string>): (r: Option<seq<IfEntry>>)
    requires AllShapedInt(lines)
    ensures r.Some? ==> |r.value| == SnmpMain.CountInterfaceLines(lines)
    ensures r.Some? ==> forall k :: 0 <= k < |r.value| ==> IntMin <= r.value[k].ifIndex <= IntMax
  {
    if lines == [] then Some([])
    else
      var init := lines[..|lines| - 1];
      var last := lines[|lines| - 1];
      assert AllShapedInt(init) by {
        assert forall k :: 0 <= k < |init| ==> init[k] == lines[k];
      }
      match InterfacesOrThrow(init)
      case None => None
      case Some(found) => AddEntry(found, last)
  }

  /** The call throws exactly when one of the lines starting with the ifDescr OID has an index that does not parse as an int. */
  lemma {:induction false} ThrowsIff(lines: seq<string>)
    requires AllShapedInt(lines)
    ensures InterfacesOrThrow(lines).None? <==> exists k {:trigger BadIndex(lines[k])} :: 0 <= k < |lines| && BadIndex(lines[k])
  {
    if lines != [] {
      var init := lines[..|lines| - 1];
      assert AllShapedInt(init) by {
        assert forall k :: 0 <= k < |init| ==> init[k] == lines[k];
      }
      ThrowsIff(init);
      if InterfacesOrThrow(lines).None? {
        if InterfacesOrThrow(init).None? {
          var k :| 0 <= k < |init| && BadIndex(init[k]);
          assert lines[k] == init[k];
        } else {
          assert BadIndex(lines[|lines| - 1]);
        }
      } else {
        forall k | 0 <= k < |lines|
          ensures !BadIndex(lines[k])
        {
          if k < |init| {
            assert lines[k] == init[k];
          }
        }
      }
    }
  }

  /** When nothing throws, the older revision finds the same interfaces as the newer one, which skips bad lines instead. */
  lemma {:induction false} AgreesWithNewerRevision(lines: seq<string>)
    requires AllShapedInt(lines) && InterfacesOrThrow(lines).Some?
    ensures SnmpMain.AllShaped(lines)
    ensures InterfacesOrThrow(lines).value == SnmpMain.InterfacesOf(lines)
  {
    if lines != [] {
      var init := lines[..|lines| - 1];
      var last := lines[|lines| - 1];
      assert AllShapedInt(init) by {
        assert forall k :: 0 <= k < |init| ==> init[k] == lines[k];
      }
      AgreesWithNewerRevision(init);
      assert LineShapedInt(last);
      if SnmpMain.IsInterfaceLine(last) {
        ParseIntThenParseLong(IndexText(last));
      }
      assert SnmpMain.LineShaped(last);
      assert SnmpMain.AllShaped(lines) by {
        forall k | 0 <= k < |lines|
          ensures SnmpMain.LineShaped(lines[k])
        {
          if k < |init| {
            assert lines[k] == init[k];
          }
        }
      }
    }
  }

  /** The line of OverflowingIndexThrows: its index text is "3000000000". */
  lemma OverflowingIndexText(line: string)
    requires line == ".1.3.6.1.2.1.2.2.1.2.3000000000 = X"
    ensures SnmpMain.IsInterfaceLine(line) && Contains(line, Separator) && IndexText(line) == "3000000000"
    ensures !DescrExtractable(line)
  {
    assert line[..|IfDescrOid|] == IfDescrOid;
    assert OccursAt(line, Separator, 31) by {
      assert line[31..34] == Separator;
    }
    forall j | 0 <= j < 31
      ensures !OccursAt(line, Separator, j)
    {
      assert line[j] != ' ';
    }
    assert IndexOf(line, Separator) == 31;
    assert line[21..31] == "3000000000";
  }

  /** "30000" is all digits, with that value. */
  lemma ThirtyThousandDigits()
    ensures AllDigits("30000") && DigitsValue("30000") == 30000
  {
    assert AllDigits("3") && DigitsValue("3") == 3 by {
      assert "3"[..0] == [];
    }
    assert AllDigits("30") && DigitsValue("30") == 30 by {
      assert "30"[..1] == "3";
    }
    assert AllDigits("300") && DigitsValue("300") == 300 by {
      assert "300"[..2] == "30";
    }
    assert AllDigits("3000") && DigitsValue("3000") == 3000 by {
      assert "3000"[..3] == "300";
    }
    assert AllDigits("30000") && DigitsValue("30000") == 30000 by {
      assert "30000"[..4] == "3000";
    }
  }

  /** "3000000000" is all digits, with a value beyond int range. */
  lemma ThreeBillionDigits()
    ensures AllDigits("3000000000") && DigitsValue("3000000000") == 3000000000
  {
    ThirtyThousandDigits();
    assert AllDigits("300000") && DigitsValue("300000") == 300000 by {
      assert "300000"[..5] == "30000";
    }
    assert AllDigits("3000000") && DigitsValue("3000000") == 3000000 by {
      assert "3000000"[..6] == "300000";
    }
    assert AllDigits("30000000") && DigitsValue("30000000") == 30000000 by {
      assert "30000000"[..7] == "3000000";
    }
    assert AllDigits("300000000") && DigitsValue("300000000") == 300000000 by {
      assert "300000000"[..8] == "30000000";
    }
    assert AllDigits("3000000000") && DigitsValue("3000000000") == 3000000000 by {
      assert "3000000000"[..9] == "300000000";
    }
  }

  /**
   * An index beyond int range throws in Integer.parseInt before the
   * description is cut, even on a line too short to hold a description:
   * the older scan throws on such a line, where the newer one's
   * Long.parseLong would accept the index and reach the substring.
   */
  lemma OverflowingIndexThrows()
    ensures var line := ".1.3.6.1.2.1.2.2.1.2.3000000000 = X";
            LineShapedInt(line) && !SnmpMain.LineShaped(line) && BadIndex(line) && InterfacesOrThrow([line]).None?
  {
    var line := ".1.3.6.1.2.1.2.2.1.2.3000000000 = X";
    OverflowingIndexText(line);
    ThreeBillionDigits();
    assert ParseInt("3000000000").None?;
    assert ParseLong("3000000000").Some?;
    assert BadIndex(line);
    assert InterfacesOrThrow([line]).None? by {
      assert [line][..0] == [];
    }
  }

  /** Extending the lines by one applies the forEach body to that line. */
  lemma InterfacesOrThrowStep(lines: seq<string>, i: nat)
    requires AllShapedInt(lines) && i < |lines|
    ensures AllShapedInt(lines[..i]) && AllShapedInt(lines[..i + 1])
    ensures InterfacesOrThrow(lines[..i]).Some? ==>
              InterfacesOrThrow(lines[..i + 1]) == AddEntry(InterfacesOrThrow(lines[..i]).value, lines[i])
  {
    assert lines[..i + 1][..i] == lines[..i];
  }

  /**
   * FindInterfaces(walk1, walk2): null when the lines containing the ifDescr
   * OID differ between the walks; otherwise the (index, description) of each
   * such line that starts with the OID, unless Integer.parseInt throws on an
   * index, which ends the call.
   */
  method FindInterfaces(walk1: seq<string>, walk2: seq<string>) returns (r: Outcome)
    requires DescrLines(walk1) == DescrLines(walk2) ==> AllShapedInt(DescrLines(walk1))
    ensures r.Incompatible? <==> DescrLines(walk1) != DescrLines(walk2)
    ensures r.Thrown? <==> DescrLines(walk1) == DescrLines(walk2) && InterfacesOrThrow(DescrLines(walk1)).None?
    ensures r.Found? ==> Some(r.interfaces) == InterfacesOrThrow(DescrLines(walk1))
  {
    var ifList1 := DescrLines(walk1);
    var ifList2 := DescrLines(walk2);
    if ifList1 != ifList2 {
      return Incompatible;
    }
    var found: seq<IfEntry> := [];
    assert ifList1[..0] == [];
    for i := 0 to |ifList1|
      invariant AllShapedInt(ifList1[..i])
      invariant InterfacesOrThrow(ifList1[..i]) == Some(found)
    {
      var line := ifList1[i];
      InterfacesOrThrowStep(ifList1, i);
      assert LineShapedInt(line);
      if StartsWith(line, IfDescrOid) {
        IndexOfAfterPrefix(line, IfDescrOid, Separator);
        var index := ParseInt(line[21..IndexOf(line, Separator)]);
        if index.None? {
          assert BadIndex(ifList1[i]);
          ThrowsIff(ifList1);
          return Thrown;
        }
        ParseIntThenParseLong(IndexText(line));
        var descr := line[IndexOf(line, Separator) + 12..|line| - 1];
        found := found + [IfEntry(index.value, descr)];
      }
    }
    assert ifList1[..|ifList1|] == ifList1;
    return Found(found);
  }

  // ---------------------------------------------------------------------
  // CalculateStatistics

  /**
   * Each line of the result is modelled as the text before its value and
   * the value; a notice line, which has no value, carries Blank.
   */
  const SpeedLabel: string := "Interface speed: "
  const TimeLabel: string := "Time delta: "
  const UnableRow: Row := Row("Unable to calculate utilization...", Blank)
  const NoTimeRow: Row := Row("\t...no time has passed between walks.", Blank)
  const ZeroSpeedRow: Row := Row("\t...interface speed is zero.", Blank)

  const HeadLabels: seq<string> := [SpeedLabel, TimeLabel, "Inbound Octet delta: ", "Outbound Octet delta: "]
  const UtilizationLabels: seq<string> := ["Inbound Utilization: ", "Outbound Utilization: ", "Total delta: ", "Total Utilization: "]
  const CountLabels: seq<string> := ["Inbound discards: ", "Outbound discards: ", "Inbound errors: ", "Outbound errors: "]

  /** The twelve lines, in order, when the speeds match and are not zero. */
  const FullLabels: seq<string> := HeadLabels + UtilizationLabels + CountLabels

  /** The ten lines when both speeds are zero: two notices replace the four utilization lines. */
  const ZeroSpeedLabels: seq<string> := HeadLabels + [UnableRow.description, ZeroSpeedRow.description] + CountLabels

  /** The time delta shown: the tick difference as a double divided by 100. */
  function TimeDelta(walk1: Snapshot, walk2: Snapshot): real {
    Ticks(walk1.sysUpTime, walk2.sysUpTime) as real / 100.0
  }

  /** The speed, the time delta and the two octet deltas. */
  function HeadRows(walk1: Snapshot, walk2: Snapshot): seq<Row> {
    [Row(SpeedLabel, Count(walk1.ifSpeed)),
     Row(TimeLabel, Seconds(TimeDelta(walk1, walk2))),
     Row("Inbound Octet delta: ", Count(CounterDelta(walk1.ifInOctets, walk2.ifInOctets))),
     Row("Outbound Octet delta: ", Count(CounterDelta(walk1.ifOutOctets, walk2.ifOutOctets)))]
  }

  /** The utilization block: four lines when time has passed and the speed is not zero, else the notices. */
  function UtilizationRows(walk1: Snapshot, walk2: Snapshot): (rows: seq<Row>)
    ensures TimeDelta(walk1, walk2) != 0.0 && walk1.ifSpeed != 0 ==> |rows| == 4
    ensures TimeDelta(walk1, walk2) != 0.0 && walk1.ifSpeed == 0 ==> rows == [UnableRow, ZeroSpeedRow]
  {
    var ticks := Ticks(walk1.sysUpTime, walk2.sysUpTime);
    var speed := walk1.ifSpeed;
    var inOctets := CounterDelta(walk1.ifInOctets, walk2.ifInOctets);
    var outOctets := CounterDelta(walk1.ifOutOctets, walk2.ifOutOctets);
    if TimeDelta(walk1, walk2) != 0.0 && speed != 0 then
      [Row("Inbound Utilization: ", Percent(Utilization(inOctets, ticks, speed))),
       Row("Outbound Utilization: ", Percent(Utilization(outOctets, ticks, speed))),
       Row("Total delta: ", Count(Wrap64(inOctets + outOctets))),
       Row("Total Utilization: ", Percent(TotalUtilization(Wrap64(inOctets + outOctets), ticks, speed)))]
    else
      [UnableRow] + (if TimeDelta(walk1, walk2) == 0.0 then [NoTimeRow] else []) + (if speed == 0 then [ZeroSpeedRow] else [])
  }

  /** The discard and error deltas; this revision has no totals for them. */
  function CountRows(walk1: Snapshot, walk2: Snapshot): seq<Row> {
    [Row("Inbound discards: ", Count(CounterDelta(walk1.ifInDiscards, walk2.ifInDiscards))),
     Row("Outbound discards: ", Count(CounterDelta(walk1.ifOutDiscards, walk2.ifOutDiscards))),
     Row("Inbound errors: ", Count(CounterDelta(walk1.ifInErrors, walk2.ifInErrors))),
     Row("Outbound errors: ", Count(CounterDelta(walk1.ifOutErrors, walk2.ifOutErrors)))]
  }

  /** The table, given the outcome of the speed comparison: null unless the speeds match and time has moved forward. */
  function Table(walk1: Snapshot, walk2: Snapshot, speedsMatch: bool): Option<seq<Row>> {
    if !speedsMatch then None
    else if !(walk1.sysUpTime < walk2.sysUpTime) then None
    else Some(HeadRows(walk1, walk2) + UtilizationRows(walk1, walk2) + CountRows(walk1, walk2))
  }

  /**
   * What CalculateStatistics(walk1, walk2) returns, with the speeds compared
   * by value: null when they differ, then null unless walk1's sysUpTime is
   * the smaller; otherwise twelve lines, or ten when the speed is zero.
   */
  function Statistics(walk1: Snapshot, walk2: Snapshot): (r: Option<seq<Row>>)
    ensures r.None? <==> walk1.ifSpeed != walk2.ifSpeed || !(walk1.sysUpTime < walk2.sysUpTime)
    ensures r.Some? ==> |r.value| == (if walk1.ifSpeed != 0 then 12 else 10)
    ensures r.Some? ==> r.value[1] == Row(TimeLabel, Seconds(TimeDelta(walk1, walk2)))
  {
    Table(walk1, walk2, walk1.ifSpeed == walk2.ifSpeed)
  }

  /** The descriptions of the lines come in the fixed order, with the two notices in place of utilization when the speed is zero. */
  lemma StatisticsLayout(walk1: Snapshot, walk2: Snapshot)
    requires Statistics(walk1, walk2).Some?
    ensures walk1.ifSpeed != 0 ==> Labels(Statistics(walk1, walk2).value) == FullLabels
    ensures walk1.ifSpeed == 0 ==> Labels(Statistics(walk1, walk2).value) == ZeroSpeedLabels
  {
    var head := HeadRows(walk1, walk2);
    var util := UtilizationRows(walk1, walk2);
    var counts := CountRows(walk1, walk2);
    assert Statistics(walk1, walk2).value == head + util + counts;
    SnmpMain.LabelsAppend(head, util);
    SnmpMain.LabelsAppend(head + util, counts);
    assert Labels(head) == HeadLabels;
    assert Labels(counts) == CountLabels;
    if walk1.ifSpeed != 0 {
      assert Labels(util) == UtilizationLabels;
    } else {
      assert Labels(util) == [UnableRow.description, ZeroSpeedRow.description];
    }
  }

  // ---------------------------------------------------------------------
  // The speed comparison as written

  /**
   * Whether `==` holds between two Long objects that autoboxing made from a
   * and b: Long.valueOf shares one object per value only for -128..127, so
   * `==` compares identities and is false for equal values outside that range.
   */
  predicate SameBoxedLong(a: JavaLong, b: JavaLong) {
    a == b && -128 <= a <= 127
  }

  /** CalculateStatistics with the speeds compared by `==` on their Long objects. */
  function StatisticsAsWritten(walk1: Snapshot, walk2: Snapshot): (r: Option<seq<Row>>)
    ensures r.Some? ==> r == Statistics(walk1, walk2)
  {
    Table(walk1, walk2, SameBoxedLong(walk1.ifSpeed, walk2.ifSpeed))
  }

  /** Equal speeds outside -128..127, such as 100000000 on both walks, make the comparison as written report a mismatch. */
  lemma AsWrittenRejectsEqualSpeeds(walk1: Snapshot, walk2: Snapshot)
    requires walk1.ifSpeed == walk2.ifSpeed && !(-128 <= walk1.ifSpeed <= 127)
    requires walk1.sysUpTime < walk2.sysUpTime
    ensures StatisticsAsWritten(walk1, walk2).None?
    ensures Statistics(walk1, walk2).Some?
  {
  }

  // ---------------------------------------------------------------------
  // The SNMPInterfaceDelta record and the method

  /** The SNMPInterfaceDelta record CalculateStatistics fills through its setters. */
  class InterfaceDelta {
    var timeDelta: real
    var inOctetDelta: JavaLong
    var outOctetDelta: JavaLong
    var totalDelta: JavaLong
    var inUtilization: real
    var outUtilization: real
    var totalUtilization: real
    var inDiscardDelta: JavaLong
    var outDiscardDelta: JavaLong
    var inErrorDelta: JavaLong
    var outErrorDelta: JavaLong

    /** Every field starts at Java's default, zero. */
    constructor ()
      ensures timeDelta == 0.0 && inOctetDelta == 0 && outOctetDelta == 0 && totalDelta == 0
      ensures inUtilization == 0.0 && outUtilization == 0.0 && totalUtilization == 0.0
      ensures inDiscardDelta == 0 && outDiscardDelta == 0 && inErrorDelta == 0 && outErrorDelta == 0
    {
      timeDelta := 0.0;
      inOctetDelta := 0;
      outOctetDelta := 0;
      totalDelta := 0;
      inUtilization := 0.0;
      outUtilization := 0.0;
      totalUtilization := 0.0;
      inDiscardDelta := 0;
      outDiscardDelta := 0;
      inErrorDelta := 0;
      outErrorDelta := 0;
    }

    /**
     * The setters CalculateStatistics calls; setTimeDelta takes a long, which
     * the double field receives as a whole number.
     */
    method Fill(time: JavaLong, inOctets: JavaLong, outOctets: JavaLong, total: JavaLong,
                inUtil: real, outUtil: real, totalUtil: real,
                inDiscards: JavaLong, outDiscards: JavaLong, inErrors: JavaLong, outErrors: JavaLong)
      modifies this
      ensures timeDelta == time as real && inOctetDelta == inOctets && outOctetDelta == outOctets && totalDelta == total
      ensures inUtilization == inUtil && outUtilization == outUtil && totalUtilization == totalUtil
      ensures inDiscardDelta == inDiscards && outDiscardDelta == outDiscards
      ensures inErrorDelta == inErrors && outErrorDelta == outErrors
    {
      timeDelta := time as real;
      inOctetDelta := inOctets;
      outOctetDelta := outOctets;
      totalDelta := total;
      inUtilization := inUtil;
      outUtilization := outUtil;
      totalUtilization := totalUtil;
      inDiscardDelta := inDiscards;
      outDiscardDelta := outDiscards;
      inErrorDelta := inErrors;
      outErrorDelta := outErrors;
    }
  }

  /**
   * CalculateStatistics(walk1, walk2), appending one line at a time, with the
   * speeds compared by value. The record it fills is returned as `record` so
   * that its contents can be stated: it receives the time as whole seconds
   * (a long division) where the table shows ticks / 100.0, and keeps zero
   * utilization when the speed is zero.
   */
  method CalculateStatistics(walk1: Snapshot, walk2: Snapshot) returns (r: Option<seq<Row>>, record: InterfaceDelta)
    ensures r == Statistics(walk1, walk2)
    ensures r.Some? ==> record.timeDelta == TruncDiv(Ticks(walk1.sysUpTime, walk2.sysUpTime), 100) as real
    ensures r.Some? ==> record.inOctetDelta == CounterDelta(walk1.ifInOctets, walk2.ifInOctets)
                        && record.outOctetDelta == CounterDelta(walk1.ifOutOctets, walk2.ifOutOctets)
    ensures r.Some? ==> record.inDiscardDelta == CounterDelta(walk1.ifInDiscards, walk2.ifInDiscards)
                        && record.outDiscardDelta == CounterDelta(walk1.ifOutDiscards, walk2.ifOutDiscards)
                        && record.inErrorDelta == CounterDelta(walk1.ifInErrors, walk2.ifInErrors)
                        && record.outErrorDelta == CounterDelta(walk1.ifOutErrors, walk2.ifOutErrors)
    ensures r.Some? && walk1.ifSpeed != 0 ==>
              var ticks := Ticks(walk1.sysUpTime, walk2.sysUpTime);
              var inOctets := CounterDelta(walk1.ifInOctets, walk2.ifInOctets);
              var outOctets := CounterDelta(walk1.ifOutOctets, walk2.ifOutOctets);
              record.totalDelta == Wrap64(inOctets + outOctets)
              && record.inUtilization == Utilization(inOctets, ticks, walk1.ifSpeed)
              && record.outUtilization == Utilization(outOctets, ticks, walk1.ifSpeed)
              && record.totalUtilization == TotalUtilization(Wrap64(inOctets + outOctets), ticks, walk1.ifSpeed)
    ensures r.Some? && walk1.ifSpeed == 0 ==>
              record.totalDelta == 0 && record.inUtilization == 0.0 && record.outUtilization == 0.0 && record.totalUtilization == 0.0
  {
    var stats: seq<Row> := [];
    record := new InterfaceDelta();
    var ifSpeed: JavaLong;
    if walk1.ifSpeed == walk2.ifSpeed {
      ifSpeed := walk1.ifSpeed;
      stats := stats + [Row(SpeedLabel, Count(ifSpeed))];
    } else {
      return None, record;
    }
    var ticks: JavaLong;
    if walk1.sysUpTime < walk2.sysUpTime {
      ticks := Wrap64(walk2.sysUpTime - walk1.sysUpTime);
      stats := stats + [Row(TimeLabel, Seconds(ticks as real / 100.0))];
    } else {
      return None, record;
    }

    var inOctetDelta := SnmpMain.CorrectedDelta(walk1.ifInOctets, walk2.ifInOctets);
    stats := stats + [Row("Inbound Octet delta: ", Count(inOctetDelta))];
    var outOctetDelta := SnmpMain.CorrectedDelta(walk1.ifOutOctets, walk2.ifOutOctets);
    stats := stats + [Row("Outbound Octet delta: ", Count(outOctetDelta))];
    assert stats == HeadRows(walk1, walk2);

    var utilization, totalDelta, inUtilization, outUtilization, totalUtilization :=
      UtilizationBlock(walk1, walk2, ticks, inOctetDelta, outOctetDelta);
    stats := stats + utilization;
    var counts, inDiscardDelta, outDiscardDelta, inErrorDelta, outErrorDelta := CountBlock(walk1, walk2);
    stats := stats + counts;

    record.Fill(TruncDiv(ticks, 100), inOctetDelta, outOctetDelta, totalDelta, inUtilization, outUtilization,
      totalUtilization, inDiscardDelta, outDiscardDelta, inErrorDelta, outErrorDelta);
    return Some(stats), record;
  }

  /**
   * The utilization block of CalculateStatistics: the four utilization lines
   * when time has passed and the speed is not zero, else the notices; and the
   * values it hands to the record's setters (zero where it calls none).
   */
  method UtilizationBlock(walk1: Snapshot, walk2: Snapshot, ticks: JavaLong, inOctetDelta: JavaLong, outOctetDelta: JavaLong)
    returns (rows: seq<Row>, totalDelta: JavaLong, inUtilization: real, outUtilization: real, totalUtilization: real)
    requires ticks == Ticks(walk1.sysUpTime, walk2.sysUpTime)
    requires inOctetDelta == CounterDelta(walk1.ifInOctets, walk2.ifInOctets)
    requires outOctetDelta == CounterDelta(walk1.ifOutOctets, walk2.ifOutOctets)
    ensures rows == UtilizationRows(walk1, walk2)
    ensures TimeDelta(walk1, walk2) != 0.0 && walk1.ifSpeed != 0 ==>
              totalDelta == Wrap64(inOctetDelta + outOctetDelta)
              && inUtilization == Utilization(inOctetDelta, ticks, walk1.ifSpeed)
              && outUtilization == Utilization(outOctetDelta, ticks, walk1.ifSpeed)
              && totalUtilization == TotalUtilization(Wrap64(inOctetDelta + outOctetDelta), ticks, walk1.ifSpeed)
    ensures !(TimeDelta(walk1, walk2) != 0.0 && walk1.ifSpeed != 0) ==>
              totalDelta == 0 && inUtilization == 0.0 && outUtilization == 0.0 && totalUtilization == 0.0
  {
    var timeDelta := ticks as real / 100.0;
    var ifSpeed := walk1.ifSpeed;
    rows := [];
    totalDelta, inUtilization, outUtilization, totalUtilization := 0, 0.0, 0.0, 0.0;
    if timeDelta != 0.0 && ifSpeed != 0 {
      inUtilization := Utilization(inOctetDelta, ticks, ifSpeed);
      rows := rows + [Row("Inbound Utilization: ", Percent(inUtilization))];
      outUtilization := Utilization(outOctetDelta, ticks, ifSpeed);
      rows := rows + [Row("Outbound Utilization: ", Percent(outUtilization))];
      totalDelta := Wrap64(inOctetDelta as int + outOctetDelta);
      totalUtilization := TotalUtilization(totalDelta, ticks, ifSpeed);
      rows := rows + [Row("Total delta: ", Count(totalDelta))];
      rows := rows + [Row("Total Utilization: ", Percent(totalUtilization))];
    } else {
      rows := rows + [UnableRow];
      if timeDelta == 0.0 {
        rows := rows + [NoTimeRow];
      }
      if ifSpeed == 0 {
        rows := rows + [ZeroSpeedRow];
      }
    }
  }

  /** The discard and error block of CalculateStatistics: four corrected deltas, each shown and handed to its setter. */
  method CountBlock(walk1: Snapshot, walk2: Snapshot)
    returns (rows: seq<Row>, inDiscardDelta: JavaLong, outDiscardDelta: JavaLong, inErrorDelta: JavaLong, outErrorDelta: JavaLong)
    ensures rows == CountRows(walk1, walk2)
    ensures inDiscardDelta == CounterDelta(walk1.ifInDiscards, walk2.ifInDiscards)
    ensures outDiscardDelta == CounterDelta(walk1.ifOutDiscards, walk2.ifOutDiscards)
    ensures inErrorDelta == CounterDelta(walk1.ifInErrors, walk2.ifInErrors)
    ensures outErrorDelta == CounterDelta(walk1.ifOutErrors, walk2.ifOutErrors)
  {
    inDiscardDelta := SnmpMain.CorrectedDelta(walk1.ifInDiscards, walk2.ifInDiscards);
    rows := [Row("Inbound discards: ", Count(inDiscardDelta))];
    outDiscardDelta := SnmpMain.CorrectedDelta(walk1.ifOutDiscards, walk2.ifOutDiscards);
    rows := rows + [Row("Outbound discards: ", Count(outDiscardDelta))];
    inErrorDelta := SnmpMain.CorrectedDelta(walk1.ifInErrors, walk2.ifInErrors);
    rows := rows + [Row("Inbound errors: ", Count(inErrorDelta))];
    outErrorDelta := SnmpMain.CorrectedDelta(walk1.ifOutErrors, walk2.ifOutErrors);
    rows := rows + [Row("Outbound errors: ", Count(outErrorDelta))];
  }

  // ---------------------------------------------------------------------
  // Properties of the table

  /** The record keeps the whole seconds of the time delta the table shows. */
  lemma RecordedTimeIsWholeSeconds(ticks: int)
    requires ticks > 0
    ensures TruncDiv(ticks, 100) as real <= ticks as real / 100.0 < TruncDiv(ticks, 100) as real + 1.0
    ensures ticks % 100 != 0 ==> TruncDiv(ticks, 100) as real < ticks as real / 100.0
  {
  }

  /** For Counter32 counters every delta line lies in 0..COUNTER32MAX and "Total delta" is the sum of the octet deltas. */
  lemma DeltasInRange(walk1: Snapshot, walk2: Snapshot)
    requires Statistics(walk1, walk2).Some?
    requires SnmpMain.CountersInRange(walk1) && SnmpMain.CountersInRange(walk2)
    ensures var rows := Statistics(walk1, walk2).value;
            forall k :: k in [2, 3] + (if walk1.ifSpeed != 0 then [8, 9, 10, 11] else [6, 7, 8, 9]) ==>
              0 <= k < |rows| && rows[k].value.Count? && 0 <= rows[k].value.n <= Counter32Max
    ensures var rows := Statistics(walk1, walk2).value;
            walk1.ifSpeed != 0 ==> rows[6].value.Count? && rows[6].value.n == rows[2].value.n + rows[3].value.n
  {
  }

  /** Total Utilization is the mean of the inbound and outbound utilizations (this revision does not round). */
  lemma TotalUtilizationIsMean(walk1: Snapshot, walk2: Snapshot)
    requires Statistics(walk1, walk2).Some? && walk1.ifSpeed != 0
    requires InCounter32(walk1.ifInOctets) && InCounter32(walk2.ifInOctets)
    requires InCounter32(walk1.ifOutOctets) && InCounter32(walk2.ifOutOctets)
    ensures var rows := Statistics(walk1, walk2).value;
            rows[4].value.Percent? && rows[5].value.Percent? && rows[7].value.Percent?
            && rows[7].value.percent == (rows[4].value.percent + rows[5].value.percent) / 2.0
  {
    var ticks := Ticks(walk1.sysUpTime, walk2.sysUpTime);
    SnmpMain.TotalUtilizationIsMean(CounterDelta(walk1.ifInOctets, walk2.ifInOctets),
      CounterDelta(walk1.ifOutOctets, walk2.ifOutOctets), ticks, walk1.ifSpeed);
  }

  /**
   * With a non-negative earlier sysUpTime, a positive speed and Counter32
   * octet counters, the inbound, outbound and total utilization lines are
   * non-negative percentages.
   */
  lemma UtilizationNonNegativeRows(walk1: Snapshot, walk2: Snapshot)
    requires Statistics(walk1, walk2).Some? && 0 <= walk1.sysUpTime && walk1.ifSpeed > 0
    requires InCounter32(walk1.ifInOctets) && InCounter32(walk2.ifInOctets)
    requires InCounter32(walk1.ifOutOctets) && InCounter32(walk2.ifOutOctets)
    ensures var rows := Statistics(walk1, walk2).value;
            && rows[4].value.Percent? && rows[4].value.percent >= 0.0
            && rows[5].value.Percent? && rows[5].value.percent >= 0.0
            && rows[7].value.Percent? && rows[7].value.percent >= 0.0
  {
    var ticks := Ticks(walk1.sysUpTime, walk2.sysUpTime);
    var inOctets := CounterDelta(walk1.ifInOctets, walk2.ifInOctets);
    var outOctets := CounterDelta(walk1.ifOutOctets, walk2.ifOutOctets);
    assert ticks > 0;
    var total := Wrap64(inOctets + outOctets);
    assert total == inOctets + outOctets;
    UtilizationNonNegative(inOctets, ticks, walk1.ifSpeed);
    UtilizationNonNegative(outOctets, ticks, walk1.ifSpeed);
    UtilizationNonNegative(total, ticks, walk1.ifSpeed);
    TimeDeltaPositive(walk1, walk2);
    var rows := Statistics(walk1, walk2).value;
    assert rows == HeadRows(walk1, walk2) + UtilizationRows(walk1, walk2) + CountRows(walk1, walk2);
    assert rows[4..8] == UtilizationRows(walk1, walk2);
  }

  /**
   * Against the newer revision, for the same snapshots with time moving
   * forward: this one returns null exactly where the newer one shows the
   * speed mismatch, and otherwise the newer one shows the same octet deltas
   * and this revision's utilizations rounded to three places.
   */
  lemma ComparedWithNewerRevision(walk1: Snapshot, walk2: Snapshot)
    requires walk1.sysUpTime < walk2.sysUpTime
    ensures Statistics(walk1, walk2).None? <==> SnmpMain.Statistics(walk1, walk2).value[1] == SnmpMain.MismatchRow
    ensures Statistics(walk1, walk2).Some? ==>
              var older := Statistics(walk1, walk2).value;
              var newer := SnmpMain.Statistics(walk1, walk2).value;
              newer[2].value == older[2].value && newer[3].value == older[3].value
    ensures Statistics(walk1, walk2).Some? && walk1.ifSpeed != 0 ==>
              var older := Statistics(walk1, walk2).value;
              var newer := SnmpMain.Statistics(walk1, walk2).value;
              newer[4].value == older[6].value
              && newer[5].value == Percent(RoundHalfUp3(older[4].value.percent))
              && newer[6].value == Percent(RoundHalfUp3(older[5].value.percent))
              && newer[7].value == Percent(RoundHalfUp3(older[7].value.percent))
  {
  }

  // ---------------------------------------------------------------------
  // The ordering rule of the mouse handler

  const IdenticalRows: seq<Row> := [
    Row("Unable to calculate utilization:", Blank),
    Row("The time stamps on the two files are identical.", Blank)]

  /**
   * The handler's list: CalculateStatistics with the snapshot of smaller
   * sysUpTime first (null when the speeds differ), or two notices when the
   * sysUpTimes are equal.
   */
  function OrderedStatistics(s1: Snapshot, s2: Snapshot): (r: Option<seq<Row>>)
    ensures s1.sysUpTime == s2.sysUpTime ==> r == Some(IdenticalRows)
    ensures s1.sysUpTime < s2.sysUpTime ==> r == Statistics(s1, s2)
    ensures s1.sysUpTime > s2.sysUpTime ==> r == Statistics(s2, s1)
    ensures s1.sysUpTime != s2.sysUpTime ==> (r.None? <==> s1.ifSpeed != s2.ifSpeed)
    ensures r.Some? && s1.sysUpTime != s2.sysUpTime && 0 <= s1.sysUpTime && 0 <= s2.sysUpTime ==>
              |r.value| >= 10 && r.value[1].description == TimeLabel && r.value[1].value.Seconds? && r.value[1].value.seconds > 0.0
  {
    TimeDeltaPositive(s1, s2);
    TimeDeltaPositive(s2, s1);
    if s1.sysUpTime < s2.sysUpTime then Statistics(s1, s2)
    else if s1.sysUpTime > s2.sysUpTime then Statistics(s2, s1)
    else Some(IdenticalRows)
  }

  /** Between non-negative sysUpTimes, time moving forward gives a positive time delta. */
  lemma TimeDeltaPositive(walk1: Snapshot, walk2: Snapshot)
    ensures 0 <= walk1.sysUpTime < walk2.sysUpTime ==> TimeDelta(walk1, walk2) > 0.0
  {
  }

  /** The order in which the two walks are given does not change the handler's list. */
  lemma OrderedStatisticsSymmetric(s1: Snapshot, s2: Snapshot)
    ensures OrderedStatistics(s1, s2) == OrderedStatistics(s2, s1)
  {
  }
}
