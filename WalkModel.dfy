/**
 * The data of an SNMP walk comparison, shared by every revision of the
 * program: the MIB-II OIDs the parser looks for (the ifTable of RFC 1213),
 * the interface snapshot built from one walk, the statistic rows, the
 * else-if chain that routes a walk line to one snapshot field, and the
 * Counter32 delta arithmetic.
 */
module WalkModel {
  import opened JavaText

  const SysUpTimeOid: string := ".1.3.6.1.2.1.1.3.0"
  const IfDescrOid: string := ".1.3.6.1.2.1.2.2.1.2."
  const IfSpeedOid: string := ".1.3.6.1.2.1.2.2.1.5."
  const IfInOctetsOid: string := ".1.3.6.1.2.1.2.2.1.10."
  const IfInDiscardsOid: string := ".1.3.6.1.2.1.2.2.1.13."
  const IfInErrorsOid: string := ".1.3.6.1.2.1.2.2.1.14."
  const IfOutOctetsOid: string := ".1.3.6.1.2.1.2.2.1.16."
  const IfOutDiscardsOid: string := ".1.3.6.1.2.1.2.2.1.19."
  const IfOutErrorsOid: string := ".1.3.6.1.2.1.2.2.1.20."

  /** COUNTER32MAX: the largest Counter32 value, which the program adds once on a wrap. */
  const Counter32Max: int := 4294967295
  /** The Counter32 modulus of section 7.1.6 of RFC 2578. */
  const Counter32Modulus: int := 0x1_0000_0000

  /** The separator between an OID and its value in a walk line. */
  const Separator: string := " = "
  /** Offset of the sysUpTime value: the OID, the separator and "Timeticks: ". */
  const SysUpTimeValueOffset: nat := 32

  /** An interface as listed for selection: its ifIndex and ifDescr. */
  datatype IfEntry = IfEntry(ifIndex: JavaLong, ifDescr: string)

  /** Everything BuildCompleteSNMPInterface gathers for one interface from one walk. */
  datatype Snapshot = Snapshot(
    ifIndex: JavaLong,
    ifDescr: string,
    sysUpTime: JavaLong,
    ifSpeed: JavaLong,
    ifInOctets: JavaLong,
    ifInDiscards: JavaLong,
    ifInErrors: JavaLong,
    ifOutOctets: JavaLong,
    ifOutDiscards: JavaLong,
    ifOutErrors: JavaLong)

  /** The value of one statistic row; utilization is a percentage, time is in seconds. */
  datatype Value = Seconds(seconds: real) | Count(n: int) | Percent(percent: real) | Message(text: string) | Blank

  /** A (description, value) pair for display and export. */
  datatype Row = Row(description: string, value: Value)

  /** The descriptions of a list of rows, in order. */
  function Labels(rows: seq<Row>): (labels: seq<string>)
    ensures |labels| == |rows|
    ensures forall k :: 0 <= k < |rows| ==> labels[k] == rows[k].description
  {
    seq(|rows|, k requires 0 <= k < |rows| => rows[k].description)
  }

  // ---------------------------------------------------------------------
  // The else-if chain of BuildCompleteSNMPInterface

  /** The snapshot field a walk line is routed to. */
  datatype Field =
    | SysUpTime | IfDescr | IfSpeed | IfInOctets | IfInDiscards | IfInErrors
    | IfOutOctets | IfOutDiscards | IfOutErrors | Unmatched

  /** The position of a branch in the chain; Unmatched comes after every branch. */
  function Rank(f: Field): nat {
    match f
    case SysUpTime => 0
    case IfDescr => 1
    case IfSpeed => 2
    case IfInOctets => 3
    case IfInDiscards => 4
    case IfInErrors => 5
    case IfOutOctets => 6
    case IfOutDiscards => 7
    case IfOutErrors => 8
    case Unmatched => 9
  }

  /** The ifTable column OID of a per-interface branch. */
  function ColumnOid(f: Field): string
    requires f != Unmatched && f != SysUpTime
  {
    match f
    case IfDescr => IfDescrOid
    case IfSpeed => IfSpeedOid
    case IfInOctets => IfInOctetsOid
    case IfInDiscards => IfInDiscardsOid
    case IfInErrors => IfInErrorsOid
    case IfOutOctets => IfOutOctetsOid
    case IfOutDiscards => IfOutDiscardsOid
    case IfOutErrors => IfOutErrorsOid
  }

  /** The prefix a branch tests: sysUpTime's scalar OID, or a column OID followed by the index in decimal. */
  function BranchPrefix(f: Field, ifIndex: int): string
    requires f != Unmatched
  {
    if f == SysUpTime then SysUpTimeOid else ColumnOid(f) + DecimalText(ifIndex)
  }

  /** The branch at a position of the chain. */
  function BranchAt(r: nat): (f: Field)
    requires r < 9
    ensures f != Unmatched && Rank(f) == r
  {
    match r
    case 0 => SysUpTime
    case 1 => IfDescr
    case 2 => IfSpeed
    case 3 => IfInOctets
    case 4 => IfInDiscards
    case 5 => IfInErrors
    case 6 => IfOutOctets
    case 7 => IfOutDiscards
    case _ => IfOutErrors
  }

  /** The chain from position r on: the first branch whose prefix the line starts with. */
  function ClassifyFrom(line: string, ifIndex: int, r: nat): Field
    decreases 9 - r
  {
    if r >= 9 then Unmatched
    else if StartsWith(line, BranchPrefix(BranchAt(r), ifIndex)) then BranchAt(r)
    else ClassifyFrom(line, ifIndex, r + 1)
  }

  /**
   * The branch of the else-if chain a line takes: sysUpTime, then the eight
   * ifTable columns for the index in the order of the chain, each tested with
   * String.startsWith; Unmatched when no test succeeds.
   */
  function Classify(line: string, ifIndex: int): Field {
    ClassifyFrom(line, ifIndex, 0)
  }

  lemma {:induction false} ClassifyFromMatches(line: string, ifIndex: int, r: nat)
    requires ClassifyFrom(line, ifIndex, r) != Unmatched
    ensures Rank(ClassifyFrom(line, ifIndex, r)) >= r
    ensures StartsWith(line, BranchPrefix(ClassifyFrom(line, ifIndex, r), ifIndex))
    decreases 9 - r
  {
    if r < 9 && !StartsWith(line, BranchPrefix(BranchAt(r), ifIndex)) {
      ClassifyFromMatches(line, ifIndex, r + 1);
    }
  }

  lemma {:induction false} ClassifyFromMisses(line: string, ifIndex: int, r: nat, g: Field)
    requires g != Unmatched && r <= Rank(g) < Rank(ClassifyFrom(line, ifIndex, r))
    ensures !StartsWith(line, BranchPrefix(g, ifIndex))
    decreases 9 - r
  {
    if Rank(g) == r {
      assert BranchAt(r) == g;
    } else {
      ClassifyFromMisses(line, ifIndex, r + 1, g);
    }
  }

  /** A line routed to a branch starts with that branch's prefix. */
  lemma ClassifyMatches(line: string, ifIndex: int)
    requires Classify(line, ifIndex) != Unmatched
    ensures StartsWith(line, BranchPrefix(Classify(line, ifIndex), ifIndex))
  {
    ClassifyFromMatches(line, ifIndex, 0);
  }

  /**
   * The chain takes the first branch whose prefix matches: a branch earlier
   * than the chosen one (every branch, when the line is Unmatched) does not
   * match the line.
   */
  lemma ClassifyEarlierMiss(line: string, ifIndex: int, g: Field)
    requires g != Unmatched && Rank(g) < Rank(Classify(line, ifIndex))
    ensures !StartsWith(line, BranchPrefix(g, ifIndex))
  {
    ClassifyFromMisses(line, ifIndex, 0, g);
  }

  /** Where a branch's value text starts: offset 32 for sysUpTime, 12 or 14 after the separator otherwise. */
  function ValueStart(line: string, f: Field): int
    requires f != Unmatched
  {
    match f
    case SysUpTime => SysUpTimeValueOffset
    case IfDescr => IndexOf(line, Separator) + 12
    case IfSpeed => IndexOf(line, Separator) + 12
    case _ => IndexOf(line, Separator) + 14
  }

  /** The end of a branch's value text: the last character (the closing quote) is cut from a description. */
  function ValueEnd(line: string, f: Field): int
    requires f != Unmatched
  {
    if f == IfDescr then |line| - 1 else |line|
  }

  /** The branch's String.substring call does not throw: the bounds lie within the line. */
  predicate Extractable(line: string, f: Field) {
    f == Unmatched || (0 <= ValueStart(line, f) <= ValueEnd(line, f) <= |line|)
  }

  function ValueText(line: string, f: Field): string
    requires f != Unmatched && Extractable(line, f)
  {
    if f == IfDescr then line[ValueStart(line, f)..|line| - 1] else line[ValueStart(line, f)..]
  }

  /** The field of a snapshot, as a number or (for the description) as text. */
  datatype FieldValue = Num(n: JavaLong) | Text(s: string)

  /**
   * What the branch stores: the description text as is, every other value
   * through Long.parseLong; None is the uncaught NumberFormatException.
   */
  function Extract(line: string, f: Field): (r: Option<FieldValue>)
    requires f != Unmatched && Extractable(line, f)
    ensures f == IfDescr ==> r == Some(Text(ValueText(line, f)))
    ensures f != IfDescr ==> (r.None? <==> ParseLong(ValueText(line, f)).None?)
    ensures r.Some? ==> (r.value.Text? <==> f == IfDescr)
  {
    if f == IfDescr then Some(Text(ValueText(line, f)))
    else
      match ParseLong(ValueText(line, f))
      case None => None
      case Some(n) => Some(Num(n))
  }

  function Get(s: Snapshot, f: Field): FieldValue
    requires f != Unmatched
  {
    match f
    case SysUpTime => Num(s.sysUpTime)
    case IfDescr => Text(s.ifDescr)
    case IfSpeed => Num(s.ifSpeed)
    case IfInOctets => Num(s.ifInOctets)
    case IfInDiscards => Num(s.ifInDiscards)
    case IfInErrors => Num(s.ifInErrors)
    case IfOutOctets => Num(s.ifOutOctets)
    case IfOutDiscards => Num(s.ifOutDiscards)
    case IfOutErrors => Num(s.ifOutErrors)
  }

  /** The snapshot with one field replaced. */
  function Set(s: Snapshot, f: Field, v: FieldValue): (r: Snapshot)
    requires f != Unmatched && (v.Text? <==> f == IfDescr)
    ensures Get(r, f) == v
    ensures forall g :: g != Unmatched && g != f ==> Get(r, g) == Get(s, g)
    ensures r.ifIndex == s.ifIndex
  {
    match f
    case SysUpTime => s.(sysUpTime := v.n)
    case IfDescr => s.(ifDescr := v.s)
    case IfSpeed => s.(ifSpeed := v.n)
    case IfInOctets => s.(ifInOctets := v.n)
    case IfInDiscards => s.(ifInDiscards := v.n)
    case IfInErrors => s.(ifInErrors := v.n)
    case IfOutOctets => s.(ifOutOctets := v.n)
    case IfOutDiscards => s.(ifOutDiscards := v.n)
    case IfOutErrors => s.(ifOutErrors := v.n)
  }

  /** The value a field keeps when no line is routed to it: "" for the description, 0 otherwise. */
  function Default(f: Field): FieldValue {
    if f == IfDescr then Text("") else Num(0)
  }

  /** The snapshot before any line is read. */
  function Initial(ifIndex: JavaLong): (s: Snapshot)
    ensures s.ifIndex == ifIndex
    ensures forall f :: f != Unmatched ==> Get(s, f) == Default(f)
  {
    Snapshot(ifIndex, "", 0, 0, 0, 0, 0, 0, 0, 0)
  }

  /** Every line the chain routes to a field has the shape that field's substring call needs. */
  predicate WellShaped(walk: seq<string>, ifIndex: int) {
    forall k {:trigger Classify(walk[k], ifIndex)} :: 0 <= k < |walk| ==> Extractable(walk[k], Classify(walk[k], ifIndex))
  }

  /** One iteration of the loop: at most the field the chain selects changes; None if its value does not parse. */
  function ApplyLine(s: Snapshot, line: string, ifIndex: int): (r: Option<Snapshot>)
    requires Extractable(line, Classify(line, ifIndex))
    ensures Classify(line, ifIndex) == Unmatched ==> r == Some(s)
    ensures r.Some? ==> r.value.ifIndex == s.ifIndex
    ensures r.Some? ==> forall g :: g != Unmatched && g != Classify(line, ifIndex) ==> Get(r.value, g) == Get(s, g)
    ensures r.Some? && Classify(line, ifIndex) != Unmatched ==>
              Extract(line, Classify(line, ifIndex)) == Some(Get(r.value, Classify(line, ifIndex)))
    ensures r.None? <==> Classify(line, ifIndex) != Unmatched && Extract(line, Classify(line, ifIndex)).None?
  {
    var f := Classify(line, ifIndex);
    if f == Unmatched then Some(s)
    else
      match Extract(line, f)
      case None => None
      case Some(v) => Some(Set(s, f, v))
  }

  /** BuildCompleteSNMPInterface's result: the loop over the walk from the all-default snapshot. */
  function Build(walk: seq<string>, ifIndex: JavaLong): Option<Snapshot>
    requires WellShaped(walk, ifIndex)
  {
    if walk == [] then Some(Initial(ifIndex))
    else
      match Build(walk[..|walk| - 1], ifIndex)
      case None => None
      case Some(s) => ApplyLine(s, walk[|walk| - 1], ifIndex)
  }

  lemma WellShapedPrefix(walk: seq<string>, ifIndex: int, n: nat)
    requires WellShaped(walk, ifIndex) && n <= |walk|
    ensures WellShaped(walk[..n], ifIndex)
  {
  }

  /** One more line of the walk is one more application of the chain. */
  lemma BuildStep(walk: seq<string>, ifIndex: JavaLong, i: nat, s: Snapshot)
    requires WellShaped(walk, ifIndex) && i < |walk|
    requires WellShaped(walk[..i], ifIndex) && Build(walk[..i], ifIndex) == Some(s)
    ensures WellShaped(walk[..i + 1], ifIndex)
    ensures Build(walk[..i + 1], ifIndex) == ApplyLine(s, walk[i], ifIndex)
  {
    WellShapedPrefix(walk, ifIndex, i + 1);
    assert walk[..i + 1][..i] == walk[..i];
  }

  /** A line routed to a numeric field stores the parsed value of its text in that field, or fails the build. */
  lemma ApplyNumeric(s: Snapshot, line: string, ifIndex: int, f: Field, text: string)
    requires f != Unmatched && f != IfDescr && Classify(line, ifIndex) == f && Extractable(line, f)
    requires text == ValueText(line, f)
    ensures ParseLong(text).None? ==> ApplyLine(s, line, ifIndex).None?
    ensures ParseLong(text).Some? ==> ApplyLine(s, line, ifIndex) == Some(Set(s, f, Num(ParseLong(text).value)))
  {
  }

  /** A line routed to the description stores its text. */
  lemma ApplyDescr(s: Snapshot, line: string, ifIndex: int)
    requires Classify(line, ifIndex) == IfDescr && Extractable(line, IfDescr)
    ensures ApplyLine(s, line, ifIndex) == Some(s.(ifDescr := ValueText(line, IfDescr)))
  {
  }

  /**
   * One iteration of the loop on a line routed to a numeric field: the field
   * takes the parsed value of the line's text, or the whole build fails.
   */
  lemma StepNumeric(walk: seq<string>, ifIndex: JavaLong, i: nat, s: Snapshot, f: Field, text: string)
    requires WellShaped(walk, ifIndex) && i < |walk|
    requires WellShaped(walk[..i], ifIndex) && Build(walk[..i], ifIndex) == Some(s)
    requires f != Unmatched && f != IfDescr && Classify(walk[i], ifIndex) == f
    requires Extractable(walk[i], f) && text == ValueText(walk[i], f)
    ensures WellShaped(walk[..i + 1], ifIndex)
    ensures ParseLong(text).None? ==> Build(walk, ifIndex).None?
    ensures ParseLong(text).Some? ==> Build(walk[..i + 1], ifIndex) == Some(Set(s, f, Num(ParseLong(text).value)))
  {
    BuildStep(walk, ifIndex, i, s);
    ApplyNumeric(s, walk[i], ifIndex, f, text);
    if ParseLong(text).None? {
      BuildFailurePersists(walk, ifIndex, i + 1);
    }
  }

  /** One iteration of the loop on a line routed to the description: it takes the line's text. */
  lemma StepDescr(walk: seq<string>, ifIndex: JavaLong, i: nat, s: Snapshot)
    requires WellShaped(walk, ifIndex) && i < |walk|
    requires WellShaped(walk[..i], ifIndex) && Build(walk[..i], ifIndex) == Some(s)
    requires Classify(walk[i], ifIndex) == IfDescr && Extractable(walk[i], IfDescr)
    ensures WellShaped(walk[..i + 1], ifIndex)
    ensures Build(walk[..i + 1], ifIndex) == Some(s.(ifDescr := ValueText(walk[i], IfDescr)))
  {
    BuildStep(walk, ifIndex, i, s);
    ApplyDescr(s, walk[i], ifIndex);
  }

  /** One iteration of the loop on a line no branch takes: nothing changes. */
  lemma StepUnmatched(walk: seq<string>, ifIndex: JavaLong, i: nat, s: Snapshot)
    requires WellShaped(walk, ifIndex) && i < |walk|
    requires WellShaped(walk[..i], ifIndex) && Build(walk[..i], ifIndex) == Some(s)
    requires Classify(walk[i], ifIndex) == Unmatched
    ensures WellShaped(walk[..i + 1], ifIndex)
    ensures Build(walk[..i + 1], ifIndex) == Some(s)
  {
    BuildStep(walk, ifIndex, i, s);
  }

  /** Once a line fails to parse, the whole build fails, whatever follows. */
  lemma {:induction false} BuildFailurePersists(walk: seq<string>, ifIndex: JavaLong, n: nat)
    requires WellShaped(walk, ifIndex) && n <= |walk|
    requires WellShaped(walk[..n], ifIndex) && Build(walk[..n], ifIndex).None?
    ensures Build(walk, ifIndex).None?
    decreases |walk| - n
  {
    if n < |walk| {
      var next := walk[..n + 1];
      WellShapedPrefix(walk, ifIndex, n + 1);
      assert next[..n] == walk[..n];
      BuildFailurePersists(walk, ifIndex, n + 1);
    } else {
      assert walk[..n] == walk;
    }
  }

  /** The snapshot carries the requested index. */
  lemma {:induction false} BuildKeepsIndex(walk: seq<string>, ifIndex: JavaLong)
    requires WellShaped(walk, ifIndex)
    ensures Build(walk, ifIndex).Some? ==> Build(walk, ifIndex).value.ifIndex == ifIndex
  {
    if walk != [] {
      WellShapedPrefix(walk, ifIndex, |walk| - 1);
      BuildKeepsIndex(walk[..|walk| - 1], ifIndex);
    }
  }

  /** A field that no line is routed to keeps its default, 0 or "". */
  lemma {:induction false} BuildDefaults(walk: seq<string>, ifIndex: JavaLong, f: Field)
    requires WellShaped(walk, ifIndex) && f != Unmatched
    requires forall k {:trigger Classify(walk[k], ifIndex)} :: 0 <= k < |walk| ==> Classify(walk[k], ifIndex) != f
    ensures Build(walk, ifIndex).Some? ==> Get(Build(walk, ifIndex).value, f) == Default(f)
  {
    if walk != [] {
      WellShapedPrefix(walk, ifIndex, |walk| - 1);
      BuildDefaults(walk[..|walk| - 1], ifIndex, f);
    }
  }

  /** A line that does not parse fails the build of every longer prefix too. */
  lemma BuildStepFails(walk: seq<string>, ifIndex: JavaLong, i: nat)
    requires WellShaped(walk, ifIndex) && i < |walk|
    requires WellShaped(walk[..i], ifIndex) && Build(walk[..i], ifIndex).None?
    ensures WellShaped(walk[..i + 1], ifIndex) && Build(walk[..i + 1], ifIndex).None?
  {
    WellShapedPrefix(walk, ifIndex, i + 1);
    assert walk[..i + 1][..i] == walk[..i];
  }

  /** Lines after position k that are not routed to f leave f as the prefix up to k set it. */
  lemma {:induction false} BuildKeepsField(walk: seq<string>, ifIndex: JavaLong, f: Field, k: nat, m: nat)
    requires WellShaped(walk, ifIndex) && f != Unmatched && k < m <= |walk|
    requires forall j {:trigger Classify(walk[j], ifIndex)} :: k < j < |walk| ==> Classify(walk[j], ifIndex) != f
    ensures WellShaped(walk[..k + 1], ifIndex) && WellShaped(walk[..m], ifIndex)
    ensures Build(walk[..m], ifIndex).Some? ==>
              Build(walk[..k + 1], ifIndex).Some? &&
              Get(Build(walk[..m], ifIndex).value, f) == Get(Build(walk[..k + 1], ifIndex).value, f)
    decreases m
  {
    WellShapedPrefix(walk, ifIndex, k + 1);
    WellShapedPrefix(walk, ifIndex, m);
    if m > k + 1 {
      BuildKeepsField(walk, ifIndex, f, k, m - 1);
      match Build(walk[..m - 1], ifIndex)
      case None =>
        BuildStepFails(walk, ifIndex, m - 1);
      case Some(s) =>
        BuildStep(walk, ifIndex, m - 1, s);
        assert Classify(walk[m - 1], ifIndex) != f;
    }
  }

  /** The last line routed to a field decides its value: later matches overwrite earlier ones. */
  lemma BuildLastMatchWins(walk: seq<string>, ifIndex: JavaLong, f: Field, k: nat)
    requires WellShaped(walk, ifIndex) && f != Unmatched
    requires k < |walk| && Classify(walk[k], ifIndex) == f
    requires forall j {:trigger Classify(walk[j], ifIndex)} :: k < j < |walk| ==> Classify(walk[j], ifIndex) != f
    ensures Build(walk, ifIndex).Some? ==> Extract(walk[k], f) == Some(Get(Build(walk, ifIndex).value, f))
  {
    WellShapedPrefix(walk, ifIndex, k);
    match Build(walk[..k], ifIndex)
    case None =>
      BuildFailurePersists(walk, ifIndex, k);
    case Some(s) =>
      BuildStep(walk, ifIndex, k, s);
      BuildKeepsField(walk, ifIndex, f, k, |walk|);
      assert walk[..|walk|] == walk;
  }

  /** Some line routed to a numeric field holds a value that Long.parseLong rejects. */
  predicate HasUnparsable(walk: seq<string>, ifIndex: int)
    requires WellShaped(walk, ifIndex)
  {
    exists k {:trigger Unparsable(walk[k], ifIndex)} :: 0 <= k < |walk| && Unparsable(walk[k], ifIndex)
  }

  predicate Unparsable(line: string, ifIndex: int)
    requires Extractable(line, Classify(line, ifIndex))
  {
    Classify(line, ifIndex) != Unmatched && Extract(line, Classify(line, ifIndex)).None?
  }

  /** A line routed to a numeric field whose value Long.parseLong rejects makes the whole build fail. */
  lemma BuildFailsAt(walk: seq<string>, ifIndex: JavaLong, k: nat)
    requires WellShaped(walk, ifIndex) && k < |walk|
    requires Unparsable(walk[k], ifIndex)
    ensures Build(walk, ifIndex).None?
  {
    WellShapedPrefix(walk, ifIndex, k);
    match Build(walk[..k], ifIndex)
    case None =>
      BuildFailurePersists(walk, ifIndex, k);
    case Some(s) =>
      BuildStep(walk, ifIndex, k, s);
      BuildFailurePersists(walk, ifIndex, k + 1);
  }

  /** A failed build names a line whose value Long.parseLong rejects. */
  lemma {:induction false} BuildFailureHasCause(walk: seq<string>, ifIndex: JavaLong)
    requires WellShaped(walk, ifIndex) && Build(walk, ifIndex).None?
    ensures HasUnparsable(walk, ifIndex)
  {
    var init := walk[..|walk| - 1];
    WellShapedPrefix(walk, ifIndex, |walk| - 1);
    if Build(init, ifIndex).None? {
      BuildFailureHasCause(init, ifIndex);
      var k :| 0 <= k < |init| && Unparsable(init[k], ifIndex);
      assert walk[k] == init[k];
    } else {
      assert Unparsable(walk[|walk| - 1], ifIndex);
    }
  }

  /** The build fails exactly when some line routed to a numeric field holds a value Long.parseLong rejects. */
  lemma BuildFailsIff(walk: seq<string>, ifIndex: JavaLong)
    requires WellShaped(walk, ifIndex)
    ensures Build(walk, ifIndex).None? <==> HasUnparsable(walk, ifIndex)
  {
    if Build(walk, ifIndex).None? {
      BuildFailureHasCause(walk, ifIndex);
    }
    if HasUnparsable(walk, ifIndex) {
      var k :| 0 <= k < |walk| && Unparsable(walk[k], ifIndex);
      BuildFailsAt(walk, ifIndex, k);
    }
  }

  /** Prefix matching is textual: the prefix for index n also matches every line of index 10n..10n+9. */
  lemma IndexPrefixAliasing(line: string, f: Field, n: nat)
    requires f != Unmatched && f != SysUpTime && n >= 10
    requires StartsWith(line, BranchPrefix(f, n))
    ensures StartsWith(line, BranchPrefix(f, n / 10))
  {
    DecimalTextExtends(n);
    StartsWithAppend(ColumnOid(f), DecimalText(n), DecimalText(n / 10));
    StartsWithTransitive(line, BranchPrefix(f, n), BranchPrefix(f, n / 10));
  }

  // ---------------------------------------------------------------------
  // The ifDescr lines that decide whether two walks are comparable

  /** The lines that contain the ifDescr OID anywhere, in walk order. */
  function DescrLines(walk: seq<string>): (r: seq<string>)
    ensures |r| <= |walk|
    ensures forall k {:trigger Contains(r[k], IfDescrOid)} :: 0 <= k < |r| ==> Contains(r[k], IfDescrOid)
    ensures forall k {:trigger Contains(walk[k], IfDescrOid)} :: 0 <= k < |walk| && Contains(walk[k], IfDescrOid) ==> walk[k] in r
  {
    if walk == [] then []
    else
      var init := DescrLines(walk[..|walk| - 1]);
      var last := walk[|walk| - 1];
      assert forall k :: 0 <= k < |walk| - 1 ==> walk[k] == walk[..|walk| - 1][k];
      if Contains(last, IfDescrOid) then init + [last] else init
  }

  /** Filtering a walk in two parts filters each part: the kept lines stay in walk order, duplicates included. */
  lemma {:induction false} DescrLinesAppend(a: seq<string>, b: seq<string>)
    ensures DescrLines(a + b) == DescrLines(a) + DescrLines(b)
    decreases |b|
  {
    if b == [] {
      assert a + b == a;
    } else {
      var init := b[..|b| - 1];
      assert (a + b)[..|a + b| - 1] == a + init;
      assert b[..|b| - 1] == init;
      DescrLinesAppend(a, init);
    }
  }

  /** A single line is kept exactly when it contains the ifDescr OID. */
  lemma DescrLinesOne(line: string)
    ensures DescrLines([line]) == if Contains(line, IfDescrOid) then [line] else []
  {
    assert [line][..0] == [];
  }

  /** The text from offset 21 (just past the ifDescr OID) up to the first separator. */
  function IndexText(line: string): string
    requires StartsWith(line, IfDescrOid) && Contains(line, Separator)
  {
    IndexOfAfterPrefix(line, IfDescrOid, Separator);
    line[|IfDescrOid|..IndexOf(line, Separator)]
  }

  /** The description: from 12 past the separator up to, not including, the last character. */
  predicate DescrExtractable(line: string) {
    0 <= IndexOf(line, Separator) + 12 <= |line| - 1
  }

  function DescrText(line: string): string
    requires DescrExtractable(line)
  {
    line[IndexOf(line, Separator) + 12..|line| - 1]
  }

  // ---------------------------------------------------------------------
  // Counter deltas and utilization, in Java long arithmetic

  predicate InCounter32(x: int) {
    0 <= x <= Counter32Max
  }

  /** later - earlier, plus COUNTER32MAX once if that is negative. */
  function CounterDelta(earlier: JavaLong, later: JavaLong): (d: JavaLong)
    ensures InCounter32(earlier) && InCounter32(later) ==> 0 <= d <= Counter32Max
    ensures InCounter32(earlier) && InCounter32(later) && earlier <= later ==> d == later - earlier
  {
    var d := Wrap64(later - earlier);
    if d < 0 then Wrap64(d + Counter32Max) else d
  }

  /** Ticks between two sysUpTime values (hundredths of a second), as a long subtraction. */
  function Ticks(earlier: JavaLong, later: JavaLong): (t: JavaLong)
    ensures 0 <= earlier < later ==> t == later - earlier && t > 0
    ensures earlier < later ==> t != 0
  {
    Wrap64(later - earlier)
  }

  /** (double) (octets * 8 * 100) / ((double) ticks / 100 * speed): a percentage of the link speed. */
  function Utilization(octets: JavaLong, ticks: JavaLong, speed: JavaLong): real
    requires ticks != 0 && speed != 0
  {
    (Wrap64(Wrap64(octets * 8) * 100) as real) / ((ticks as real / 100.0) * (speed as real))
  }

  /**
   * Utilization of an octet count over a positive time and a positive speed
   * is not negative, for counts up to the sum of two Counter32 deltas.
   */
  lemma UtilizationNonNegative(octets: JavaLong, ticks: JavaLong, speed: JavaLong)
    requires 0 <= octets <= 2 * Counter32Max && ticks > 0 && speed > 0
    ensures Utilization(octets, ticks, speed) >= 0.0
  {
    var t := ticks as real / 100.0;
    assert t > 0.0;
    assert t * (speed as real) > 0.0 by {
      assert speed as real >= 1.0;
      assert t * (speed as real) >= t * 1.0;
    }
    assert Wrap64(Wrap64(octets * 8) * 100) == octets * 800;
  }

  /** Half the utilization of the summed octets: the mean of the two directions. */
  function TotalUtilization(totalOctets: JavaLong, ticks: JavaLong, speed: JavaLong): real
    requires ticks != 0 && speed != 0
  {
    Utilization(totalOctets, ticks, speed) / 2.0
  }

  /** The integer nearest to y, ties away from zero. */
  function HalfUp(y: real): (k: int)
    ensures y >= 0.0 ==> k as real - 0.5 <= y < k as real + 0.5
    ensures y < 0.0 ==> k as real - 0.5 < y <= k as real + 0.5
    ensures y >= 0.0 ==> k >= 0
  {
    if y >= 0.0 then (y + 0.5).Floor else -((-y + 0.5).Floor)
  }

  /** BigDecimal.setScale(3, ROUND_HALF_UP): nearest multiple of 0.001, ties away from zero. */
  function RoundHalfUp3(x: real): (r: real)
    ensures (r * 1000.0).Floor as real == r * 1000.0
    ensures x >= 0.0 ==> r - 0.0005 <= x < r + 0.0005
    ensures x < 0.0 ==> r - 0.0005 < x <= r + 0.0005
    ensures x >= 0.0 ==> r >= 0.0
  {
    HalfUp(x * 1000.0) as real / 1000.0
  }
}
