/**
 * The controller revision of the program (src/main/java/.../Controller.java).
 * Its FindInterfaces, BuildCompleteSNMPInterface and CalculateStatistics are
 * those of the newer Main (SnmpMain); what it adds is shared state: every
 * BuildCompleteSNMPInterface call records its walk and index in the static
 * fields WALK and IF_INDEX, and the interface-table handler calls it twice.
 */
module SnmpController {
  import opened JavaText
  import opened WalkModel
  import SnmpMain

  /** The controller's static state: WALK and IF_INDEX, null until the first build. */
  class Controller {
    var walk: Option<seq<string>>
    var ifIndex: Option<JavaLong>

    constructor ()
      ensures walk.None? && ifIndex.None?
    {
      walk := None;
      ifIndex := None;
    }

    /**
     * BuildCompleteSNMPInterface(walk, ifIndex): records its arguments in WALK
     * and IF_INDEX, then makes the pass of the newer Main over the walk.
     */
    method BuildCompleteSNMPInterface(walk: seq<string>, ifIndex: JavaLong) returns (r: Option<Snapshot>)
      requires WellShaped(walk, ifIndex)
      modifies this
      ensures this.walk == Some(walk) && this.ifIndex == Some(ifIndex)
      ensures r == Build(walk, ifIndex)
    {
      this.walk := Some(walk);
      this.ifIndex := Some(ifIndex);
      r := SnmpMain.BuildCompleteSNMPInterface(walk, ifIndex);
    }

    /**
     * The interface-table handler for the selected index: builds a snapshot
     * from each walk, then shows the statistics with the earlier snapshot
     * first, or the "identical" notice. None is an exception escaping a build;
     * WALK is then the walk whose build threw.
     */
    method ShowInterfaceStatistics(walk1: seq<string>, walk2: seq<string>, selected: JavaLong) returns (table: Option<seq<Row>>)
      requires WellShaped(walk1, selected) && WellShaped(walk2, selected)
      modifies this
      ensures ifIndex == Some(selected)
      ensures walk == (if Build(walk1, selected).None? then Some(walk1) else Some(walk2))
      ensures table.Some? <==> Build(walk1, selected).Some? && Build(walk2, selected).Some?
      ensures table.Some? ==>
                table.value == SnmpMain.OrderedStatistics(Build(walk1, selected).value, Build(walk2, selected).value)
    {
      var interface1 := BuildCompleteSNMPInterface(walk1, selected);
      if interface1.None? {
        return None;
      }
      var interface2 := BuildCompleteSNMPInterface(walk2, selected);
      if interface2.None? {
        return None;
      }
      var s1 := interface1.value;
      var s2 := interface2.value;
      var rows: seq<Row>;
      if s1.sysUpTime < s2.sysUpTime {
        var r := SnmpMain.CalculateStatistics(s1, s2);
        rows := r.value;
      } else if s1.sysUpTime > s2.sysUpTime {
        var r := SnmpMain.CalculateStatistics(s2, s1);
        rows := r.value;
      } else {
        rows := [SnmpMain.IdenticalRow];
      }
      return Some(rows);
    }
  }
}
