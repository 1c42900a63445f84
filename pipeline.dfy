/** `run_xsinfo`: the stages in the order the program runs them. Alias
    detection sees every row of the `sinfo` table; the zero-availability
    filter only runs after the conversions, on the reduced table. */
module Xsinfo {
  import opened Wrappers
  import opened Strings
  import opened Rows
  import opened CpuState
  import opened Aliases
  import opened Loads
  import opened Summary

  /** What a run ends with: the Torque message, an exception, or the final
      table together with the alias map and the two summaries that the
      printing functions show. */
  datatype Report =
    | TorqueUnsupported
    | Crashed(error: Error)
    | Completed(table: seq<BinnedRow>, shared: Shared, summaries: Summaries)

  /** The run as one function of the `sinfo` table and the `torque` flag. */
  function Outcome(sinfo: seq<RawRow>, torque: bool): (r: Report)
    ensures r.TorqueUnsupported? <==> torque
    ensures r.Completed? ==> SortedByAvail(r.table) && |r.table| <= |sinfo|
  {
    if torque then TorqueUnsupported
    else
      var reduced := DetectAliases(sinfo);
      match ChangeDtypes(ExpandCpus(reduced.table))
      case Failure(e) => Crashed(e)
      case Success(loads) =>
        var binned := Banded(AvailRows(loads));
        var sorted := SortByAvail(binned);
        SortByAvailSorted(binned);
        assert |sorted| == |multiset(sorted)| == |multiset(binned)| == |binned|;
        match SummarizeSorted(sorted)
        case Failure(e) => Crashed(e)
        case Success(s) => Completed(sorted, reduced.shared, s)
  }

  /** `run_xsinfo`, each stage handing its table to the next. */
  method RunXsinfo(sinfo: seq<RawRow>, torque: bool) returns (report: Report)
    ensures report == Outcome(sinfo, torque)
  {
    if torque {
      return TorqueUnsupported;
    }
    var table, shared := GetNodesInfo(sinfo);
    var cpuRows := ExpandCpus(table);
    var typed := ChangeDtypes(cpuRows);
    if typed.Failure? {
      return Crashed(typed.error);
    }
    var kept := KeepAvailNodes(typed.value);
    var binned := BinLoads(kept);
    var sorted, summaries := Summarize(binned);
    if summaries.Failure? {
      return Crashed(summaries.error);
    }
    report := Completed(sorted, shared, summaries.value);
  }

  /** The intermediate tables of a completed run. */
  lemma CompletedStages(sinfo: seq<RawRow>) returns (loads: seq<LoadRow>)
    requires Outcome(sinfo, false).Completed?
    ensures ChangeDtypes(ExpandCpus(DetectAliases(sinfo).table)) == Success(loads)
    ensures Outcome(sinfo, false).table == SortByAvail(Banded(AvailRows(loads)))
    ensures Outcome(sinfo, false).shared == DetectAliases(sinfo).shared
    ensures SummarizeSorted(Outcome(sinfo, false).table) == Success(Outcome(sinfo, false).summaries)
  {
    loads := ChangeDtypes(ExpandCpus(DetectAliases(sinfo).table)).value;
  }

  /** The last three stages keep exactly the available rows, each with its bins. */
  lemma ShownRowOrigin(loads: seq<LoadRow>, k: nat) returns (j: nat)
    requires k < |SortByAvail(Banded(AvailRows(loads)))|
    ensures var row := SortByAvail(Banded(AvailRows(loads)))[k];
      && j < |loads| && row.row == loads[j] && IsAvailable(row.row)
      && row.cpuLoadBin == BinFloat(Finite(row.row.cpuLoad))
      && row.memLoadBin == BinFloat(row.row.memLoad)
  {
    var kept := AvailRows(loads);
    var binned := Banded(kept);
    var sorted := SortByAvail(binned);
    var row := sorted[k];
    assert row in multiset(binned) by {
      assert row in multiset(sorted);
    }
    var i :| 0 <= i < |binned| && binned[i] == row;
    assert row.row == kept[i];
    AvailRowsMembers(loads, row.row);
    j :| 0 <= j < |loads| && loads[j] == row.row;
  }

  /** Every row of a completed report comes from one row `j` of the table
      left by alias detection, converted and binned, and it is available. */
  lemma ReportRowOrigin(sinfo: seq<RawRow>, k: nat) returns (j: nat)
    requires Outcome(sinfo, false).Completed? && k < |Outcome(sinfo, false).table|
    ensures var t := DetectAliases(sinfo).table;
      var row := Outcome(sinfo, false).table[k];
      && j < |t| && AllParse(ExpandRow(t[j]))
      && row.row == DeriveRow(ExpandRow(t[j]))
      && IsAvailable(row.row)
      && row.cpuLoadBin == BinFloat(Finite(row.row.cpuLoad))
      && row.memLoadBin == BinFloat(row.row.memLoad)
  {
    var t := DetectAliases(sinfo).table;
    var cpu := ExpandCpus(t);
    var loads := CompletedStages(sinfo);
    j := ShownRowOrigin(loads, k);
    assert cpu[j] == ExpandRow(t[j]);
  }

  /** Conversely, every available row of the reduced table is in the report,
      with its two bins. */
  lemma AvailableRowsReported(sinfo: seq<RawRow>, j: nat)
    requires Outcome(sinfo, false).Completed? && j < |DetectAliases(sinfo).table|
    ensures AllParse(ExpandRow(DetectAliases(sinfo).table[j]))
    ensures var d := DeriveRow(ExpandRow(DetectAliases(sinfo).table[j]));
      IsAvailable(d) ==> BinnedRow(d, BinFloat(Finite(d.cpuLoad)), BinFloat(d.memLoad)) in Outcome(sinfo, false).table
  {
    var t := DetectAliases(sinfo).table;
    var cpu := ExpandCpus(t);
    var loads := ChangeDtypes(cpu).value;
    assert cpu[j] == ExpandRow(t[j]);
    var d := loads[j];
    if IsAvailable(d) {
      var kept := AvailRows(loads);
      AvailRowsMembers(loads, d);
      var i :| 0 <= i < |kept| && kept[i] == d;
      var binned := Banded(kept);
      var sorted := SortByAvail(binned);
      assert binned[i] == BinnedRow(d, BinFloat(Finite(d.cpuLoad)), BinFloat(d.memLoad));
      assert binned[i] in multiset(sorted);
    }
  }

  lemma DerivedIdleCount(x: RawRow, d: LoadRow, a: nat, idle: nat, other: nat, total: nat)
    requires AllParse(ExpandRow(x)) && d == DeriveRow(ExpandRow(x)) && IsAvailable(d)
    requires d.cpus == NatToString(a) + "/" + NatToString(idle) + "/" + NatToString(other) + "/" + NatToString(total)
    ensures d.cpusAvail == Some(idle as real)
    ensures idle > 0
  {
    var c := ExpandRow(x);
    assert c.raw == x;
    assert x.cpus == d.cpus;
    ExpandIdleCount(x, a, idle, other, total);
    var v := c.cpusAvail.value;
    assert ParseFloat(v) == Some(idle as real);
    assert d.cpusAvail.Some?;
    assert Some(d.cpusAvail.value) == ParseFloat(v);
    assert d.cpusAvail != Some(0.0);
    assert idle as real != 0.0;
  }

  /** A node whose cpus field reads `A/I/O/T` is reported with `I` idle
      cpus, and only when `I` is not zero: fully allocated nodes are gone. */
  lemma IdleCountReported(sinfo: seq<RawRow>, k: nat, a: nat, idle: nat, other: nat, total: nat)
    requires Outcome(sinfo, false).Completed? && k < |Outcome(sinfo, false).table|
    requires Outcome(sinfo, false).table[k].row.cpus
          == NatToString(a) + "/" + NatToString(idle) + "/" + NatToString(other) + "/" + NatToString(total)
    ensures Outcome(sinfo, false).table[k].row.cpusAvail == Some(idle as real)
    ensures idle > 0
  {
    var d := Outcome(sinfo, false).table[k].row;
    var j := ReportRowOrigin(sinfo, k);
    DerivedIdleCount(DetectAliases(sinfo).table[j], d, a, idle, other, total);
  }

  /** No row of a completed report belongs to a partition recorded as an alias. */
  lemma AliasesNotReported(sinfo: seq<RawRow>, k: nat, key: string, alias: string)
    requires Outcome(sinfo, false).Completed? && k < |Outcome(sinfo, false).table|
    requires key in Outcome(sinfo, false).shared && alias in Outcome(sinfo, false).shared[key]
    ensures Outcome(sinfo, false).table[k].row.partition != alias
  {
    var j := ReportRowOrigin(sinfo, k);
    DetectAliasesOutcome(sinfo);
    assert SubsetIt(DetectAliases(sinfo).table, alias) == [];
    SubsetItEmpty(DetectAliases(sinfo).table, alias);
  }

  /** The reported table is sorted by idle cpus, holds no more rows than
      `sinfo`, and each summary has one line per non-empty band, in band order. */
  lemma ReportShape(sinfo: seq<RawRow>)
    requires Outcome(sinfo, false).Completed?
    ensures var rep := Outcome(sinfo, false);
      && SortedByAvail(rep.table)
      && |rep.table| <= |sinfo|
      && (forall b :: b in LineBands(rep.summaries.cpuLines) <==> |BandRows(rep.table, CpuDim, b)| > 0)
      && (forall b :: b in LineBands(rep.summaries.memLines) <==> |BandRows(rep.table, MemDim, b)| > 0)
      && FollowsBands(rep.summaries.cpuLines) && FollowsBands(rep.summaries.memLines)
  {
    var t := DetectAliases(sinfo).table;
    var loads := ChangeDtypes(ExpandCpus(t)).value;
    var binned := Banded(AvailRows(loads));
    var sorted := SortByAvail(binned);
    SortByAvailSorted(binned);
    assert |sorted| == |multiset(sorted)| == |multiset(binned)| == |binned|;
    DimensionLines(sorted, CpuDim);
    DimensionLines(sorted, MemDim);
  }

  /** When alias detection leaves only reserved nodes, a completed run shows no row. */
  lemma ReservedRowsHidden(sinfo: seq<RawRow>)
    requires Outcome(sinfo, false).Completed?
    requires forall i :: 0 <= i < |DetectAliases(sinfo).table| ==> DetectAliases(sinfo).table[i].status == "reserved"
    ensures Outcome(sinfo, false).table == []
  {
    var t := DetectAliases(sinfo).table;
    var cpu := ExpandCpus(t);
    var loads := CompletedStages(sinfo);
    forall i | 0 <= i < |loads|
      ensures !IsAvailable(loads[i])
    {
      assert cpu[i].raw == t[i];
    }
    if AvailRows(loads) != [] {
      AvailRowsMembers(loads, AvailRows(loads)[0]);
      assert false;
    }
    var e: seq<LoadRow> := [];
    assert Banded(e) == [];
  }

  /** Alias detection runs before the availability filter: two partitions
      listing the same reserved nodes are still reported as sharing them,
      although none of their rows is shown. */
  lemma ReservedAliasStillReported(rows: seq<NodeAttrs>)
    requires |rows| > 0 && forall i :: 0 <= i < |rows| ==> rows[i].status == "reserved"
    ensures var rep := Outcome(Labelled(rows, "normal*") + Labelled(rows, "optimist"), false);
      rep.Completed? ==> rep.table == [] && rep.shared == map["normal" := ["optimist"]]
  {
    var sinfo := Labelled(rows, "normal*") + Labelled(rows, "optimist");
    if Outcome(sinfo, false).Completed? {
      DefaultPartitionSurvives(rows);
      var t := DetectAliases(sinfo).table;
      assert t == Labelled(rows, "normal*");
      forall i | 0 <= i < |t|
        ensures t[i].status == "reserved"
      {
        assert WithoutPartition(t[i]) == rows[i];
      }
      ReservedRowsHidden(sinfo);
      var _ := CompletedStages(sinfo);
    }
  }
}
