/** `change_dtypes`, `keep_avail_nodes` and `bin_loads`: the numeric columns,
    the availability filter and the load quartiles. */
module Loads {
  import opened Wrappers
  import opened Strings
  import opened Rows

  /** `max(0, 100*(1 - free/mem))` as pandas computes it column-wise: a zero
      memory size gives `-inf` (clipped to 0), `nan` or `+inf`. */
  function MemLoad(free: real, mem: real): (r: Float)
    ensures r.Finite? ==> r.value >= 0.0
  {
    if mem != 0.0 then
      var raw := 100.0 * (1.0 - free / mem);
      Finite(if raw < 0.0 then 0.0 else raw)
    else if free > 0.0 then Finite(0.0)
    else if free == 0.0 then NaN
    else Infinity
  }

  /** The memory load is a percentage of used memory, never negative; a
      zero memory size yields one of the special values. */
  lemma MemLoadRange(free: real, mem: real)
    ensures mem > 0.0 ==> MemLoad(free, mem).Finite? && (MemLoad(free, mem).value == 0.0 <==> free >= mem)
    ensures mem > 0.0 && free >= 0.0 ==> MemLoad(free, mem).value <= 100.0
    ensures mem > 0.0 && free < mem ==> MemLoad(free, mem).value == 100.0 * (mem - free) / mem
    ensures mem == 0.0 ==> (MemLoad(free, mem) == NaN <==> free == 0.0) && (MemLoad(free, mem) == Infinity <==> free < 0.0)
  {
    if mem != 0.0 {
      RatioFacts(free, mem);
    }
  }

  lemma RatioFacts(free: real, mem: real)
    requires mem != 0.0
    ensures mem > 0.0 ==> (free >= mem <==> free / mem >= 1.0)
    ensures mem > 0.0 && free >= 0.0 ==> free / mem >= 0.0
    ensures 1.0 - free / mem == (mem - free) / mem
  {
    assert free / mem * mem == free;
    assert (1.0 - free / mem) * mem == mem - free;
    assert (mem - free) / mem * mem == mem - free;
    var d := (1.0 - free / mem) - (mem - free) / mem;
    assert d * mem == 0.0;
    assert d == d * mem / mem;
  }

  /** `math.floor(free / 1000)`: whole thousands of the free memory. */
  function Thousands(free: real): (r: int)
    ensures r as real * 1000.0 <= free < (r + 1) as real * 1000.0
  {
    (free / 1000.0).Floor
  }

  /** `astype(float)` succeeds on the cell of `column` in this row; a NaN
      `cpus_avail` cell stays NaN. */
  predicate Parses(r: CpuRow, column: Column) {
    match column
    case CpusAvail => r.cpusAvail.None? || ParseFloat(r.cpusAvail.value).Some?
    case CpuLoad => ParseFloat(r.raw.cpuLoad).Some?
    case Mem => ParseFloat(r.raw.mem).Some?
    case FreeMem => ParseFloat(r.raw.freeMem).Some?
  }

  predicate ColumnParses(rows: seq<CpuRow>, column: Column) {
    forall i :: 0 <= i < |rows| ==> Parses(rows[i], column)
  }

  predicate AllParse(r: CpuRow) {
    Parses(r, CpusAvail) && Parses(r, CpuLoad) && Parses(r, Mem) && Parses(r, FreeMem)
  }

  /** No row's cpus field had a second `/` piece, so `expand_cpus` never
      created the `cpus_avail` column. */
  predicate NoCpusAvailColumn(rows: seq<CpuRow>) {
    |rows| > 0 && forall i :: 0 <= i < |rows| ==> rows[i].cpusAvail.None?
  }

  /** One row of `change_dtypes`: the memory load is computed from the free
      memory before that column is overwritten by whole thousands. */
  function DeriveRow(r: CpuRow): (d: LoadRow)
    requires AllParse(r)
    ensures d.node == r.raw.node && d.partition == r.raw.partition && d.status == r.raw.status
    ensures d.cpus == r.raw.cpus && d.socket == r.raw.socket && d.cores == r.raw.cores
    ensures d.threads == r.raw.threads && d.allocatedCpus == r.allocatedCpus
    ensures Some(d.cpuLoad) == ParseFloat(r.raw.cpuLoad) && Some(d.mem) == ParseFloat(r.raw.mem)
    ensures d.cpusAvail.None? <==> r.cpusAvail.None?
    ensures d.cpusAvail.Some? ==> Some(d.cpusAvail.value) == ParseFloat(r.cpusAvail.value)
    ensures var free := ParseFloat(r.raw.freeMem).value;
      d.freeMem as real * 1000.0 <= free < (d.freeMem + 1) as real * 1000.0
      && d.memLoad == MemLoad(free, d.mem)
  {
    var free := ParseFloat(r.raw.freeMem).value;
    var mem := ParseFloat(r.raw.mem).value;
    LoadRow(
      r.raw.node, r.raw.partition, r.raw.status, ParseFloat(r.raw.cpuLoad).value,
      r.raw.cpus, r.raw.socket, r.raw.cores, r.raw.threads, mem, Thousands(free),
      r.allocatedCpus, if r.cpusAvail.Some? then ParseFloat(r.cpusAvail.value) else None,
      MemLoad(free, mem))
  }

  /** `change_dtypes`: the four conversions run in the order of lines 152-155,
      so the first column holding a non-number names the error. */
  function ChangeDtypes(rows: seq<CpuRow>): (r: Result<seq<LoadRow>, Error>)
    ensures r == Failure(MissingColumn(CpusAvail)) <==> NoCpusAvailColumn(rows)
    ensures r == Failure(NotAFloat(CpusAvail)) <==> !NoCpusAvailColumn(rows) && !ColumnParses(rows, CpusAvail)
    ensures r.Success? <==> !NoCpusAvailColumn(rows) && forall i :: 0 <= i < |rows| ==> AllParse(rows[i])
    ensures r.Success? ==> |r.value| == |rows| && forall i :: 0 <= i < |rows| ==> r.value[i] == DeriveRow(rows[i])
    ensures r.Failure? ==> r.error.MissingColumn? || r.error.NotAFloat?
    ensures r.Failure? && r.error.NotAFloat? ==> !ColumnParses(rows, r.error.column)
  {
    if NoCpusAvailColumn(rows) then Failure(MissingColumn(CpusAvail))
    else if !ColumnParses(rows, CpusAvail) then Failure(NotAFloat(CpusAvail))
    else if !ColumnParses(rows, CpuLoad) then Failure(NotAFloat(CpuLoad))
    else if !ColumnParses(rows, Mem) then Failure(NotAFloat(Mem))
    else if !ColumnParses(rows, FreeMem) then Failure(NotAFloat(FreeMem))
    else Success(seq(|rows|, i requires 0 <= i < |rows| => DeriveRow(rows[i])))
  }

  /** Neither reserved nor without an idle cpu; a NaN `cpus_avail` is not 0. */
  predicate IsAvailable(r: LoadRow)
    ensures r.status == "reserved" ==> !IsAvailable(r)
    ensures r.cpusAvail == Some(0.0) ==> !IsAvailable(r)
    ensures r.cpusAvail.None? ==> (IsAvailable(r) <==> r.status != "reserved")
  {
    r.status != "reserved" && r.cpusAvail != Some(0.0)
  }

  /** The rows `keep_avail_nodes` leaves in the table. */
  function AvailRows(rows: seq<LoadRow>): (r: seq<LoadRow>)
    ensures |r| <= |rows|
    ensures forall i :: 0 <= i < |r| ==> IsAvailable(r[i])
    decreases |rows|
  {
    if |rows| == 0 then []
    else
      var kept := AvailRows(rows[..|rows| - 1]);
      if IsAvailable(rows[|rows| - 1]) then kept + [rows[|rows| - 1]] else kept
  }

  /** `keep_avail_nodes`: drop the reserved rows and those with no idle cpu. */
  method KeepAvailNodes(rows: seq<LoadRow>) returns (kept: seq<LoadRow>)
    ensures kept == AvailRows(rows)
  {
    kept := [];
    var i := 0;
    while i < |rows|
      invariant 0 <= i <= |rows|
      invariant kept == AvailRows(rows[..i])
    {
      assert rows[..i + 1][..i] == rows[..i];
      if IsAvailable(rows[i]) {
        kept := kept + [rows[i]];
      }
      i := i + 1;
    }
    assert rows[..|rows|] == rows;
  }

  /** A row survives the filter exactly when it is available. */
  lemma {:induction false} AvailRowsMembers(rows: seq<LoadRow>, x: LoadRow)
    ensures x in AvailRows(rows) <==> x in rows && IsAvailable(x)
    decreases |rows|
  {
    if |rows| > 0 {
      var init := rows[..|rows| - 1];
      AvailRowsMembers(init, x);
      assert rows == init + [rows[|rows| - 1]];
    }
  }

  /** The filter works row by row, so the survivors keep their relative order. */
  lemma {:induction false} AvailRowsConcat(a: seq<LoadRow>, b: seq<LoadRow>)
    ensures AvailRows(a + b) == AvailRows(a) + AvailRows(b)
    decreases |b|
  {
    if |b| == 0 {
      assert a + b == a;
    } else {
      AvailRowsConcat(a, b[..|b| - 1]);
      assert (a + b)[..|a + b| - 1] == a + b[..|b| - 1];
    }
  }

  /** Nothing is dropped from a table of available rows, so the filter is idempotent. */
  lemma {:induction false} AvailRowsKeepsAvailable(rows: seq<LoadRow>)
    requires forall i :: 0 <= i < |rows| ==> IsAvailable(rows[i])
    ensures AvailRows(rows) == rows
    decreases |rows|
  {
    if |rows| > 0 {
      AvailRowsKeepsAvailable(rows[..|rows| - 1]);
    }
  }

  lemma AvailRowsIdempotent(rows: seq<LoadRow>)
    ensures AvailRows(AvailRows(rows)) == AvailRows(rows)
  {
    AvailRowsKeepsAvailable(AvailRows(rows));
  }

  /** `pd.cut(x, [-1, 25, 50, 75, 100])`: right-closed bins; anything outside
      `(-1, 100]` falls in no bin. */
  function Bin(x: real): (r: Option<Band>)
    ensures r.Some? <==> -1.0 < x <= 100.0
    ensures r.Some? ==> r.value.Lower() < x <= r.value.Upper()
  {
    if x <= -1.0 || x > 100.0 then None
    else if x <= 25.0 then Some(Load0To25)
    else if x <= 50.0 then Some(Load25To50)
    else if x <= 75.0 then Some(Load50To75)
    else Some(Load75To100)
  }

  /** Infinity and NaN fall in no bin. */
  function BinFloat(f: Float): (r: Option<Band>)
    ensures r.Some? <==> f.Finite? && -1.0 < f.value <= 100.0
  {
    if f.Finite? then Bin(f.value) else None
  }

  /** The bins do not overlap: a value inside a band's edges lands in that band. */
  lemma BinUnique(x: real, b: Band)
    requires b.Lower() < x <= b.Upper()
    ensures Bin(x) == Some(b)
  {
  }

  /** Larger loads never fall in a lower band. */
  lemma BinMonotone(x: real, y: real)
    requires x <= y && Bin(x).Some? && Bin(y).Some?
    ensures Bin(x).value.Index() <= Bin(y).value.Index()
  {
  }

  /** The boundary values: 0 and 25 are in `0-25`, 25.01 in `25-50`, 100 in
      `75-100`; -1 and anything above 100 are in no bin. */
  lemma BinEdges(above: real)
    requires above > 100.0
    ensures Bin(0.0) == Some(Load0To25) && Bin(25.0) == Some(Load0To25)
    ensures Bin(25.01) == Some(Load25To50) && Bin(100.0) == Some(Load75To100)
    ensures Bin(-1.0) == None && Bin(above) == None
  {
  }

  /** The two load columns `bin_loads` loops over. */
  datatype Dim = CpuDim | MemDim

  function LoadValue(r: LoadRow, d: Dim): Float {
    if d == CpuDim then Finite(r.cpuLoad) else r.memLoad
  }

  function BandOf(b: BinnedRow, d: Dim): Option<Band> {
    if d == CpuDim then b.cpuLoadBin else b.memLoadBin
  }

  /** Set the `<d>_load_bin` column to `bins`. */
  function WithBands(table: seq<BinnedRow>, d: Dim, bins: seq<Option<Band>>): (r: seq<BinnedRow>)
    requires |bins| == |table|
    ensures |r| == |table|
    ensures forall i :: 0 <= i < |table| ==> r[i].row == table[i].row && BandOf(r[i], d) == bins[i]
    ensures forall i, e :: 0 <= i < |table| && e != d ==> BandOf(r[i], e) == BandOf(table[i], e)
  {
    seq(|table|, i requires 0 <= i < |table| =>
      if d == CpuDim then table[i].(cpuLoadBin := bins[i]) else table[i].(memLoadBin := bins[i]))
  }

  /** `pd.cut` over one load column. */
  function Cut(rows: seq<LoadRow>, d: Dim): (r: seq<Option<Band>>)
    ensures |r| == |rows|
    ensures forall i :: 0 <= i < |rows| ==>
      (r[i].Some? <==> LoadValue(rows[i], d).Finite? && -1.0 < LoadValue(rows[i], d).value <= 100.0)
  {
    seq(|rows|, i requires 0 <= i < |rows| => BinFloat(LoadValue(rows[i], d)))
  }

  /** The table `bin_loads` leaves behind. */
  function Banded(rows: seq<LoadRow>): (r: seq<BinnedRow>)
    ensures |r| == |rows|
    ensures forall i :: 0 <= i < |rows| ==>
      r[i].row == rows[i] && r[i].cpuLoadBin == Cut(rows, CpuDim)[i] && r[i].memLoadBin == Cut(rows, MemDim)[i]
  {
    seq(|rows|, i requires 0 <= i < |rows| =>
      BinnedRow(rows[i], BinFloat(Finite(rows[i].cpuLoad)), BinFloat(rows[i].memLoad)))
  }

  /** `bin_loads`: one binned column per load, in the loop order of line 172. */
  method BinLoads(rows: seq<LoadRow>) returns (binned: seq<BinnedRow>)
    ensures |binned| == |rows|
    ensures forall i, d :: 0 <= i < |rows| ==>
      binned[i].row == rows[i] && BandOf(binned[i], d) == BinFloat(LoadValue(rows[i], d))
    ensures binned == Banded(rows)
  {
    binned := seq(|rows|, i requires 0 <= i < |rows| => BinnedRow(rows[i], None, None));
    var dims := [CpuDim, MemDim];
    for k := 0 to 2
      invariant |binned| == |rows|
      invariant forall i :: 0 <= i < |rows| ==> binned[i].row == rows[i]
      invariant forall i, j :: 0 <= i < |rows| && 0 <= j < k ==>
        BandOf(binned[i], dims[j]) == BinFloat(LoadValue(rows[i], dims[j]))
    {
      binned := WithBands(binned, dims[k], Cut(rows, dims[k]));
    }
    forall i, d | 0 <= i < |rows|
      ensures BandOf(binned[i], d) == BinFloat(LoadValue(rows[i], d))
    {
      assert d == dims[0] || d == dims[1];
    }
    forall i | 0 <= i < |rows|
      ensures binned[i] == Banded(rows)[i]
    {
      assert binned[i].cpuLoadBin == BandOf(binned[i], dims[0]);
      assert binned[i].memLoadBin == BandOf(binned[i], dims[1]);
    }
  }
}
