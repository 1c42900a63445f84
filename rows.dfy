/** The rows of the `sinfo` table at each stage of the pipeline. */
module Rows {
  import opened Wrappers

  /** One line of `sinfo --Node -O NodeList,Partition,StateLong,CPUsLoad,
      CPUsState,Sockets,Cores,Threads,Memory,FreeMem`: ten text columns. */
  datatype RawRow = RawRow(
    node: string,
    partition: string,
    status: string,
    cpuLoad: string,
    cpus: string,
    socket: string,
    cores: string,
    threads: string,
    mem: string,
    freeMem: string)

  /** A raw row with its partition column dropped: what two partitions are
      compared on. */
  datatype NodeAttrs = NodeAttrs(
    node: string,
    status: string,
    cpuLoad: string,
    cpus: string,
    socket: string,
    cores: string,
    threads: string,
    mem: string,
    freeMem: string)

  function WithoutPartition(r: RawRow): NodeAttrs {
    NodeAttrs(r.node, r.status, r.cpuLoad, r.cpus, r.socket, r.cores, r.threads, r.mem, r.freeMem)
  }

  function WithPartition(a: NodeAttrs, partition: string): (r: RawRow)
    ensures r.partition == partition && WithoutPartition(r) == a
  {
    RawRow(a.node, partition, a.status, a.cpuLoad, a.cpus, a.socket, a.cores, a.threads, a.mem, a.freeMem)
  }

  /** A raw row with the `allocated` and `cpus_avail` columns appended.
      `cpusAvail` is `None` (a NaN cell) when the cpus field has no `/`. */
  datatype CpuRow = CpuRow(raw: RawRow, allocatedCpus: string, cpusAvail: Option<string>)

  /** A float that may be one of the IEEE special values pandas produces
      when dividing by a zero memory size. */
  datatype Float = Finite(value: real) | Infinity | NaN

  /** A row after `change_dtypes`: four columns converted to floats,
      `free_mem` overwritten by whole thousands, `mem_load` appended. */
  datatype LoadRow = LoadRow(
    node: string,
    partition: string,
    status: string,
    cpuLoad: real,
    cpus: string,
    socket: string,
    cores: string,
    threads: string,
    mem: real,
    freeMem: int,
    allocatedCpus: string,
    cpusAvail: Option<real>,
    memLoad: Float)

  /** The four load quartiles of `bin_loads`. */
  datatype Band = Load0To25 | Load25To50 | Load50To75 | Load75To100 {
    function Label(): string {
      match this
      case Load0To25 => "0-25"
      case Load25To50 => "25-50"
      case Load50To75 => "50-75"
      case Load75To100 => "75-100"
    }

    /** Position in the category order `pd.cut` gives the labels. */
    function Index(): nat {
      match this
      case Load0To25 => 0
      case Load25To50 => 1
      case Load50To75 => 2
      case Load75To100 => 3
    }

    /** The open lower edge of the bin. */
    function Lower(): real {
      match this
      case Load0To25 => -1.0
      case Load25To50 => 25.0
      case Load50To75 => 50.0
      case Load75To100 => 75.0
    }

    /** The closed upper edge of the bin. */
    function Upper(): real {
      match this
      case Load0To25 => 25.0
      case Load25To50 => 50.0
      case Load50To75 => 75.0
      case Load75To100 => 100.0
    }
  }

  /** A row with the `cpu_load_bin` and `mem_load_bin` columns appended;
      `None` is the NaN category of a value outside every bin. */
  datatype BinnedRow = BinnedRow(row: LoadRow, cpuLoadBin: Option<Band>, memLoadBin: Option<Band>)

  /** The columns `change_dtypes` converts with `astype(float)`. */
  datatype Column = CpusAvail | CpuLoad | Mem | FreeMem

  /** The exceptions that end a run. */
  datatype Error =
    | MissingColumn(column: Column)    // KeyError: no row produced a `cpus_avail` piece
    | NotAFloat(column: Column)        // ValueError raised by `astype(float)`
    | NodeWithoutDash(node: string)    // IndexError in `get_nodes`
}
