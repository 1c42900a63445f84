/** The sort, group and sum part of `summarize`: the rows are ordered by
    idle cpus, grouped per load band, and each non-empty band is reported
    with its idle cpus, its free memory, its partitions and its node list. */
module Summary {
  import opened Wrappers
  import opened Strings
  import opened Rows
  import opened Loads
  import opened NodeRange

  /** `a` may come before `b` in `sort_values('cpus_avail', ascending=False)`:
      more idle cpus first, NaN cells last. */
  predicate NotAfter(a: BinnedRow, b: BinnedRow) {
    b.row.cpusAvail.None? || (a.row.cpusAvail.Some? && a.row.cpusAvail.value >= b.row.cpusAvail.value)
  }

  predicate SortedByAvail(s: seq<BinnedRow>) {
    forall i, j :: 0 <= i < j < |s| ==> NotAfter(s[i], s[j])
  }

  function InsertByAvail(x: BinnedRow, s: seq<BinnedRow>): (r: seq<BinnedRow>)
    ensures multiset(r) == multiset(s) + multiset{x}
    decreases |s|
  {
    if |s| == 0 then [x]
    else if NotAfter(x, s[0]) then [x] + s
    else
      assert s == [s[0]] + s[1..];
      [s[0]] + InsertByAvail(x, s[1..])
  }

  lemma {:induction false} InsertSorted(x: BinnedRow, s: seq<BinnedRow>)
    requires SortedByAvail(s)
    ensures SortedByAvail(InsertByAvail(x, s))
    decreases |s|
  {
    if |s| > 0 && !NotAfter(x, s[0]) {
      var tail := InsertByAvail(x, s[1..]);
      InsertSorted(x, s[1..]);
      forall j | 0 <= j < |tail|
        ensures NotAfter(s[0], tail[j])
      {
        assert tail[j] in multiset(tail);
        if tail[j] != x {
          assert tail[j] in multiset(s[1..]);
          var k :| 0 <= k < |s[1..]| && s[1..][k] == tail[j];
          assert s[k + 1] == tail[j];
        }
      }
      var r := [s[0]] + tail;
      assert forall j :: 1 <= j < |r| ==> r[j] == tail[j - 1];
    }
  }

  /** One order `sort_values` may produce: the model inserts in turn, which
      keeps ties in input order. */
  function SortByAvail(s: seq<BinnedRow>): (r: seq<BinnedRow>)
    ensures multiset(r) == multiset(s)
    decreases |s|
  {
    if |s| == 0 then []
    else
      assert s == s[..|s| - 1] + [s[|s| - 1]];
      InsertByAvail(s[|s| - 1], SortByAvail(s[..|s| - 1]))
  }

  /** The sort yields the same rows, largest `cpus_avail` first. */
  lemma {:induction false} SortByAvailSorted(s: seq<BinnedRow>)
    ensures SortedByAvail(SortByAvail(s))
    decreases |s|
  {
    if |s| > 0 {
      SortByAvailSorted(s[..|s| - 1]);
      InsertSorted(s[|s| - 1], SortByAvail(s[..|s| - 1]));
    }
  }

  /** The rows of one group of `groupby('<d>_load_bin')`, in table order. */
  function BandRows(rows: seq<BinnedRow>, d: Dim, b: Band): (r: seq<BinnedRow>)
    ensures |r| <= |rows|
    ensures forall i :: 0 <= i < |r| ==> BandOf(r[i], d) == Some(b)
    decreases |rows|
  {
    if |rows| == 0 then []
    else
      var init := BandRows(rows[..|rows| - 1], d, b);
      if BandOf(rows[|rows| - 1], d) == Some(b) then init + [rows[|rows| - 1]] else init
  }

  /** A row is in a band's group exactly when its bin is that band. */
  lemma {:induction false} BandRowsMembers(rows: seq<BinnedRow>, d: Dim, b: Band, x: BinnedRow)
    ensures x in BandRows(rows, d, b) <==> x in rows && BandOf(x, d) == Some(b)
    decreases |rows|
  {
    if |rows| > 0 {
      var init := rows[..|rows| - 1];
      BandRowsMembers(init, d, b, x);
      assert rows == init + [rows[|rows| - 1]];
    }
  }

  /** Grouping keeps the order of the sorted table. */
  lemma {:induction false} BandRowsSorted(rows: seq<BinnedRow>, d: Dim, b: Band)
    requires SortedByAvail(rows)
    ensures SortedByAvail(BandRows(rows, d, b))
    decreases |rows|
  {
    if |rows| > 0 {
      var init := rows[..|rows| - 1];
      var last := rows[|rows| - 1];
      BandRowsSorted(init, d, b);
      forall x | x in BandRows(init, d, b)
        ensures NotAfter(x, last)
      {
        BandRowsMembers(init, d, b, x);
        var k :| 0 <= k < |init| && init[k] == x;
      }
    }
  }

  /** `load_pd.cpus_avail.sum()`: NaN cells are skipped. */
  function SumCpus(rows: seq<BinnedRow>): (r: real)
    ensures (forall i :: 0 <= i < |rows| ==> rows[i].row.cpusAvail.None? || rows[i].row.cpusAvail.value >= 0.0) ==> r >= 0.0
    decreases |rows|
  {
    if |rows| == 0 then 0.0
    else
      var init := rows[..|rows| - 1];
      var last := rows[|rows| - 1].row.cpusAvail;
      assert forall i :: 0 <= i < |init| ==> init[i] == rows[i];
      SumCpus(init) + (if last.Some? then last.value else 0.0)
  }

  /** `load_pd.free_mem.sum()`. */
  function SumFreeMem(rows: seq<BinnedRow>): (r: int)
    ensures (forall i :: 0 <= i < |rows| ==> rows[i].row.freeMem >= 0) ==> r >= 0
    decreases |rows|
  {
    if |rows| == 0 then 0
    else
      var init := rows[..|rows| - 1];
      assert forall i :: 0 <= i < |init| ==> init[i] == rows[i];
      SumFreeMem(init) + rows[|rows| - 1].row.freeMem
  }

  /** Both sums add up over consecutive stretches of rows. */
  lemma {:induction false} SumsConcat(a: seq<BinnedRow>, b: seq<BinnedRow>)
    ensures SumCpus(a + b) == SumCpus(a) + SumCpus(b)
    ensures SumFreeMem(a + b) == SumFreeMem(a) + SumFreeMem(b)
    decreases |b|
  {
    if |b| > 0 {
      var init := b[..|b| - 1];
      assert (a + b)[..|a + b| - 1] == a + init;
      SumsConcat(a, init);
    } else {
      assert a + b == a;
    }
  }

  /** `[x.strip('*') for x in set(load_pd.partition)]`, as a set. */
  function PartitionNames(rows: seq<BinnedRow>): (r: set<string>)
    ensures |r| <= |rows|
    ensures |rows| > 0 ==> |r| > 0
    decreases |rows|
  {
    if |rows| == 0 then {}
    else PartitionNames(rows[..|rows| - 1]) + {StripStars(rows[|rows| - 1].row.partition)}
  }

  /** Every row's partition is listed, without its `*` markers. */
  lemma {:induction false} PartitionNamesComplete(rows: seq<BinnedRow>, i: nat)
    requires i < |rows|
    ensures StripStars(rows[i].row.partition) in PartitionNames(rows)
    decreases |rows|
  {
    if i < |rows| - 1 {
      PartitionNamesComplete(rows[..|rows| - 1], i);
    }
  }

  /** Every listed name is a row's partition without its `*` markers. */
  lemma {:induction false} PartitionNamesSound(rows: seq<BinnedRow>, x: string) returns (i: nat)
    requires x in PartitionNames(rows)
    ensures i < |rows| && x == StripStars(rows[i].row.partition)
    decreases |rows|
  {
    assert |rows| > 0;
    var init, last := rows[..|rows| - 1], rows[|rows| - 1];
    var earlier, name := PartitionNames(init), StripStars(last.row.partition);
    assert PartitionNames(rows) == earlier + {name};
    if x in earlier {
      var k := PartitionNamesSound(init, x);
      assert rows[k] == init[k];
      i := k;
    } else {
      assert x == name;
      i := |rows| - 1;
    }
  }

  /** So no listed name starts or ends with `*`. */
  lemma PartitionNamesUnmarked(rows: seq<BinnedRow>, x: string)
    requires x in PartitionNames(rows)
    ensures |x| == 0 || (x[0] != '*' && x[|x| - 1] != '*')
  {
    var i := PartitionNamesSound(rows, x);
    var p := rows[i].row.partition;
    var r := StripStars(p);
    assert |r| == 0 || (r[0] != '*' && r[|r| - 1] != '*');
  }

  /** `load_pd.node`. */
  function NodeNames(rows: seq<BinnedRow>): (r: seq<string>)
    ensures |r| == |rows| && forall i :: 0 <= i < |rows| ==> r[i] == rows[i].row.node
  {
    seq(|rows|, i requires 0 <= i < |rows| => rows[i].row.node)
  }

  /** One printed line of `summarize`, without the mean and the deviation. */
  datatype BandSummary = BandSummary(band: Band, cpus: real, freeMem: int, partitions: set<string>, nodes: string)

  /** Every node of the group of band `b` carries a `-`. */
  predicate BandDashed(rows: seq<BinnedRow>, d: Dim, b: Band) {
    AllDashed(NodeNames(BandRows(rows, d, b)))
  }

  /** The line for band `b` of dimension `d`, or the error `get_nodes` raises. */
  function SummarizeBand(rows: seq<BinnedRow>, d: Dim, b: Band): (r: Result<BandSummary, Error>)
    ensures r.Success? ==> r.value.band == b
    ensures r.Failure? ==> r.error.NodeWithoutDash?
  {
    var group := BandRows(rows, d, b);
    match GroupNodes(NodeNames(group))
    case Failure(e) => Failure(e)
    case Success(gs) => Success(BandSummary(b, SumCpus(group), SumFreeMem(group), PartitionNames(group), FormatNodes(gs)))
  }

  /** A band's line can be computed exactly when its node names all carry a `-`. */
  lemma SummarizeBandSucceeds(rows: seq<BinnedRow>, d: Dim, b: Band)
    ensures SummarizeBand(rows, d, b).Success? <==> BandDashed(rows, d, b)
  {
    GroupNodesFails(NodeNames(BandRows(rows, d, b)));
  }

  /** The categories of `pd.cut`, in the order `groupby` visits them. */
  const AllBands: seq<Band> := [Load0To25, Load25To50, Load50To75, Load75To100]

  /** The lines for the bands `bands` in turn, skipping empty groups and
      stopping at the first error. */
  function SummarizeBands(rows: seq<BinnedRow>, d: Dim, bands: seq<Band>): (r: Result<seq<BandSummary>, Error>)
    ensures r.Success? ==> |r.value| <= |bands|
    ensures r.Failure? ==> r.error.NodeWithoutDash?
    decreases |bands|
  {
    if |bands| == 0 then Success([])
    else
      match SummarizeBands(rows, d, bands[..|bands| - 1])
      case Failure(e) => Failure(e)
      case Success(lines) =>
        var b := bands[|bands| - 1];
        if |BandRows(rows, d, b)| == 0 then Success(lines)
        else
          match SummarizeBand(rows, d, b)
          case Failure(e) => Failure(e)
          case Success(line) => Success(lines + [line])
  }

  /** One more band: an empty group adds nothing, a failing one ends the
      run, any other adds its line. */
  lemma SummarizeBandsSnoc(rows: seq<BinnedRow>, d: Dim, bands: seq<Band>, b: Band)
    requires SummarizeBands(rows, d, bands).Success?
    ensures |BandRows(rows, d, b)| == 0 ==> SummarizeBands(rows, d, bands + [b]) == SummarizeBands(rows, d, bands)
    ensures |BandRows(rows, d, b)| > 0 && SummarizeBand(rows, d, b).Failure? ==>
      SummarizeBands(rows, d, bands + [b]) == Failure(SummarizeBand(rows, d, b).error)
    ensures |BandRows(rows, d, b)| > 0 && SummarizeBand(rows, d, b).Success? ==>
      SummarizeBands(rows, d, bands + [b]) == Success(SummarizeBands(rows, d, bands).value + [SummarizeBand(rows, d, b).value])
  {
    assert (bands + [b])[..|bands|] == bands;
  }

  /** A band without rows: the lines so far stand. */
  lemma EmptyBandStep(rows: seq<BinnedRow>, d: Dim, pre: seq<Band>, b: Band, lines: seq<BandSummary>)
    requires SummarizeBands(rows, d, pre) == Success(lines) && |BandRows(rows, d, b)| == 0
    ensures SummarizeBands(rows, d, pre + [b]) == Success(lines)
  {
    SummarizeBandsSnoc(rows, d, pre, b);
  }

  /** A band holding a node without `-`: the dimension fails with it. */
  lemma FailingBandStep(rows: seq<BinnedRow>, d: Dim, pre: seq<Band>, b: Band, lines: seq<BandSummary>, e: Error)
    requires SummarizeBands(rows, d, pre) == Success(lines) && |BandRows(rows, d, b)| > 0
    requires GroupNodes(NodeNames(BandRows(rows, d, b))) == Failure(e)
    ensures SummarizeBands(rows, d, pre + [b]) == Failure(e)
  {
    assert SummarizeBand(rows, d, b) == Failure(e);
    SummarizeBandsSnoc(rows, d, pre, b);
  }

  /** A band whose nodes group as `gs`: its line is appended. */
  lemma LineBandStep(rows: seq<BinnedRow>, d: Dim, pre: seq<Band>, b: Band, lines: seq<BandSummary>, gs: seq<Group>)
    requires SummarizeBands(rows, d, pre) == Success(lines) && |BandRows(rows, d, b)| > 0
    requires GroupNodes(NodeNames(BandRows(rows, d, b))) == Success(gs)
    ensures var group := BandRows(rows, d, b);
      SummarizeBands(rows, d, pre + [b])
      == Success(lines + [BandSummary(b, SumCpus(group), SumFreeMem(group), PartitionNames(group), FormatNodes(gs))])
  {
    var group := BandRows(rows, d, b);
    assert SummarizeBand(rows, d, b)
        == Success(BandSummary(b, SumCpus(group), SumFreeMem(group), PartitionNames(group), FormatNodes(gs)));
    SummarizeBandsSnoc(rows, d, pre, b);
  }

  /** Moving the first band still to visit to the bands visited. */
  lemma MoveFirst(done: seq<Band>, rest: seq<Band>)
    requires |rest| > 0
    ensures (done + [rest[0]]) + rest[1..] == done + rest
  {
    assert rest == [rest[0]] + rest[1..];
  }

  /** The inner loop of `summarize` (lines 233-243) for one dimension: the
      groups of the four categories in turn. */
  method SummarizeDim(rows: seq<BinnedRow>, d: Dim) returns (r: Result<seq<BandSummary>, Error>)
    ensures r == SummarizeBands(rows, d, AllBands)
  {
    var done: seq<Band> := [];
    var rest := AllBands;
    var lines: seq<BandSummary> := [];
    while |rest| > 0
      invariant done + rest == AllBands
      invariant SummarizeBands(rows, d, done) == Success(lines)
      decreases |rest|
    {
      var b := rest[0];
      MoveFirst(done, rest);
      var group := BandRows(rows, d, b);
      if |group| == 0 {
        EmptyBandStep(rows, d, done, b, lines);
      } else {
        var groups := GetNodes(NodeNames(group));
        if groups.Failure? {
          FailingBandStep(rows, d, done, b, lines, groups.error);
          SummarizeBandsKeepsFailure(rows, d, done + [b], rest[1..]);
          return Failure(groups.error);
        }
        LineBandStep(rows, d, done, b, lines, groups.value);
        lines := lines + [BandSummary(b, SumCpus(group), SumFreeMem(group), PartitionNames(group), FormatNodes(groups.value))];
      }
      done, rest := done + [b], rest[1..];
    }
    assert done == done + rest;
    r := Success(lines);
  }

  lemma {:induction false} SummarizeBandsKeepsFailure(rows: seq<BinnedRow>, d: Dim, a: seq<Band>, b: seq<Band>)
    requires SummarizeBands(rows, d, a).Failure?
    ensures SummarizeBands(rows, d, a + b) == SummarizeBands(rows, d, a)
    decreases |b|
  {
    if |b| == 0 {
      assert a + b == a;
    } else {
      SummarizeBandsKeepsFailure(rows, d, a, b[..|b| - 1]);
      assert (a + b)[..|a + b| - 1] == a + b[..|b| - 1];
    }
  }

  /** Every node of the bands' groups carries a `-`. */
  predicate GroupsDashed(rows: seq<BinnedRow>, d: Dim, bands: seq<Band>) {
    forall b :: b in bands ==> BandDashed(rows, d, b)
  }

  /** The band of each line, in order. */
  function LineBands(lines: seq<BandSummary>): (r: seq<Band>)
    ensures |r| == |lines| && forall k :: 0 <= k < |lines| ==> r[k] == lines[k].band
  {
    seq(|lines|, k requires 0 <= k < |lines| => lines[k].band)
  }

  /** The order of `bands` is kept: a line's band comes from a later
      position than the line before it. */
  predicate FollowsBands(lines: seq<BandSummary>) {
    forall k, l :: 0 <= k < l < |lines| ==> lines[k].band.Index() < lines[l].band.Index()
  }

  /** A dimension's summary fails exactly when some band's group holds a
      node name without `-`; rows without a band never cause the error. */
  lemma {:induction false} SummarizeBandsSucceeds(rows: seq<BinnedRow>, d: Dim, bands: seq<Band>)
    ensures SummarizeBands(rows, d, bands).Success? <==> GroupsDashed(rows, d, bands)
    decreases |bands|
  {
    if |bands| > 0 {
      var init := bands[..|bands| - 1];
      var b := bands[|bands| - 1];
      SummarizeBandsSucceeds(rows, d, init);
      LastSplit(bands);
      SummarizeBandSucceeds(rows, d, b);
      if SummarizeBands(rows, d, init).Success? {
        SummarizeBandsSnoc(rows, d, init, b);
      } else {
        SummarizeBandsKeepsFailure(rows, d, init, [b]);
      }
    }
  }

  lemma LastSplit(bands: seq<Band>)
    requires |bands| > 0
    ensures bands == bands[..|bands| - 1] + [bands[|bands| - 1]]
    ensures forall x :: x in bands <==> x in bands[..|bands| - 1] || x == bands[|bands| - 1]
  {
  }

  /** The bands of `bands` whose group holds rows, in order. */
  function NonEmptyBands(rows: seq<BinnedRow>, d: Dim, bands: seq<Band>): seq<Band>
    decreases |bands|
  {
    if |bands| == 0 then []
    else
      var init := NonEmptyBands(rows, d, bands[..|bands| - 1]);
      if |BandRows(rows, d, bands[|bands| - 1])| > 0 then init + [bands[|bands| - 1]] else init
  }

  lemma {:induction false} NonEmptyBandsMembers(rows: seq<BinnedRow>, d: Dim, bands: seq<Band>, b: Band)
    ensures b in NonEmptyBands(rows, d, bands) <==> b in bands && |BandRows(rows, d, b)| > 0
    decreases |bands|
  {
    if |bands| > 0 {
      LastSplit(bands);
      NonEmptyBandsMembers(rows, d, bands[..|bands| - 1], b);
    }
  }

  /** A successful run prints a line for exactly the bands that hold rows. */
  lemma {:induction false} SummarizeBandsCovers(rows: seq<BinnedRow>, d: Dim, bands: seq<Band>)
    requires SummarizeBands(rows, d, bands).Success?
    ensures LineBands(SummarizeBands(rows, d, bands).value) == NonEmptyBands(rows, d, bands)
    decreases |bands|
  {
    if |bands| > 0 {
      var init := bands[..|bands| - 1];
      var b := bands[|bands| - 1];
      LastSplit(bands);
      var r0 := SummarizeBands(rows, d, init);
      assert r0.Success? by {
        if r0.Failure? {
          SummarizeBandsKeepsFailure(rows, d, init, [b]);
        }
      }
      SummarizeBandsSnoc(rows, d, init, b);
      SummarizeBandsCovers(rows, d, init);
      var lines0 := r0.value;
      var lines := SummarizeBands(rows, d, bands).value;
      var n0 := NonEmptyBands(rows, d, init);
      assert LineBands(lines0) == n0;
      if |BandRows(rows, d, b)| == 0 {
        assert lines == lines0;
        assert NonEmptyBands(rows, d, bands) == n0;
      } else {
        var line := SummarizeBand(rows, d, b).value;
        assert lines == lines0 + [line];
        assert NonEmptyBands(rows, d, bands) == n0 + [b];
        LineBandsSnoc(lines0, line);
      }
    }
  }

  lemma LineBandsSnoc(lines: seq<BandSummary>, line: BandSummary)
    ensures LineBands(lines + [line]) == LineBands(lines) + [line.band]
  {
  }

  /** Each of `lines` is the summary of the band it is labelled with. */
  predicate LinesMatchBands(rows: seq<BinnedRow>, d: Dim, lines: seq<BandSummary>) {
    forall k :: 0 <= k < |lines| ==> SummarizeBand(rows, d, lines[k].band) == Success(lines[k])
  }

  lemma LinesMatchBandsSnoc(rows: seq<BinnedRow>, d: Dim, lines: seq<BandSummary>, line: BandSummary)
    requires LinesMatchBands(rows, d, lines)
    requires SummarizeBand(rows, d, line.band) == Success(line)
    ensures LinesMatchBands(rows, d, lines + [line])
  {
    forall k | 0 <= k < |lines + [line]|
      ensures SummarizeBand(rows, d, (lines + [line])[k].band) == Success((lines + [line])[k])
    {
      if k < |lines| {
        assert (lines + [line])[k] == lines[k];
      }
    }
  }

  /** Every printed line carries its band's totals and node list. */
  lemma {:induction false} SummarizeBandsEachLine(rows: seq<BinnedRow>, d: Dim, bands: seq<Band>)
    requires SummarizeBands(rows, d, bands).Success?
    ensures LinesMatchBands(rows, d, SummarizeBands(rows, d, bands).value)
    decreases |bands|
  {
    if |bands| > 0 {
      var init := bands[..|bands| - 1];
      var b := bands[|bands| - 1];
      LastSplit(bands);
      var r0 := SummarizeBands(rows, d, init);
      assert r0.Success? by {
        if r0.Failure? {
          SummarizeBandsKeepsFailure(rows, d, init, [b]);
        }
      }
      SummarizeBandsSnoc(rows, d, init, b);
      SummarizeBandsEachLine(rows, d, init);
      if |BandRows(rows, d, b)| > 0 {
        var line := SummarizeBand(rows, d, b).value;
        LinesMatchBandsSnoc(rows, d, r0.value, line);
      }
    }
  }

  /** Band indices strictly increase along `bs`. */
  predicate Increasing(bs: seq<Band>) {
    forall k, l :: 0 <= k < l < |bs| ==> bs[k].Index() < bs[l].Index()
  }

  /** Keeping only the non-empty bands keeps their order. */
  lemma {:induction false} NonEmptyBandsIncreasing(rows: seq<BinnedRow>, d: Dim, bands: seq<Band>)
    requires Increasing(bands)
    ensures Increasing(NonEmptyBands(rows, d, bands))
    decreases |bands|
  {
    if |bands| > 0 {
      var init := bands[..|bands| - 1];
      var b := bands[|bands| - 1];
      assert Increasing(init) by {
        forall k, l | 0 <= k < l < |init|
          ensures init[k].Index() < init[l].Index()
        {
          assert init[k] == bands[k] && init[l] == bands[l];
        }
      }
      NonEmptyBandsIncreasing(rows, d, init);
      var n0 := NonEmptyBands(rows, d, init);
      if |BandRows(rows, d, b)| > 0 {
        var n := n0 + [b];
        forall k | 0 <= k < |n0|
          ensures n0[k].Index() < b.Index()
        {
          NonEmptyBandsMembers(rows, d, init, n0[k]);
          var m :| 0 <= m < |init| && init[m] == n0[k];
          assert bands[m] == init[m];
        }
        assert forall k :: 0 <= k < |n0| ==> n[k] == n0[k];
      }
    }
  }

  /** The four bands, each once, in increasing load order. */
  lemma AllBandsInOrder()
    ensures forall b :: b in AllBands
    ensures Increasing(AllBands)
  {
    forall b
      ensures b in AllBands
    {
      assert AllBands[b.Index()] == b;
    }
  }

  /** The printed lines of one dimension: one per non-empty band, in
      increasing load order. */
  lemma DimensionLines(rows: seq<BinnedRow>, d: Dim)
    requires SummarizeBands(rows, d, AllBands).Success?
    ensures forall b :: b in LineBands(SummarizeBands(rows, d, AllBands).value) <==> |BandRows(rows, d, b)| > 0
    ensures FollowsBands(SummarizeBands(rows, d, AllBands).value)
  {
    AllBandsInOrder();
    SummarizeBandsCovers(rows, d, AllBands);
    forall b
      ensures b in LineBands(SummarizeBands(rows, d, AllBands).value) <==> |BandRows(rows, d, b)| > 0
    {
      NonEmptyBandsMembers(rows, d, AllBands, b);
    }
    NonEmptyBandsIncreasing(rows, d, AllBands);
    var lines := SummarizeBands(rows, d, AllBands).value;
    assert forall k :: 0 <= k < |lines| ==> LineBands(lines)[k] == lines[k].band;
  }

  /** What `summarize` computes: the sorted table and one list of lines per
      dimension, cpu first. */
  datatype Summaries = Summaries(cpuLines: seq<BandSummary>, memLines: seq<BandSummary>)

  function SummarizeSorted(sorted: seq<BinnedRow>): (r: Result<Summaries, Error>)
    ensures r.Failure? <==> SummarizeBands(sorted, CpuDim, AllBands).Failure? || SummarizeBands(sorted, MemDim, AllBands).Failure?
    ensures r.Success? ==> |r.value.cpuLines| <= |AllBands| && |r.value.memLines| <= |AllBands|
  {
    match SummarizeBands(sorted, CpuDim, AllBands)
    case Failure(e) => Failure(e)
    case Success(cpu) =>
      match SummarizeBands(sorted, MemDim, AllBands)
      case Failure(e) => Failure(e)
      case Success(mem) => Success(Summaries(cpu, mem))
  }

  /** `summarize`: sort in place, then the two dimensions in turn. */
  method Summarize(rows: seq<BinnedRow>) returns (sorted: seq<BinnedRow>, r: Result<Summaries, Error>)
    ensures sorted == SortByAvail(rows)
    ensures SortedByAvail(sorted) && multiset(sorted) == multiset(rows)
    ensures r == SummarizeSorted(sorted)
  {
    sorted := SortByAvail(rows);
    SortByAvailSorted(rows);
    var cpu := SummarizeDim(sorted, CpuDim);
    if cpu.Failure? {
      r := Failure(cpu.error);
      return;
    }
    var mem := SummarizeDim(sorted, MemDim);
    if mem.Failure? {
      r := Failure(mem.error);
      return;
    }
    r := Success(Summaries(cpu.value, mem.value));
  }
}
