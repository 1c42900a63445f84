/** `subset_it` and `get_nodes_info`: partitions that hold exactly the same
    rows are aliases; all but one of them are removed from the table and
    recorded in a map from the kept name to the removed ones. */
module Aliases {
  import opened Strings
  import opened Rows

  /** Kept partition name (marker stripped) -> names of the partitions
      whose rows were removed as duplicates of it. */
  type Shared = map<string, seq<string>>

  /** The partition column, in row order. */
  function Partitions(table: seq<RawRow>): seq<string> {
    seq(|table|, i requires 0 <= i < |table| => table[i].partition)
  }

  predicate StrictlySorted(s: seq<string>) {
    forall i, j :: 0 <= i < j < |s| ==> LexLess(s[i], s[j])
  }

  /** Inserts a name into a strictly sorted list of distinct names. */
  function InsertName(x: string, s: seq<string>): (r: seq<string>)
    requires StrictlySorted(s)
    ensures StrictlySorted(r)
    ensures forall y :: y in r <==> y == x || y in s
    decreases |s|
  {
    if |s| == 0 then [x]
    else if x == s[0] then s
    else if LexLess(x, s[0]) then
      assert forall j :: 0 <= j < |s| ==> LexLess(x, s[j]) by {
        forall j | 0 <= j < |s|
          ensures LexLess(x, s[j])
        {
          if j > 0 { LexTransitive(x, s[0], s[j]); }
        }
      }
      [x] + s
    else
      LexTotal(x, s[0]);
      var t := InsertName(x, s[1..]);
      assert forall y :: y in t ==> LexLess(s[0], y) by {
        forall y | y in t
          ensures LexLess(s[0], y)
        {
          if y != x {
            var j :| 0 <= j < |s[1..]| && s[1..][j] == y;
            assert s[j + 1] == y;
          }
        }
      }
      assert s == [s[0]] + s[1..];
      [s[0]] + t
  }

  /** `sorted(set(names))`: the distinct names in code-point order. */
  function SortedUnique(names: seq<string>): (r: seq<string>)
    ensures StrictlySorted(r)
    ensures forall y :: y in r <==> y in names
    decreases |names|
  {
    if |names| == 0 then []
    else
      assert names == names[..|names| - 1] + [names[|names| - 1]];
      InsertName(names[|names| - 1], SortedUnique(names[..|names| - 1]))
  }

  /** Two strictly sorted lists with the same members are the same list. */
  lemma {:induction false} SortedListsWithSameMembers(a: seq<string>, b: seq<string>)
    requires StrictlySorted(a) && StrictlySorted(b)
    requires forall y :: y in a <==> y in b
    ensures a == b
    decreases |a|
  {
    if |a| > 0 && |b| > 0 {
      assert a[0] in a && b[0] in b;
      if a[0] != b[0] {
        var k :| 0 <= k < |b| && b[k] == a[0];
        var m :| 0 <= m < |a| && a[m] == b[0];
        assert LexLess(b[0], a[0]);
        LexAsymmetric(b[0], a[0]);
        assert false;
      }
      forall y
        ensures y in a[1..] <==> y in b[1..]
      {
        if y in a[1..] {
          var j :| 0 <= j < |a[1..]| && a[1..][j] == y;
          assert LexLess(a[0], a[j + 1]);
          LexIrreflexive(y);
          InTail(b, y);
        }
        if y in b[1..] {
          var j :| 0 <= j < |b[1..]| && b[1..][j] == y;
          assert LexLess(b[0], b[j + 1]);
          LexIrreflexive(y);
          InTail(a, y);
        }
      }
      SortedListsWithSameMembers(a[1..], b[1..]);
      assert a == [a[0]] + a[1..] && b == [b[0]] + b[1..];
    } else if |a| > 0 {
      FirstIsMember(a);
      assert false;
    } else if |b| > 0 {
      FirstIsMember(b);
      assert false;
    }
  }

  lemma FirstIsMember(s: seq<string>)
    requires |s| > 0
    ensures s[0] in s
  {
  }

  lemma InTail(s: seq<string>, y: string)
    requires y in s && y != s[0]
    ensures y in s[1..]
  {
    var j :| 0 <= j < |s| && s[j] == y;
    assert s[1..][j - 1] == y;
  }

  /** The pairs `(names[i], names[j])` for every `j > i`, by increasing `j`. */
  function RowPairs(names: seq<string>, i: nat): seq<(string, string)>
    requires i < |names|
  {
    seq(|names| - i - 1, k requires 0 <= k < |names| - i - 1 => (names[i], names[i + 1 + k]))
  }

  /** The pairs of `itertools.combinations(names, 2)` whose first index is below `i`. */
  function PairsBelow(names: seq<string>, i: nat): seq<(string, string)>
    requires i <= |names|
  {
    if i == 0 then [] else PairsBelow(names, i - 1) + RowPairs(names, i - 1)
  }

  /** `itertools.combinations(names, 2)`, in its order. */
  function Combinations(names: seq<string>): seq<(string, string)> {
    PairsBelow(names, |names|)
  }

  /** Each pair below `i` joins two names of the list, the smaller first. */
  lemma {:induction false} PairsBelowOrdered(names: seq<string>, i: nat)
    requires i <= |names| && StrictlySorted(names)
    ensures forall p :: p in PairsBelow(names, i) ==> p.0 in names && p.1 in names && LexLess(p.0, p.1)
    decreases i
  {
    if i > 0 {
      PairsBelowOrdered(names, i - 1);
      var before, row := PairsBelow(names, i - 1), RowPairs(names, i - 1);
      RowPairsSorted(names, i - 1);
      assert PairsBelow(names, i) == before + row;
      forall p: (string, string) | p in before + row
        ensures p.0 in names && p.1 in names && LexLess(p.0, p.1)
      {
        if p !in before {
          assert p in row;
        }
      }
    }
  }

  /** Every pair of positions `a < b` with `a` below `i` is among the pairs below `i`. */
  lemma {:induction false} PairsBelowComplete(names: seq<string>, i: nat)
    requires i <= |names|
    ensures forall a, b :: 0 <= a < i && a < b < |names| ==> (names[a], names[b]) in PairsBelow(names, i)
    decreases i
  {
    if i > 0 {
      PairsBelowComplete(names, i - 1);
      var before, row := PairsBelow(names, i - 1), RowPairs(names, i - 1);
      assert PairsBelow(names, i) == before + row;
      forall a, b | 0 <= a < i && a < b < |names|
        ensures (names[a], names[b]) in before + row
      {
        if a == i - 1 {
          assert row[b - i] == (names[a], names[b]);
        } else {
          assert (names[a], names[b]) in before;
        }
      }
    }
  }

  lemma RowPairsSorted(names: seq<string>, i: nat)
    requires i < |names| && StrictlySorted(names)
    ensures forall p :: p in RowPairs(names, i) ==> p.0 in names && p.1 in names && LexLess(p.0, p.1)
  {
    var row := RowPairs(names, i);
    forall p | p in row
      ensures p.0 in names && p.1 in names && LexLess(p.0, p.1)
    {
      var k :| 0 <= k < |row| && row[k] == p;
      assert p == (names[i], names[i + 1 + k]);
    }
  }

  /** Every unordered pair of distinct names is visited exactly in its sorted
      orientation, and nothing else is visited. */
  lemma CombinationsOfSorted(names: seq<string>)
    requires StrictlySorted(names)
    ensures forall p :: p in Combinations(names) ==> p.0 in names && p.1 in names && LexLess(p.0, p.1)
    ensures forall a, b :: 0 <= a < b < |names| ==> (names[a], names[b]) in Combinations(names)
  {
    PairsBelowOrdered(names, |names|);
    PairsBelowComplete(names, |names|);
  }

  /** `subset_it`: the rows of partition `name`, in table order, without
      their partition column; empty when no row has that partition. */
  function SubsetIt(table: seq<RawRow>, name: string): (r: seq<NodeAttrs>)
    ensures |r| <= |table|
    decreases |table|
  {
    if |table| == 0 then []
    else
      var last := table[|table| - 1];
      SubsetIt(table[..|table| - 1], name) + (if last.partition == name then [WithoutPartition(last)] else [])
  }

  /** A partition's sub-table is empty exactly when no row has that partition. */
  lemma {:induction false} SubsetItEmpty(table: seq<RawRow>, name: string)
    ensures SubsetIt(table, name) == [] <==> forall i :: 0 <= i < |table| ==> table[i].partition != name
    decreases |table|
  {
    if |table| > 0 {
      var init := table[..|table| - 1];
      SubsetItEmpty(init, name);
      assert forall i :: 0 <= i < |init| ==> init[i] == table[i];
    }
  }

  /** `sinfo.drop(index=sinfo[sinfo.partition == name].index)`: the other
      rows, in order. */
  function DropPartition(table: seq<RawRow>, name: string): (r: seq<RawRow>)
    ensures forall i :: 0 <= i < |r| ==> r[i].partition != name
    decreases |table|
  {
    if |table| == 0 then []
    else
      var last := table[|table| - 1];
      DropPartition(table[..|table| - 1], name) + (if last.partition == name then [] else [last])
  }

  /** Dropping one partition leaves every other partition's sub-table
      unchanged, in order. */
  lemma {:induction false} DropKeepsOtherPartition(table: seq<RawRow>, name: string, x: string)
    requires x != name
    ensures SubsetIt(DropPartition(table, name), x) == SubsetIt(table, x)
    decreases |table|
  {
    if |table| > 0 {
      var init, last := table[..|table| - 1], table[|table| - 1];
      DropKeepsOtherPartition(init, name, x);
      var d, d' := DropPartition(init, name), DropPartition(table, name);
      if last.partition != name {
        assert d' == d + [last];
        assert d'[..|d'| - 1] == d && d'[|d'| - 1] == last;
      } else {
        assert d' == d;
      }
    }
  }

  /** A row survives the drop exactly when it was in the table under
      another partition. */
  lemma {:induction false} DropPartitionMembers(table: seq<RawRow>, name: string, x: RawRow)
    ensures x in DropPartition(table, name) <==> x in table && x.partition != name
    decreases |table|
  {
    if |table| > 0 {
      var init, last := table[..|table| - 1], table[|table| - 1];
      DropPartitionMembers(init, name, x);
      assert table == init + [last];
    }
  }

  /** Dropping one partition removes exactly its rows, no more. */
  lemma {:induction false} DropRemovesOnlyPartition(table: seq<RawRow>, name: string)
    ensures SubsetIt(DropPartition(table, name), name) == []
    ensures |DropPartition(table, name)| == |table| - |SubsetIt(table, name)|
    decreases |table|
  {
    SubsetItEmpty(DropPartition(table, name), name);
    if |table| > 0 {
      DropRemovesOnlyPartition(table[..|table| - 1], name);
    }
  }

  /** Which partition of an equal pair `(p, q)` (`p` sorting first) loses its
      rows, and the key it is recorded under: `p` is dropped unless only `p`
      carries the marker; the key is the other name with one marker removed. */
  function TieBreak(p: string, q: string): (r: (string, string))
    ensures r.0 == (if EndsWithStar(p) && !EndsWithStar(q) then q else p)
    ensures r.1 == StripOneStar(if r.0 == p then q else p)
    ensures p != q && (EndsWithStar(p) || EndsWithStar(q)) ==> EndsWithStar(if r.0 == p then q else p)
  {
    if EndsWithStar(q) then (p, q[..|q| - 1])
    else if EndsWithStar(p) then (q, p[..|p| - 1])
    else (p, q)
  }

  /** The table being reduced and the map being built by `get_nodes_info`. */
  datatype AliasState = AliasState(table: seq<RawRow>, shared: Shared)

  /** `shared.setdefault(key, []).append(alias)`. */
  function Record(shared: Shared, key: string, alias: string): Shared {
    shared[key := (if key in shared then shared[key] else []) + [alias]]
  }

  lemma RecordIntoEmpty(key: string, alias: string)
    ensures Record(map[], key, alias) == map[key := [alias]]
  {
    var e: seq<string> := [];
    assert e + [alias] == [alias];
  }

  /** The test at lines 114-115: the first sub-table is non-empty and equal,
      row for row, to the second. */
  predicate SameRows(table: seq<RawRow>, p: string, q: string) {
    var t1 := SubsetIt(table, p);
    |t1| > 0 && t1 == SubsetIt(table, q)
  }

  /** One iteration of the loop of `get_nodes_info`: rows are only ever
      deleted and keys only ever added. */
  function Step(st: AliasState, pair: (string, string)): (r: AliasState)
    ensures |r.table| <= |st.table|
    ensures st.shared.Keys <= r.shared.Keys
  {
    if SameRows(st.table, pair.0, pair.1) then
      var (drop, key) := TieBreak(pair.0, pair.1);
      DropRemovesOnlyPartition(st.table, drop);
      AliasState(DropPartition(st.table, drop), Record(st.shared, key, drop))
    else st
  }

  /** The loop of `get_nodes_info` over a list of pairs. */
  function Run(st: AliasState, pairs: seq<(string, string)>): (r: AliasState)
    ensures |r.table| <= |st.table|
    ensures st.shared.Keys <= r.shared.Keys
    decreases |pairs|
  {
    if |pairs| == 0 then st else Step(Run(st, pairs[..|pairs| - 1]), pairs[|pairs| - 1])
  }

  /** `sorted(sinfo.partition.unique())`. */
  function SortedPartitions(table: seq<RawRow>): seq<string> {
    SortedUnique(Partitions(table))
  }

  /** The sorted names are distinct, in code-point order, and exactly the
      partitions that have rows. */
  lemma SortedPartitionsMembers(table: seq<RawRow>)
    ensures StrictlySorted(SortedPartitions(table))
    ensures forall x :: x in SortedPartitions(table) <==> SubsetIt(table, x) != []
  {
    var names := Partitions(table);
    forall x
      ensures x in names <==> SubsetIt(table, x) != []
    {
      SubsetItEmpty(table, x);
      if SubsetIt(table, x) != [] {
        var i :| 0 <= i < |table| && table[i].partition == x;
        assert names[i] == x;
      }
    }
  }

  /** The table `get_nodes_info` leaves behind and the map it returns. */
  function DetectAliases(table: seq<RawRow>): (r: AliasState)
    ensures |r.table| <= |table|
  {
    Run(AliasState(table, map[]), Combinations(SortedPartitions(table)))
  }

  lemma RunAppend(st: AliasState, pairs: seq<(string, string)>, pair: (string, string))
    ensures Run(st, pairs + [pair]) == Step(Run(st, pairs), pair)
  {
    assert (pairs + [pair])[..|pairs|] == pairs;
  }

  /** The body of the loop of `get_nodes_info` for the pair `(p, q)`. */
  method VisitPair(table: seq<RawRow>, shared: Shared, p: string, q: string)
    returns (table': seq<RawRow>, shared': Shared)
    ensures AliasState(table', shared') == Step(AliasState(table, shared), (p, q))
  {
    table', shared' := table, shared;
    var it1, it2 := SubsetIt(table, p), SubsetIt(table, q);
    if |it1| > 0 && it1 == it2 {
      var (drop, key) := TieBreak(p, q);
      table' := DropPartition(table, drop);
      shared' := Record(shared, key, drop);
    }
  }

  /** Running over two stretches of pairs is running over the first, then the second. */
  lemma {:induction false} RunConcat(st: AliasState, a: seq<(string, string)>, b: seq<(string, string)>)
    ensures Run(st, a + b) == Run(Run(st, a), b)
    decreases |b|
  {
    if |b| == 0 {
      assert a + b == a;
    } else {
      var init, last := b[..|b| - 1], b[|b| - 1];
      calc {
        Run(st, a + b);
        { assert a + b == (a + init) + [last]; }
        Run(st, (a + init) + [last]);
        { RunAppend(st, a + init, last); }
        Step(Run(st, a + init), last);
        { RunConcat(st, a, init); }
        Step(Run(Run(st, a), init), last);
        { RunAppend(Run(st, a), init, last); assert init + [last] == b; }
        Run(Run(st, a), b);
      }
    }
  }

  /** The inner round of `get_nodes_info`: `names[i]` against every later name. */
  method VisitLaterNames(names: seq<string>, i: nat, table: seq<RawRow>, shared: Shared)
    returns (table': seq<RawRow>, shared': Shared)
    requires i < |names|
    ensures AliasState(table', shared') == Run(AliasState(table, shared), RowPairs(names, i))
  {
    ghost var start := AliasState(table, shared);
    ghost var row := RowPairs(names, i);
    table', shared' := table, shared;
    var j := i + 1;
    assert row[..0] == [];
    while j < |names|
      invariant i + 1 <= j <= |names|
      invariant AliasState(table', shared') == Run(start, row[..j - i - 1])
    {
      table', shared' := VisitPair(table', shared', names[i], names[j]);
      RunRowPairs(start, names, i, j);
      j := j + 1;
    }
    assert row[..|names| - i - 1] == row;
  }

  /** The inner loop of `get_nodes_info`, one pair further. */
  lemma RunRowPairs(st: AliasState, names: seq<string>, i: nat, j: nat)
    requires i < j < |names|
    ensures Run(st, RowPairs(names, i)[..j - i]) == Step(Run(st, RowPairs(names, i)[..j - i - 1]), (names[i], names[j]))
  {
    var row := RowPairs(names, i);
    assert row[j - i - 1] == (names[i], names[j]);
    assert row[..j - i] == row[..j - i - 1] + [row[j - i - 1]];
    RunAppend(st, row[..j - i - 1], (names[i], names[j]));
  }

  /** `get_nodes_info`: walks the sorted pairs of partition names, removing
      the rows of one partition of each equal pair from `sinfo` and
      recording it in `shared`. */
  method GetNodesInfo(sinfo: seq<RawRow>) returns (table: seq<RawRow>, shared: Shared)
    ensures AliasState(table, shared) == DetectAliases(sinfo)
  {
    var names := SortedPartitions(sinfo);
    ghost var start := AliasState(sinfo, map[]);
    table, shared := sinfo, map[];
    var i := 0;
    while i < |names|
      invariant 0 <= i <= |names|
      invariant AliasState(table, shared) == Run(start, PairsBelow(names, i))
    {
      RunPairsBelow(start, names, i);
      table, shared := VisitLaterNames(names, i, table, shared);
      i := i + 1;
    }
  }

  /** The outer loop of `get_nodes_info`, one round further. */
  lemma RunPairsBelow(st: AliasState, names: seq<string>, i: nat)
    requires i < |names|
    ensures Run(st, PairsBelow(names, i + 1)) == Run(Run(st, PairsBelow(names, i)), RowPairs(names, i))
  {
    RunConcat(st, PairsBelow(names, i), RowPairs(names, i));
  }

  /** `shared` only ever gains: every key stays, and its list only grows at its end. */
  ghost predicate Grows(m1: Shared, m2: Shared) {
    forall k :: k in m1 ==> k in m2 && m1[k] <= m2[k]
  }

  /** Lines 116-123 for a matching pair: exactly the rows of the losing
      partition are deleted, every other partition keeps its rows in order,
      and the losing name is appended under the key. */
  lemma StepRemovesExactlyTheAlias(st: AliasState, p: string, q: string)
    requires SameRows(st.table, p, q)
    ensures var (drop, key) := TieBreak(p, q);
      var after := Step(st, (p, q));
      && SubsetIt(after.table, drop) == []
      && (forall x :: x != drop ==> SubsetIt(after.table, x) == SubsetIt(st.table, x))
      && |after.table| == |st.table| - |SubsetIt(st.table, drop)|
      && after.shared.Keys == st.shared.Keys + {key}
      && after.shared[key] == (if key in st.shared then st.shared[key] else []) + [drop]
      && (forall k :: k in st.shared && k != key ==> after.shared[k] == st.shared[k])
  {
    var (drop, key) := TieBreak(p, q);
    DropRemovesOnlyPartition(st.table, drop);
    forall x | x != drop
      ensures SubsetIt(DropPartition(st.table, drop), x) == SubsetIt(st.table, x)
    {
      DropKeepsOtherPartition(st.table, drop, x);
    }
  }

  /** A pair one of whose partitions has no rows left (because it was
      removed earlier) never matches. */
  lemma RemovedNeverMatches(st: AliasState, p: string, q: string)
    requires SubsetIt(st.table, p) == [] || SubsetIt(st.table, q) == []
    ensures Step(st, (p, q)) == st
  {
  }

  lemma {:induction false} RunGrows(st: AliasState, pairs: seq<(string, string)>)
    ensures Grows(st.shared, Run(st, pairs).shared)
    decreases |pairs|
  {
    if |pairs| > 0 {
      RunGrows(st, pairs[..|pairs| - 1]);
    }
  }

  /** After any number of steps each partition has either all of its
      original rows, in order, or none. */
  lemma {:induction false} RunKeepsWholePartitions(st: AliasState, pairs: seq<(string, string)>, x: string)
    ensures SubsetIt(Run(st, pairs).table, x) == SubsetIt(st.table, x) || SubsetIt(Run(st, pairs).table, x) == []
    decreases |pairs|
  {
    if |pairs| > 0 {
      var mid := Run(st, pairs[..|pairs| - 1]);
      RunKeepsWholePartitions(st, pairs[..|pairs| - 1], x);
      var pair := pairs[|pairs| - 1];
      if SameRows(mid.table, pair.0, pair.1) {
        StepRemovesExactlyTheAlias(mid, pair.0, pair.1);
      }
    }
  }

  /** Every name recorded as an alias has no rows left in the table. */
  ghost predicate AbsorbedAreGone(st: AliasState) {
    forall k, d :: k in st.shared && d in st.shared[k] ==> SubsetIt(st.table, d) == []
  }

  lemma {:induction false} RunKeepsAbsorbedGone(st: AliasState, pairs: seq<(string, string)>)
    requires AbsorbedAreGone(st)
    ensures AbsorbedAreGone(Run(st, pairs))
    decreases |pairs|
  {
    if |pairs| > 0 {
      var mid := Run(st, pairs[..|pairs| - 1]);
      RunKeepsAbsorbedGone(st, pairs[..|pairs| - 1]);
      var pair := pairs[|pairs| - 1];
      if SameRows(mid.table, pair.0, pair.1) {
        StepRemovesExactlyTheAlias(mid, pair.0, pair.1);
        var after := Step(mid, pair);
        var (drop, key) := TieBreak(pair.0, pair.1);
        forall k, d | k in after.shared && d in after.shared[k]
          ensures SubsetIt(after.table, d) == []
        {
          if d != drop {
            assert d in mid.shared[k] by {
              if k == key && key in mid.shared {
                assert after.shared[k] == mid.shared[k] + [drop];
              }
            }
          }
        }
      }
    }
  }

  /** What `get_nodes_info` promises its caller: the map starts empty and
      only gains; every partition it reports as an alias is gone from the
      table; every other partition either keeps all its rows, in order, or
      has been absorbed. */
  lemma DetectAliasesOutcome(table: seq<RawRow>)
    ensures AbsorbedAreGone(DetectAliases(table))
    ensures forall x :: SubsetIt(DetectAliases(table).table, x) == SubsetIt(table, x) || SubsetIt(DetectAliases(table).table, x) == []
  {
    var st := AliasState(table, map[]);
    var pairs := Combinations(SortedPartitions(table));
    RunKeepsAbsorbedGone(st, pairs);
    forall x
      ensures SubsetIt(Run(st, pairs).table, x) == SubsetIt(table, x) || SubsetIt(Run(st, pairs).table, x) == []
    {
      RunKeepsWholePartitions(st, pairs, x);
    }
  }

  /** No pair pairs a name with itself. */
  ghost predicate DistinctPairs(pairs: seq<(string, string)>) {
    forall i :: 0 <= i < |pairs| ==> pairs[i].0 != pairs[i].1
  }

  /** The pairs of `combinations` over the sorted partition names are of two
      different names. */
  lemma CombinationsDistinct(table: seq<RawRow>)
    ensures DistinctPairs(Combinations(SortedPartitions(table)))
  {
    var names := SortedPartitions(table);
    var pairs := Combinations(names);
    SortedPartitionsMembers(table);
    CombinationsOfSorted(names);
    forall i | 0 <= i < |pairs|
      ensures pairs[i].0 != pairs[i].1
    {
      assert pairs[i] in pairs;
      LexIrreflexive(pairs[i].0);
    }
  }

  /** `d` was recorded under `k` for a reason: some other partition `kk`,
      named `k` once its marker is removed, had exactly the rows of `d` in
      the original table, and they were not none. */
  ghost predicate AbsorbedBy(t0: seq<RawRow>, k: string, d: string) {
    exists kk :: kk != d && StripOneStar(kk) == k && SubsetIt(t0, kk) == SubsetIt(t0, d) && SubsetIt(t0, d) != []
  }

  ghost predicate AliasesSound(t0: seq<RawRow>, shared: Shared) {
    forall k, d :: k in shared && d in shared[k] ==> AbsorbedBy(t0, k, d)
  }

  /** Every entry the loop adds to `shared` is an alias of its key in the
      table the loop started from. */
  lemma {:induction false} RunSound(st: AliasState, pairs: seq<(string, string)>)
    requires AliasesSound(st.table, st.shared)
    requires DistinctPairs(pairs)
    ensures AliasesSound(st.table, Run(st, pairs).shared)
    decreases |pairs|
  {
    if |pairs| > 0 {
      var init, pair := pairs[..|pairs| - 1], pairs[|pairs| - 1];
      assert DistinctPairs(init) by {
        forall i | 0 <= i < |init|
          ensures init[i].0 != init[i].1
        {
          assert init[i] == pairs[i];
        }
      }
      RunSound(st, init);
      var mid := Run(st, init);
      RunKeepsWholePartitions(st, init, pair.0);
      RunKeepsWholePartitions(st, init, pair.1);
      StepSound(st.table, mid, pair);
    }
  }

  /** One step keeps the map sound when both names of its pair still have
      either their original rows or none. */
  lemma StepSound(t0: seq<RawRow>, mid: AliasState, pair: (string, string))
    requires AliasesSound(t0, mid.shared) && pair.0 != pair.1
    requires SubsetIt(mid.table, pair.0) == SubsetIt(t0, pair.0) || SubsetIt(mid.table, pair.0) == []
    requires SubsetIt(mid.table, pair.1) == SubsetIt(t0, pair.1) || SubsetIt(mid.table, pair.1) == []
    ensures AliasesSound(t0, Step(mid, pair).shared)
  {
    var p, q := pair.0, pair.1;
    if SameRows(mid.table, p, q) {
      StepRemovesExactlyTheAlias(mid, p, q);
      var after := Step(mid, pair);
      var drop, key := TieBreak(p, q).0, TieBreak(p, q).1;
      var keeper := if drop == p then q else p;
      assert keeper != drop && StripOneStar(keeper) == key;
      assert SubsetIt(t0, keeper) == SubsetIt(t0, drop) && SubsetIt(t0, drop) != [];
      RecordKeepsSound(t0, mid.shared, after.shared, key, drop);
    } else {
      assert Step(mid, pair) == mid;
    }
  }

  /** Recording an alias of `key` keeps the map sound. */
  lemma RecordKeepsSound(t0: seq<RawRow>, shared: Shared, shared': Shared, key: string, drop: string)
    requires AliasesSound(t0, shared) && AbsorbedBy(t0, key, drop)
    requires shared'.Keys == shared.Keys + {key}
    requires shared'[key] == (if key in shared then shared[key] else []) + [drop]
    requires forall k :: k in shared && k != key ==> shared'[k] == shared[k]
    ensures AliasesSound(t0, shared')
  {
    forall k, d | k in shared' && d in shared'[k]
      ensures AbsorbedBy(t0, k, d)
    {
      if k == key && d != drop {
        assert d in shared[k];
      } else if k != key {
        assert d in shared[k];
      }
    }
  }

  /** Soundness of the map `get_nodes_info` returns: each partition listed
      under a key had exactly the rows of another partition, named by that
      key once its marker is removed, and those rows were not none. */
  lemma DetectAliasesSound(table: seq<RawRow>)
    ensures forall k, d :: k in DetectAliases(table).shared && d in DetectAliases(table).shared[k] ==>
      exists kk :: kk != d && StripOneStar(kk) == k && SubsetIt(table, kk) == SubsetIt(table, d) && SubsetIt(table, d) != []
  {
    CombinationsDistinct(table);
    RunSound(AliasState(table, map[]), Combinations(SortedPartitions(table)));
    assert AliasesSound(table, DetectAliases(table).shared);
  }

  /** Completeness of `get_nodes_info`: of two partitions with the same
      non-empty rows, at least one has no rows left afterwards. */
  lemma DetectAliasesComplete(table: seq<RawRow>, p: string, q: string)
    requires p != q && SubsetIt(table, p) == SubsetIt(table, q) && SubsetIt(table, p) != []
    ensures SubsetIt(DetectAliases(table).table, p) == [] || SubsetIt(DetectAliases(table).table, q) == []
  {
    var pairs := Combinations(SortedPartitions(table));
    var m := PairVisited(table, p, q);
    MatchingPairEmptiesOne(AliasState(table, map[]), pairs, m);
  }

  /** The loop visits the pair of any two partitions that have rows, in one
      orientation or the other. */
  lemma PairVisited(table: seq<RawRow>, p: string, q: string) returns (m: nat)
    requires p != q && SubsetIt(table, p) != [] && SubsetIt(table, q) != []
    ensures var pairs := Combinations(SortedPartitions(table));
      m < |pairs| && (pairs[m] == (p, q) || pairs[m] == (q, p))
  {
    var names := SortedPartitions(table);
    SortedPartitionsMembers(table);
    var a :| 0 <= a < |names| && names[a] == p;
    var b :| 0 <= b < |names| && names[b] == q;
    if a < b {
      m := PairIndex(names, a, b);
    } else {
      m := PairIndex(names, b, a);
    }
  }

  /** Where `combinations(names, 2)` visits the pair `(names[a], names[b])`. */
  lemma PairIndex(names: seq<string>, a: nat, b: nat) returns (m: nat)
    requires StrictlySorted(names) && a < b < |names|
    ensures m < |Combinations(names)| && Combinations(names)[m] == (names[a], names[b])
  {
    CombinationsOfSorted(names);
    var pairs := Combinations(names);
    assert (names[a], names[b]) in pairs;
    m :| 0 <= m < |pairs| && pairs[m] == (names[a], names[b]);
  }

  /** A pair whose two partitions start with the same non-empty rows ends
      with one of them empty. */
  lemma MatchingPairEmptiesOne(st: AliasState, pairs: seq<(string, string)>, m: nat)
    requires m < |pairs|
    requires SubsetIt(st.table, pairs[m].0) == SubsetIt(st.table, pairs[m].1) && SubsetIt(st.table, pairs[m].0) != []
    ensures SubsetIt(Run(st, pairs).table, pairs[m].0) == [] || SubsetIt(Run(st, pairs).table, pairs[m].1) == []
  {
    var pr := pairs[m];
    RunThroughPair(st, pairs, m);
    var mid := Run(st, pairs[..m]);
    var after := Step(mid, pr);
    var x, y := pr.0, pr.1;
    var z := if SubsetIt(after.table, x) == [] then x else y;
    assert SubsetIt(after.table, z) == [] by {
      if SubsetIt(mid.table, x) == [] || SubsetIt(mid.table, y) == [] {
        RemovedNeverMatches(mid, x, y);
      } else {
        RunKeepsWholePartitions(st, pairs[..m], x);
        RunKeepsWholePartitions(st, pairs[..m], y);
        StepRemovesExactlyTheAlias(mid, x, y);
      }
    }
    EmptyStaysEmpty(after, pairs[m + 1..], z);
  }

  /** The loop over `pairs`, cut at the pair with index `m`. */
  lemma RunThroughPair(st: AliasState, pairs: seq<(string, string)>, m: nat)
    requires m < |pairs|
    ensures Run(st, pairs) == Run(Step(Run(st, pairs[..m]), pairs[m]), pairs[m + 1..])
  {
    calc {
      Run(st, pairs);
      { assert pairs == pairs[..m + 1] + pairs[m + 1..]; }
      Run(st, pairs[..m + 1] + pairs[m + 1..]);
      { RunConcat(st, pairs[..m + 1], pairs[m + 1..]); }
      Run(Run(st, pairs[..m + 1]), pairs[m + 1..]);
      { assert pairs[..m + 1] == pairs[..m] + [pairs[m]]; RunAppend(st, pairs[..m], pairs[m]); }
      Run(Step(Run(st, pairs[..m]), pairs[m]), pairs[m + 1..]);
    }
  }

  /** A partition with no rows never gets any back. */
  lemma EmptyStaysEmpty(st: AliasState, pairs: seq<(string, string)>, x: string)
    requires SubsetIt(st.table, x) == []
    ensures SubsetIt(Run(st, pairs).table, x) == []
  {
    RunKeepsWholePartitions(st, pairs, x);
  }

  /** The table `get_nodes_info` leaves has no aliases left: no two
      partitions in it have the same non-empty rows. */
  lemma DetectAliasesLeavesNoAliases(table: seq<RawRow>, p: string, q: string)
    requires p != q
    ensures !SameRows(DetectAliases(table).table, p, q)
  {
    var t := DetectAliases(table).table;
    if SameRows(t, p, q) {
      DetectAliasesOutcome(table);
      assert SubsetIt(t, p) == SubsetIt(table, p);
      assert SubsetIt(t, q) == SubsetIt(table, q);
      DetectAliasesComplete(table, p, q);
      assert false;
    }
  }

  /** Two tables that agree partition by partition (they differ only in
      how the partitions' rows are interleaved). */
  ghost predicate SameSubTables(t1: seq<RawRow>, t2: seq<RawRow>) {
    forall x :: SubsetIt(t1, x) == SubsetIt(t2, x)
  }

  lemma StepRespectsSubTables(st1: AliasState, st2: AliasState, pair: (string, string))
    requires SameSubTables(st1.table, st2.table) && st1.shared == st2.shared
    ensures Step(st1, pair).shared == Step(st2, pair).shared
    ensures SameSubTables(Step(st1, pair).table, Step(st2, pair).table)
  {
    assert SubsetIt(st1.table, pair.0) == SubsetIt(st2.table, pair.0);
    assert SubsetIt(st1.table, pair.1) == SubsetIt(st2.table, pair.1);
    if SameRows(st1.table, pair.0, pair.1) {
      StepRemovesExactlyTheAlias(st1, pair.0, pair.1);
      StepRemovesExactlyTheAlias(st2, pair.0, pair.1);
      var drop := TieBreak(pair.0, pair.1).0;
      forall x
        ensures SubsetIt(Step(st1, pair).table, x) == SubsetIt(Step(st2, pair).table, x)
      {
        if x != drop {
          assert SubsetIt(st1.table, x) == SubsetIt(st2.table, x);
        }
      }
    }
  }

  lemma {:induction false} RunRespectsSubTables(st1: AliasState, st2: AliasState, pairs: seq<(string, string)>)
    requires SameSubTables(st1.table, st2.table) && st1.shared == st2.shared
    ensures Run(st1, pairs).shared == Run(st2, pairs).shared
    ensures SameSubTables(Run(st1, pairs).table, Run(st2, pairs).table)
    decreases |pairs|
  {
    if |pairs| > 0 {
      RunRespectsSubTables(st1, st2, pairs[..|pairs| - 1]);
      StepRespectsSubTables(Run(st1, pairs[..|pairs| - 1]), Run(st2, pairs[..|pairs| - 1]), pairs[|pairs| - 1]);
    }
  }

  /** Alias detection depends only on each partition's own rows and their
      order, not on how the rows of different partitions are interleaved. */
  lemma DetectAliasesIgnoresInterleaving(t1: seq<RawRow>, t2: seq<RawRow>)
    requires SameSubTables(t1, t2)
    ensures DetectAliases(t1).shared == DetectAliases(t2).shared
    ensures SameSubTables(DetectAliases(t1).table, DetectAliases(t2).table)
  {
    SortedPartitionsMembers(t1);
    SortedPartitionsMembers(t2);
    forall y
      ensures y in SortedPartitions(t1) <==> y in SortedPartitions(t2)
    {
      assert SubsetIt(t1, y) == SubsetIt(t2, y);
    }
    SortedListsWithSameMembers(SortedPartitions(t1), SortedPartitions(t2));
    RunRespectsSubTables(AliasState(t1, map[]), AliasState(t2, map[]), Combinations(SortedPartitions(t1)));
  }

  /** One more row adds its attributes when it belongs to partition `x`. */
  lemma SubsetItSnoc(t: seq<RawRow>, last: RawRow, x: string)
    ensures SubsetIt(t + [last], x) == SubsetIt(t, x) + (if last.partition == x then [WithoutPartition(last)] else [])
  {
    assert (t + [last])[..|t|] == t;
  }

  lemma {:induction false} SubsetItConcat(a: seq<RawRow>, b: seq<RawRow>, x: string)
    ensures SubsetIt(a + b, x) == SubsetIt(a, x) + SubsetIt(b, x)
    decreases |b|
  {
    if |b| == 0 {
      assert a + b == a;
    } else {
      var init, last := b[..|b| - 1], b[|b| - 1];
      var tail := if last.partition == x then [WithoutPartition(last)] else [];
      calc {
        SubsetIt(a + b, x);
        { assert a + b == (a + init) + [last]; }
        SubsetIt((a + init) + [last], x);
        { SubsetItSnoc(a + init, last, x); }
        SubsetIt(a + init, x) + tail;
        { SubsetItConcat(a, init, x); }
        (SubsetIt(a, x) + SubsetIt(init, x)) + tail;
        SubsetIt(a, x) + (SubsetIt(init, x) + tail);
        { SubsetItSnoc(init, last, x); assert init + [last] == b; }
        SubsetIt(a, x) + SubsetIt(b, x);
      }
    }
  }

  lemma OneBlockHasPartition(a: seq<RawRow>, b: seq<RawRow>, x: string)
    requires forall i, j :: 0 <= i < |a| && 0 <= j < |b| ==> a[i].partition != b[j].partition
    ensures SubsetIt(a, x) == [] || SubsetIt(b, x) == []
  {
    SubsetItEmpty(a, x);
    SubsetItEmpty(b, x);
    if SubsetIt(a, x) != [] {
      var i :| 0 <= i < |a| && a[i].partition == x;
      assert forall j :: 0 <= j < |b| ==> b[j].partition != x;
    }
  }

  /** Swapping two blocks of rows that share no partition changes nothing
      in what is detected. */
  lemma SwapPartitionBlocks(a: seq<RawRow>, b: seq<RawRow>)
    requires forall i, j :: 0 <= i < |a| && 0 <= j < |b| ==> a[i].partition != b[j].partition
    ensures DetectAliases(a + b).shared == DetectAliases(b + a).shared
  {
    forall x
      ensures SubsetIt(a + b, x) == SubsetIt(b + a, x)
    {
      SubsetItConcat(a, b, x);
      SubsetItConcat(b, a, x);
      OneBlockHasPartition(a, b, x);
    }
    DetectAliasesIgnoresInterleaving(a + b, b + a);
  }

  /** The rows `rows`, all in partition `partition`. */
  function Labelled(rows: seq<NodeAttrs>, partition: string): (r: seq<RawRow>)
    ensures |r| == |rows|
    ensures forall i :: 0 <= i < |rows| ==> r[i].partition == partition && WithoutPartition(r[i]) == rows[i]
  {
    seq(|rows|, i requires 0 <= i < |rows| => WithPartition(rows[i], partition))
  }

  lemma {:induction false} SubsetItOfLabelled(rows: seq<NodeAttrs>, p: string, x: string)
    ensures SubsetIt(Labelled(rows, p), x) == if x == p then rows else []
    decreases |rows|
  {
    if |rows| > 0 {
      var init := rows[..|rows| - 1];
      var t, ti := Labelled(rows, p), Labelled(init, p);
      SubsetItOfLabelled(init, p, x);
      assert t == ti + [t[|rows| - 1]];
      SubsetItSnoc(ti, t[|rows| - 1], x);
      if x == p {
        assert SubsetIt(t, x) == init + [rows[|rows| - 1]];
        assert rows == init + [rows[|rows| - 1]];
      } else {
        assert SubsetIt(t, x) == [];
      }
    }
  }

  lemma {:induction false} DropOfLabelled(rows: seq<NodeAttrs>, p: string, x: string)
    ensures DropPartition(Labelled(rows, p), x) == if x == p then [] else Labelled(rows, p)
    decreases |rows|
  {
    if |rows| > 0 {
      var init := rows[..|rows| - 1];
      DropOfLabelled(init, p, x);
      var t, ti := Labelled(rows, p), Labelled(init, p);
      var last := t[|rows| - 1];
      assert t[..|rows| - 1] == ti;
      assert last.partition == p;
      if x == p {
        assert DropPartition(t, x) == DropPartition(ti, x);
      } else {
        assert DropPartition(t, x) == ti + [last];
        assert t == ti + [last];
      }
    }
  }

  lemma {:induction false} DropConcat(a: seq<RawRow>, b: seq<RawRow>, x: string)
    ensures DropPartition(a + b, x) == DropPartition(a, x) + DropPartition(b, x)
    decreases |b|
  {
    if |b| == 0 {
      assert a + b == a;
    } else {
      DropConcat(a, b[..|b| - 1], x);
      assert (a + b)[..|a + b| - 1] == a + b[..|b| - 1];
    }
  }

  lemma CombinationsOfTwo(p: string, q: string)
    ensures Combinations([p, q]) == [(p, q)]
  {
    var names := [p, q];
    assert RowPairs(names, 0) == [(p, q)];
    assert RowPairs(names, 1) == [];
    assert PairsBelow(names, 1) == [(p, q)];
    assert Combinations(names) == PairsBelow(names, 1) + RowPairs(names, 1);
  }

  lemma TwoPartitionsSubTables(rows: seq<NodeAttrs>, p: string, q: string, x: string)
    requires p != q
    ensures SubsetIt(Labelled(rows, p) + Labelled(rows, q), x) == if x == p || x == q then rows else []
  {
    SubsetItConcat(Labelled(rows, p), Labelled(rows, q), x);
    SubsetItOfLabelled(rows, p, x);
    SubsetItOfLabelled(rows, q, x);
  }

  lemma SortedPartitionsOfTwo(rows: seq<NodeAttrs>, p: string, q: string)
    requires |rows| > 0 && LexLess(p, q)
    ensures SortedPartitions(Labelled(rows, p) + Labelled(rows, q)) == [p, q]
  {
    var t := Labelled(rows, p) + Labelled(rows, q);
    var both := [p, q];
    LexIrreflexive(p);
    PartitionsOfTwo(rows, p, q);
    SortedPartitionsMembers(t);
    assert StrictlySorted(both) by {
      assert both[0] == p && both[1] == q;
    }
    assert forall y :: y in both <==> y == p || y == q;
    SortedListsWithSameMembers(SortedPartitions(t), both);
  }

  lemma PartitionsOfTwo(rows: seq<NodeAttrs>, p: string, q: string)
    requires |rows| > 0 && p != q
    ensures forall y :: y in SortedPartitions(Labelled(rows, p) + Labelled(rows, q)) <==> y == p || y == q
  {
    var t := Labelled(rows, p) + Labelled(rows, q);
    SortedPartitionsMembers(t);
    forall y
      ensures y in SortedPartitions(t) <==> y == p || y == q
    {
      TwoPartitionsSubTables(rows, p, q, y);
    }
  }

  lemma StepOfSameRows(st: AliasState, p: string, q: string)
    requires SameRows(st.table, p, q)
    ensures Step(st, (p, q))
         == AliasState(DropPartition(st.table, TieBreak(p, q).0), Record(st.shared, TieBreak(p, q).1, TieBreak(p, q).0))
  {
  }

  lemma DropOneOfTwo(rows: seq<NodeAttrs>, p: string, q: string, drop: string)
    requires p != q && (drop == p || drop == q)
    ensures DropPartition(Labelled(rows, p) + Labelled(rows, q), drop) == Labelled(rows, if drop == p then q else p)
  {
    DropConcat(Labelled(rows, p), Labelled(rows, q), drop);
    DropOfLabelled(rows, p, drop);
    DropOfLabelled(rows, q, drop);
    if drop == p {
      assert [] + Labelled(rows, q) == Labelled(rows, q);
    } else {
      assert Labelled(rows, p) + [] == Labelled(rows, p);
    }
  }

  lemma DetectAliasesOfTwo(rows: seq<NodeAttrs>, p: string, q: string)
    requires |rows| > 0 && LexLess(p, q)
    ensures DetectAliases(Labelled(rows, p) + Labelled(rows, q))
         == Step(AliasState(Labelled(rows, p) + Labelled(rows, q), map[]), (p, q))
  {
    var t := Labelled(rows, p) + Labelled(rows, q);
    SortedPartitionsOfTwo(rows, p, q);
    CombinationsOfTwo(p, q);
    var start := AliasState(t, map[]);
    assert DetectAliases(t) == Run(start, [(p, q)]);
    assert [(p, q)][..0] == [];
    assert Run(start, [(p, q)]) == Step(Run(start, []), (p, q));
  }

  /** Two partitions `p < q` holding the same rows: the tie-break decides
      which one survives, and the map records the loser under the
      survivor's name without its marker. */
  lemma TwoEqualPartitions(rows: seq<NodeAttrs>, p: string, q: string)
    requires |rows| > 0 && LexLess(p, q)
    ensures DetectAliases(Labelled(rows, p) + Labelled(rows, q))
         == AliasState(Labelled(rows, if TieBreak(p, q).0 == p then q else p), map[TieBreak(p, q).1 := [TieBreak(p, q).0]])
  {
    var t := Labelled(rows, p) + Labelled(rows, q);
    LexIrreflexive(p);
    DetectAliasesOfTwo(rows, p, q);
    TwoPartitionsSubTables(rows, p, q, p);
    TwoPartitionsSubTables(rows, p, q, q);
    assert SameRows(t, p, q);
    var drop, key := TieBreak(p, q).0, TieBreak(p, q).1;
    StepOfSameRows(AliasState(t, map[]), p, q);
    DropOneOfTwo(rows, p, q, drop);
    RecordIntoEmpty(key, drop);
  }

  /** The default partition `normal*` and the partition `optimist` list the
      same nodes: `optimist` loses its rows, the rows stay under `normal*`,
      and the map reads `normal -> [optimist]`. */
  lemma DefaultPartitionSurvives(rows: seq<NodeAttrs>)
    requires |rows| > 0
    ensures DetectAliases(Labelled(rows, "normal*") + Labelled(rows, "optimist"))
         == AliasState(Labelled(rows, "normal*"), map["normal" := ["optimist"]])
  {
    assert LexLess("normal*", "optimist");
    var n, o := "normal*", "optimist";
    assert EndsWithStar(n) && !EndsWithStar(o);
    assert n[..|n| - 1] == "normal";
    assert TieBreak(n, o) == (o, "normal");
    TwoEqualPartitions(rows, "normal*", "optimist");
  }
}
