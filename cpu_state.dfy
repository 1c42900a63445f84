/** `expand_cpus`: the `A/I/O/T` cpus field split into allocated and idle counts. */
module CpuState {
  import opened Wrappers
  import opened Strings
  import opened Rows

  /** One row of `expand_cpus`: the first two `/`-separated pieces of the
      cpus field become `allocated` and `cpus_avail`. */
  function ExpandRow(r: RawRow): (c: CpuRow)
    ensures c.raw == r
    ensures c.allocatedCpus == Split(r.cpus, '/')[0]
    ensures c.cpusAvail.Some? <==> '/' in r.cpus
    ensures |Split(r.cpus, '/')| >= 2 ==> c.cpusAvail == Some(Split(r.cpus, '/')[1])
  {
    var pieces := Split(r.cpus, '/');
    SplitFindsSeparator(r.cpus, '/');
    CpuRow(r, pieces[0], if |pieces| >= 2 then Some(pieces[1]) else None)
  }

  /** `expand_cpus`: every row kept, in order, with the two new columns. */
  function ExpandCpus(table: seq<RawRow>): (r: seq<CpuRow>)
    ensures |r| == |table|
    ensures forall i :: 0 <= i < |table| ==> r[i] == ExpandRow(table[i])
    ensures forall i :: 0 <= i < |table| ==> r[i].raw == table[i]
  {
    seq(|table|, i requires 0 <= i < |table| => ExpandRow(table[i]))
  }

  /** For a cpus field `A/I/O/T`, `allocated` is `A` and `cpus_avail` is `I`. */
  lemma ExpandFourCounts(r: RawRow, a: string, idle: string, other: string, total: string)
    requires '/' !in a && '/' !in idle && '/' !in other && '/' !in total
    requires r.cpus == a + "/" + idle + "/" + other + "/" + total
    ensures ExpandRow(r).allocatedCpus == a
    ensures ExpandRow(r).cpusAvail == Some(idle)
  {
    var ps := [a, idle, other, total];
    assert ps[1..] == [idle, other, total] && ps[1..][1..] == [other, total] && ps[1..][1..][1..] == [total];
    assert Join([other, total], "/") == other + "/" + total;
    assert Join([idle, other, total], "/") == idle + "/" + (other + "/" + total);
    assert Join(ps, "/") == a + "/" + (idle + "/" + (other + "/" + total));
    assert Join(ps, "/") == r.cpus;
    SplitJoin(ps, '/');
    assert Split(r.cpus, '/') == ps;
  }

  /** When the counts are numerals, `cpus_avail` parses back to the idle count. */
  lemma ExpandIdleCount(r: RawRow, a: nat, idle: nat, other: nat, total: nat)
    requires r.cpus == NatToString(a) + "/" + NatToString(idle) + "/" + NatToString(other) + "/" + NatToString(total)
    ensures ExpandRow(r).cpusAvail.Some?
    ensures ParseFloat(ExpandRow(r).cpusAvail.value) == Some(idle as real)
  {
    NoSlashInNumeral(a);
    NoSlashInNumeral(idle);
    NoSlashInNumeral(other);
    NoSlashInNumeral(total);
    ExpandFourCounts(r, NatToString(a), NatToString(idle), NatToString(other), NatToString(total));
    ParseNatToString(idle);
  }

  lemma NoSlashInNumeral(n: nat)
    ensures '/' !in NatToString(n)
  {
    var s := NatToString(n);
    forall k | 0 <= k < |s|
      ensures s[k] != '/'
    {
      assert IsDigit(s[k]);
    }
  }
}
