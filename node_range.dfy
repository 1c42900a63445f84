/** `get_nodes` and `format_nodes`: node names grouped by the text before
    their first `-` and rendered in Slurm's `--nodelist` range syntax. */
module NodeRange {
  import opened Wrappers
  import opened Strings
  import opened Rows

  /** One entry of the `nodes` dict: a prefix and its indices in the order
      they were appended. */
  datatype Group = Group(prefix: string, indices: seq<string>)

  /** The keys of the dict, in insertion order. */
  function Prefixes(gs: seq<Group>): (r: seq<string>)
    ensures |r| == |gs| && forall i :: 0 <= i < |gs| ==> r[i] == gs[i].prefix
  {
    seq(|gs|, i requires 0 <= i < |gs| => gs[i].prefix)
  }

  /** `nodes.get(p, [])`. */
  function Lookup(gs: seq<Group>, p: string): seq<string>
    decreases |gs|
  {
    if |gs| == 0 then []
    else if gs[0].prefix == p then gs[0].indices
    else Lookup(gs[1..], p)
  }

  /** `nodes.setdefault(p, []).append(x)`. */
  function AddNode(gs: seq<Group>, p: string, x: string): seq<Group>
    decreases |gs|
  {
    if |gs| == 0 then [Group(p, [x])]
    else if gs[0].prefix == p then [Group(p, gs[0].indices + [x])] + gs[1..]
    else [gs[0]] + AddNode(gs[1..], p, x)
  }

  /** A new prefix becomes the last key; a known one keeps its place. */
  lemma {:induction false} AddNodePrefixes(gs: seq<Group>, p: string, x: string)
    ensures Prefixes(AddNode(gs, p, x)) == if p in Prefixes(gs) then Prefixes(gs) else Prefixes(gs) + [p]
    decreases |gs|
  {
    if |gs| > 0 {
      var g, tail := gs[0], gs[1..];
      AddNodePrefixes(tail, p, x);
      assert gs == [g] + tail;
      PrefixesCons(g, tail);
      if g.prefix != p {
        var rest := AddNode(tail, p, x);
        assert AddNode(gs, p, x) == [g] + rest;
        PrefixesCons(g, rest);
        assert p in Prefixes(gs) <==> p in Prefixes(tail);
        if p !in Prefixes(tail) {
          assert [g.prefix] + (Prefixes(tail) + [p]) == ([g.prefix] + Prefixes(tail)) + [p];
        }
      } else {
        var g' := Group(p, g.indices + [x]);
        assert AddNode(gs, p, x) == [g'] + tail;
        PrefixesCons(g', tail);
        assert p in Prefixes(gs);
      }
    }
  }

  lemma PrefixesCons(g: Group, gs: seq<Group>)
    ensures Prefixes([g] + gs) == [g.prefix] + Prefixes(gs)
  {
  }

  /** Only the list under `p` changes, and it gains `x` at its end. */
  lemma {:induction false} AddNodeLookup(gs: seq<Group>, p: string, x: string, q: string)
    ensures Lookup(AddNode(gs, p, x), q) == if q == p then Lookup(gs, q) + [x] else Lookup(gs, q)
    decreases |gs|
  {
    if |gs| > 0 && gs[0].prefix != p {
      AddNodeLookup(gs[1..], p, x, q);
      var r := AddNode(gs, p, x);
      assert r[0] == gs[0] && r[1..] == AddNode(gs[1..], p, x);
    } else if |gs| > 0 {
      var r := AddNode(gs, p, x);
      assert r[1..] == gs[1..];
    }
  }

  /** The first-appearance order of the distinct elements of `s`. */
  function Dedup(s: seq<string>): (r: seq<string>)
    ensures forall x :: x in r <==> x in s
    decreases |s|
  {
    if |s| == 0 then []
    else
      var init := Dedup(s[..|s| - 1]);
      assert s == s[..|s| - 1] + [s[|s| - 1]];
      if s[|s| - 1] in init then init else init + [s[|s| - 1]]
  }

  predicate Distinct(s: seq<string>) {
    forall i, j :: 0 <= i < j < |s| ==> s[i] != s[j]
  }

  lemma {:induction false} DedupDistinct(s: seq<string>)
    ensures Distinct(Dedup(s))
    decreases |s|
  {
    if |s| > 0 {
      DedupDistinct(s[..|s| - 1]);
    }
  }

  predicate HasDash(n: string) {
    '-' in n
  }

  predicate AllDashed(names: seq<string>) {
    forall i :: 0 <= i < |names| ==> HasDash(names[i])
  }

  /** `node.split('-')[0]`. */
  function PrefixOf(n: string): (r: string)
    ensures '-' !in r
  {
    Split(n, '-')[0]
  }

  /** `node.split('-')[1]`: the text between the first and the second `-`. */
  function IndexOf(n: string): (r: string)
    requires HasDash(n)
    ensures '-' !in r
    ensures forall ch :: ch in r ==> ch in n
  {
    SplitFindsSeparator(n, '-');
    Split(n, '-')[1]
  }

  function NamePrefixes(names: seq<string>): (r: seq<string>)
    ensures |r| == |names| && forall i :: 0 <= i < |names| ==> r[i] == PrefixOf(names[i])
  {
    seq(|names|, i requires 0 <= i < |names| => PrefixOf(names[i]))
  }

  /** The indices of the names with prefix `p`, in input order, duplicates kept. */
  function IndicesOf(names: seq<string>, p: string): seq<string>
    requires AllDashed(names)
    decreases |names|
  {
    if |names| == 0 then []
    else
      var n := names[|names| - 1];
      var init := IndicesOf(names[..|names| - 1], p);
      if PrefixOf(n) == p then init + [IndexOf(n)] else init
  }

  /** The dict `get_nodes` builds, or the `IndexError` of the first name
      without a `-`. */
  function GroupNodes(names: seq<string>): (r: Result<seq<Group>, Error>)
    ensures r.Failure? ==> r.error.NodeWithoutDash? && r.error.node in names && !HasDash(r.error.node)
    decreases |names|
  {
    if |names| == 0 then Success([])
    else
      var n := names[|names| - 1];
      match GroupNodes(names[..|names| - 1])
      case Failure(e) => Failure(e)
      case Success(gs) =>
        if HasDash(n) then Success(AddNode(gs, PrefixOf(n), IndexOf(n)))
        else Failure(NodeWithoutDash(n))
  }

  /** `get_nodes` fails exactly when some name has no `-`. */
  lemma {:induction false} GroupNodesFails(names: seq<string>)
    ensures GroupNodes(names).Failure? <==> !AllDashed(names)
    decreases |names|
  {
    if |names| > 0 {
      var init := names[..|names| - 1];
      GroupNodesFails(init);
      assert AllDashed(names) <==> AllDashed(init) && HasDash(names[|names| - 1]);
    }
  }

  /** `get_nodes`: the loop of lines 193-195 over the node column. */
  method GetNodes(names: seq<string>) returns (r: Result<seq<Group>, Error>)
    ensures r == GroupNodes(names)
  {
    var nodes: seq<Group> := [];
    var i := 0;
    while i < |names|
      invariant 0 <= i <= |names|
      invariant GroupNodes(names[..i]) == Success(nodes)
    {
      assert names[..i + 1][..i] == names[..i];
      var pieces := Split(names[i], '-');
      SplitFindsSeparator(names[i], '-');
      if |pieces| < 2 {
        r := Failure(NodeWithoutDash(names[i]));
        GroupNodesKeepsFailure(names[..i + 1], names[i + 1..]);
        assert names[..i + 1] + names[i + 1..] == names;
        return;
      }
      nodes := AddNode(nodes, pieces[0], pieces[1]);
      i := i + 1;
    }
    assert names[..|names|] == names;
    r := Success(nodes);
  }

  /** Once a name without `-` is met, later names change nothing. */
  lemma {:induction false} GroupNodesKeepsFailure(a: seq<string>, b: seq<string>)
    requires GroupNodes(a).Failure?
    ensures GroupNodes(a + b) == GroupNodes(a)
    decreases |b|
  {
    if |b| == 0 {
      assert a + b == a;
    } else {
      GroupNodesKeepsFailure(a, b[..|b| - 1]);
      assert (a + b)[..|a + b| - 1] == a + b[..|b| - 1];
    }
  }

  /** The error names the first node without a `-`. */
  lemma {:induction false} GroupNodesError(names: seq<string>)
    requires !AllDashed(names)
    ensures exists i :: (0 <= i < |names| && !HasDash(names[i]) && AllDashed(names[..i])
                         && GroupNodes(names) == Failure(NodeWithoutDash(names[i])))
    decreases |names|
  {
    var init := names[..|names| - 1];
    var last := |names| - 1;
    if AllDashed(init) {
      GroupNodesFails(init);
      assert !HasDash(names[last]) && names[..last] == init;
    } else {
      GroupNodesError(init);
      var i :| 0 <= i < |init| && !HasDash(init[i]) && AllDashed(init[..i])
        && GroupNodes(init) == Failure(NodeWithoutDash(init[i]));
      assert names[i] == init[i] && names[..i] == init[..i];
    }
  }

  /** One more name with a `-`: its index is appended under its prefix. */
  lemma GroupNodesSnoc(names: seq<string>)
    requires |names| > 0 && HasDash(names[|names| - 1])
    requires GroupNodes(names[..|names| - 1]).Success?
    ensures var n := names[|names| - 1];
      GroupNodes(names) == Success(AddNode(GroupNodes(names[..|names| - 1]).value, PrefixOf(n), IndexOf(n)))
  {
  }

  /** For well-formed names: the keys are the distinct prefixes in order of
      first appearance. */
  lemma {:induction false} GroupNodesPrefixes(names: seq<string>)
    requires AllDashed(names)
    ensures GroupNodes(names).Success?
    ensures Prefixes(GroupNodes(names).value) == Dedup(NamePrefixes(names))
    decreases |names|
  {
    if |names| > 0 {
      var init := names[..|names| - 1];
      var n := names[|names| - 1];
      GroupNodesPrefixes(init);
      GroupNodesSnoc(names);
      var gs := GroupNodes(init).value;
      var ps := NamePrefixes(names);
      assert ps[..|names| - 1] == NamePrefixes(init);
      assert ps[|names| - 1] == PrefixOf(n);
      AddNodePrefixes(gs, PrefixOf(n), IndexOf(n));
    }
  }

  /** Each key's list holds the indices of its names in input order. */
  lemma {:induction false} GroupNodesLookup(names: seq<string>, p: string)
    requires AllDashed(names)
    ensures GroupNodes(names).Success?
    ensures Lookup(GroupNodes(names).value, p) == IndicesOf(names, p)
    decreases |names|
  {
    if |names| > 0 {
      var init := names[..|names| - 1];
      var n := names[|names| - 1];
      GroupNodesLookup(init, p);
      GroupNodesSnoc(names);
      var gs := GroupNodes(init).value;
      AddNodeLookup(gs, PrefixOf(n), IndexOf(n), p);
    }
  }

  /** For well-formed names: the keys are the distinct prefixes in order of
      first appearance and each key's list holds its indices in input order. */
  lemma GroupNodesContents(names: seq<string>)
    requires AllDashed(names)
    ensures GroupNodes(names).Success?
    ensures Prefixes(GroupNodes(names).value) == Dedup(NamePrefixes(names))
    ensures forall p :: Lookup(GroupNodes(names).value, p) == IndicesOf(names, p)
  {
    GroupNodesPrefixes(names);
    forall p
      ensures Lookup(GroupNodes(names).value, p) == IndicesOf(names, p)
    {
      GroupNodesLookup(names, p);
    }
  }

  /** Every key of the dict is unique. */
  lemma GroupNodesDistinct(names: seq<string>)
    requires AllDashed(names)
    ensures GroupNodes(names).Success?
    ensures Distinct(Prefixes(GroupNodes(names).value))
  {
    GroupNodesPrefixes(names);
    DedupDistinct(NamePrefixes(names));
  }

  /** `'%s-[%s]' % (n, ','.join(cs))`. */
  function Render(g: Group): (s: string)
    ensures |s| >= |g.prefix| + 3 && s[..|g.prefix|] == g.prefix
    ensures s[|g.prefix|] == '-' && s[|g.prefix| + 1] == '[' && s[|s| - 1] == ']'
  {
    g.prefix + "-[" + Join(g.indices, ",") + "]"
  }

  function Renderings(gs: seq<Group>): (r: seq<string>)
    ensures |r| == |gs| && forall i :: 0 <= i < |gs| ==> r[i] == Render(gs[i])
  {
    seq(|gs|, i requires 0 <= i < |gs| => Render(gs[i]))
  }

  /** `format_nodes`. */
  function FormatNodes(gs: seq<Group>): (s: string)
    ensures |s| == 0 <==> |gs| == 0
  {
    var rs := Renderings(gs);
    assert |gs| > 0 ==> |rs[0]| > 0;
    Join(rs, ",")
  }

  /** Reads one group off the front of `s`: a prefix up to the first `-`,
      then `[`, indices separated by `,` up to the first `]`; returns the
      group and what follows the `]`. */
  function ParseHead(s: string): (r: Option<(Group, string)>)
    ensures r.Some? ==> |r.value.1| < |s|
  {
    var k := Find(s, '-');
    if k + 1 >= |s| || s[k + 1] != '[' then None
    else
      var rest := s[k + 2..];
      var e := Find(rest, ']');
      if e == |rest| then None
      else Some((Group(s[..k], Split(rest[..e], ',')), rest[e + 1..]))
  }

  /** Reads a `--nodelist` string back into groups: one group, then either
      the end or `,` and the next group. */
  function ParseGroups(s: string): Option<seq<Group>>
    decreases |s|
  {
    match ParseHead(s)
    case None => None
    case Some((g, after)) =>
      if |after| == 0 then Some([g])
      else if after[0] != ',' then None
      else
        match ParseGroups(after[1..])
        case None => None
        case Some(gs) => Some([g] + gs)
  }

  function ParseNodeList(s: string): Option<seq<Group>> {
    if |s| == 0 then Some([]) else ParseGroups(s)
  }

  /** Groups whose rendering can be read back: prefixes without `-`, and
      non-empty index lists whose entries hold neither `,` nor `]`. */
  predicate WellFormedGroup(g: Group) {
    '-' !in g.prefix && |g.indices| > 0
    && forall j :: 0 <= j < |g.indices| ==> ',' !in g.indices[j] && ']' !in g.indices[j]
  }

  predicate WellFormed(gs: seq<Group>) {
    forall i :: 0 <= i < |gs| ==> WellFormedGroup(gs[i])
  }

  lemma DashOfParts(prefix: string, after: string)
    requires '-' !in prefix && |after| >= 2 && after[0] == '-' && after[1] == '['
    ensures Find(prefix + after, '-') == |prefix|
    ensures (prefix + after)[|prefix| + 1] == '['
    ensures (prefix + after)[..|prefix|] == prefix
    ensures (prefix + after)[|prefix| + 2..] == after[2..]
  {
    FindAfter(prefix, after, '-');
  }

  lemma CloseOfParts(body: string, tail: string)
    requires ']' !in body
    ensures Find(body + "]" + tail, ']') == |body|
    ensures (body + "]" + tail)[..|body|] == body
    ensures (body + "]" + tail)[|body| + 1..] == tail
  {
    var close := "]" + tail;
    assert body + "]" + tail == body + close;
    FindAfter(body, close, ']');
  }

  /** Reading a group written as `prefix-[body]` off the front of a string. */
  lemma ParseHeadOfParts(prefix: string, body: string, tail: string)
    requires '-' !in prefix && ']' !in body
    ensures ParseHead(prefix + "-[" + body + "]" + tail) == Some((Group(prefix, Split(body, ',')), tail))
  {
    var rest := body + "]" + tail;
    var after := "-[" + rest;
    var s := prefix + after;
    assert prefix + "-[" + body + "]" + tail == s;
    assert after[2..] == rest;
    DashOfParts(prefix, after);
    CloseOfParts(body, tail);
    ParseHeadAt(s, |prefix|, rest, |body|);
  }

  /** `ParseHead` once the `-[` and the closing `]` are located. */
  lemma ParseHeadAt(s: string, k: nat, rest: string, e: nat)
    requires k == Find(s, '-') && k + 1 < |s| && s[k + 1] == '['
    requires rest == s[k + 2..] && e == Find(rest, ']') && e < |rest|
    ensures ParseHead(s) == Some((Group(s[..k], Split(rest[..e], ',')), rest[e + 1..]))
  {
    var g := Group(s[..k], Split(rest[..e], ','));
    var after := rest[e + 1..];
    assert ParseHead(s) == Some((g, after));
  }

  /** Reading one rendered group off the front of `Render(g) + tail`. */
  lemma ParseHeadOfRender(g: Group, tail: string)
    requires WellFormedGroup(g)
    ensures ParseHead(Render(g) + tail) == Some((g, tail))
  {
    var body := Join(g.indices, ",");
    JoinAvoids(g.indices, ",", ']');
    assert Render(g) + tail == g.prefix + "-[" + body + "]" + tail;
    ParseHeadOfParts(g.prefix, body, tail);
    SplitJoin(g.indices, ',');
  }

  lemma ParseFormatOne(g: Group)
    requires WellFormedGroup(g)
    ensures ParseNodeList(FormatNodes([g])) == Some([g])
  {
    assert FormatNodes([g]) == Render(g) + "";
    ParseHeadOfRender(g, "");
  }

  /** The rendering of a list of groups is the first group's, a `,`, then the rest's. */
  lemma FormatCons(g: Group, tail: seq<Group>)
    requires |tail| > 0
    ensures FormatNodes([g] + tail) == Render(g) + ("," + FormatNodes(tail))
  {
    var gs := [g] + tail;
    assert Renderings(gs)[1..] == Renderings(tail);
  }

  lemma ParseFormatCons(g: Group, tail: seq<Group>)
    requires WellFormedGroup(g) && |tail| > 0
    requires ParseNodeList(FormatNodes(tail)) == Some(tail)
    ensures ParseNodeList(FormatNodes([g] + tail)) == Some([g] + tail)
  {
    var rest := FormatNodes(tail);
    FormatCons(g, tail);
    var after := "," + rest;
    ParseHeadOfRender(g, after);
    assert after[1..] == rest;
    assert ParseGroups(rest) == Some(tail);
    ParseGroupsCons(Render(g) + after, g, after);
  }

  /** One group, a `,`, and a readable rest. */
  lemma ParseGroupsCons(s: string, g: Group, after: string)
    requires ParseHead(s) == Some((g, after))
    requires |after| > 0 && after[0] == ',' && ParseGroups(after[1..]).Some?
    ensures ParseGroups(s) == Some([g] + ParseGroups(after[1..]).value)
  {
  }

  /** `format_nodes` loses nothing: reading its output back gives the groups. */
  lemma {:induction false} ParseFormatNodes(gs: seq<Group>)
    requires WellFormed(gs)
    ensures ParseNodeList(FormatNodes(gs)) == Some(gs)
    decreases |gs|
  {
    if |gs| == 1 {
      assert WellFormedGroup(gs[0]) && [gs[0]] == gs;
      ParseFormatOne(gs[0]);
    } else if |gs| > 1 {
      assert WellFormedGroup(gs[0]) && [gs[0]] + gs[1..] == gs;
      ParseFormatNodes(gs[1..]);
      ParseFormatCons(gs[0], gs[1..]);
    }
  }

  lemma {:induction false} AddNodeWellFormed(gs: seq<Group>, p: string, x: string)
    requires WellFormed(gs) && '-' !in p && ',' !in x && ']' !in x
    ensures WellFormed(AddNode(gs, p, x))
    decreases |gs|
  {
    if |gs| > 0 && gs[0].prefix != p {
      AddNodeWellFormed(gs[1..], p, x);
      var r := AddNode(gs, p, x);
      assert r == [gs[0]] + AddNode(gs[1..], p, x);
    }
  }

  /** Node names holding neither `,` nor `]`. */
  predicate PlainNames(names: seq<string>) {
    forall i :: 0 <= i < |names| ==> ',' !in names[i] && ']' !in names[i]
  }

  lemma {:induction false} GroupNodesWellFormed(names: seq<string>)
    requires AllDashed(names) && PlainNames(names)
    ensures GroupNodes(names).Success?
    ensures WellFormed(GroupNodes(names).value)
    decreases |names|
  {
    GroupNodesFails(names);
    if |names| > 0 {
      var init := names[..|names| - 1];
      var n := names[|names| - 1];
      GroupNodesWellFormed(init);
      AddNodeWellFormed(GroupNodes(init).value, PrefixOf(n), IndexOf(n));
    }
  }

  /** The string `summarize` prints for a band lists exactly the groups of
      its node names. */
  lemma NodeListRoundTrip(names: seq<string>)
    requires AllDashed(names) && PlainNames(names)
    ensures GroupNodes(names).Success?
    ensures ParseNodeList(FormatNodes(GroupNodes(names).value)) == Some(GroupNodes(names).value)
  {
    GroupNodesWellFormed(names);
    ParseFormatNodes(GroupNodes(names).value);
  }

  lemma SplitAtDash(a: string, b: string)
    requires '-' !in a && '-' !in b
    ensures PrefixOf(a + "-" + b) == a && IndexOf(a + "-" + b) == b
  {
    SplitAfterPiece(a, b, '-');
    SplitWithoutSeparator(b, '-');
  }

  /** Appending a name `p-x` appends `x` under `p`. */
  lemma GroupNodesAppend(names: seq<string>, gs: seq<Group>, p: string, x: string)
    requires GroupNodes(names) == Success(gs) && '-' !in p && '-' !in x
    ensures GroupNodes(names + [p + "-" + x]) == Success(AddNode(gs, p, x))
  {
    SplitAtDash(p, x);
    assert (names + [p + "-" + x])[..|names|] == names;
  }

  /** `get_nodes` on `["c1-1", "c1-2", "c2-5"]`. */
  lemma GroupExample()
    ensures GroupNodes(["c1-1", "c1-2", "c2-5"]) == Success([Group("c1", ["1", "2"]), Group("c2", ["5"])])
  {
    var g1 := [Group("c1", ["1"])];
    var g2 := [Group("c1", ["1", "2"])];
    var g3 := [Group("c1", ["1", "2"]), Group("c2", ["5"])];
    var n1, n2, n3 := "c1" + "-" + "1", "c1" + "-" + "2", "c2" + "-" + "5";
    var e: seq<string> := [];
    GroupNodesAppend(e, [], "c1", "1");
    assert e + [n1] == [n1];
    assert AddNode([], "c1", "1") == g1;
    GroupNodesAppend([n1], g1, "c1", "2");
    assert g1[1..] == [] && ["1"] + ["2"] == ["1", "2"];
    assert AddNode(g1, "c1", "2") == g2;
    assert [n1] + [n2] == [n1, n2];
    GroupNodesAppend([n1, n2], g2, "c2", "5");
    assert AddNode(g2[1..], "c2", "5") == [Group("c2", ["5"])];
    assert AddNode(g2, "c2", "5") == g3;
    assert [n1, n2] + [n3] == [n1, n2, n3];
    assert n1 == "c1-1" && n2 == "c1-2" && n3 == "c2-5";
  }

  /** `format_nodes` on the groups of `["c1-1", "c1-2", "c2-5"]`. */
  lemma FormatExample()
    ensures FormatNodes([Group("c1", ["1", "2"]), Group("c2", ["5"])]) == "c1-[1,2],c2-[5]"
  {
    var gs := [Group("c1", ["1", "2"]), Group("c2", ["5"])];
    var rs := Renderings(gs);
    assert ["1", "2"][1..] == ["2"];
    assert Join(["1", "2"], ",") == "1,2";
    assert Join(["5"], ",") == "5";
    assert Render(gs[0]) == "c1-[1,2]";
    assert Render(gs[1]) == "c2-[5]";
    assert rs == ["c1-[1,2]", "c2-[5]"];
    assert rs[1..] == ["c2-[5]"];
    assert Join(rs, ",") == "c1-[1,2]" + "," + "c2-[5]";
  }
}
