/** Link validation and endpoint resolution of the Sankey diagram builder
    (`make_sankey` in sankey_chart.py): labels are mapped to node indices,
    every link endpoint is resolved, indices are range-checked and values
    sign-checked, and the three parallel sequences handed to the charting
    library are accumulated in link order. */
module SankeyChart {

  datatype Option<T> = None | Some(value: T)

  /** A link endpoint as the builder sees it: an integer index, a string
      label, or a value of any other type (kept by its type name, which the
      type error reports). */
  datatype Endpoint = Idx(index: int) | Label(text: string) | Other(typeName: string)

  /** A link record. `None` stands for an absent key; keys other than these
      three are ignored by the builder and so have no place here. */
  datatype Link = Link(source: Option<Endpoint>, target: Option<Endpoint>, value: Option<real>)

  /** The three required keys of a link record. */
  datatype Key = SourceKey | TargetKey | ValueKey

  /** The exceptions the pass raises. Only the errors raised by the loop
      itself name the link position; the two raised while resolving an
      endpoint name only the offending label or type. */
  datatype Error =
    | MissingKey(link: nat, key: Key)
    | UnknownLabel(text: string)
    | BadType(typeName: string)
    | OutOfRange(link: nat, source: int, target: int)
    | Negative(link: nat, amount: real)

  /** Either the three parallel sequences or the first error; no partial
      output exists on error. */
  datatype Result =
    | Ok(sources: seq<int>, targets: seq<int>, values: seq<real>)
    | Err(error: Error)

  /** Outcome of resolving one endpoint. */
  datatype Resolution = Resolved(index: int) | Failed(error: Error)

  /** Outcome of checking one link. */
  datatype Step = Accepted(s: int, t: int, v: real) | Rejected(error: Error)

  // ---------------------------------------------------------------------
  // Label table and endpoint resolution
  // ---------------------------------------------------------------------

  /** The label-to-index table, built like a dict comprehension over the
      enumerated nodes: each pair is inserted in order, so a later duplicate
      label overwrites an earlier one. */
  function LabelTable(nodes: seq<string>): map<string, int>
    decreases |nodes|
  {
    if nodes == [] then map[]
    else LabelTable(nodes[..|nodes| - 1])[nodes[|nodes| - 1] := |nodes| - 1]
  }

  /** `j` is the last position at which `l` occurs in `nodes`. */
  ghost predicate IsLastIndex(nodes: seq<string>, l: string, j: int)
  {
    0 <= j < |nodes| && nodes[j] == l && forall m :: j < m < |nodes| ==> nodes[m] != l
  }

  /** The table holds exactly the labels of `nodes`, and each maps to its
      last occurrence. */
  lemma {:induction false} LabelTableLast(nodes: seq<string>)
    ensures forall l :: l in LabelTable(nodes) <==> l in nodes
    ensures forall l :: l in LabelTable(nodes) ==> IsLastIndex(nodes, l, LabelTable(nodes)[l])
    decreases |nodes|
  {
    if nodes != [] {
      var init := nodes[..|nodes| - 1];
      LabelTableLast(init);
      assert nodes == init + [nodes[|nodes| - 1]];
    }
  }

  /** There is only one last occurrence. */
  lemma LastIndexUnique(nodes: seq<string>, l: string, j: int, j': int)
    requires IsLastIndex(nodes, l, j) && IsLastIndex(nodes, l, j')
    ensures j == j'
  {
  }

  /** Resolves one endpoint against the label table: an integer passes
      through unchecked, a label is looked up, anything else is a type
      error. */
  function ToIndex(table: map<string, int>, x: Endpoint): Resolution
  {
    match x
    case Idx(n) => Resolved(n)
    case Label(l) => if l in table then Resolved(table[l]) else Failed(UnknownLabel(l))
    case Other(name) => Failed(BadType(name))
  }

  /** What resolving an endpoint against the nodes' own table yields. */
  lemma ToIndexSpec(nodes: seq<string>, x: Endpoint)
    ensures x.Idx? ==> ToIndex(LabelTable(nodes), x) == Resolved(x.index)
    ensures x.Label? ==> (ToIndex(LabelTable(nodes), x).Resolved? <==> x.text in nodes)
    ensures x.Label? && x.text in nodes ==>
      ToIndex(LabelTable(nodes), x).Resolved? &&
      IsLastIndex(nodes, x.text, ToIndex(LabelTable(nodes), x).index)
    ensures x.Label? && x.text !in nodes ==> ToIndex(LabelTable(nodes), x) == Failed(UnknownLabel(x.text))
    ensures x.Other? ==> ToIndex(LabelTable(nodes), x) == Failed(BadType(x.typeName))
  {
    LabelTableLast(nodes);
  }

  // ---------------------------------------------------------------------
  // One link
  // ---------------------------------------------------------------------

  /** The body of the validating loop for link number `i`: the source key
      and its resolution, then the target key and its resolution, then the
      value key, then the range check of both indices against `n`, then the
      sign of the value. */
  function CheckLink(table: map<string, int>, n: nat, i: nat, link: Link): Step
  {
    if link.source.None? then Rejected(MissingKey(i, SourceKey))
    else match ToIndex(table, link.source.value)
      case Failed(e) => Rejected(e)
      case Resolved(s) =>
        if link.target.None? then Rejected(MissingKey(i, TargetKey))
        else match ToIndex(table, link.target.value)
          case Failed(e) => Rejected(e)
          case Resolved(t) =>
            if link.value.None? then Rejected(MissingKey(i, ValueKey))
            else if !(0 <= s < n) || !(0 <= t < n) then Rejected(OutOfRange(i, s, t))
            else if link.value.value < 0.0 then Rejected(Negative(i, link.value.value))
            else Accepted(s, t, link.value.value)
  }

  /** A link is accepted exactly when all three keys are present, both
      endpoints resolve to indices in `[0, n)` and the value is not
      negative; the accepted triple is made of those resolved indices and
      that value. */
  lemma CheckLinkAccepts(table: map<string, int>, n: nat, i: nat, link: Link, s: int, t: int, v: real)
    ensures CheckLink(table, n, i, link) == Accepted(s, t, v) <==>
      link.source.Some? && ToIndex(table, link.source.value) == Resolved(s) &&
      link.target.Some? && ToIndex(table, link.target.value) == Resolved(t) &&
      link.value == Some(v) &&
      0 <= s < n && 0 <= t < n && v >= 0.0
  {
  }

  /** A missing source is reported as a missing key with the link
      position, an unresolvable one with its resolution error; either way
      neither the target nor the value is looked at. */
  lemma SourceFailureMasks(table: map<string, int>, n: nat, i: nat, link: Link,
                           target: Option<Endpoint>, value: Option<real>)
    requires link.source.None? || ToIndex(table, link.source.value).Failed?
    ensures CheckLink(table, n, i, link) ==
      Rejected(if link.source.None? then MissingKey(i, SourceKey) else ToIndex(table, link.source.value).error)
    ensures CheckLink(table, n, i, link.(target := target, value := value)) == CheckLink(table, n, i, link)
  {
  }

  /** With the source resolved, a missing target is reported as a missing
      key with the link position, an unresolvable one with its resolution
      error; either way the value is not looked at. */
  lemma TargetFailureMasks(table: map<string, int>, n: nat, i: nat, link: Link, value: Option<real>)
    requires link.source.Some? && ToIndex(table, link.source.value).Resolved?
    requires link.target.None? || ToIndex(table, link.target.value).Failed?
    ensures CheckLink(table, n, i, link) ==
      Rejected(if link.target.None? then MissingKey(i, TargetKey) else ToIndex(table, link.target.value).error)
    ensures CheckLink(table, n, i, link.(value := value)) == CheckLink(table, n, i, link)
  {
  }

  /** With both endpoints resolved, a missing value is reported before the
      range check, whatever the indices are. */
  lemma MissingValueBeforeRange(table: map<string, int>, n: nat, i: nat, link: Link)
    requires link.source.Some? && ToIndex(table, link.source.value).Resolved?
    requires link.target.Some? && ToIndex(table, link.target.value).Resolved?
    requires link.value.None?
    ensures CheckLink(table, n, i, link) == Rejected(MissingKey(i, ValueKey))
  {
  }

  /** An index out of range is reported with both resolved indices and
      before the sign of the value is looked at. */
  lemma RangeBeforeSign(table: map<string, int>, n: nat, i: nat, link: Link, w: real)
    requires link.source.Some? && ToIndex(table, link.source.value).Resolved?
    requires link.target.Some? && ToIndex(table, link.target.value).Resolved?
    requires link.value.Some?
    requires var s, t := ToIndex(table, link.source.value).index, ToIndex(table, link.target.value).index;
      !(0 <= s < n) || !(0 <= t < n)
    ensures CheckLink(table, n, i, link) ==
      Rejected(OutOfRange(i, ToIndex(table, link.source.value).index, ToIndex(table, link.target.value).index))
    ensures CheckLink(table, n, i, link.(value := Some(w))) == CheckLink(table, n, i, link)
  {
  }

  /** A negative value on an otherwise valid link is reported with the link
      position and the value. */
  lemma NegativeReported(table: map<string, int>, n: nat, i: nat, link: Link)
    requires link.source.Some? && ToIndex(table, link.source.value).Resolved?
    requires link.target.Some? && ToIndex(table, link.target.value).Resolved?
    requires 0 <= ToIndex(table, link.source.value).index < n
    requires 0 <= ToIndex(table, link.target.value).index < n
    requires link.value.Some? && link.value.value < 0.0
    ensures CheckLink(table, n, i, link) == Rejected(Negative(i, link.value.value))
  {
  }

  /** An index resolved from a label always lies in range, so an
      out-of-range error is caused by an integer endpoint. */
  lemma {:induction false} OutOfRangeNeedsIntIndex(nodes: seq<string>, i: nat, link: Link, k: nat, s: int, t: int)
    requires CheckLink(LabelTable(nodes), |nodes|, i, link) == Rejected(OutOfRange(k, s, t))
    ensures k == i
    ensures (link.source == Some(Idx(s)) && !(0 <= s < |nodes|)) ||
            (link.target == Some(Idx(t)) && !(0 <= t < |nodes|))
  {
    ToIndexSpec(nodes, link.source.value);
    ToIndexSpec(nodes, link.target.value);
  }

  // ---------------------------------------------------------------------
  // The whole pass
  // ---------------------------------------------------------------------

  /** The state after the loop has run over the first `k` links: the
      accumulated sequences, or the error of the first rejected link. */
  function Prefix(table: map<string, int>, n: nat, links: seq<Link>, k: nat): Result
    requires k <= |links|
  {
    if k == 0 then Ok([], [], [])
    else match Prefix(table, n, links, k - 1)
      case Err(e) => Err(e)
      case Ok(ss, ts, vs) =>
        match CheckLink(table, n, k - 1, links[k - 1])
        case Rejected(e) => Err(e)
        case Accepted(s, t, v) => Ok(ss + [s], ts + [t], vs + [v])
  }

  /** The outcome of the validation pass over all links. */
  function Validated(nodes: seq<string>, links: seq<Link>): Result
  {
    Prefix(LabelTable(nodes), |nodes|, links, |links|)
  }

  /** Once an error has occurred, later links change nothing. */
  lemma {:induction false} ErrorSticks(table: map<string, int>, n: nat, links: seq<Link>, k: nat, j: nat)
    requires k <= j <= |links|
    requires Prefix(table, n, links, k).Err?
    ensures Prefix(table, n, links, j) == Prefix(table, n, links, k)
    decreases j
  {
    if j > k {
      ErrorSticks(table, n, links, k, j - 1);
    }
  }

  /** The loop builds its output exactly when every link checked so far is
      accepted; entry `j` of each sequence is what link `j` was accepted
      with. */
  lemma {:induction false} PrefixOk(table: map<string, int>, n: nat, links: seq<Link>, k: nat)
    requires k <= |links|
    ensures Prefix(table, n, links, k).Ok? <==>
      forall j :: 0 <= j < k ==> CheckLink(table, n, j, links[j]).Accepted?
    ensures Prefix(table, n, links, k).Ok? ==>
      var r := Prefix(table, n, links, k);
      |r.sources| == k && |r.targets| == k && |r.values| == k &&
      forall j :: 0 <= j < k ==> CheckLink(table, n, j, links[j]) == Accepted(r.sources[j], r.targets[j], r.values[j])
  {
    if k > 0 {
      PrefixOk(table, n, links, k - 1);
    }
  }

  /** The loop fails with `e` exactly when some link is rejected with `e`
      and every link before it is accepted. */
  lemma {:induction false} PrefixErr(table: map<string, int>, n: nat, links: seq<Link>, k: nat, e: Error)
    requires k <= |links|
    ensures Prefix(table, n, links, k) == Err(e) <==>
      exists j :: 0 <= j < k && CheckLink(table, n, j, links[j]) == Rejected(e) &&
        forall m :: 0 <= m < j ==> CheckLink(table, n, m, links[m]).Accepted?
  {
    if k > 0 {
      PrefixErr(table, n, links, k - 1, e);
      PrefixOk(table, n, links, k - 1);
      if Prefix(table, n, links, k) == Err(e) && Prefix(table, n, links, k - 1).Ok? {
        assert CheckLink(table, n, k - 1, links[k - 1]) == Rejected(e);
      }
      if (exists j :: 0 <= j < k && CheckLink(table, n, j, links[j]) == Rejected(e) &&
            forall m :: 0 <= m < j ==> CheckLink(table, n, m, links[m]).Accepted?) {
        var j :| 0 <= j < k && CheckLink(table, n, j, links[j]) == Rejected(e) &&
          forall m :: 0 <= m < j ==> CheckLink(table, n, m, links[m]).Accepted?;
        if j < k - 1 {
          assert Prefix(table, n, links, k - 1) == Err(e);
        } else {
          assert Prefix(table, n, links, k - 1).Ok?;
        }
      }
    }
  }

  /** On success the three sequences have one entry per link, in link
      order: `sources[k]` and `targets[k]` are the resolved endpoints of
      `links[k]` and `values[k]` is its value. */
  lemma OkPreservesOrder(nodes: seq<string>, links: seq<Link>)
    requires Validated(nodes, links).Ok?
    ensures var r := Validated(nodes, links);
      |r.sources| == |links| && |r.targets| == |links| && |r.values| == |links| &&
      forall k :: 0 <= k < |links| ==>
        links[k].source.Some? && ToIndex(LabelTable(nodes), links[k].source.value) == Resolved(r.sources[k]) &&
        links[k].target.Some? && ToIndex(LabelTable(nodes), links[k].target.value) == Resolved(r.targets[k]) &&
        links[k].value == Some(r.values[k])
  {
    PrefixOk(LabelTable(nodes), |nodes|, links, |links|);
  }

  /** On success every index lies in `[0, |nodes|)` and every value is
      non-negative. */
  lemma OkInRange(nodes: seq<string>, links: seq<Link>)
    requires Validated(nodes, links).Ok?
    ensures var r := Validated(nodes, links);
      |r.sources| == |r.targets| == |r.values| == |links| &&
      forall k :: 0 <= k < |links| ==>
        0 <= r.sources[k] < |nodes| && 0 <= r.targets[k] < |nodes| && r.values[k] >= 0.0
  {
    PrefixOk(LabelTable(nodes), |nodes|, links, |links|);
  }

  /** The pass succeeds exactly when every link is accepted on its own. */
  lemma OkIffEveryLinkAccepted(nodes: seq<string>, links: seq<Link>)
    ensures Validated(nodes, links).Ok? <==>
      forall k :: 0 <= k < |links| ==> CheckLink(LabelTable(nodes), |nodes|, k, links[k]).Accepted?
  {
    PrefixOk(LabelTable(nodes), |nodes|, links, |links|);
  }

  /** The pass fails with `e` exactly when the first rejected link, in list
      order, is rejected with `e`. */
  lemma FirstRejectionWins(nodes: seq<string>, links: seq<Link>, e: Error)
    ensures Validated(nodes, links) == Err(e) <==>
      exists k :: 0 <= k < |links| && CheckLink(LabelTable(nodes), |nodes|, k, links[k]) == Rejected(e) &&
        forall m :: 0 <= m < k ==> CheckLink(LabelTable(nodes), |nodes|, m, links[m]).Accepted?
  {
    PrefixErr(LabelTable(nodes), |nodes|, links, |links|, e);
  }

  /** An error that carries a link position names the first rejected
      link. */
  lemma ErrorNamesFirstBadLink(nodes: seq<string>, links: seq<Link>)
    requires Validated(nodes, links).Err?
    requires !Validated(nodes, links).error.UnknownLabel? && !Validated(nodes, links).error.BadType?
    ensures var e := Validated(nodes, links).error;
      e.link < |links| &&
      CheckLink(LabelTable(nodes), |nodes|, e.link, links[e.link]) == Rejected(e) &&
      forall m :: 0 <= m < e.link ==> CheckLink(LabelTable(nodes), |nodes|, m, links[m]).Accepted?
  {
    var table, e := LabelTable(nodes), Validated(nodes, links).error;
    FirstRejectionWins(nodes, links, e);
    var k :| 0 <= k < |links| && CheckLink(table, |nodes|, k, links[k]) == Rejected(e) &&
      forall m :: 0 <= m < k ==> CheckLink(table, |nodes|, m, links[m]).Accepted?;
    RejectionNamesLink(table, |nodes|, k, links[k]);
  }

  /** The errors raised by the loop itself carry the position of the link
      being checked. */
  lemma RejectionNamesLink(table: map<string, int>, n: nat, i: nat, link: Link)
    requires CheckLink(table, n, i, link).Rejected?
    requires !CheckLink(table, n, i, link).error.UnknownLabel? && !CheckLink(table, n, i, link).error.BadType?
    ensures CheckLink(table, n, i, link).error.link == i
  {
  }

  /** `e'` names the same node as `e`: it is `e` itself, or `e` is a label
      of the nodes and `e'` is the integer index the label resolves to. */
  ghost predicate SameEndpoint(nodes: seq<string>, e: Option<Endpoint>, e': Option<Endpoint>)
  {
    e == e' ||
    (e.Some? && e.value.Label? && e'.Some? && e'.value.Idx? && IsLastIndex(nodes, e.value.text, e'.value.index))
  }

  ghost predicate SameLink(nodes: seq<string>, a: Link, b: Link)
  {
    SameEndpoint(nodes, a.source, b.source) && SameEndpoint(nodes, a.target, b.target) && a.value == b.value
  }

  lemma SameEndpointResolves(nodes: seq<string>, e: Option<Endpoint>, e': Option<Endpoint>)
    requires SameEndpoint(nodes, e, e')
    ensures e.Some? == e'.Some?
    ensures e.Some? ==> ToIndex(LabelTable(nodes), e.value) == ToIndex(LabelTable(nodes), e'.value)
  {
    if e != e' {
      ToIndexSpec(nodes, e.value);
      LastIndexUnique(nodes, e.value.text, ToIndex(LabelTable(nodes), e.value).index, e'.value.index);
    }
  }

  /** Writing a link endpoint as a label or as the index that label
      resolves to gives the same output. */
  lemma {:induction false} LabelsAsIndices(nodes: seq<string>, links: seq<Link>, links': seq<Link>, k: nat)
    requires |links'| == |links| && k <= |links|
    requires forall j :: 0 <= j < |links| ==> SameLink(nodes, links[j], links'[j])
    ensures Prefix(LabelTable(nodes), |nodes|, links', k) == Prefix(LabelTable(nodes), |nodes|, links, k)
  {
    if k > 0 {
      LabelsAsIndices(nodes, links, links', k - 1);
      SameEndpointResolves(nodes, links[k - 1].source, links'[k - 1].source);
      SameEndpointResolves(nodes, links[k - 1].target, links'[k - 1].target);
    }
  }

  /** The validating loop, sequential as in the source: resolve the source,
      the target and the value of each link, check the range and the sign,
      append to the three accumulators, and stop at the first bad link. */
  method ResolveLinks(nodes: seq<string>, links: seq<Link>) returns (r: Result)
    ensures r == Validated(nodes, links)
  {
    var labelToIdx := LabelTable(nodes);
    var sources, targets, values := [], [], [];
    var i := 0;
    while i < |links|
      invariant i <= |links|
      invariant Prefix(labelToIdx, |nodes|, links, i) == Ok(sources, targets, values)
    {
      var link := links[i];
      var error: Option<Error> := None;
      var s, t, v := 0, 0, 0.0;
      if link.source.None? {
        error := Some(MissingKey(i, SourceKey));
      } else {
        var rs := ToIndex(labelToIdx, link.source.value);
        if rs.Failed? {
          error := Some(rs.error);
        } else if link.target.None? {
          s := rs.index;
          error := Some(MissingKey(i, TargetKey));
        } else {
          s := rs.index;
          var rt := ToIndex(labelToIdx, link.target.value);
          if rt.Failed? {
            error := Some(rt.error);
          } else if link.value.None? {
            error := Some(MissingKey(i, ValueKey));
          } else {
            t, v := rt.index, link.value.value;
            if !(0 <= s < |nodes|) || !(0 <= t < |nodes|) {
              error := Some(OutOfRange(i, s, t));
            } else if v < 0.0 {
              error := Some(Negative(i, v));
            }
          }
        }
      }
      if error.Some? {
        r := Err(error.value);
        ErrorSticks(labelToIdx, |nodes|, links, i + 1, |links|);
        return;
      }
      sources, targets, values := sources + [s], targets + [t], values + [v];
      i := i + 1;
    }
    r := Ok(sources, targets, values);
  }

  // ---------------------------------------------------------------------
  // Worked cases
  // ---------------------------------------------------------------------

  /** Labels and indices may be mixed within one call. */
  lemma MixedEndpointsExample()
    ensures Validated(["A", "B", "C"],
                      [Link(Some(Label("A")), Some(Label("B")), Some(5.0)),
                       Link(Some(Idx(1)), Some(Idx(2)), Some(3.0))])
            == Ok([0, 1], [1, 2], [5.0, 3.0])
  {
    var nodes := ["A", "B", "C"];
    var links := [Link(Some(Label("A")), Some(Label("B")), Some(5.0)),
                  Link(Some(Idx(1)), Some(Idx(2)), Some(3.0))];
    ToIndexSpec(nodes, Label("A"));
    ToIndexSpec(nodes, Label("B"));
    assert ToIndex(LabelTable(nodes), Label("A")) == Resolved(0) by {
      assert nodes[1] != "A" && nodes[2] != "A";
    }
    assert ToIndex(LabelTable(nodes), Label("B")) == Resolved(1) by {
      assert nodes[0] != "B" && nodes[2] != "B";
    }
    assert Prefix(LabelTable(nodes), 3, links, 1) == Ok([0], [1], [5.0]);
  }

  /** A repeated label resolves to its last occurrence; the earlier node
      stays reachable by its integer index. */
  lemma DuplicateLabelExample()
    ensures Validated(["A", "A", "B"],
                      [Link(Some(Label("A")), Some(Label("B")), Some(1.0)),
                       Link(Some(Idx(0)), Some(Idx(2)), Some(2.0))])
            == Ok([1, 0], [2, 2], [1.0, 2.0])
  {
    var nodes := ["A", "A", "B"];
    var links := [Link(Some(Label("A")), Some(Label("B")), Some(1.0)),
                  Link(Some(Idx(0)), Some(Idx(2)), Some(2.0))];
    ToIndexSpec(nodes, Label("A"));
    ToIndexSpec(nodes, Label("B"));
    assert ToIndex(LabelTable(nodes), Label("A")) == Resolved(1) by {
      assert nodes[2] != "A";
    }
    assert ToIndex(LabelTable(nodes), Label("B")) == Resolved(2) by {
      assert nodes[0] != "B" && nodes[1] != "B";
    }
    assert Prefix(LabelTable(nodes), 3, links, 1) == Ok([1], [2], [1.0]);
  }

  /** An unknown label fails the call; the error names the label. */
  lemma UnknownLabelExample()
    ensures Validated(["A", "B"],
                      [Link(Some(Idx(0)), Some(Idx(1)), Some(1.0)),
                       Link(Some(Label("Z")), Some(Idx(1)), Some(1.0))])
            == Err(UnknownLabel("Z"))
  {
    var nodes := ["A", "B"];
    var links := [Link(Some(Idx(0)), Some(Idx(1)), Some(1.0)),
                  Link(Some(Label("Z")), Some(Idx(1)), Some(1.0))];
    ToIndexSpec(nodes, Label("Z"));
    assert "Z" !in nodes by {
      assert nodes[0] != "Z" && nodes[1] != "Z";
    }
    assert Prefix(LabelTable(nodes), 2, links, 1) == Ok([0], [1], [1.0]);
  }

  /** A link without a value fails the call with its position, even though
      its indices are also out of range. */
  lemma MissingValueExample()
    ensures Validated(["A", "B"],
                      [Link(Some(Idx(0)), Some(Idx(1)), Some(1.0)),
                       Link(Some(Idx(-1)), Some(Idx(7)), None)])
            == Err(MissingKey(1, ValueKey))
  {
    var links := [Link(Some(Idx(0)), Some(Idx(1)), Some(1.0)),
                  Link(Some(Idx(-1)), Some(Idx(7)), None)];
    assert Prefix(LabelTable(["A", "B"]), 2, links, 1) == Ok([0], [1], [1.0]);
  }
}
