# Sankey link validation, modelled in Dafny

This project models the validation pass of `make_sankey` in `sankey_chart.py`.
That is the part between building the label table and handing the arrays to the
charting library. The inputs are an ordered list of node labels and a list of
link records. Each link has a `source` and a `target`, each an integer index or
a string label, and a `value`.

The pass does four things:

- It builds a label-to-index table with a dict comprehension. A repeated label
  ends up mapped to its **last** position.
- It resolves each endpoint. An integer passes through unchanged. A label is
  looked up in the table. Any other type is a type error.
- It checks each link. First the source key and its resolution, then the
  target key and its resolution, then the value key, then that both indices lie
  in `[0, len(nodes))`, then that the value is not negative.
- It appends to three parallel lists `sources`, `targets`, `values` and stops
  at the first bad link.

Everything is in one module, `SankeyChart` (`sankey_chart.dfy`):

- `LabelTable` is the comprehension.
- `ToIndex` is the nested `_to_index`.
- `CheckLink` is one iteration of the loop body.
- `Prefix` is the state after the first `k` links, and `Validated` is the
  outcome of the whole pass.
- `ResolveLinks` is the loop itself: a method with a `while` loop, three
  sequence accumulators and an early return. It is proved equal to `Validated`.

Python's exceptions become the `Error` datatype:

- `KeyError` is `MissingKey(i, key)`.
- The unknown-label `ValueError` is `UnknownLabel(label)`.
- `TypeError` is `BadType(typeName)`.
- `IndexError` is `OutOfRange(i, s, t)`.
- The negative-value `ValueError` is `Negative(i, v)`.

The result is `Ok(sources, targets, values)` or `Err(e)`, so no partial output
exists on error. The model works on immutable values, so it holds by
construction that the pass changes neither `nodes` nor `links`.

Two behaviours of the code are worth stating plainly:

- A repeated label resolves to its last position, because the comprehension
  at `sankey_chart.py:51` overwrites earlier entries. `LabelTableLast` and
  `DuplicateLabelExample` state this.
- Only the errors raised by the loop itself name the link position. The
  `ValueError` and `TypeError` raised in `_to_index` are not caught by
  `except KeyError` at line 69, so `UnknownLabel` and `BadType` carry only the
  label or the type name. `FirstRejectionWins` still pins down which link
  produced them.

## Model

| member | source | states |
|---|---|---|
| SankeyChart.LabelTableLast | sankey_chart.py:51 | the table's keys are exactly the node labels, and each maps to the last position where that label occurs |
| SankeyChart.ToIndexSpec | sankey_chart.py:53-60 | an integer endpoint resolves to itself with no range check; a label resolves if and only if it is a node label, and then to its last position; an absent label gives UnknownLabel with that label; any other type gives BadType |
| SankeyChart.CheckLinkAccepts | sankey_chart.py:64-79 | a link is accepted with (s, t, v) if and only if all three keys are present, source and target resolve to s and t, the value is v, both indices lie in [0, n) and v >= 0 |
| SankeyChart.SourceFailureMasks | sankey_chart.py:57-70 | a missing source gives MissingKey(i, source) and an unresolvable source gives its resolution error (UnknownLabel or BadType); changing the target or the value does not change the outcome |
| SankeyChart.TargetFailureMasks | sankey_chart.py:57-70 | with the source resolved, a missing target gives MissingKey(i, target) and an unresolvable target gives its resolution error (UnknownLabel or BadType); changing the value does not change the outcome |
| SankeyChart.MissingValueBeforeRange | sankey_chart.py:68-73 | with both endpoints resolved, a missing value gives MissingKey(i, value) even if the indices are out of range |
| SankeyChart.RangeBeforeSign | sankey_chart.py:72-75 | an out-of-range index gives OutOfRange(i, s, t) with both resolved indices, whatever the value is |
| SankeyChart.NegativeReported | sankey_chart.py:74-75 | a link that is otherwise valid but has a negative value gives Negative(i, v) |
| SankeyChart.OutOfRangeNeedsIntIndex | sankey_chart.py:51-73 | an OutOfRange error names the link being checked and comes from an integer endpoint that lies outside [0, len(nodes)); a label never resolves out of range |
| SankeyChart.ErrorSticks | sankey_chart.py:64-75 | once a link is rejected, the links after it do not change the outcome (the loop exits early) |
| SankeyChart.PrefixOk | sankey_chart.py:63-79 | after k links the accumulators exist if and only if every one of those links was accepted; then each has length k and entry j is what link j was accepted with |
| SankeyChart.PrefixErr | sankey_chart.py:63-75 | after k links the outcome is Err(e) if and only if some link j < k is rejected with e and every link before j is accepted |
| SankeyChart.ResolveLinks | sankey_chart.py:50-79 | the imperative loop (label table, per-link resolution and checks, appends, early exit) returns exactly Validated(nodes, links) |
| SankeyChart.OkPreservesOrder | sankey_chart.py:63-79 | on success sources, targets and values each have one entry per link, and entry k is made of link k's resolved source, resolved target and value |
| SankeyChart.OkInRange | sankey_chart.py:72-75 | on success every source and target lies in [0, len(nodes)) and every value is >= 0 |
| SankeyChart.OkIffEveryLinkAccepted | sankey_chart.py:64-79 | the pass succeeds if and only if every link passes its own checks |
| SankeyChart.FirstRejectionWins | sankey_chart.py:64-75 | the pass fails with e if and only if the first rejected link in list order is rejected with e |
| SankeyChart.ErrorNamesFirstBadLink | sankey_chart.py:69-75 | a MissingKey, OutOfRange or Negative error names the position of the first rejected link, and every earlier link is accepted |
| SankeyChart.LabelsAsIndices | sankey_chart.py:51-59 | replacing label endpoints by the index the label resolves to (its last position) leaves the outcome unchanged |
| SankeyChart.MixedEndpointsExample | sankey_chart.py:51-79 | nodes A, B, C with links (A to B, 5) and (1 to 2, 3) give sources [0, 1], targets [1, 2], values [5, 3] |
| SankeyChart.DuplicateLabelExample | sankey_chart.py:51 | with nodes A, A, B the label A resolves to 1, while the index 0 stays a distinct valid node |
| SankeyChart.UnknownLabelExample | sankey_chart.py:57-58 | a link with label Z that is not a node label fails with UnknownLabel(Z) |
| SankeyChart.MissingValueExample | sankey_chart.py:68-70 | a link without a value fails with MissingKey at its position, even though its indices are out of range |

## Left out

- Figure construction (`sankey_chart.py:81-100`) is not modelled: `go.Figure`, `go.Sankey`, node styling, `update_layout` with the title and font size, and the `layout_kwargs` passthrough. These are calls into a charting library with no logic to check.
- `float()` conversion of the value is not modelled. The value is already a `real`, so numeric strings, the `ValueError` from an unparsable value, a NaN that passes `v < 0`, and the infinities are not covered. `float('inf')` passes `v < 0` and would be appended, `-inf` gives a negative-value error, and `real` can represent neither.
- In Python `bool` is a subclass of `int`, so `True` and `False` pass `isinstance(x, int)`. The model has no boolean endpoint; such a value would be an `Idx` of 0 or 1.
- Exception classes and message texts are not modelled. Each error is a variant of `Error` that carries the data its message shows.
- Extra keys in a link record are ignored by the source and have no field in the model.
- `treemap.py` is not part of this model. It is a top-level plotting script with fixed data, float percentage formatting, image file output and an interactive display.
