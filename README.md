# 6502Annotate jump graph, modelled in Dafny

6502Annotate annotates a 6502 assembly listing kept in a spreadsheet. One of
its columns, "Tree", holds a control-flow schematic: every branch or jump whose
label resolves to a row of the listing is drawn as a vertical span from its
source row to its target row, with corners at the ends, tees at the other rows
that jump to the same target, and an arrow on the target row. This project
models the engine behind that column and proves what it draws.

- `JumpSet.dfy` (module `JumpSets`): the span of one target row. `JumpSpan` is
  its value (the target and the set of source rows, with `Min`, `Max`,
  `IsSupersetOf`, `Overlaps`, `Contains`). `JumpSet` is the mutable class that
  discovery grows one source at a time with `AddSource`. `Span` is a span with
  at least one source. The source code only asks for `Min` and `Max` of such
  spans; on an empty source set `Sources.Min()` throws.
- `Discovery.dfy` (module `Discovery`): `FindJumpSets`. It scans listing rows
  2 onward, resolves each row's jump label against the label rows (`label + ":"`),
  and adds the row as a source of the span of the target row. The span is
  created the first time that target is met.
- `Layering.dfy` (module `Layering`): `AddJumpSetToLevel` and `CreateGraph`.
  They pack the spans into layers whose intervals do not overlap. The pure
  specification is `AddToLevel`, `FillLevel` and `Layers`.
- `Rendering.dfy` (module `Rendering`): the row loop of `DrawGraph`.
  `DrawRow` builds one row's string. What the row should be is `RenderRow`,
  written as the recursion `Cells` over the layers from the outermost in.
  `GraphColor` is here as well.
- `Annotator.dfy` (module `Annotation`): `DrawGraph` end to end. It discovers
  the spans, builds the layers and draws every row, and ties each row's
  trailing character to the listing's jumps.
- `Scenarios.dfy` (module `Scenarios`): small listings worked out exactly.
- `Wrappers.dfy`: `Option`.

The inputs of the model are what the worksheet provides:

- `jumpLabels[row - 2]` is the label named by the instruction on listing
  row `row`, or `""` when it names none. `AsmUtils.GetJumpToLabel` returns
  `null` for such a row (`6502Annotate/AsmUtils.cs:106`), and `FindJumpSets`
  skips `null` and `""` alike through `string.IsNullOrEmpty`
  (`6502Annotate/Annotator.cs:313`), so the model's `""` stands for both.
- `labelRows` is whatever `m_LabelRows` holds: each defined label, colon
  included, mapped to its row as of `Init` (`6502Annotate/Annotator.cs:56-61`).
  `DrawSprites` later inserts worksheet rows (`6502Annotate/Annotator.cs:127`)
  without updating that map, and `FindJumpSets` looks targets up in it while
  scanning the grown sheet (`6502Annotate/Annotator.cs:309-316`). After a
  sprite is expanded, labels below it therefore resolve to their old rows. The
  model takes the map as given and reproduces exactly that lookup.
- The last listing row is `|jumpLabels| + 1`, which is
  `m_Worksheet.Dimension.Rows`.

Details of `6502Annotate/Annotator.cs` that the model keeps:

- The eviction test in `AddJumpSetToLevel` (line 289) lets a placed,
  overlapping span give way when it encloses the candidate, when it has a
  source on the candidate's target row (`existing.Sources.Contains(js.Target)`),
  or when the candidate starts and ends strictly before it (`Layering.Yields`,
  `Scenarios.EvictionAtSourceRow`, `Scenarios.EvictionOrder`).
- Only layers with `g <= 5` get a leading character (line 159), so a row drawn
  over `N` layers has `N + min(N, 6) + 1` characters.
- The blank is the no-break space U+00A0 (lines 167, 179, 227).
- `┌` and `└` are chosen by `row == Min` and `row == Max` alone, whatever the
  latches `isIn` and `isOut` are (lines 184-193).
- A listing with no jumps draws one blank per row.

Layers are sequences in place of the source's hash sets. Spans are compared
by value: discovery gives each span its own target row, so two different span
objects never have equal values.

## Model

| member | source | states |
|---|---|---|
| `JumpSets.SetMin` | 6502Annotate/JumpSet.cs:16 | `Sources.Min()`: an element of the set no greater than any other |
| `JumpSets.SetMax` | 6502Annotate/JumpSet.cs:21 | `Sources.Max()`: an element of the set no less than any other |
| `JumpSets.JumpSpan.Min` | 6502Annotate/JumpSet.cs:14-17 | the first row is at most the target and every source, and is the target or a source |
| `JumpSets.JumpSpan.Max` | 6502Annotate/JumpSet.cs:19-22 | the last row is at least the target and every source, and is the target or a source |
| `JumpSets.JumpSpan.IsSupersetOf` | 6502Annotate/JumpSet.cs:34-37 | the interval encloses the other's (`Min <= o.Min && Max >= o.Max`), so it contains the other's target and every one of its sources |
| `JumpSets.JumpSpan.Overlaps` | 6502Annotate/JumpSet.cs:39-42 | the intervals share a row exactly when one of them starts inside the other |
| `JumpSets.JumpSpan.Contains` | 6502Annotate/JumpSet.cs:44-47 | `Min <= row <= Max`; the target and every source are contained |
| `JumpSets.JumpSet.constructor` | 6502Annotate/JumpSet.cs:24-27 | a new span has the given target and no sources |
| `JumpSets.JumpSet.Value` | 6502Annotate/JumpSet.cs:9-12 | the value of the object is its target and its current sources |
| `JumpSets.JumpSet.AddSource` | 6502Annotate/JumpSet.cs:29-32 | target unchanged, sources gain exactly the new row, the span then contains it, `Min` becomes the smaller of the old `Min` and the row and `Max` the larger of the old `Max` and the row (of the target and the row for the first source) |
| `JumpSets.ContainsTargetAndSources` | 6502Annotate/JumpSet.cs:14-22 | `Min <= Target <= Max`; the target and every source lie in the interval |
| `JumpSets.ContainsIsInterval` | 6502Annotate/JumpSet.cs:44-47 | `Contains(row)` holds exactly when `Min <= row <= Max` |
| `JumpSets.OverlapsSymmetric` | 6502Annotate/JumpSet.cs:39-42 | `a` overlaps `b` exactly when `b` overlaps `a` |
| `JumpSets.OverlapsSelf` | 6502Annotate/JumpSet.cs:39-42 | every span overlaps itself |
| `JumpSets.OverlapsIffCommonRow` | 6502Annotate/JumpSet.cs:39-47 | two spans overlap exactly when some row is contained in both |
| `JumpSets.SupersetReflexive` | 6502Annotate/JumpSet.cs:34-37 | every span is a superset of itself |
| `JumpSets.SupersetTransitive` | 6502Annotate/JumpSet.cs:34-37 | a superset of a superset is a superset |
| `JumpSets.SupersetContainsRows` | 6502Annotate/JumpSet.cs:34-47 | a superset contains every row of the enclosed span and overlaps it both ways |
| `Discovery.ResolvedTarget` | 6502Annotate/Annotator.cs:311-317 | a row resolves to nothing exactly when it names no label or its label plus `:` is not a defined label; otherwise to the row of a defined label |
| `Discovery.SourcesBelowMeaning` | 6502Annotate/Annotator.cs:309-326 | the rows recorded for a target before row `upTo` are exactly the scanned rows whose label resolves to it |
| `Discovery.TargetsBelowMeaning` | 6502Annotate/Annotator.cs:309-326 | the targets recorded before row `upTo` are exactly the rows some scanned row resolves to |
| `Discovery.SourcesBelowEmpty` | 6502Annotate/Annotator.cs:319-324 | a target has no recorded rows exactly when no span exists for it yet |
| `Discovery.ScanUnresolved` | 6502Annotate/Annotator.cs:312-317 | a row with no label, or a label that is not defined, leaves every span and the index unchanged |
| `Discovery.StartJumpSet` | 6502Annotate/Annotator.cs:319-325 | a target met for the first time gets a new span, indexed by target, whose only source is the row; earlier spans unchanged |
| `Discovery.ExtendJumpSet` | 6502Annotate/Annotator.cs:319-325 | a target met again gains the row as a source of its existing span; the scan invariant holds for the next row |
| `Discovery.FindJumpSets` | 6502Annotate/Annotator.cs:303-329 | one span per distinct resolved target row; a row is a source of a span exactly when its label resolves to that span's target; every target is resolved from some row; unresolved rows contribute nothing |
| `Layering.Yields` | 6502Annotate/Annotator.cs:289 | the eviction rule: a placed span gives way when it encloses the candidate, has a source on its target row, or the candidate starts and ends strictly before it; in particular a span gives way to itself |
| `Layering.CanPlace` | 6502Annotate/Annotator.cs:284-296 | the scan finds no overlapping span that refuses to give way; an empty layer always accepts |
| `Layering.Overlapping` | 6502Annotate/Annotator.cs:284-292 | the `rejected` set when the candidate is placed: spans of the layer only, and the candidate itself when it is already there |
| `Layering.Except` | 6502Annotate/Annotator.cs:299 | `ExceptWith`: keeps exactly the spans not removed, without repeats, shorter when something was removed |
| `Layering.AddToLevel` | 6502Annotate/Annotator.cs:280-301 | offering a span yields a non-empty layer of the candidate and old spans only |
| `Layering.AddToLevelOutcome` | 6502Annotate/Annotator.cs:284-300 | either every overlapping span gives way, so the candidate is added and exactly the overlapping spans leave, or some overlapping span does not, so the layer is unchanged |
| `Layering.AddToLevelKeepsLevel` | 6502Annotate/Annotator.cs:280-301 | offering a span to a layer with no overlaps and no repeats keeps it so |
| `Layering.AddToEmptyLevel` | 6502Annotate/Annotator.cs:284-300 | an empty layer always takes the candidate |
| `Layering.FillLevel` | 6502Annotate/Annotator.cs:240-244 | filling a layer keeps only offered or already placed spans, and gives a non-empty layer when anything was offered |
| `Layering.FillLevelKeepsLevel` | 6502Annotate/Annotator.cs:240-244 | a layer filled from an empty one has no overlaps and no repeats |
| `Layering.Layers` | 6502Annotate/Annotator.cs:232-249 | the graph has at most as many layers as there are spans |
| `Layering.LayersUnfold` | 6502Annotate/Annotator.cs:238-246 | each layer is filled from all the remaining spans, is non-empty, and strictly reduces what remains, so the loop ends |
| `Layering.LayersAreLevels` | 6502Annotate/Annotator.cs:232-249 | the graph is empty exactly when there are no spans; every layer is non-empty, has no overlaps and no repeats, and holds only given spans |
| `Layering.FirstLayerNotLater` | 6502Annotate/Annotator.cs:245-246 | a span taken by the first layer is in no later layer |
| `Layering.LayersPartition` | 6502Annotate/Annotator.cs:232-249 | every span lands in some layer and in no two layers |
| `Layering.AddJumpSetToLevel` | 6502Annotate/Annotator.cs:280-301 | the scan with early return gives exactly `AddToLevel` |
| `Layering.CreateGraph` | 6502Annotate/Annotator.cs:232-249 | the layering loop gives exactly `Layers` of the spans |
| `Rendering.FirstContaining` | 6502Annotate/Annotator.cs:157 | `FirstOrDefault`: the first span of the layer containing the row, and none exactly when no span of the layer contains it |
| `Rendering.ContainingIsUnique` | 6502Annotate/Annotator.cs:157 | in a layer without overlaps the span containing a row is the one found |
| `Rendering.Fill` | 6502Annotate/Annotator.cs:159-181 | the filler is a blank exactly when neither latch is set, and a `─` otherwise |
| `Rendering.Connector` | 6502Annotate/Annotator.cs:184-203 | `┌` exactly on the span's first row; a mark (`┌`, `└`, `├`) exactly on the target and source rows; `│` on the other rows |
| `Rendering.Trailing` | 6502Annotate/Annotator.cs:217-228 | `>` exactly when `isOut`, `─` exactly when `isIn` without `isOut`, a blank exactly when neither |
| `Rendering.Glyph` | 6502Annotate/Annotator.cs:157-203 | the filler when no span of the layer contains the row, a connector otherwise; never a blank once latched |
| `Rendering.HitsTarget` | 6502Annotate/Annotator.cs:205-208 | the found span targets the row, so some span of the layer does |
| `Rendering.HitsSource` | 6502Annotate/Annotator.cs:209-212 | the found span has the row as a source but not as its target, so some span of the layer does, and `isOut` is then not set by this layer |
| `Rendering.LayerCells` | 6502Annotate/Annotator.cs:157-203 | two characters for layers 0 to 5, one for the others, ending in the layer's glyph |
| `Rendering.Cells` | 6502Annotate/Annotator.cs:155-228 | the characters for layers `n - 1` down to 0 and the trailing one: more than `n` of them |
| `Rendering.RenderRow` | 6502Annotate/Annotator.cs:144-228 | the string drawn for one listing row starting with both latches clear: longer than the number of layers |
| `Rendering.CellsLength` | 6502Annotate/Annotator.cs:155-228 | the characters for `n` layers number `n + min(n, 6) + 1` |
| `Rendering.RowLength` | 6502Annotate/Annotator.cs:155-228 | a row has one connector per layer, a leading character for each of the six innermost layers and one trailing character |
| `Rendering.TargetBelowMeaning` | 6502Annotate/Annotator.cs:205-208 | `isOut` is set exactly when some layer finds a span targeting the row |
| `Rendering.SourceBelowMeaning` | 6502Annotate/Annotator.cs:209-212 | `isIn` is set exactly when some layer finds a span with the row as a source and not as its target |
| `Rendering.CellsTrailing` | 6502Annotate/Annotator.cs:155-228 | latches only get set, so the trailing character reflects every target and source hit of the layers scanned |
| `Rendering.RowTrailing` | 6502Annotate/Annotator.cs:217-228 | the trailing character is `>` exactly on a target hit, `─` exactly on a source hit without one, and a blank otherwise |
| `Rendering.ConnectorShape` | 6502Annotate/Annotator.cs:184-203 | first-match-wins glyphs: `┌` exactly on the first row, `└` exactly on a last row that is not the first, `├` exactly on inner rows that are the target or a source, `│` exactly on rows that are neither |
| `Rendering.MarkLatches` | 6502Annotate/Annotator.cs:184-212 | a drawn corner or tee always sets a latch |
| `Rendering.LatchedCellsHaveNoBlank` | 6502Annotate/Annotator.cs:159-181 | once a latch is set no further character is blank |
| `Rendering.LayerBlanksFirst` | 6502Annotate/Annotator.cs:159-212 | one layer's characters have no blank after a mark, and a mark in them sets a latch |
| `Rendering.CellsBlanksFirst` | 6502Annotate/Annotator.cs:155-228 | in the characters from any latch state no blank follows a mark |
| `Rendering.RowBlanksFirst` | 6502Annotate/Annotator.cs:155-228 | in a drawn row no blank follows a `─`, `┌`, `└` or `├` |
| `Rendering.CellsAlphabet` | 6502Annotate/Annotator.cs:159-203 | every character before the trailing one is a blank, `─`, `│`, `┌`, `└` or `├` |
| `Rendering.RowAlphabet` | 6502Annotate/Annotator.cs:155-228 | a row uses only those characters before its end, never `>` before the end, and ends in `>`, `─` or a blank |
| `Rendering.DrawRow` | 6502Annotate/Annotator.cs:146-228 | the row loop, with its leading characters, connectors, latches and trailing character, draws exactly `RenderRow` |
| `Rendering.GraphColor` | 6502Annotate/Annotator.cs:251-270 | layers 0 to 5 get their own colours, every other layer gray |
| `Rendering.GraphColorsDistinct` | 6502Annotate/Annotator.cs:253-267 | the six innermost layers' colours are pairwise different |
| `Annotation.Values` | 6502Annotate/Annotator.cs:328 | the values of the discovered objects, one per object in order |
| `Annotation.ValuesSources` | 6502Annotate/Annotator.cs:303-329 | each discovered span's sources are exactly the rows resolving to its target |
| `Annotation.ValuesTargets` | 6502Annotate/Annotator.cs:303-329 | the discovered targets are exactly the rows some listing row jumps to |
| `Annotation.LayersTargetHit` | 6502Annotate/Annotator.cs:155-208 | some layer finds a span targeting the row exactly when some discovered span targets it |
| `Annotation.LayersSourceHit` | 6502Annotate/Annotator.cs:155-212 | some layer finds a span with the row as a non-target source exactly when some discovered span has it so |
| `Annotation.RowTrailingMeaning` | 6502Annotate/Annotator.cs:139-228 | a row ends in `>` exactly when some row jumps to it, in `─` exactly when it is not jumped to but jumps to another row, and in a blank otherwise |
| `Annotation.RowsLength` | 6502Annotate/Annotator.cs:155-228 | every drawn row has `N + min(N, 6) + 1` characters |
| `Annotation.RowsTrailing` | 6502Annotate/Annotator.cs:139-228 | every drawn row ends as `RowTrailingMeaning` states |
| `Annotation.RowsMeaning` | 6502Annotate/Annotator.cs:143-229 | every drawn row has the stated length and trailing character |
| `Annotation.BuildGraph` | 6502Annotate/Annotator.cs:232-236 | the spans found are exactly the listing's jump spans and the graph is their layering |
| `Annotation.DrawGraph` | 6502Annotate/Annotator.cs:139-230 | one string per listing row, each exactly `RenderRow` of that row, of length `N + min(N, 6) + 1`, ending in `>` exactly when the row is jumped to and in `─` exactly when it only jumps away |
| `Scenarios.ResolvingLabels` | 6502Annotate/Annotator.cs:312-317 | a row with no label and a row naming an undefined label resolve to nothing; a defined label resolves to its row |
| `Scenarios.NoJumps` | 6502Annotate/Annotator.cs:217-228 | no spans, no layers, and each row is a single blank |
| `Scenarios.SingleJump` | 6502Annotate/Annotator.cs:155-228 | a jump from row 5 to row 10 draws ` ┌─` on row 5, ` │ ` inside, ` └>` on row 10 and three blanks outside the span |
| `Scenarios.SelfLoop` | 6502Annotate/Annotator.cs:184-228 | a row jumping to itself draws ` ┌>` |
| `Scenarios.DisjointShareLayer` | 6502Annotate/Annotator.cs:280-301 | spans that do not overlap share one layer |
| `Scenarios.NestedLayers` | 6502Annotate/Annotator.cs:232-301 | an enclosing span is evicted by the span it encloses and goes to the second layer |
| `Scenarios.NestedInnerEnds` | 6502Annotate/Annotator.cs:155-228 | the outer span's bar passes the inner span's corners |
| `Scenarios.NestedOuterRows` | 6502Annotate/Annotator.cs:159-181 | after the outer span's corner the inner column is drawn as lines; a row only the outer span passes shows its bar and blanks |
| `Scenarios.EvictionOrder` | 6502Annotate/Annotator.cs:289 | a candidate starting and ending before a placed span evicts it; in the other order the candidate is refused |
| `Scenarios.EvictionAtSourceRow` | 6502Annotate/Annotator.cs:289 | a placed span with a source on the candidate's target row gives way although it neither encloses the candidate nor lies after it |

## Left out

- Spreadsheet I/O is not modelled. That covers `Program.cs`, the worksheet
  plumbing of `Annotator.cs` (`Init`, `DecodeAsms`, `LinkLabels`,
  `DrawSprites`, cell access) and console output. The label each row names and
  the label rows are parameters.
- `AsmUtils.cs` is not part of this model. Its regular expressions that find
  a row's jump label are replaced by the `jumpLabels` parameter.
- Rich-text colours are not attached to the drawn characters. `GraphColor` is
  modelled on its own; which colour each character gets (the `col` variable)
  is not.
- `GraphColorJoin` is not modelled: it is floating-point colour blending that
  nothing calls.
- Hash-set enumeration order is not modelled. The contracts do not fix the
  order of the spans `FindJumpSets` returns; a layer keeps its spans in
  placement order, and the layering lemmas hold for every order of the spans.
  Because the eviction rule depends on the order candidates are offered, the
  program can pack differently wherever its hash order differs.
- Object identity is not modelled in layering and drawing. They work on span
  values, which match the source's references because targets are distinct.
- `Layering.CreateGraph` takes the discovered spans as a parameter. The
  source's call to `FindJumpSets` at its start is in `Annotation.BuildGraph`.
- `JumpSets.JumpSpan.Min` and `JumpSets.JumpSpan.Max` require a span with at
  least one source. The source's `Sources.Min()` throws on an empty set, and
  discovery never leaves a span empty.
- Row numbers are unbounded integers. The source's 32-bit `int` rows cannot
  overflow for any worksheet it can open.
