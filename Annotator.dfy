/** The graph column of an annotated listing, end to end, as `DrawGraph` in
    `Annotator.cs` draws it: discover the spans, pack them into layers, then
    draw each listing row. Listing rows are numbered from 2, the first row below
    the header; `jumpLabels[row - 2]` is the label row `row` jumps to, or "". */
module Annotation {
  import opened Wrappers
  import opened JumpSets
  import opened Discovery
  import opened Layering
  import opened Rendering

  /** The spans the discovered objects describe, in order. */
  function Values(jumpSets: seq<JumpSet>): (spans: seq<Span>)
    reads jumpSets
    requires forall js :: js in jumpSets ==> js.HasSources()
    ensures |spans| == |jumpSets|
    ensures forall i :: 0 <= i < |jumpSets| ==> spans[i] == jumpSets[i].Value()
  {
    if jumpSets == [] then [] else [jumpSets[0].Value()] + Values(jumpSets[1..])
  }

  /** Some listing row jumps to `row`. */
  ghost predicate IsJumpedTo(jumpLabels: seq<string>, labelRows: map<string, int>, row: int) {
    exists src :: 2 <= src < |jumpLabels| + 2 && ResolvedTarget(jumpLabels, labelRows, src) == Some(row)
  }

  /** Row `row` jumps to a row other than itself. */
  predicate JumpsAway(jumpLabels: seq<string>, labelRows: map<string, int>, row: int)
    requires 2 <= row < |jumpLabels| + 2
  {
    match ResolvedTarget(jumpLabels, labelRows, row)
    case Some(t) => t != row
    case None => false
  }

  /** No two spans share a target row. */
  predicate DistinctTargets(spans: seq<Span>) {
    forall i, j :: 0 <= i < j < |spans| ==> spans[i].target != spans[j].target
  }

  /** A span's sources are exactly the listing rows that jump to its target. */
  ghost predicate ExactSources(jumpLabels: seq<string>, labelRows: map<string, int>, spans: seq<Span>) {
    forall js, row :: js in spans ==>
      (row in js.sources <==>
       2 <= row < |jumpLabels| + 2 && ResolvedTarget(jumpLabels, labelRows, row) == Some(js.target))
  }

  /** The spans' targets are exactly the rows some listing row jumps to. */
  ghost predicate ExactTargets(jumpLabels: seq<string>, labelRows: map<string, int>, spans: seq<Span>) {
    forall t :: (exists js :: js in spans && js.target == t) <==> IsJumpedTo(jumpLabels, labelRows, t)
  }

  /** What discovery establishes about the spans of a listing: one span per
      target row, holding exactly the rows that jump to it. */
  ghost predicate Discovered(jumpLabels: seq<string>, labelRows: map<string, int>, spans: seq<Span>) {
    DistinctTargets(spans) && ExactSources(jumpLabels, labelRows, spans) && ExactTargets(jumpLabels, labelRows, spans)
  }

  /** Some layer of the graph finds for `row` a span targeting it exactly when
      some span targets it: the layers partition the spans, and in its layer
      a span is the only one holding its rows. */
  lemma LayersTargetHit(spans: seq<Span>, row: int)
    ensures TargetBelow(row, Layers(spans), |Layers(spans)|) <==> exists js :: js in spans && js.target == row
  {
    var graph := Layers(spans);
    LayersAreLevels(spans);
    LayersPartition(spans);
    TargetBelowMeaning(row, graph, |graph|);
    if TargetBelow(row, graph, |graph|) {
      var g :| 0 <= g < |graph| && HitsTarget(row, graph[g]);
      var js := FirstContaining(row, graph[g]).value;
      assert js in spans && js.target == row;
    }
    if exists js :: js in spans && js.target == row {
      var js :| js in spans && js.target == row;
      var g :| 0 <= g < |graph| && js in graph[g];
      ContainsTargetAndSources(js);
      ContainingIsUnique(row, graph[g], js);
      assert HitsTarget(row, graph[g]);
    }
  }

  /** Likewise for a span that has `row` as a source but not as its target. */
  lemma LayersSourceHit(spans: seq<Span>, row: int)
    ensures SourceBelow(row, Layers(spans), |Layers(spans)|) <==>
      exists js :: js in spans && js.target != row && row in js.sources
  {
    var graph := Layers(spans);
    LayersAreLevels(spans);
    LayersPartition(spans);
    SourceBelowMeaning(row, graph, |graph|);
    if SourceBelow(row, graph, |graph|) {
      var g :| 0 <= g < |graph| && HitsSource(row, graph[g]);
      var js := FirstContaining(row, graph[g]).value;
      assert js in spans && js.target != row && row in js.sources;
    }
    if exists js :: js in spans && js.target != row && row in js.sources {
      var js :| js in spans && js.target != row && row in js.sources;
      var g :| 0 <= g < |graph| && js in graph[g];
      ContainsTargetAndSources(js);
      ContainingIsUnique(row, graph[g], js);
      assert HitsSource(row, graph[g]);
    }
  }

  /** The trailing character of a listing row: an arrow exactly when some row
      jumps to it; else a line exactly when it jumps to another row; else a
      blank. */
  lemma RowTrailingMeaning(jumpLabels: seq<string>, labelRows: map<string, int>, spans: seq<Span>, row: int)
    requires Discovered(jumpLabels, labelRows, spans)
    requires 2 <= row < |jumpLabels| + 2
    ensures RenderRow(row, Layers(spans)) != []
    ensures Last(RenderRow(row, Layers(spans))) == Arrow <==> IsJumpedTo(jumpLabels, labelRows, row)
    ensures Last(RenderRow(row, Layers(spans))) == Horizontal <==>
      !IsJumpedTo(jumpLabels, labelRows, row) && JumpsAway(jumpLabels, labelRows, row)
    ensures Last(RenderRow(row, Layers(spans))) == Nbsp <==>
      !IsJumpedTo(jumpLabels, labelRows, row) && !JumpsAway(jumpLabels, labelRows, row)
  {
    RowTrailing(row, Layers(spans));
    LayersTargetHit(spans, row);
    LayersSourceHit(spans, row);
    if JumpsAway(jumpLabels, labelRows, row) {
      var t := ResolvedTarget(jumpLabels, labelRows, row).value;
      assert IsJumpedTo(jumpLabels, labelRows, t);
      var js :| js in spans && js.target == t;
      assert row in js.sources;
    }
  }

  /** A value of `Values(jumpSets)` is the value of one of the objects. */
  lemma ValueOf(jumpSets: seq<JumpSet>, js: Span) returns (i: int)
    requires forall o :: o in jumpSets ==> o.HasSources()
    requires js in Values(jumpSets)
    ensures 0 <= i < |jumpSets| && jumpSets[i] in jumpSets
    ensures js.target == jumpSets[i].Target && js.sources == jumpSets[i].Sources
  {
    var spans := Values(jumpSets);
    i :| 0 <= i < |spans| && spans[i] == js;
  }

  lemma ValuesSources(jumpLabels: seq<string>, labelRows: map<string, int>, jumpSets: seq<JumpSet>)
    requires forall js :: js in jumpSets ==> js.HasSources()
    requires forall js :: js in jumpSets ==>
      js.Sources == SourcesBelow(jumpLabels, labelRows, js.Target, |jumpLabels| + 2)
    ensures ExactSources(jumpLabels, labelRows, Values(jumpSets))
  {
    var spans := Values(jumpSets);
    forall js: Span, row: int | js in spans
      ensures row in js.sources <==>
        2 <= row < |jumpLabels| + 2 && ResolvedTarget(jumpLabels, labelRows, row) == Some(js.target)
    {
      var i := ValueOf(jumpSets, js);
      SourcesBelowMeaning(jumpLabels, labelRows, js.target, |jumpLabels| + 2);
    }
  }

  lemma ValuesTargets(jumpLabels: seq<string>, labelRows: map<string, int>, jumpSets: seq<JumpSet>)
    requires forall js :: js in jumpSets ==> js.HasSources()
    requires (set js | js in jumpSets :: js.Target) == TargetsBelow(jumpLabels, labelRows, |jumpLabels| + 2)
    ensures ExactTargets(jumpLabels, labelRows, Values(jumpSets))
  {
    var spans := Values(jumpSets);
    TargetsBelowMeaning(jumpLabels, labelRows, |jumpLabels| + 2);
    forall t
      ensures (exists js :: js in spans && js.target == t) <==> IsJumpedTo(jumpLabels, labelRows, t)
    {
      if exists js :: js in spans && js.target == t {
        var js :| js in spans && js.target == t;
        var i := ValueOf(jumpSets, js);
        assert t in (set js | js in jumpSets :: js.Target);
      }
      if IsJumpedTo(jumpLabels, labelRows, t) {
        assert t in (set js | js in jumpSets :: js.Target);
        var o :| o in jumpSets && o.Target == t;
        var i :| 0 <= i < |jumpSets| && jumpSets[i] == o;
        assert spans[i] in spans;
      }
    }
  }

  /** Every drawn row has one character per layer, one leading character for
      each of the six innermost layers and one trailing character. */
  lemma RowsLength(graph: seq<seq<Span>>, cells: seq<string>)
    requires forall i :: 0 <= i < |cells| ==> cells[i] == RenderRow(i + 2, graph)
    ensures forall i :: 0 <= i < |cells| ==> |cells[i]| == |graph| + MinInt(|graph|, 6) + 1
  {
    forall i | 0 <= i < |cells|
      ensures |cells[i]| == |graph| + MinInt(|graph|, 6) + 1
    {
      RowLength(i + 2, graph);
    }
  }

  /** Every drawn row ends as `RowTrailingMeaning` says. */
  lemma RowsTrailing(jumpLabels: seq<string>, labelRows: map<string, int>, spans: seq<Span>,
                     graph: seq<seq<Span>>, cells: seq<string>)
    requires Discovered(jumpLabels, labelRows, spans)
    requires graph == Layers(spans)
    requires |cells| == |jumpLabels|
    requires forall i :: 0 <= i < |cells| ==> cells[i] == RenderRow(i + 2, graph)
    ensures forall i :: 0 <= i < |cells| ==>
      && cells[i] != []
      && (Last(cells[i]) == Arrow <==> IsJumpedTo(jumpLabels, labelRows, i + 2))
      && (Last(cells[i]) == Horizontal <==>
           !IsJumpedTo(jumpLabels, labelRows, i + 2) && JumpsAway(jumpLabels, labelRows, i + 2))
  {
    forall i | 0 <= i < |cells|
      ensures cells[i] != []
      ensures Last(cells[i]) == Arrow <==> IsJumpedTo(jumpLabels, labelRows, i + 2)
      ensures Last(cells[i]) == Horizontal <==>
        !IsJumpedTo(jumpLabels, labelRows, i + 2) && JumpsAway(jumpLabels, labelRows, i + 2)
    {
      RowTrailingMeaning(jumpLabels, labelRows, spans, i + 2);
    }
  }

  /** Every drawn row satisfies the length and trailing-character laws. */
  lemma RowsMeaning(jumpLabels: seq<string>, labelRows: map<string, int>, spans: seq<Span>,
                    graph: seq<seq<Span>>, cells: seq<string>)
    requires Discovered(jumpLabels, labelRows, spans)
    requires graph == Layers(spans)
    requires |cells| == |jumpLabels|
    requires forall i :: 0 <= i < |cells| ==> cells[i] == RenderRow(i + 2, graph)
    ensures forall i :: 0 <= i < |cells| ==> |cells[i]| == |graph| + MinInt(|graph|, 6) + 1
    ensures forall i :: 0 <= i < |cells| ==>
      && cells[i] != []
      && (Last(cells[i]) == Arrow <==> IsJumpedTo(jumpLabels, labelRows, i + 2))
      && (Last(cells[i]) == Horizontal <==>
           !IsJumpedTo(jumpLabels, labelRows, i + 2) && JumpsAway(jumpLabels, labelRows, i + 2))
  {
    RowsLength(graph, cells);
    RowsTrailing(jumpLabels, labelRows, spans, graph, cells);
  }

  /** The first half of `CreateGraph`: discovers the spans of the listing and
      packs them into layers. */
  method BuildGraph(jumpLabels: seq<string>, labelRows: map<string, int>)
    returns (spans: seq<Span>, graph: seq<seq<Span>>)
    ensures Discovered(jumpLabels, labelRows, spans)
    ensures graph == Layers(spans)
  {
    var jumpSets := FindJumpSets(jumpLabels, labelRows);
    spans := Values(jumpSets);
    ValuesSources(jumpLabels, labelRows, jumpSets);
    ValuesTargets(jumpLabels, labelRows, jumpSets);
    graph := CreateGraph(spans);
  }

  /** Draws the graph column of every listing row: finds the spans, builds the
      layers from them and draws the rows from 2 to the last. */
  method DrawGraph(jumpLabels: seq<string>, labelRows: map<string, int>)
    returns (spans: seq<Span>, graph: seq<seq<Span>>, cells: seq<string>)
    ensures Discovered(jumpLabels, labelRows, spans)
    ensures graph == Layers(spans)
    ensures |cells| == |jumpLabels|
    ensures forall i :: 0 <= i < |cells| ==> cells[i] == RenderRow(i + 2, graph)
    ensures forall i :: 0 <= i < |cells| ==> |cells[i]| == |graph| + MinInt(|graph|, 6) + 1
    ensures forall i :: 0 <= i < |cells| ==>
      && cells[i] != []
      && (Last(cells[i]) == Arrow <==> IsJumpedTo(jumpLabels, labelRows, i + 2))
      && (Last(cells[i]) == Horizontal <==>
           !IsJumpedTo(jumpLabels, labelRows, i + 2) && JumpsAway(jumpLabels, labelRows, i + 2))
  {
    spans, graph := BuildGraph(jumpLabels, labelRows);
    cells := [];
    var row := 2;
    while row <= |jumpLabels| + 1
      invariant 2 <= row <= |jumpLabels| + 2
      invariant |cells| == row - 2
      invariant forall i :: 0 <= i < |cells| ==> cells[i] == RenderRow(i + 2, graph)
    {
      var text := DrawRow(row, graph);
      ghost var before := cells;
      cells := cells + [text];
      assert forall i :: 0 <= i < |before| ==> cells[i] == before[i];
      assert cells[row - 2] == RenderRow(row, graph);
      row := row + 1;
    }
    RowsMeaning(jumpLabels, labelRows, spans, graph, cells);
  }
}
