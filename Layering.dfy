/** Packing the discovered spans into layers whose intervals do not overlap, as
    `Annotator.AddJumpSetToLevel` and `Annotator.CreateGraph` do. A layer is a
    sequence in place of the source's hash set, so that the packing does not
    depend on hash order; a placed span goes to the end of its layer. Spans are
    compared by value: discovery gives every span its own target row, so two
    different spans never have equal values. */
module Layering {
  import opened JumpSets

  predicate NoDuplicates(spans: seq<Span>) {
    forall i, j :: 0 <= i < j < |spans| ==> spans[i] != spans[j]
  }

  /** No two different spans of the layer share a row. */
  predicate Disjoint(level: seq<Span>)
  {
    forall a, b :: a in level && b in level && a != b ==> !a.Overlaps(b)
  }

  /** What a layer of the graph is: each span once, no two overlapping. */
  predicate IsLevel(level: seq<Span>) {
    NoDuplicates(level) && Disjoint(level)
  }

  function Members(spans: seq<Span>): set<Span> {
    set js | js in spans
  }

  /** The spans of `spans` not in `removed` (`ExceptWith`). */
  function Except(spans: seq<Span>, removed: set<Span>): (r: seq<Span>)
    ensures forall js :: js in r ==> js in spans && js !in removed
    ensures forall js :: js in spans && js !in removed ==> js in r
    ensures |r| <= |spans|
    ensures (exists js :: js in spans && js in removed) ==> |r| < |spans|
    ensures NoDuplicates(spans) ==> NoDuplicates(r)
  {
    if spans == [] then []
    else if spans[0] in removed then Except(spans[1..], removed)
    else [spans[0]] + Except(spans[1..], removed)
  }

  /** The eviction rule: an already placed span `existing` that overlaps the
      candidate `js` gives way to it when it encloses `js`, when it has a source
      at `js`'s target row, or when `js` starts and ends strictly before it;
      so a span always gives way to itself. */
  predicate Yields(existing: Span, js: Span)
    ensures existing == js ==> Yields(existing, js)
    ensures js.Min() < existing.Min() && js.Max() < existing.Max() ==> Yields(existing, js)
  {
    || existing.IsSupersetOf(js)
    || js.target in existing.sources
    || (js.Min() < existing.Min() && js.Max() < existing.Max())
  }

  /** Every span of `level` that overlaps `js` gives way to it, as when the
      layer is empty. */
  predicate CanPlace(js: Span, level: seq<Span>)
    ensures level == [] ==> CanPlace(js, level)
  {
    forall e :: e in level && e.Overlaps(js) ==> Yields(e, js)
  }

  /** The spans of `level` that overlap `js`. */
  function Overlapping(level: seq<Span>, js: Span): (r: set<Span>)
    ensures forall e :: e in r ==> e in level
    ensures js in level ==> js in r
  {
    OverlapsSelf(js);
    set e | e in level && e.Overlaps(js)
  }

  /** The layer after offering it candidate `js`: either `js` is placed and every
      span overlapping it is evicted, or (when one of them does not give way)
      the layer is unchanged. */
  function AddToLevel(js: Span, level: seq<Span>): (r: seq<Span>)
    ensures r != []
    ensures forall e :: e in r ==> e == js || e in level
  {
    if CanPlace(js, level) then Except(level, Overlapping(level, js)) + [js] else level
  }

  /** The two outcomes of offering `js`: when every overlapping span gives way,
      `js` ends the layer, the spans not overlapping it stay and those
      overlapping it leave; otherwise nothing changes. */
  lemma AddToLevelOutcome(js: Span, level: seq<Span>)
    ensures CanPlace(js, level) ==>
      && AddToLevel(js, level)[|AddToLevel(js, level)| - 1] == js
      && (forall e :: e in level && !e.Overlaps(js) ==> e in AddToLevel(js, level))
      && (forall e :: e in level && e != js && e.Overlaps(js) ==> e !in AddToLevel(js, level))
    ensures !CanPlace(js, level) ==> AddToLevel(js, level) == level
  {
  }

  /** Placing a candidate keeps a layer free of overlaps and repeats. */
  lemma AddToLevelKeepsLevel(js: Span, level: seq<Span>)
    requires IsLevel(level)
    ensures IsLevel(AddToLevel(js, level))
  {
    if CanPlace(js, level) {
      var kept := Except(level, Overlapping(level, js));
      OverlapsSelf(js);
      assert js !in kept;
      var r := kept + [js];
      forall a, b | a in r && b in r && a != b
        ensures !a.Overlaps(b)
      {
        if a == js {
          OverlapsSymmetric(a, b);
        }
      }
    }
  }

  /** Offering an empty layer a candidate always places it. */
  lemma AddToEmptyLevel(js: Span)
    ensures AddToLevel(js, []) == [js]
  {
  }

  /** Offers each of `candidates`, in order, to `level`. */
  function FillLevel(candidates: seq<Span>, level: seq<Span>): (r: seq<Span>)
    ensures forall e :: e in r ==> e in level || e in candidates
    ensures candidates != [] || level != [] ==> r != []
    decreases |candidates|
  {
    if candidates == [] then level
    else FillLevel(candidates[1..], AddToLevel(candidates[0], level))
  }

  /** Filling keeps a layer free of overlaps and repeats. */
  lemma {:induction false} FillLevelKeepsLevel(candidates: seq<Span>, level: seq<Span>)
    requires IsLevel(level)
    ensures IsLevel(FillLevel(candidates, level))
    decreases |candidates|
  {
    if candidates != [] {
      AddToLevelKeepsLevel(candidates[0], level);
      FillLevelKeepsLevel(candidates[1..], AddToLevel(candidates[0], level));
    }
  }

  /** The graph built from the spans still to be placed: one layer filled from
      all of them, then the graph of those it did not take. */
  function Layers(remaining: seq<Span>): (graph: seq<seq<Span>>)
    ensures |graph| <= |remaining|
    decreases |remaining|
  {
    if remaining == [] then []
    else
      var level := FillLevel(remaining, []);
      assert level[0] in remaining && level[0] in Members(level);
      [level] + Layers(Except(remaining, Members(level)))
  }

  /** The first layer of the graph is filled from all the spans, and the rest
      of the graph is built from the spans it did not take. */
  lemma LayersUnfold(spans: seq<Span>)
    requires spans != []
    ensures FillLevel(spans, []) != []
    ensures forall e :: e in FillLevel(spans, []) ==> e in spans
    ensures Layers(spans) == [FillLevel(spans, [])] + Layers(Except(spans, Members(FillLevel(spans, []))))
    ensures |Except(spans, Members(FillLevel(spans, [])))| < |spans|
  {
    var level := FillLevel(spans, []);
    assert level[0] in spans && level[0] in Members(level);
  }

  /** Each layer of the graph is a non-empty layer of the given spans. */
  lemma {:induction false} LayersAreLevels(spans: seq<Span>)
    ensures Layers(spans) == [] <==> spans == []
    ensures forall g :: 0 <= g < |Layers(spans)| ==>
      Layers(spans)[g] != [] && IsLevel(Layers(spans)[g]) && forall e :: e in Layers(spans)[g] ==> e in spans
    decreases |spans|
  {
    if spans != [] {
      var level := FillLevel(spans, []);
      var rest := Except(spans, Members(level));
      LayersUnfold(spans);
      LayersAreLevels(rest);
      FillLevelKeepsLevel(spans, []);
      var graph, tail := Layers(spans), Layers(rest);
      forall g | 0 <= g < |graph|
        ensures graph[g] != [] && IsLevel(graph[g]) && forall e :: e in graph[g] ==> e in spans
      {
        if g > 0 {
          assert graph[g] == tail[g - 1];
        }
      }
    }
  }

  /** A span of the graph's first layer is in none of its later layers. */
  lemma FirstLayerNotLater(spans: seq<Span>, js: Span, h: int)
    requires spans != [] && js in FillLevel(spans, [])
    requires 1 <= h < |Layers(spans)|
    ensures js !in Layers(spans)[h]
  {
    var rest := Except(spans, Members(FillLevel(spans, [])));
    LayersUnfold(spans);
    LayersAreLevels(rest);
    assert js !in rest;
  }

  /** Every span lands in exactly one layer of the graph. */
  lemma {:induction false} LayersPartition(spans: seq<Span>)
    ensures forall js :: js in spans ==> exists g :: 0 <= g < |Layers(spans)| && js in Layers(spans)[g]
    ensures forall g, h, js :: 0 <= g < h < |Layers(spans)| && js in Layers(spans)[g] ==> js !in Layers(spans)[h]
    decreases |spans|
  {
    if spans != [] {
      var level := FillLevel(spans, []);
      var rest := Except(spans, Members(level));
      LayersUnfold(spans);
      LayersPartition(rest);
      forall js | js in spans
        ensures exists g :: 0 <= g < |Layers(spans)| && js in Layers(spans)[g]
      {
        if js in level {
          assert js in Layers(spans)[0];
        } else {
          assert js in rest;
          var g :| 0 <= g < |Layers(rest)| && js in Layers(rest)[g];
          assert js in Layers(spans)[g + 1];
        }
      }
      forall g, h, js | 0 <= g < h < |Layers(spans)| && js in Layers(spans)[g]
        ensures js !in Layers(spans)[h]
      {
        if g == 0 {
          FirstLayerNotLater(spans, js, h);
        }
      }
    }
  }

  lemma AppendAssociative<T>(a: seq<T>, b: seq<T>, c: seq<T>)
    ensures a + (b + c) == (a + b) + c
  {
  }

  /** Offers candidate `js` to `level`, as `AddJumpSetToLevel` does: scans the
      layer, collecting the overlapping spans that give way, and returns early,
      leaving the layer as it is, at the first one that does not. */
  method AddJumpSetToLevel(js: Span, level: seq<Span>) returns (newLevel: seq<Span>)
    ensures newLevel == AddToLevel(js, level)
  {
    var rejected: set<Span> := {};
    for i := 0 to |level|
      invariant rejected == Overlapping(level[..i], js)
      invariant CanPlace(js, level[..i])
    {
      var existing := level[i];
      assert level[..i + 1] == level[..i] + [existing];
      if !existing.Overlaps(js) {
        continue;
      }
      if existing.IsSupersetOf(js) || js.target in existing.sources || (js.Min() < existing.Min() && js.Max() < existing.Max()) {
        rejected := rejected + {existing};
      } else {
        assert !CanPlace(js, level);
        return level;
      }
    }
    assert level[..|level|] == level;
    newLevel := Except(level, rejected) + [js];
  }

  /** Builds the layers from the discovered spans, as `CreateGraph` does: while
      spans remain, fills a fresh layer by offering it every remaining span, then
      drops the spans that layer kept. What the result is like (at most one
      layer per span, each layer a disjoint non-empty one, every span in exactly
      one layer) is proved of `Layers` by `LayersAreLevels` and `LayersPartition`. */
  method CreateGraph(found: seq<Span>) returns (graph: seq<seq<Span>>)
    ensures graph == Layers(found)
  {
    graph := [];
    var jumpSets := found;
    while |jumpSets| > 0
      invariant graph + Layers(jumpSets) == Layers(found)
      decreases |jumpSets|
    {
      var currLevel: seq<Span> := [];
      for i := 0 to |jumpSets|
        invariant FillLevel(jumpSets[i..], currLevel) == FillLevel(jumpSets, [])
      {
        assert jumpSets[i..] == [jumpSets[i]] + jumpSets[i + 1..];
        currLevel := AddJumpSetToLevel(jumpSets[i], currLevel);
      }
      assert jumpSets[|jumpSets|..] == [];
      LayersUnfold(jumpSets);
      var rest := Except(jumpSets, Members(currLevel));
      assert Layers(jumpSets) == [currLevel] + Layers(rest);
      AppendAssociative(graph, [currLevel], Layers(rest));
      graph := graph + [currLevel];
      jumpSets := rest;
    }
  }
}
