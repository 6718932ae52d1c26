/** Worked listings: the spans, layers and row strings the graph column gets
    for a few small programs. */
module Scenarios {
  import opened Wrappers
  import opened JumpSets
  import opened Discovery
  import opened Layering
  import opened Rendering

  /** A listing of three rows: row 3 jumps back to the label on row 2, row 4
      names a label that is never defined. */
  lemma ResolvingLabels()
    ensures ResolvedTarget(["", "loop", "done"], map["loop:" := 2], 2) == None
    ensures ResolvedTarget(["", "loop", "done"], map["loop:" := 2], 3) == Some(2)
    ensures ResolvedTarget(["", "loop", "done"], map["loop:" := 2], 4) == None
  {
    assert "loop" + ":" == "loop:";
    assert "done" + ":" == "done:";
  }

  /** A listing without jumps has no layers, and each row is one blank. */
  lemma NoJumps(row: int)
    ensures Layers([]) == []
    ensures RenderRow(row, []) == [Nbsp]
  {
  }

  /** One forward jump from row 5 to row 10. */
  lemma SingleJump()
    ensures var e: Span := JumpSpan(10, {5});
      && Layers([e]) == [[e]]
      && RenderRow(5, [[e]]) == [Nbsp, TopCorner, Horizontal]
      && RenderRow(7, [[e]]) == [Nbsp, Vertical, Nbsp]
      && RenderRow(10, [[e]]) == [Nbsp, BottomCorner, Arrow]
      && RenderRow(20, [[e]]) == [Nbsp, Nbsp, Nbsp]
  {
    var e: Span := JumpSpan(10, {5});
    assert e.Min() == 5 && e.Max() == 10;
    assert FillLevel([e], []) == [e] by {
      assert AddToLevel(e, []) == [e];
    }
    assert Except([e], Members([e])) == [];
  }

  /** A row that jumps to itself is both the first and last row of its span. */
  lemma SelfLoop()
    ensures var e: Span := JumpSpan(9, {9});
      RenderRow(9, [[e]]) == [Nbsp, TopCorner, Arrow]
  {
    var e: Span := JumpSpan(9, {9});
    assert e.Min() == 9 && e.Contains(9);
    assert HitsTarget(9, [e]);
    assert Glyph(9, [e], false) == TopCorner;
    assert LayerCells(9, [e], 0, false) == [Nbsp, TopCorner];
    assert Cells(9, [[e]], 0, false, true) == [Arrow];
  }

  /** Two spans whose intervals do not meet share the first layer. */
  lemma DisjointShareLayer()
    ensures var a: Span, b: Span := JumpSpan(7, {3}), JumpSpan(15, {12});
      Layers([a, b]) == [[a, b]]
  {
    var a: Span, b: Span := JumpSpan(7, {3}), JumpSpan(15, {12});
    assert a.Max() == 7 && b.Min() == 12;
    assert !a.Overlaps(b);
    assert AddToLevel(a, []) == [a];
    assert Overlapping([a], b) == {};
    assert Except([a], {}) == [a];
    assert AddToLevel(b, [a]) == [a, b];
    assert [a, b][1..] == [b];
    assert FillLevel([b], [a]) == [a, b];
    assert FillLevel([a, b], []) == [a, b];
    assert Except([a, b], Members([a, b])) == [];
  }

  /** A span nested inside another takes the first layer and pushes the outer
      one out to the second. */
  lemma NestedLayers()
    ensures var outer: Span, inner: Span := JumpSpan(20, {2}), JumpSpan(8, {5});
      Layers([outer, inner]) == [[inner], [outer]]
  {
    var outer: Span, inner: Span := JumpSpan(20, {2}), JumpSpan(8, {5});
    assert outer.Min() == 2 && outer.Max() == 20;
    assert inner.Min() == 5 && inner.Max() == 8;
    assert AddToLevel(outer, []) == [outer];
    assert Overlapping([outer], inner) == {outer};
    assert Except([outer], {outer}) == [];
    assert AddToLevel(inner, [outer]) == [inner];
    assert [outer, inner][1..] == [inner];
    assert FillLevel([inner], [outer]) == [inner];
    assert FillLevel([outer, inner], []) == [inner];
    assert Except([outer, inner], Members([inner])) == [outer];
    assert FillLevel([outer], []) == [outer];
    assert Except([outer], Members([outer])) == [];
    assert Layers([outer]) == [[outer]];
  }

  /** In those layers the outer span's bar passes the inner span's ends. */
  lemma NestedInnerEnds()
    ensures var outer: Span, inner: Span := JumpSpan(20, {2}), JumpSpan(8, {5});
      && RenderRow(5, [[inner], [outer]]) == [Nbsp, Vertical, Nbsp, TopCorner, Horizontal]
      && RenderRow(8, [[inner], [outer]]) == [Nbsp, Vertical, Nbsp, BottomCorner, Arrow]
  {
    var outer: Span, inner: Span := JumpSpan(20, {2}), JumpSpan(8, {5});
    assert outer.Min() == 2 && outer.Max() == 20;
    assert inner.Min() == 5 && inner.Max() == 8;
  }

  /** Once a row meets a span the fillers after it are lines; a row the outer
      span only passes shows its bar and blanks. */
  lemma NestedOuterRows()
    ensures var outer: Span, inner: Span := JumpSpan(20, {2}), JumpSpan(8, {5});
      && RenderRow(2, [[inner], [outer]]) == [Nbsp, TopCorner, Horizontal, Horizontal, Horizontal]
      && RenderRow(3, [[inner], [outer]]) == [Nbsp, Vertical, Nbsp, Nbsp, Nbsp]
  {
    var outer: Span, inner: Span := JumpSpan(20, {2}), JumpSpan(8, {5});
    assert outer.Min() == 2 && outer.Max() == 20;
    assert inner.Min() == 5 && inner.Max() == 8;
  }

  /** The eviction rule is not symmetric: a candidate that starts and ends
      before a placed span evicts it, but not the other way round. */
  lemma EvictionOrder()
    ensures var early: Span, late: Span := JumpSpan(10, {5}), JumpSpan(12, {8});
      && AddToLevel(early, [late]) == [early]
      && AddToLevel(late, [early]) == [early]
  {
    var early: Span, late: Span := JumpSpan(10, {5}), JumpSpan(12, {8});
    assert early.Min() == 5 && early.Max() == 10;
    assert late.Min() == 8 && late.Max() == 12;
    assert late.Overlaps(early) && Yields(late, early);
    assert Overlapping([late], early) == {late};
    assert Except([late], {late}) == [];
    assert early.Overlaps(late) && !Yields(early, late);
    assert !CanPlace(late, [early]);
  }

  /** A placed span with a source on the candidate's target row gives way even
      when it neither encloses the candidate nor lies after it. */
  lemma EvictionAtSourceRow()
    ensures var placed: Span, candidate: Span := JumpSpan(2, {6}), JumpSpan(6, {9});
      && !placed.IsSupersetOf(candidate)
      && !(candidate.Min() < placed.Min() && candidate.Max() < placed.Max())
      && AddToLevel(candidate, [placed]) == [candidate]
  {
    var placed: Span, candidate: Span := JumpSpan(2, {6}), JumpSpan(6, {9});
    assert placed.Min() == 2 && placed.Max() == 6;
    assert candidate.Min() == 6 && candidate.Max() == 9;
    assert Overlapping([placed], candidate) == {placed};
    assert Except([placed], {placed}) == [];
  }
}
