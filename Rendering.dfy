/** The glyph string of one listing row, as the row loop of `Annotator.DrawGraph`
    builds it: for each layer from the outermost (last) to the innermost (first),
    an optional leading character and a connector, then one trailing character.
    Colours are left to `GraphColor`; the string is what the cell shows. */
module Rendering {
  import opened Wrappers
  import opened JumpSets
  import opened Layering

  const Nbsp: char := '\U{00A0}'
  const Horizontal: char := '─'
  const Vertical: char := '│'
  const TopCorner: char := '┌'
  const BottomCorner: char := '└'
  const Tee: char := '├'
  const Arrow: char := '>'

  /** No span of `level` before index `i` holds `row`. */
  predicate FirstAt(row: int, level: seq<Span>, i: int)
    requires 0 <= i <= |level|
  {
    forall j :: 0 <= j < i ==> !level[j].Contains(row)
  }

  /** The first span of the layer whose interval holds `row` (`FirstOrDefault`). */
  function FirstContaining(row: int, level: seq<Span>): (r: Option<Span>)
    ensures r.Some? ==> r.value in level && r.value.Contains(row)
    ensures r.None? ==> forall js :: js in level ==> !js.Contains(row)
    ensures r.Some? ==> exists i :: 0 <= i < |level| && level[i] == r.value && FirstAt(row, level, i)
  {
    if level == [] then None
    else if level[0].Contains(row) then Some(level[0])
    else
      var r := FirstContaining(row, level[1..]);
      assert r.Some? ==> exists i :: 0 <= i < |level| && level[i] == r.value && FirstAt(row, level, i) by {
        if r.Some? {
          var i :| 0 <= i < |level[1..]| && level[1..][i] == r.value && FirstAt(row, level[1..], i);
          assert level[i + 1] == r.value;
          forall j | 0 <= j < i + 1 ensures !level[j].Contains(row) {
            if j > 0 { assert level[j] == level[1..][j - 1]; }
          }
          assert FirstAt(row, level, i + 1);
        }
      }
      r
  }

  /** In a layer without overlaps the span holding `row`, if any, is the only
      one, so the scan finds exactly it. */
  lemma ContainingIsUnique(row: int, level: seq<Span>, js: Span)
    requires IsLevel(level)
    requires js in level && js.Contains(row)
    ensures FirstContaining(row, level) == Some(js)
  {
    var r := FirstContaining(row, level);
    if r.value != js {
      OverlapsIffCommonRow(r.value, js);
      assert false;
    }
  }

  /** The filler for a column with no connector: a line once the row has met a
      target or a source in an outer layer, blank before that. */
  function Fill(latched: bool): (c: char)
    ensures c == Nbsp <==> !latched
    ensures c == Nbsp || c == Horizontal
  {
    if latched then Horizontal else Nbsp
  }

  /** The connector of span `js` at `row`, the first matching case winning: a
      mark exactly on the rows that define the span, a bar on the others. */
  function Connector(row: int, js: Span): (c: char)
    ensures c == TopCorner <==> row == js.Min()
    ensures c != Vertical <==> row == js.target || row in js.sources
    ensures c in {TopCorner, BottomCorner, Tee, Vertical}
  {
    if row == js.Min() then TopCorner
    else if row == js.Max() then BottomCorner
    else if row == js.target || row in js.sources then Tee
    else Vertical
  }

  /** The last character: an arrow on a row that is a jump target, a line on
      a row that only jumps, blank otherwise. */
  function Trailing(isIn: bool, isOut: bool): (c: char)
    ensures c == Arrow <==> isOut
    ensures c == Horizontal <==> isIn && !isOut
    ensures c == Nbsp <==> !isIn && !isOut
  {
    if isOut then Arrow else if isIn then Horizontal else Nbsp
  }

  /** The connector of the span of `level` holding `row`, or the filler when
      none does. */
  function Glyph(row: int, level: seq<Span>, latched: bool): (c: char)
    ensures c == Nbsp ==> !latched
    ensures FirstContaining(row, level).None? ==> c == Fill(latched)
    ensures FirstContaining(row, level).Some? ==> c in {TopCorner, BottomCorner, Tee, Vertical}
  {
    match FirstContaining(row, level)
    case None => Fill(latched)
    case Some(js) => Connector(row, js)
  }

  /** The span found for `row` in `level` has `row` as its target (sets `isOut`). */
  predicate HitsTarget(row: int, level: seq<Span>)
    ensures HitsTarget(row, level) ==> exists js :: js in level && js.target == row
  {
    match FirstContaining(row, level)
    case Some(js) => js.target == row
    case None => false
  }

  /** The span found for `row` in `level` has `row` as a source but not as its
      target (sets `isIn`). */
  predicate HitsSource(row: int, level: seq<Span>)
    ensures HitsSource(row, level) ==> exists js :: js in level && js.target != row && row in js.sources
    ensures HitsSource(row, level) ==> !HitsTarget(row, level)
  {
    match FirstContaining(row, level)
    case Some(js) => js.target != row && row in js.sources
    case None => false
  }

  /** The characters layer `g` adds: a leading filler when it is one of the
      six innermost layers, then its connector or filler. */
  function LayerCells(row: int, level: seq<Span>, g: int, latched: bool): (r: string)
    ensures |r| == if g <= 5 then 2 else 1
    ensures r[|r| - 1] == Glyph(row, level, latched)
  {
    (if g <= 5 then [Fill(latched)] else []) + [Glyph(row, level, latched)]
  }

  /** The characters for layers `n - 1` down to `0`, then the trailing one,
      given the latches as they stand before layer `n - 1`. */
  function Cells(row: int, graph: seq<seq<Span>>, n: nat, isIn: bool, isOut: bool): (r: string)
    requires n <= |graph|
    ensures |r| > n
    decreases n
  {
    if n == 0 then [Trailing(isIn, isOut)]
    else
      var level := graph[n - 1];
      LayerCells(row, level, n - 1, isIn || isOut) +
      Cells(row, graph, n - 1, isIn || HitsSource(row, level), isOut || HitsTarget(row, level))
  }

  lemma CellsStep(row: int, graph: seq<seq<Span>>, n: nat, isIn: bool, isOut: bool)
    requires 0 < n <= |graph|
    ensures Cells(row, graph, n, isIn, isOut) ==
      LayerCells(row, graph[n - 1], n - 1, isIn || isOut) +
      Cells(row, graph, n - 1, isIn || HitsSource(row, graph[n - 1]), isOut || HitsTarget(row, graph[n - 1]))
  {
  }

  /** The glyph string of listing row `row`. */
  function RenderRow(row: int, graph: seq<seq<Span>>): (r: string)
    ensures |r| > |graph|
  {
    Cells(row, graph, |graph|, false, false)
  }

  function MinInt(a: int, b: int): int {
    if a <= b then a else b
  }

  lemma {:induction false} CellsLength(row: int, graph: seq<seq<Span>>, n: nat, isIn: bool, isOut: bool)
    requires n <= |graph|
    ensures |Cells(row, graph, n, isIn, isOut)| == n + MinInt(n, 6) + 1
    decreases n
  {
    if n > 0 {
      var level := graph[n - 1];
      CellsLength(row, graph, n - 1, isIn || HitsSource(row, level), isOut || HitsTarget(row, level));
    }
  }

  /** One connector per layer, a leading character for each of the six innermost
      layers only, and one trailing character. */
  lemma RowLength(row: int, graph: seq<seq<Span>>)
    ensures |RenderRow(row, graph)| == |graph| + MinInt(|graph|, 6) + 1
  {
    CellsLength(row, graph, |graph|, false, false);
  }

  /** Some layer below `n` finds for `row` a span whose target it is. */
  predicate TargetBelow(row: int, graph: seq<seq<Span>>, n: nat)
    requires n <= |graph|
  {
    n > 0 && (HitsTarget(row, graph[n - 1]) || TargetBelow(row, graph, n - 1))
  }

  /** Some layer below `n` finds for `row` a span it is a source of, not the target. */
  predicate SourceBelow(row: int, graph: seq<seq<Span>>, n: nat)
    requires n <= |graph|
  {
    n > 0 && (HitsSource(row, graph[n - 1]) || SourceBelow(row, graph, n - 1))
  }

  lemma {:induction false} TargetBelowMeaning(row: int, graph: seq<seq<Span>>, n: nat)
    requires n <= |graph|
    ensures TargetBelow(row, graph, n) <==> exists g :: 0 <= g < n && HitsTarget(row, graph[g])
  {
    if n > 0 {
      TargetBelowMeaning(row, graph, n - 1);
    }
  }

  lemma {:induction false} SourceBelowMeaning(row: int, graph: seq<seq<Span>>, n: nat)
    requires n <= |graph|
    ensures SourceBelow(row, graph, n) <==> exists g :: 0 <= g < n && HitsSource(row, graph[g])
  {
    if n > 0 {
      SourceBelowMeaning(row, graph, n - 1);
    }
  }

  /** The latches only ever get set, so the trailing character reflects every
      layer scanned: each target hit sets `isOut`, each source hit sets `isIn`. */
  lemma {:induction false} CellsTrailing(row: int, graph: seq<seq<Span>>, n: nat, isIn: bool, isOut: bool)
    requires n <= |graph|
    ensures Cells(row, graph, n, isIn, isOut) != []
    ensures Last(Cells(row, graph, n, isIn, isOut)) ==
      Trailing(isIn || SourceBelow(row, graph, n), isOut || TargetBelow(row, graph, n))
    decreases n
  {
    if n > 0 {
      var level := graph[n - 1];
      var isIn', isOut' := isIn || HitsSource(row, level), isOut || HitsTarget(row, level);
      CellsTrailing(row, graph, n - 1, isIn', isOut');
      LastOfAppend(LayerCells(row, level, n - 1, isIn || isOut), Cells(row, graph, n - 1, isIn', isOut'));
    }
  }

  function Last(s: string): char
    requires s != []
  {
    s[|s| - 1]
  }

  lemma LastOfAppend(a: string, b: string)
    requires b != []
    ensures Last(a + b) == Last(b)
  {
  }

  /** The trailing character is an arrow exactly when some layer's span has
      `row` as its target; otherwise a line exactly when some layer's span has
      it as a source; otherwise blank. */
  lemma RowTrailing(row: int, graph: seq<seq<Span>>)
    ensures RenderRow(row, graph) != []
    ensures Last(RenderRow(row, graph)) == Arrow <==> TargetBelow(row, graph, |graph|)
    ensures Last(RenderRow(row, graph)) == Horizontal <==>
      !TargetBelow(row, graph, |graph|) && SourceBelow(row, graph, |graph|)
    ensures Last(RenderRow(row, graph)) == Nbsp <==>
      !TargetBelow(row, graph, |graph|) && !SourceBelow(row, graph, |graph|)
  {
    CellsTrailing(row, graph, |graph|, false, false);
  }

  /** Which connector a span draws: a top corner at its first row, a bottom
      corner at its last, a tee at any other row that is its target or one of
      its sources, and a bar at the rows it only passes. */
  lemma ConnectorShape(row: int, js: Span)
    requires js.Contains(row)
    ensures Connector(row, js) == TopCorner <==> row == js.Min()
    ensures Connector(row, js) == BottomCorner <==> row == js.Max() && row != js.Min()
    ensures Connector(row, js) == Tee <==>
      js.Min() < row < js.Max() && (row == js.target || row in js.sources)
    ensures Connector(row, js) == Vertical <==> row != js.target && row !in js.sources
  {
  }

  /** Once a latch is set every further character is drawn: no blank follows
      a row's first target or source. */
  lemma {:induction false} LatchedCellsHaveNoBlank(row: int, graph: seq<seq<Span>>, n: nat, isIn: bool, isOut: bool)
    requires n <= |graph|
    requires isIn || isOut
    ensures Nbsp !in Cells(row, graph, n, isIn, isOut)
    decreases n
  {
    if n > 0 {
      var level := graph[n - 1];
      LatchedCellsHaveNoBlank(row, graph, n - 1, isIn || HitsSource(row, level), isOut || HitsTarget(row, level));
    }
  }

  /** A character the graph column draws before the trailing one. */
  predicate IsGraphChar(c: char) {
    c == Nbsp || c == Horizontal || c == Vertical || c == TopCorner || c == BottomCorner || c == Tee
  }

  /** All but the last character of `s`. */
  function Init(s: string): string
    requires s != []
  {
    s[..|s| - 1]
  }

  lemma InitOfAppend(a: string, b: string)
    requires b != []
    ensures Init(a + b) == a + Init(b)
  {
    assert (a + b)[..|a + b| - 1] == a + b[..|b| - 1];
  }

  /** Every character before the trailing one is a filler or a connector, so
      an arrow can only end the string. */
  lemma {:induction false} CellsAlphabet(row: int, graph: seq<seq<Span>>, n: nat, isIn: bool, isOut: bool)
    requires n <= |graph|
    ensures Cells(row, graph, n, isIn, isOut) != []
    ensures forall c :: c in Init(Cells(row, graph, n, isIn, isOut)) ==> IsGraphChar(c)
    decreases n
  {
    if n > 0 {
      var level := graph[n - 1];
      var isIn', isOut' := isIn || HitsSource(row, level), isOut || HitsTarget(row, level);
      CellsAlphabet(row, graph, n - 1, isIn', isOut');
      var head, rest := LayerCells(row, level, n - 1, isIn || isOut), Cells(row, graph, n - 1, isIn', isOut');
      assert forall c :: c in head ==> IsGraphChar(c);
      InitOfAppend(head, rest);
    }
  }

  /** The characters of a row: fillers and connectors, one trailing arrow,
      line or blank, and never an arrow before the end. */
  lemma RowAlphabet(row: int, graph: seq<seq<Span>>)
    ensures RenderRow(row, graph) != []
    ensures forall c :: c in Init(RenderRow(row, graph)) ==> IsGraphChar(c) && c != Arrow
    ensures Last(RenderRow(row, graph)) in {Arrow, Horizontal, Nbsp}
  {
    CellsAlphabet(row, graph, |graph|, false, false);
    CellsTrailing(row, graph, |graph|, false, false);
  }

  /** A character drawn for a target or a source, or after one. */
  predicate IsMark(c: char) {
    c == Horizontal || c == TopCorner || c == BottomCorner || c == Tee
  }

  /** A layer whose connector is a mark sets one of the latches. */
  lemma MarkLatches(row: int, level: seq<Span>, latched: bool)
    requires !latched && IsMark(Glyph(row, level, latched))
    ensures HitsSource(row, level) || HitsTarget(row, level)
  {
    match FirstContaining(row, level)
    case Some(js) => ConnectorShape(row, js);
  }

  /** No blank of `s` comes after a mark. */
  predicate BlanksFirst(s: string) {
    forall i, j :: 0 <= i < j < |s| && IsMark(s[i]) ==> s[j] != Nbsp
  }

  lemma BlanksFirstAppend(a: string, b: string)
    requires BlanksFirst(a) && BlanksFirst(b)
    requires (forall c :: c in a ==> !IsMark(c)) || Nbsp !in b
    ensures BlanksFirst(a + b)
  {
    var r := a + b;
    forall i, j | 0 <= i < j < |r| && IsMark(r[i])
      ensures r[j] != Nbsp
    {
      if i >= |a| {
        assert r[i] == b[i - |a|] && r[j] == b[j - |a|];
      } else {
        assert r[i] in a;
        if j >= |a| {
          assert r[j] in b;
        }
      }
    }
  }

  /** One layer's characters: a line leads only a drawn connector, and when
      nothing is latched the only possible mark is the connector. */
  lemma LayerBlanksFirst(row: int, level: seq<Span>, g: int, latched: bool)
    ensures BlanksFirst(LayerCells(row, level, g, latched))
    ensures !latched && (exists c :: c in LayerCells(row, level, g, latched) && IsMark(c)) ==>
      HitsSource(row, level) || HitsTarget(row, level)
  {
    var r := LayerCells(row, level, g, latched);
    if !latched && exists c :: c in r && IsMark(c) {
      assert IsMark(Glyph(row, level, latched));
      MarkLatches(row, level, latched);
    }
  }

  /** Blanks come only before the row's first mark: a target or source met in
      an outer layer turns every later filler into a line. */
  lemma {:induction false} CellsBlanksFirst(row: int, graph: seq<seq<Span>>, n: nat, isIn: bool, isOut: bool)
    requires n <= |graph|
    ensures BlanksFirst(Cells(row, graph, n, isIn, isOut))
    decreases n
  {
    if n > 0 {
      var level := graph[n - 1];
      var latched := isIn || isOut;
      var isIn', isOut' := isIn || HitsSource(row, level), isOut || HitsTarget(row, level);
      CellsBlanksFirst(row, graph, n - 1, isIn', isOut');
      LayerBlanksFirst(row, level, n - 1, latched);
      if isIn' || isOut' {
        LatchedCellsHaveNoBlank(row, graph, n - 1, isIn', isOut');
      }
      BlanksFirstAppend(LayerCells(row, level, n - 1, latched), Cells(row, graph, n - 1, isIn', isOut'));
    }
  }

  /** In a drawn row no blank follows a mark. */
  lemma RowBlanksFirst(row: int, graph: seq<seq<Span>>)
    ensures BlanksFirst(RenderRow(row, graph))
  {
    CellsBlanksFirst(row, graph, |graph|, false, false);
  }

  /** Draws the glyph string of row `row`, as the row loop of `DrawGraph`
      does: layers from the outermost in, a leading character for the six
      innermost, the connector of the span holding the row or a filler, the
      target and source latches, then the trailing character. */
  method DrawRow(row: int, graph: seq<seq<Span>>) returns (text: string)
    ensures text == RenderRow(row, graph)
  {
    text := "";
    var isIn, isOut := false, false;
    var g := |graph| - 1;
    while g >= 0
      invariant -1 <= g < |graph|
      invariant text + Cells(row, graph, g + 1, isIn, isOut) == RenderRow(row, graph)
      decreases g + 1
    {
      ghost var level, isIn0, isOut0 := graph[g], isIn, isOut;
      var found := FirstContaining(row, graph[g]);
      var head: string := [];
      if g <= 5 {
        head := if isOut || isIn then [Horizontal] else [Nbsp];
      }
      assert head == (if g <= 5 then [Fill(isIn0 || isOut0)] else []);
      match found {
        case None =>
          head := head + (if isOut || isIn then [Horizontal] else [Nbsp]);
        case Some(js) =>
          if row == js.Min() {
            head := head + [TopCorner];
          } else if row == js.Max() {
            head := head + [BottomCorner];
          } else if row == js.target || row in js.sources {
            head := head + [Tee];
          } else {
            head := head + [Vertical];
          }
          if row == js.target {
            isOut := true;
          } else if row in js.sources {
            isIn := true;
          }
      }
      assert head == LayerCells(row, level, g, isIn0 || isOut0);
      assert isIn == (isIn0 || HitsSource(row, level)) && isOut == (isOut0 || HitsTarget(row, level));
      ghost var rest := Cells(row, graph, g, isIn, isOut);
      CellsStep(row, graph, g + 1, isIn0, isOut0);
      assert Cells(row, graph, g + 1, isIn0, isOut0) == head + rest;
      AppendAssociative(text, head, rest);
      text := text + head;
      g := g - 1;
    }
    if isOut {
      text := text + [Arrow];
    } else if isIn {
      text := text + [Horizontal];
    } else {
      text := text + [Nbsp];
    }
  }

  /** The colour of layer `g`'s connectors. */
  datatype Color = Red | Blue | Green | Orange | Magenta | DarkCyan | Gray

  function GraphColor(g: int): (c: Color)
    ensures c == Gray <==> !(0 <= g <= 5)
  {
    if g == 0 then Red
    else if g == 1 then Blue
    else if g == 2 then Green
    else if g == 3 then Orange
    else if g == 4 then Magenta
    else if g == 5 then DarkCyan
    else Gray
  }

  /** The six innermost layers get six different colours. */
  lemma GraphColorsDistinct(g: int, h: int)
    requires 0 <= g <= 5 && 0 <= h <= 5 && g != h
    ensures GraphColor(g) != GraphColor(h)
  {
  }
}
