/** The jump span of one target row: the target and every row that jumps to it.
    Its covered interval [Min(), Max()] is derived from those rows. */
module JumpSets {

  /** Some row of a non-empty set. */
  ghost function PickRow(s: set<int>): (x: int)
    requires s != {}
    ensures x in s
  {
    assert (forall y :: y !in s) ==> s == {};
    var x :| x in s; x
  }

  /** A finite, non-empty set of rows has a least element. */
  lemma {:induction false} HasLeast(s: set<int>)
    requires s != {}
    ensures exists m :: m in s && forall y :: y in s ==> m <= y
  {
    var x := PickRow(s);
    if s != {x} {
      HasLeast(s - {x});
      var m :| m in s - {x} && forall y :: y in s - {x} ==> m <= y;
      assert forall y :: y in s ==> y == x || y in s - {x};
      if x < m {
        assert forall y :: y in s ==> x <= y;
      } else {
        assert forall y :: y in s ==> m <= y;
      }
    }
  }

  /** A finite, non-empty set of rows has a greatest element. */
  lemma {:induction false} HasGreatest(s: set<int>)
    requires s != {}
    ensures exists m :: m in s && forall y :: y in s ==> y <= m
  {
    var x := PickRow(s);
    if s != {x} {
      HasGreatest(s - {x});
      var m :| m in s - {x} && forall y :: y in s - {x} ==> y <= m;
      assert forall y :: y in s ==> y == x || y in s - {x};
      if m < x {
        assert forall y :: y in s ==> y <= x;
      } else {
        assert forall y :: y in s ==> y <= m;
      }
    }
  }

  /** The least row of a non-empty set (what `Sources.Min()` returns). */
  function SetMin(s: set<int>): (m: int)
    requires s != {}
    ensures m in s && forall y :: y in s ==> m <= y
  {
    HasLeast(s);
    var m :| m in s && forall y :: y in s ==> m <= y;
    m
  }

  /** The greatest row of a non-empty set (what `Sources.Max()` returns). */
  function SetMax(s: set<int>): (m: int)
    requires s != {}
    ensures m in s && forall y :: y in s ==> y <= m
  {
    HasGreatest(s);
    var m :| m in s && forall y :: y in s ==> y <= m;
    m
  }

  /** The value of a jump span: its target row and the rows jumping to it. */
  datatype JumpSpan = JumpSpan(target: int, sources: set<int>) {

    /** The first row of the span: the least of the target and the sources. */
    function Min(): (m: int)
      requires sources != {}
      ensures m <= target && forall s :: s in sources ==> m <= s
      ensures m == target || m in sources
    {
      var lo := SetMin(sources);
      if target <= lo then target else lo
    }

    /** The last row of the span: the greatest of the target and the sources. */
    function Max(): (m: int)
      requires sources != {}
      ensures target <= m && forall s :: s in sources ==> s <= m
      ensures m == target || m in sources
    {
      var hi := SetMax(sources);
      if hi <= target then target else hi
    }

    /** This span's interval encloses `o`'s, so it holds `o`'s target and
        every one of `o`'s sources. */
    predicate IsSupersetOf(o: JumpSpan)
      requires sources != {} && o.sources != {}
      ensures IsSupersetOf(o) ==> Contains(o.target) && forall s :: s in o.sources ==> Contains(s)
    {
      Min() <= o.Min() && Max() >= o.Max()
    }

    /** The two intervals share at least one row: one of them starts inside
        the other. */
    predicate Overlaps(o: JumpSpan)
      requires sources != {} && o.sources != {}
      ensures Overlaps(o) <==> Contains(o.Min()) || o.Contains(Min())
    {
      Max() >= o.Min() && Min() <= o.Max()
    }

    /** `row` lies inside the interval, as the target and every source do. */
    predicate Contains(row: int)
      requires sources != {}
      ensures row == target || row in sources ==> Contains(row)
    {
      row >= Min() && row <= Max()
    }
  }

  /** A span that has at least one source, the only kind discovery produces and
      the only kind whose `Min` and `Max` are defined. */
  type Span = s: JumpSpan | s.sources != {} witness JumpSpan(0, {0})

  /** The mutable span built during discovery: `AddSource` grows `Sources` in place. */
  class JumpSet {
    var Target: int
    var Sources: set<int>

    /** At least one source has been added, so `Min` and `Max`, which call
        `Sources.Min()` / `Sources.Max()`, are defined. */
    predicate HasSources()
      reads this
    {
      Sources != {}
    }

    constructor (target: int)
      ensures Target == target && Sources == {}
    {
      Target := target;
      Sources := {};
    }

    /** The span this object currently describes. */
    function Value(): (s: Span)
      reads this
      requires HasSources()
      ensures s.target == Target && s.sources == Sources
    {
      JumpSpan(Target, Sources)
    }

    /** Records one more row that jumps to `Target`: the interval widens just
        enough to take the new row in. */
    method AddSource(source: int)
      modifies this
      ensures Target == old(Target)
      ensures Sources == old(Sources) + {source}
      ensures HasSources() && Value().Contains(source)
      ensures old(HasSources()) ==>
        Value().Min() == (if source < old(Value().Min()) then source else old(Value().Min()))
      ensures old(HasSources()) ==>
        Value().Max() == (if old(Value().Max()) < source then source else old(Value().Max()))
      ensures !old(HasSources()) ==> Value().Min() == (if source < Target then source else Target)
      ensures !old(HasSources()) ==> Value().Max() == (if Target < source then source else Target)
    {
      Sources := Sources + {source};
    }
  }

  /** Every row that defines the span lies within its interval. */
  lemma ContainsTargetAndSources(js: Span)
    ensures js.Min() <= js.target <= js.Max()
    ensures js.Contains(js.target)
    ensures forall s :: s in js.sources ==> js.Contains(s)
  {
  }

  /** `Contains` holds exactly on the rows between `Min()` and `Max()`. */
  lemma ContainsIsInterval(js: Span, row: int)
    ensures js.Contains(row) <==> js.Min() <= row <= js.Max()
  {
  }

  lemma OverlapsSymmetric(a: Span, b: Span)
    ensures a.Overlaps(b) <==> b.Overlaps(a)
  {
  }

  lemma OverlapsSelf(a: Span)
    ensures a.Overlaps(a)
  {
  }

  /** Two spans overlap exactly when some row lies in both. */
  lemma OverlapsIffCommonRow(a: Span, b: Span)
    ensures a.Overlaps(b) <==> exists row :: a.Contains(row) && b.Contains(row)
  {
    if a.Overlaps(b) {
      var row := if a.Min() <= b.Min() then b.Min() else a.Min();
      assert a.Contains(row) && b.Contains(row);
    }
  }

  lemma SupersetReflexive(a: Span)
    ensures a.IsSupersetOf(a)
  {
  }

  lemma SupersetTransitive(a: Span, b: Span, c: Span)
    requires a.IsSupersetOf(b) && b.IsSupersetOf(c)
    ensures a.IsSupersetOf(c)
  {
  }

  /** A superset contains every row of the span it encloses, and so overlaps it. */
  lemma SupersetContainsRows(a: Span, b: Span)
    requires a.IsSupersetOf(b)
    ensures forall row :: b.Contains(row) ==> a.Contains(row)
    ensures a.Overlaps(b) && b.Overlaps(a)
  {
  }
}
