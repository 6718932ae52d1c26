/** Span discovery: grouping the listing's resolved jumps by target row, as
    `Annotator.FindJumpSets` does. */
module Discovery {
  import opened Wrappers
  import opened JumpSets

  /** The row that listing row `row` jumps to, if any. `jumpLabels[row - 2]` is
      the label named by the instruction on `row` ("" when it names none), and
      `labelRows` maps each defined label, colon included, to the row defining it. */
  function ResolvedTarget(jumpLabels: seq<string>, labelRows: map<string, int>, row: int): (r: Option<int>)
    requires 2 <= row < |jumpLabels| + 2
    ensures r.None? <==> jumpLabels[row - 2] == "" || jumpLabels[row - 2] + ":" !in labelRows
    ensures r.Some? ==> r.value in labelRows.Values
  {
    var name := jumpLabels[row - 2];
    if name == "" then None
    else if name + ":" in labelRows then Some(labelRows[name + ":"])
    else None
  }

  /** The rows before `upTo` whose jump resolves to `target`. */
  ghost function SourcesBelow(jumpLabels: seq<string>, labelRows: map<string, int>, target: int, upTo: int): set<int>
    requires upTo <= |jumpLabels| + 2
    decreases upTo
  {
    if upTo <= 2 then {} else
      var earlier := SourcesBelow(jumpLabels, labelRows, target, upTo - 1);
      if ResolvedTarget(jumpLabels, labelRows, upTo - 1) == Some(target) then earlier + {upTo - 1} else earlier
  }

  /** The target rows that some row before `upTo` resolves to. */
  ghost function TargetsBelow(jumpLabels: seq<string>, labelRows: map<string, int>, upTo: int): set<int>
    requires upTo <= |jumpLabels| + 2
    decreases upTo
  {
    if upTo <= 2 then {} else
      var earlier := TargetsBelow(jumpLabels, labelRows, upTo - 1);
      match ResolvedTarget(jumpLabels, labelRows, upTo - 1)
      case None => earlier
      case Some(t) => earlier + {t}
  }

  /** The sources of `target` are exactly the scanned rows whose jump resolves to it. */
  lemma {:induction false} SourcesBelowMeaning(jumpLabels: seq<string>, labelRows: map<string, int>, target: int, upTo: int)
    requires upTo <= |jumpLabels| + 2
    ensures forall row :: row in SourcesBelow(jumpLabels, labelRows, target, upTo) <==>
      2 <= row < upTo && ResolvedTarget(jumpLabels, labelRows, row) == Some(target)
  {
    if upTo > 2 {
      SourcesBelowMeaning(jumpLabels, labelRows, target, upTo - 1);
    }
  }

  /** The targets are exactly the rows that some scanned row resolves to. */
  lemma {:induction false} TargetsBelowMeaning(jumpLabels: seq<string>, labelRows: map<string, int>, upTo: int)
    requires upTo <= |jumpLabels| + 2
    ensures forall t :: t in TargetsBelow(jumpLabels, labelRows, upTo) <==>
      exists row :: 2 <= row < upTo && ResolvedTarget(jumpLabels, labelRows, row) == Some(t)
  {
    if upTo > 2 {
      TargetsBelowMeaning(jumpLabels, labelRows, upTo - 1);
      var last := ResolvedTarget(jumpLabels, labelRows, upTo - 1);
      forall t | t in TargetsBelow(jumpLabels, labelRows, upTo)
        ensures exists row :: 2 <= row < upTo && ResolvedTarget(jumpLabels, labelRows, row) == Some(t)
      {
        if t !in TargetsBelow(jumpLabels, labelRows, upTo - 1) {
          assert ResolvedTarget(jumpLabels, labelRows, upTo - 1) == Some(t);
        }
      }
    }
  }

  /** A target has sources before `upTo` exactly when it is one of the targets found there. */
  lemma {:induction false} SourcesBelowEmpty(jumpLabels: seq<string>, labelRows: map<string, int>, target: int, upTo: int)
    requires upTo <= |jumpLabels| + 2
    ensures SourcesBelow(jumpLabels, labelRows, target, upTo) == {} <==> target !in TargetsBelow(jumpLabels, labelRows, upTo)
  {
    if upTo > 2 {
      SourcesBelowEmpty(jumpLabels, labelRows, target, upTo - 1);
    }
  }

  /** The state of the row scan before row `upTo`: `byTarget` indexes `jumpSets`
      by target row, and each span holds exactly the rows so far jumping to it. */
  ghost predicate Scanned(jumpLabels: seq<string>, labelRows: map<string, int>,
                          byTarget: map<int, JumpSet>, jumpSets: seq<JumpSet>, upTo: int)
    requires 2 <= upTo <= |jumpLabels| + 2
    reads jumpSets
  {
    && (forall js :: js in jumpSets ==> js.HasSources())
    && (forall i, j :: 0 <= i < j < |jumpSets| ==> jumpSets[i].Target != jumpSets[j].Target)
    && (forall t :: t in byTarget ==> byTarget[t] in jumpSets && byTarget[t].Target == t)
    && (forall js :: js in jumpSets ==> js.Target in byTarget && byTarget[js.Target] == js)
    && byTarget.Keys == TargetsBelow(jumpLabels, labelRows, upTo)
    && (forall js :: js in jumpSets ==> js.Sources == SourcesBelow(jumpLabels, labelRows, js.Target, upTo))
  }

  /** A row without a resolved jump leaves the scan state as it is. */
  lemma ScanUnresolved(jumpLabels: seq<string>, labelRows: map<string, int>,
                       byTarget: map<int, JumpSet>, jumpSets: seq<JumpSet>, row: int)
    requires 2 <= row < |jumpLabels| + 2
    requires ResolvedTarget(jumpLabels, labelRows, row) == None
    requires Scanned(jumpLabels, labelRows, byTarget, jumpSets, row)
    ensures Scanned(jumpLabels, labelRows, byTarget, jumpSets, row + 1)
  {
  }

  /** The scan meets `targetRow` for the first time at `row`: a new span is
      created for it, indexed, and given `row` as its first source. */
  method StartJumpSet(jumpLabels: seq<string>, labelRows: map<string, int>,
                      byTarget: map<int, JumpSet>, jumpSets: seq<JumpSet>, row: int, targetRow: int)
    returns (byTarget': map<int, JumpSet>, jumpSets': seq<JumpSet>)
    requires 2 <= row < |jumpLabels| + 2
    requires ResolvedTarget(jumpLabels, labelRows, row) == Some(targetRow)
    requires Scanned(jumpLabels, labelRows, byTarget, jumpSets, row)
    requires targetRow !in byTarget
    ensures Scanned(jumpLabels, labelRows, byTarget', jumpSets', row + 1)
    ensures |jumpSets'| == |jumpSets| + 1 && jumpSets'[..|jumpSets|] == jumpSets
    ensures fresh(jumpSets'[|jumpSets|])
  {
    SourcesBelowEmpty(jumpLabels, labelRows, targetRow, row);
    var jumpSet := new JumpSet(targetRow);
    jumpSet.AddSource(row);
    byTarget' := byTarget[targetRow := jumpSet];
    jumpSets' := jumpSets + [jumpSet];
  }

  /** The scan meets `targetRow` again at `row`: `row` joins the sources of the
      span already indexed under `targetRow`. */
  method ExtendJumpSet(jumpLabels: seq<string>, labelRows: map<string, int>,
                       byTarget: map<int, JumpSet>, jumpSets: seq<JumpSet>, row: int, targetRow: int)
    requires 2 <= row < |jumpLabels| + 2
    requires ResolvedTarget(jumpLabels, labelRows, row) == Some(targetRow)
    requires Scanned(jumpLabels, labelRows, byTarget, jumpSets, row)
    requires targetRow in byTarget
    modifies byTarget[targetRow]
    ensures Scanned(jumpLabels, labelRows, byTarget, jumpSets, row + 1)
  {
    var jumpSet := byTarget[targetRow];
    assert forall js :: js in jumpSets && js != jumpSet ==> js.Target != targetRow;
    jumpSet.AddSource(row);
  }

  /** Builds one span per distinct resolved target row, whose sources are exactly
      the rows jumping to it. */
  method FindJumpSets(jumpLabels: seq<string>, labelRows: map<string, int>) returns (jumpSets: seq<JumpSet>)
    ensures forall js :: js in jumpSets ==> fresh(js) && js.HasSources()
    ensures forall i, j :: 0 <= i < j < |jumpSets| ==> jumpSets[i].Target != jumpSets[j].Target
    ensures (set js | js in jumpSets :: js.Target) == TargetsBelow(jumpLabels, labelRows, |jumpLabels| + 2)
    ensures forall js :: js in jumpSets ==>
      js.Sources == SourcesBelow(jumpLabels, labelRows, js.Target, |jumpLabels| + 2)
    ensures forall js, row :: js in jumpSets ==>
      (row in js.Sources <==> 2 <= row < |jumpLabels| + 2 && ResolvedTarget(jumpLabels, labelRows, row) == Some(js.Target))
    ensures forall t :: (exists js :: js in jumpSets && js.Target == t) <==>
      (exists row :: 2 <= row < |jumpLabels| + 2 && ResolvedTarget(jumpLabels, labelRows, row) == Some(t))
  {
    var byTarget: map<int, JumpSet> := map[];
    jumpSets := [];
    var row := 2;
    while row <= |jumpLabels| + 1
      invariant 2 <= row <= |jumpLabels| + 2
      invariant forall js :: js in jumpSets ==> fresh(js)
      invariant Scanned(jumpLabels, labelRows, byTarget, jumpSets, row)
    {
      var name := jumpLabels[row - 2];
      if name == "" || name + ":" !in labelRows {
        // no jump on this row, or its label is not defined anywhere
        ScanUnresolved(jumpLabels, labelRows, byTarget, jumpSets, row);
      } else {
        var targetRow := labelRows[name + ":"];
        if targetRow !in byTarget {
          byTarget, jumpSets := StartJumpSet(jumpLabels, labelRows, byTarget, jumpSets, row, targetRow);
        } else {
          assert byTarget[targetRow] in jumpSets;
          ExtendJumpSet(jumpLabels, labelRows, byTarget, jumpSets, row, targetRow);
        }
      }
      row := row + 1;
    }
    forall t | t in byTarget.Keys
      ensures t in (set js | js in jumpSets :: js.Target)
    {
      assert byTarget[t] in jumpSets;
    }
    forall js | js in jumpSets {
      SourcesBelowMeaning(jumpLabels, labelRows, js.Target, row);
    }
    TargetsBelowMeaning(jumpLabels, labelRows, row);
    forall t | exists row :: 2 <= row < |jumpLabels| + 2 && ResolvedTarget(jumpLabels, labelRows, row) == Some(t)
      ensures exists js :: js in jumpSets && js.Target == t
    {
      assert t in (set js | js in jumpSets :: js.Target);
    }
  }
}
