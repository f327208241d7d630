/** What post-processing promises about labels and branch targets
    (post_process_instr in pygen_src/riscv_instr_sequence.py), as functions of the mixed list. */
module Labels {
  import opened Asm

  predicate Numbered(l: Line) {
    l.hasLabel && !l.atomic
  }

  predicate NeedsTarget(l: Line) {
    l.category.Branch? && !l.branchAssigned && !l.isIllegal
  }

  /** No line claims a local numeric label before post-processing. */
  ghost predicate Unprocessed(list: seq<Line>) {
    forall i :: 0 <= i < |list| ==> !list[i].isLocalNumeric
  }

  /** The number of numbered lines before line i, which is the label of the next one. */
  function LabelIdx(list: seq<Line>, i: nat): nat
    requires i <= |list|
  {
    if i == 0 then 0 else LabelIdx(list, i - 1) + if Numbered(list[i - 1]) then 1 else 0
  }

  function NumberLine(list: seq<Line>, i: nat): Line
    requires i < |list|
  {
    var l := list[i].(idx := LabelIdx(list, i));
    if Numbered(l) then l.(lbl := Numeric(LabelIdx(list, i)), isLocalNumeric := true) else l
  }

  /** Branch j goes steps[j] labels ahead, but not beyond the last label. */
  function TargetOf(list: seq<Line>, steps: seq<nat>, j: nat): int
    requires j < |list| && j < |steps|
  {
    var target, count := LabelIdx(list, j) + steps[j], LabelIdx(list, |list|);
    if target >= count then count - 1 else target
  }

  ghost predicate Targeted(list: seq<Line>, steps: seq<nat>, n: int, upto: nat)
    requires upto <= |list| && upto <= |steps|
  {
    exists j :: 0 <= j < upto && NeedsTarget(list[j]) && TargetOf(list, steps, j) == n
  }

  function WithTarget(list: seq<Line>, steps: seq<nat>, i: nat): Line
    requires i < |list| && i < |steps|
  {
    var l := NumberLine(list, i);
    if NeedsTarget(l) then l.(immStr := Forward(TargetOf(list, steps, i)), branchAssigned := true) else l
  }

  function Prune(l: Line, keep: bool): Line {
    if l.hasLabel && l.isLocalNumeric && !keep then l.(hasLabel := false) else l
  }

  /** The line as the single pass leaves it: only branches seen so far count as users of its label. */
  ghost function OnePassLine(list: seq<Line>, steps: seq<nat>, i: nat): Line
    requires i < |list| && i < |steps|
  {
    Prune(WithTarget(list, steps, i), Targeted(list, steps, LabelIdx(list, i), i + 1))
  }

  lemma OnePassLineIsFixed(list: seq<Line>, steps: seq<nat>, step: nat, i: nat)
    requires i < |list| && i < |steps|
    ensures OnePassLine(list, steps + [step], i) == OnePassLine(list, steps, i)
  {
    var n := LabelIdx(list, i);
    forall j | 0 <= j < i + 1
      ensures TargetOf(list, steps + [step], j) == TargetOf(list, steps, j)
    {
    }
    assert Targeted(list, steps + [step], n, i + 1) == Targeted(list, steps, n, i + 1);
  }

  lemma TargetedStep(list: seq<Line>, steps: seq<nat>, step: nat, n: int)
    requires |steps| < |list|
    ensures Targeted(list, steps + [step], n, |steps| + 1) <==>
              || Targeted(list, steps, n, |steps|)
              || (NeedsTarget(list[|steps|]) && TargetOf(list, steps + [step], |steps|) == n)
  {
    forall j | 0 <= j < |steps|
      ensures TargetOf(list, steps + [step], j) == TargetOf(list, steps, j)
    {
    }
  }

  ghost function OnePass(list: seq<Line>, steps: seq<nat>): (out: seq<Line>)
    requires |steps| == |list|
    ensures |out| == |list|
  {
    seq(|list|, i requires 0 <= i < |list| => OnePassLine(list, steps, i))
  }

  /** The simple specification: assign all targets first, then drop every label nobody uses. */
  ghost function TwoPass(list: seq<Line>, steps: seq<nat>): (out: seq<Line>)
    requires |steps| == |list|
    ensures |out| == |list|
  {
    seq(|list|, i requires 0 <= i < |list| =>
      Prune(WithTarget(list, steps, i), Targeted(list, steps, LabelIdx(list, i), |list|)))
  }

  ghost predicate InRange(steps: seq<nat>, max: nat) {
    forall j :: 0 <= j < |steps| ==> 1 <= steps[j] <= max
  }

  lemma {:induction false} LabelIdxGrows(list: seq<Line>, i: nat, j: nat)
    requires i <= j <= |list|
    ensures LabelIdx(list, i) <= LabelIdx(list, j)
    ensures i < j && Numbered(list[i]) ==> LabelIdx(list, i) < LabelIdx(list, j)
    decreases j
  {
    if i < j {
      LabelIdxGrows(list, i, j - 1);
    }
  }

  /** Every label between two places is given to some line between them. */
  lemma {:induction false} LabelIsGiven(list: seq<Line>, from: nat, end: nat, v: nat) returns (k: nat)
    requires from <= end <= |list| && LabelIdx(list, from) <= v < LabelIdx(list, end)
    ensures from <= k < end && Numbered(list[k]) && LabelIdx(list, k) == v
    decreases end
  {
    if LabelIdx(list, end - 1) <= v {
      k := end - 1;
      LabelIdxGrows(list, from, end - 1);
    } else {
      k := LabelIsGiven(list, from, end - 1, v);
    }
  }

  /** The last line carries a label and is no branch: what the tail trimming of gen_instr is for. */
  predicate EndsInPlainLine(list: seq<Line>) {
    list != [] && Numbered(list[|list| - 1]) && !list[|list| - 1].category.Branch?
  }

  /** Every branch's target label is carried by a strictly later numbered line. */
  lemma TargetIsAhead(list: seq<Line>, steps: seq<nat>, j: nat) returns (k: nat)
    requires EndsInPlainLine(list) && j < |list| == |steps| && NeedsTarget(list[j]) && steps[j] >= 1
    ensures j < k < |list| && Numbered(list[k]) && LabelIdx(list, k) == TargetOf(list, steps, j)
  {
    var t := TargetOf(list, steps, j);
    LabelIdxGrows(list, j + 1, |list| - 1);
    assert LabelIdx(list, j + 1) <= t < LabelIdx(list, |list|);
    k := LabelIsGiven(list, j + 1, |list|, t);
  }

  ghost predicate IsLastNumbered(list: seq<Line>, p: nat) {
    p < |list| && Numbered(list[p]) && forall j :: p < j < |list| ==> !Numbered(list[j])
  }

  /** No branch stands behind the last numbered line, or that line's label is used earlier anyway. */
  ghost predicate LastLabelSafe(list: seq<Line>, steps: seq<nat>)
    requires |steps| == |list|
  {
    forall p :: 0 <= p < |list| && IsLastNumbered(list, p) ==>
      || (forall j :: p < j < |list| ==> !NeedsTarget(list[j]))
      || Targeted(list, steps, LabelIdx(list, p), p + 1)
  }

  /** A branch behind a numbered line targets that line's label only if it is the last label. */
  lemma BackwardTarget(list: seq<Line>, steps: seq<nat>, k: nat, j: nat)
    requires k < j < |list| == |steps| && Numbered(list[k]) && steps[j] >= 1
    requires TargetOf(list, steps, j) == LabelIdx(list, k)
    ensures IsLastNumbered(list, k)
  {
    LabelIdxGrows(list, k, j);
    forall i | k < i < |list|
      ensures !Numbered(list[i])
    {
      if Numbered(list[i]) {
        LabelIdxGrows(list, k, i);
        LabelIdxGrows(list, i, |list|);
      }
    }
  }

  /** Pruning labels in the pass that assigns the targets is the same as pruning afterwards exactly
      when no branch behind the last numbered line is the only user of that line's label. */
  lemma OnePassIsTwoPass(list: seq<Line>, steps: seq<nat>, max: nat)
    requires |steps| == |list| && InRange(steps, max) && Unprocessed(list)
    ensures OnePass(list, steps) == TwoPass(list, steps) <==> LastLabelSafe(list, steps)
  {
    var one, two := OnePass(list, steps), TwoPass(list, steps);
    if LastLabelSafe(list, steps) {
      forall k | 0 <= k < |list|
        ensures one[k] == two[k]
      {
        SameAt(list, steps, max, k);
      }
    } else {
      var p :| 0 <= p < |list| && IsLastNumbered(list, p)
        && (exists j :: p < j < |list| && NeedsTarget(list[j]))
        && !Targeted(list, steps, LabelIdx(list, p), p + 1);
      var j :| p < j < |list| && NeedsTarget(list[j]);
      LastTarget(list, steps, p, j);
      assert !one[p].hasLabel && two[p].hasLabel;
    }
  }

  lemma LastTarget(list: seq<Line>, steps: seq<nat>, p: nat, j: nat)
    requires p < j < |list| == |steps| && IsLastNumbered(list, p)
    ensures TargetOf(list, steps, j) == LabelIdx(list, p)
  {
    NoneAfter(list, p, j);
    NoneAfter(list, p, |list|);
  }

  lemma {:induction false} NoneAfter(list: seq<Line>, p: nat, j: nat)
    requires p < j <= |list| && IsLastNumbered(list, p)
    ensures LabelIdx(list, j) == LabelIdx(list, p) + 1
    decreases j
  {
    if j > p + 1 {
      NoneAfter(list, p, j - 1);
    }
  }

  lemma SameAt(list: seq<Line>, steps: seq<nat>, max: nat, k: nat)
    requires k < |list| == |steps| && InRange(steps, max) && Unprocessed(list) && LastLabelSafe(list, steps)
    ensures OnePass(list, steps)[k] == TwoPass(list, steps)[k]
  {
    var n := LabelIdx(list, k);
    if Numbered(list[k]) && Targeted(list, steps, n, |list|) && !Targeted(list, steps, n, k + 1) {
      var j :| 0 <= j < |list| && NeedsTarget(list[j]) && TargetOf(list, steps, j) == n;
      BackwardTarget(list, steps, k, j);
    }
  }

  /** In a list that ends in a plain line a numeric label survives exactly when an assigned branch of
      the output refers to it. */
  lemma LabelSurvivesIffUsed(list: seq<Line>, steps: seq<nat>, max: nat, i: nat)
    requires EndsInPlainLine(list) && |steps| == |list| && InRange(steps, max) && Unprocessed(list)
    requires i < |list| && Numbered(list[i])
    ensures OnePass(list, steps)[i].lbl == Numeric(LabelIdx(list, i))
    ensures OnePass(list, steps)[i].hasLabel <==>
            exists j :: 0 <= j < |list| && NeedsTarget(list[j])
              && OnePass(list, steps)[j].immStr == Forward(LabelIdx(list, i))
  {
    OnePassIsTwoPass(list, steps, max);
    assert LastLabelSafe(list, steps);
    var one := OnePass(list, steps);
    assert one[i] == TwoPass(list, steps)[i];
    assert forall j :: 0 <= j < |list| && NeedsTarget(list[j]) ==>
        one[j].immStr == Forward(TargetOf(list, steps, j));
    if one[i].hasLabel {
      var j :| 0 <= j < |list| && NeedsTarget(list[j]) && TargetOf(list, steps, j) == LabelIdx(list, i);
      assert one[j].immStr == Forward(LabelIdx(list, i));
    }
  }

  /** Without a plain last line the pass goes wrong: here the branch stands behind the only label, so
      the label has been dropped before its only user is seen, and the reference points nowhere. */
  lemma BranchBehindLastLabel()
    ensures var plain := Line(Other, false, true, Unlabelled, false, Literal(""), false, false, -1);
            var branch := Line(Branch, true, false, Unlabelled, false, Literal(""), false, false, -1);
            var out := OnePass([plain, branch], [1, 1]);
            out != TwoPass([plain, branch], [1, 1]) && out[1].immStr == Forward(0) && !Resolves(out, 1)
  {
    var plain := Line(Other, false, true, Unlabelled, false, Literal(""), false, false, -1);
    var branch := Line(Branch, true, false, Unlabelled, false, Literal(""), false, false, -1);
    var list, steps := [plain, branch], [1, 1];
    assert LabelIdx(list, 1) == 1 && LabelIdx(list, 2) == 1;
    assert IsLastNumbered(list, 0);
    assert !Targeted(list, steps, 0, 1);
    assert !LastLabelSafe(list, steps) by {
      assert NeedsTarget(list[1]);
    }
    OnePassIsTwoPass(list, steps, 1);
    assert OnePass(list, steps)[1] == OnePassLine(list, steps, 1);
  }
}
