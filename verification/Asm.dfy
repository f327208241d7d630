/** Assembly text as GNU as reads it: instruction lines, numeric local labels and the
    "Nf"/"Nb" references to them, and the runs of such a text. */
module Asm {

  /** The generator distinguishes branches and jumps; everything else falls through. */
  datatype Category = Branch | Jump | Other

  datatype Label = Unlabelled | Numeric(n: nat) | Named(name: string)

  /** The operand text of a control transfer: "5f", "5b", or anything else. */
  datatype Ref = Forward(n: int) | Backward(n: int) | Literal(text: string)

  /** The part of an instruction object that decides control flow. */
  datatype Line = Line(
    category: Category,
    atomic: bool,
    hasLabel: bool,
    lbl: Label,
    isLocalNumeric: bool,
    immStr: Ref,
    branchAssigned: bool,
    isIllegal: bool,
    idx: int)

  predicate Defines(l: Line, n: int) {
    l.hasLabel && l.lbl.Numeric? && l.lbl.n == n
  }

  /** "Nf" is the nearest later definition of N and "Nb" the nearest one that is not later. */
  ghost predicate ResolvesTo(p: seq<Line>, pc: nat, r: Ref, k: nat)
    requires pc < |p|
  {
    match r
    case Forward(n) =>
      && pc < k < |p|
      && Defines(p[k], n)
      && forall j :: pc < j < k ==> !Defines(p[j], n)
    case Backward(n) =>
      && k <= pc
      && Defines(p[k], n)
      && forall j :: k < j <= pc ==> !Defines(p[j], n)
    case Literal(_) => false
  }

  /** One step of execution; a branch may go either way. */
  ghost predicate Step(p: seq<Line>, pc: nat, next: nat) {
    && pc < |p|
    && match p[pc].category
       case Other => next == pc + 1
       case Branch => next == pc + 1 || ResolvesTo(p, pc, p[pc].immStr, next)
       case Jump => ResolvesTo(p, pc, p[pc].immStr, next)
  }

  ghost predicate IsRun(p: seq<Line>, run: seq<nat>) {
    && |run| > 0
    && forall i :: 0 <= i < |run| - 1 ==> Step(p, run[i], run[i + 1])
  }

  ghost predicate CanStep(p: seq<Line>, pc: nat) {
    exists next: nat :: Step(p, pc, next)
  }

  /** Every control transfer names a label that exists where it is looked for. */
  ghost predicate Closed(p: seq<Line>) {
    forall pc :: 0 <= pc < |p| && !p[pc].category.Other? ==> Resolves(p, pc)
  }

  ghost predicate Resolves(p: seq<Line>, pc: nat)
    requires pc < |p|
  {
    exists k :: ResolvesTo(p, pc, p[pc].immStr, k)
  }

  lemma ResolutionIsUnique(p: seq<Line>, pc: nat, r: Ref, k: nat, k': nat)
    requires pc < |p| && ResolvesTo(p, pc, r, k) && ResolvesTo(p, pc, r, k')
    ensures k == k'
  {
  }

  /** A later definition makes a forward reference resolve, no later than there. */
  lemma {:induction false} LaterDefinitionResolves(p: seq<Line>, pc: nat, n: int, k: nat) returns (near: nat)
    requires pc < k < |p| && Defines(p[k], n)
    ensures near <= k && ResolvesTo(p, pc, Forward(n), near)
  {
    near := pc + 1;
    while !Defines(p[near], n)
      invariant pc < near <= k
      invariant forall j :: pc < j < near ==> !Defines(p[j], n)
      decreases k - near
    {
      near := near + 1;
    }
  }

  /** A closed text keeps its own control flow wherever it is placed: numeric labels before and
      after it never capture one of its references. */
  lemma StepInContext(pre: seq<Line>, body: seq<Line>, post: seq<Line>, pc: nat, x: nat)
    requires Closed(body) && pc < |body|
    ensures Step(pre + body + post, |pre| + pc, x) <==> |pre| <= x && Step(body, pc, x - |pre|)
  {
    var whole := pre + body + post;
    assert whole[|pre| + pc] == body[pc];
    if !body[pc].category.Other? {
      assert Resolves(body, pc);
      var r := body[pc].immStr;
      var k :| ResolvesTo(body, pc, r, k);
      ResolutionSurvives(pre, body, post, pc, r, k);
      if ResolvesTo(whole, |pre| + pc, r, x) {
        ResolutionIsUnique(whole, |pre| + pc, r, x, |pre| + k);
      }
      if |pre| <= x && ResolvesTo(body, pc, r, x - |pre|) {
        ResolutionIsUnique(body, pc, r, x - |pre|, k);
      }
    }
  }

  lemma ResolutionSurvives(pre: seq<Line>, body: seq<Line>, post: seq<Line>, pc: nat, r: Ref, k: nat)
    requires pc < |body| && ResolvesTo(body, pc, r, k)
    ensures ResolvesTo(pre + body + post, |pre| + pc, r, |pre| + k)
  {
    var whole := pre + body + post;
    assert forall j :: |pre| <= j < |pre| + |body| ==> whole[j] == body[j - |pre|];
  }

  /** A measure that every step raises and that stays below the text's length bounds every run. */
  ghost predicate Ranks(p: seq<Line>, rank: seq<nat>) {
    && |rank| == |p| + 1
    && rank[|p|] == |p|
    && (forall pc :: 0 <= pc < |p| ==> rank[pc] < |p|)
    && forall pc: nat, next: nat :: Step(p, pc, next) ==> next <= |p| && rank[pc] < rank[next]
  }

  lemma {:induction false} RankedRunClimbs(p: seq<Line>, rank: seq<nat>, run: seq<nat>, i: nat)
    requires Ranks(p, rank) && IsRun(p, run) && i < |run| && run[0] <= |p|
    ensures run[i] <= |p| && rank[run[i]] >= i
    decreases i
  {
    if i > 0 {
      RankedRunClimbs(p, rank, run, i - 1);
      assert Step(p, run[i - 1], run[i - 1 + 1]);
    }
  }

  /** In a closed, ranked text every run is at most one line longer than the text, and a run that
      cannot go on stands just behind the last line. */
  lemma RankedTextIsLeft(p: seq<Line>, rank: seq<nat>, run: seq<nat>)
    requires Ranks(p, rank) && Closed(p) && IsRun(p, run) && run[0] <= |p|
    ensures |run| <= |p| + 1
    ensures run[|run| - 1] <= |p|
    ensures CanStep(p, run[|run| - 1]) <==> run[|run| - 1] != |p|
  {
    var last := run[|run| - 1];
    RankedRunClimbs(p, rank, run, |run| - 1);
    if last < |p| {
      if p[last].category.Other? {
        assert Step(p, last, last + 1);
      } else {
        assert Resolves(p, last);
        var k :| ResolvesTo(p, last, p[last].immStr, k);
        assert Step(p, last, k);
      }
    }
  }
}
