/** The instruction sequence of a program (pygen_src/riscv_instr_sequence.py): insertion of the
    directed streams, label numbering, branch targets with label pruning, and emission. */
module InstrSequences {
  import opened Common
  import opened Asm
  import opened InstrStreams
  import opened JalChain
  import opened Labels
  import opened Mixing
  import opened ControlFlow

  ghost predicate Apart(a: seq<Instr>, b: seq<Instr>) {
    forall x :: x in a ==> x !in b
  }

  /** No instruction object occurs twice, neither in one list nor in two. */
  ghost predicate AllApart(list: seq<Instr>, directed: seq<seq<Instr>>) {
    && Distinct(list)
    && (forall i :: 0 <= i < |directed| ==> Distinct(directed[i]) && Apart(list, directed[i]))
    && forall i, j :: 0 <= i < |directed| && 0 <= j < |directed| && i != j ==> Apart(directed[i], directed[j])
  }

  ghost function Objects(directed: seq<seq<Instr>>): set<Instr> {
    set i, k | 0 <= i < |directed| && 0 <= k < |directed[i]| :: directed[i][k]
  }

  ghost function ViewsOf(directed: seq<seq<Instr>>): (v: seq<seq<Line>>)
    reads Objects(directed)
    ensures |v| == |directed| && forall i :: 0 <= i < |directed| ==> v[i] == Views(directed[i])
  {
    seq(|directed|, i requires 0 <= i < |directed| reads Objects(directed) => Views(directed[i]))
  }

  lemma InsertStaysDistinct<T>(a: seq<T>, b: seq<T>, at: nat)
    requires Distinct(a) && Distinct(b) && (forall x :: x in a ==> x !in b) && at <= |a|
    ensures Distinct(a[..at] + b + a[at..])
    ensures forall x :: x in a[..at] + b + a[at..] <==> x in a || x in b
  {
    var m := a[..at] + b + a[at..];
    forall i, j | 0 <= i < j < |m|
      ensures m[i] != m[j]
    {
      var x, y := m[i], m[j];
      if at <= i < at + |b| {
        assert x in b;
      } else {
        assert x == a[if i < at then i else i - |b|];
      }
      if at <= j < at + |b| {
        assert y in b;
      } else {
        assert y == a[if j < at then j else j - |b|];
      }
    }
    assert a == a[..at] + a[at..];
  }

  lemma StillApart(was: seq<Instr>, block: seq<Instr>, now: seq<Instr>, other: seq<Instr>)
    requires Apart(was, other) && Apart(block, other)
    requires forall x :: x in now ==> x in was || x in block
    ensures Apart(now, other)
  {
  }

  lemma StartOfMixing(base: seq<Line>, directed: seq<seq<Line>>)
    ensures MixedFrom(base, directed[..0], base)
  {
  }

  lemma MixedFurther(base: seq<Line>, directed: seq<seq<Line>>, before: seq<Line>, mixed: seq<Line>)
    requires directed != []
    requires MixedFrom(base, directed[..|directed| - 1], before)
    requires Inserted(before, directed[|directed| - 1], mixed)
    ensures MixedFrom(base, directed, mixed)
  {
  }

  class InstrSequence {
    var instrStream: InstrStream
    var directedInstr: seq<seq<Instr>>
    var labelName: string
    var instrStringList: seq<Line>

    constructor (name: string)
      ensures labelName == name && directedInstr == [] && instrStringList == []
      ensures fresh(instrStream) && instrStream.instrList == []
    {
      labelName, directedInstr, instrStringList := name, [], [];
      instrStream := new InstrStream();
    }

    method InsertBlock(block: seq<Instr>) returns (status: Status)
      requires Distinct(instrStream.instrList) && Distinct(block) && Apart(instrStream.instrList, block)
      modifies instrStream
      ensures (exists x :: x in old(instrStream.instrList) && !x.atomic) ==> status.Done?
      ensures !status.Raises?
      ensures status.Done? ==>
                && Distinct(instrStream.instrList)
                && Inserted(old(Views(instrStream.instrList)), Views(block), Views(instrStream.instrList))
                && forall x :: x in instrStream.instrList <==> x in old(instrStream.instrList) || x in block
    {
      ghost var was, before := instrStream.instrList, Views(instrStream.instrList);
      ghost var at;
      status, at := instrStream.InsertInstrStream(block, -1, false);
      if status.Done? && was != [] {
        InsertStaysDistinct(was, block, at);
        assert InsertedBefore(before, Views(block), at, Views(instrStream.instrList));
      }
    }

    /** Inserts the directed streams one after another at random non-atomic places. */
    method InsertDirected() returns (status: Status)
      requires AllApart(instrStream.instrList, directedInstr)
      modifies instrStream
      ensures (exists x :: x in old(instrStream.instrList) && !x.atomic) ==> status.Done?
      ensures !status.Raises?
      ensures status.Done? ==>
                && Distinct(instrStream.instrList)
                && MixedFrom(old(Views(instrStream.instrList)), ViewsOf(directedInstr), Views(instrStream.instrList))
                && forall x :: x in instrStream.instrList ==>
                     x in old(instrStream.instrList) || x in Objects(directedInstr)
    {
      hide Apart, MixedFrom, Inserted;
      ghost var base := Views(instrStream.instrList);
      ghost var lists := ViewsOf(directedInstr);
      ghost var first := instrStream.instrList;
      StartOfMixing(base, lists);
      status := Done;
      for i := 0 to |directedInstr|
        invariant status.Done? && ViewsOf(directedInstr) == lists
        invariant Distinct(instrStream.instrList)
        invariant forall k :: i <= k < |directedInstr| ==> Apart(instrStream.instrList, directedInstr[k])
        invariant MixedFrom(base, lists[..i], Views(instrStream.instrList))
        invariant forall x :: x in instrStream.instrList ==> x in first || x in Objects(directedInstr)
        invariant forall x :: x in first ==> x in instrStream.instrList
      {
        ghost var was, before := instrStream.instrList, Views(instrStream.instrList);
        status := InsertBlock(directedInstr[i]);
        if !status.Done? {
          return;
        }
        forall k | i < k < |directedInstr|
          ensures Apart(instrStream.instrList, directedInstr[k])
        {
          StillApart(was, directedInstr[i], instrStream.instrList, directedInstr[k]);
        }
        assert lists[..i + 1][..i] == lists[..i];
        MixedFurther(base, lists[..i + 1], before, Views(instrStream.instrList));
      }
      assert lists[..|directedInstr|] == lists;
    }

    /** Gives every line its index and every non-atomic labelled line its number as label. */
    method NumberLabels() returns (labelIdx: nat)
      requires Distinct(instrStream.instrList)
      modifies instrStream.instrList`idx, instrStream.instrList`lbl, instrStream.instrList`isLocalNumeric
      ensures labelIdx == LabelIdx(old(Views(instrStream.instrList)), |instrStream.instrList|)
      ensures forall k {:trigger NumberLine(old(Views(instrStream.instrList)), k)} ::
                0 <= k < |instrStream.instrList| ==>
                instrStream.instrList[k].View() == NumberLine(old(Views(instrStream.instrList)), k)
    {
      var list := instrStream.instrList;
      ghost var mixed := Views(list);
      labelIdx := 0;
      for i := 0 to |list|
        invariant labelIdx == LabelIdx(mixed, i)
        invariant forall k {:trigger NumberLine(mixed, k)} :: 0 <= k < i ==> list[k].View() == NumberLine(mixed, k)
        invariant forall k :: i <= k < |list| ==> list[k].View() == mixed[k]
      {
        labelIdx := NumberOne(list[i], labelIdx);
      }
    }

    static method NumberOne(instr: Instr, labelIdx: nat) returns (next: nat)
      modifies instr`idx, instr`lbl, instr`isLocalNumeric
      ensures var was := old(instr.View()).(idx := labelIdx);
              && instr.View() == (if Numbered(was) then was.(lbl := Numeric(labelIdx), isLocalNumeric := true) else was)
              && next == labelIdx + if Numbered(was) then 1 else 0
    {
      next := labelIdx;
      instr.idx := labelIdx;
      if instr.hasLabel && !instr.atomic {
        instr.lbl := Numeric(labelIdx);
        instr.isLocalNumeric := true;
        next := labelIdx + 1;
      }
    }

    /** One turn of the pass: gives a branch its target, then drops the label if nobody has used it. */
    static method AssignOne(instr: Instr, labelIdx: int, branchIdx: seq<nat>, branchCnt: nat,
                            branchTarget: map<int, bool>, ghost max: nat)
      returns (branchIdx': seq<nat>, branchCnt': nat, branchTarget': map<int, bool>, ghost step: nat)
      requires branchCnt < |branchIdx| && InRange(branchIdx, max)
      requires instr.isLocalNumeric ==> instr.lbl.Numeric?
      modifies instr`immStr, instr`branchAssigned, instr`hasLabel
      ensures |branchIdx'| == |branchIdx| && InRange(branchIdx', max) && branchCnt' < |branchIdx'|
      ensures step == branchIdx[branchCnt] && 1 <= step <= max
      ensures var was := old(instr.View());
              var target := if was.idx + step >= labelIdx then labelIdx - 1 else was.idx + step;
              && branchTarget' == (if NeedsTarget(was) then branchTarget[target := true] else branchTarget)
              && instr.View() == Prune(
                if NeedsTarget(was) then was.(immStr := Forward(target), branchAssigned := true) else was,
                was.isLocalNumeric && was.lbl.n in branchTarget')
    {
      branchIdx', branchCnt', branchTarget', step := branchIdx, branchCnt, branchTarget, branchIdx[branchCnt];
      if instr.category.Branch? && !instr.branchAssigned && !instr.isIllegal {
        var branchTargetLabel := instr.idx + branchIdx[branchCnt];
        if branchTargetLabel >= labelIdx {
          branchTargetLabel := labelIdx - 1;
        }
        branchCnt' := branchCnt + 1;
        if branchCnt' == |branchIdx| {
          branchCnt' := 0;
          branchIdx' := ShuffleSteps(branchIdx, max);
        }
        instr.immStr := Forward(branchTargetLabel);
        instr.branchAssigned := true;
        branchTarget' := branchTarget[branchTargetLabel := true];
      }
      if instr.hasLabel && instr.isLocalNumeric {
        var idx := instr.lbl.n;
        if idx !in branchTarget' {
          instr.hasLabel := false;
        }
      }
    }

    /** Assigns the branch targets and drops unused labels, in one pass over the list. */
    method AssignBranches(labelIdx: int, maxBranchStep: nat, ghost mixed: seq<Line>) returns (ghost steps: seq<nat>)
      requires Distinct(instrStream.instrList) && maxBranchStep >= 1
      requires |mixed| == |instrStream.instrList| && Unprocessed(mixed) && labelIdx == LabelIdx(mixed, |mixed|)
      requires forall k {:trigger NumberLine(mixed, k)} :: 0 <= k < |mixed| ==>
                 instrStream.instrList[k].View() == NumberLine(mixed, k)
      modifies instrStream.instrList`immStr, instrStream.instrList`branchAssigned, instrStream.instrList`hasLabel
      ensures |steps| == |mixed| && InRange(steps, maxBranchStep)
      ensures Views(instrStream.instrList) == OnePass(mixed, steps)
    {
      var list := instrStream.instrList;
      var branchIdx := RandomSteps(30, maxBranchStep);
      var branchCnt := 0;
      var branchTarget: map<int, bool> := map[];
      var j := 0;
      steps := [];
      while j < |list|
        invariant |steps| == j <= |list| && InRange(steps, maxBranchStep)
        invariant |branchIdx| == 30 && InRange(branchIdx, maxBranchStep) && branchCnt < 30
        invariant forall n :: n in branchTarget <==> Targeted(mixed, steps, n, j)
        invariant forall k {:trigger OnePassLine(mixed, steps, k)} :: 0 <= k < j ==>
                    list[k].View() == OnePassLine(mixed, steps, k)
        invariant forall k {:trigger NumberLine(mixed, k)} :: j <= k < |list| ==>
                    list[k].View() == NumberLine(mixed, k)
      {
        assert list[j].View() == NumberLine(mixed, j);
        ghost var step;
        branchIdx, branchCnt, branchTarget, step :=
          AssignOne(list[j], labelIdx, branchIdx, branchCnt, branchTarget, maxBranchStep);
        forall n
          ensures n in branchTarget <==> Targeted(mixed, steps + [step], n, j + 1)
        {
          TargetedStep(mixed, steps, step, n);
        }
        assert list[j].View() == OnePassLine(mixed, steps + [step], j);
        forall k | 0 <= k < j
          ensures OnePassLine(mixed, steps + [step], k) == OnePassLine(mixed, steps, k)
        {
          OnePassLineIsFixed(mixed, steps, step, k);
        }
        steps := steps + [step];
        j := j + 1;
      }
    }

    static method RandomSteps(n: nat, max: nat) returns (steps: seq<nat>)
      requires max >= 1
      ensures |steps| == n && InRange(steps, max)
    {
      steps := [];
      for i := 0 to n
        invariant |steps| == i && InRange(steps, max)
      {
        var step: nat :| 1 <= step <= max;
        steps := steps + [step];
      }
    }

    static method ShuffleSteps(steps: seq<nat>, ghost max: nat) returns (shuffled: seq<nat>)
      requires InRange(steps, max)
      ensures |shuffled| == |steps| && InRange(shuffled, max)
      ensures multiset(shuffled) == multiset(steps)
    {
      shuffled := Shuffle(steps);
      assert |multiset(steps)| == |steps| && |multiset(shuffled)| == |shuffled|;
      forall j | 0 <= j < |shuffled|
        ensures 1 <= shuffled[j] <= max
      {
        assert shuffled[j] in multiset(shuffled);
        assert shuffled[j] in steps;
      }
    }

    /** Mixes the directed streams in, numbers the labels and assigns the branches. The ghost results
        are the mixed list before numbering and the distance drawn for each line. */
    method PostProcessInstr(maxBranchStep: nat) returns (status: Status, ghost mixed: seq<Line>, ghost steps: seq<nat>)
      requires AllApart(instrStream.instrList, directedInstr) && maxBranchStep >= 1
      requires Unprocessed(Views(instrStream.instrList))
      requires forall i :: 0 <= i < |directedInstr| ==> Unprocessed(Views(directedInstr[i]))
      modifies instrStream, instrStream.instrList, Objects(directedInstr)
      ensures (exists x :: x in old(instrStream.instrList) && !old(x.atomic)) ==> status.Done?
      ensures status.Done? ==>
                && Distinct(instrStream.instrList)
                && |steps| == |mixed| && InRange(steps, maxBranchStep)
                && MixedFrom(old(Views(instrStream.instrList)), old(ViewsOf(directedInstr)), mixed)
                && Views(instrStream.instrList) == OnePass(mixed, steps)
                && forall x :: x in instrStream.instrList ==>
                     x in old(instrStream.instrList) || x in Objects(directedInstr)
    {
      hide MixedFrom, OnePass, LabelIdx, NumberLine;
      mixed, steps := [], [];
      ghost var base := instrStream.instrList;
      status := InsertDirected();
      if !status.Done? {
        return;
      }
      mixed := Views(instrStream.instrList);
      forall i | 0 <= i < |mixed|
        ensures !mixed[i].isLocalNumeric
      {
        NotYetLocal(base, directedInstr, instrStream.instrList[i]);
      }
      var labelIdx := NumberLabels();
      steps := AssignBranches(labelIdx, maxBranchStep, mixed);
    }

    /** Writes the lines out; line 0 gets the sequence's name as its label, or none with noLabel. */
    method GenerateInstrStream(noLabel: bool, isMainProgram: bool) returns (status: Status)
      requires Distinct(instrStream.instrList)
      modifies this`instrStringList, instrStream.instrList`hasLabel
      ensures status == if instrStream.instrList == [] then Raises else Done
      ensures status.Done? ==>
                && instrStream.instrList[0].View() == old(instrStream.instrList[0].View()).(hasLabel := true)
                && forall k :: 1 <= k < |instrStream.instrList| ==>
                     instrStream.instrList[k].View() == old(instrStream.instrList[k].View())
      ensures status.Done? && !noLabel ==>
                instrStringList == Emit(old(Views(instrStream.instrList)), labelName)
                  + if isMainProgram then [] else ReturnRoutine(|instrStream.instrList| - 1)
      ensures status.Done? && noLabel ==>
                instrStringList ==
                  old(Views(instrStream.instrList))[0 := old(instrStream.instrList[0].View()).(hasLabel := false)]
                  + if isMainProgram then [] else ReturnRoutine(|instrStream.instrList| - 1)
    {
      hide ReturnRoutine;
      var list := instrStream.instrList;
      ghost var was := Views(list);
      instrStringList := [];
      if list == [] {
        return Raises;
      }
      var emitted := [];
      ghost var first :=
        if noLabel then was[0].(hasLabel := false) else was[0].(hasLabel := true, lbl := Named(labelName));
      for i := 0 to |list|
        invariant |emitted| == i
        invariant i > 0 ==> emitted[0] == first
        invariant forall k :: 1 <= k < i ==> emitted[k] == was[k]
        invariant list[0].View() == if i == 0 then was[0] else was[0].(hasLabel := true)
        invariant forall k :: 1 <= k < |list| ==> list[k].View() == was[k]
      {
        if i == 0 {
          emitted := [if noLabel then list[0].View().(hasLabel := false)
                      else list[0].View().(hasLabel := true, lbl := Named(labelName))];
          list[0].hasLabel := true;
        } else {
          emitted := emitted + [list[i].View()];
        }
      }
      assert emitted == was[0 := first];
      instrStringList := emitted + if isMainProgram then [] else ReturnRoutine(|list| - 1);
      return Done;
    }
  }

  /** The return of a sub-program: two lines that both carry the number of the last line. */
  function ReturnRoutine(n: nat): seq<Line> {
    [Fresh(Other).(lbl := Numeric(n)), Fresh(Jump).(lbl := Numeric(n), immStr := Literal("x{ra}"))]
  }

  lemma NotYetLocal(base: seq<Instr>, directed: seq<seq<Instr>>, x: Instr)
    requires x in base || x in Objects(directed)
    requires Unprocessed(Views(base))
    requires forall i :: 0 <= i < |directed| ==> Unprocessed(Views(directed[i]))
    ensures !x.isLocalNumeric
  {
    if x in base {
      var k :| 0 <= k < |base| && base[k] == x;
      assert !Views(base)[k].isLocalNumeric;
    } else {
      var i, k :| 0 <= i < |directed| && 0 <= k < |directed[i]| && directed[i][k] == x;
      assert !Views(directed[i])[k].isLocalNumeric;
    }
  }
}
