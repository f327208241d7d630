/** What stands in the emitted text, line by line and as a whole. */
module EmittedLines {
  import opened Asm
  import opened InstrStreams
  import opened JalChain
  import opened Labels
  import opened Mixing
  import opened ControlFlow
  import InstrSequences

  // ---- The whole text ----

  function Categories(s: seq<Line>): (c: seq<Category>)
    ensures |c| == |s| && forall i :: 0 <= i < |s| ==> c[i] == s[i].category
  {
    seq(|s|, i requires 0 <= i < |s| => s[i].category)
  }

  /** Line by line the same instructions. */
  ghost predicate SameKinds(a: seq<Line>, b: seq<Line>) {
    |a| == |b| && forall i :: 0 <= i < |a| ==> a[i].category == b[i].category && a[i].atomic == b[i].atomic
  }

  /** The text consists of the lines of the base, in order, and of each stream once, as a block. */
  ghost predicate Carries(text: seq<Line>, base: seq<Line>, streams: seq<seq<Line>>, starts: seq<nat>) {
    && |text| == |base| + TotalLength(streams) && |starts| == |streams|
    && Categories(Erase(text)) == Categories(base)
    && (forall i :: 0 <= i < |streams| ==>
          starts[i] + |streams[i]| <= |text| && SameKinds(text[starts[i]..starts[i] + |streams[i]|], streams[i]))
    && forall i, j :: 0 <= i < |streams| && 0 <= j < |streams| && i != j ==>
         starts[i] + |streams[i]| <= starts[j] || starts[j] + |streams[j]| <= starts[i]
  }

  lemma KindsAreKept(mixed: seq<Line>, steps: seq<nat>, name: string)
    requires |steps| == |mixed|
    ensures SameKinds(Text(mixed, steps, name), mixed)
  {
    assert forall k :: 0 <= k < |mixed| ==> OnePass(mixed, steps)[k] == OnePassLine(mixed, steps, k);
  }

  lemma {:induction false} SameKindsEraseAlike(a: seq<Line>, b: seq<Line>)
    requires SameKinds(a, b)
    ensures Categories(Erase(a)) == Categories(Erase(b))
  {
    if a != [] {
      var n := |a| - 1;
      SameKindsEraseAlike(a[..n], b[..n]);
    }
  }

  /** However the streams are mixed in, the emitted text carries the base stream and every stream. */
  lemma TextCarriesAll(base: seq<Line>, streams: seq<seq<Line>>, mixed: seq<Line>, steps: seq<nat>, name: string)
    returns (starts: seq<nat>)
    requires NoneAtomic(base) && forall i :: 0 <= i < |streams| ==> AllAtomic(streams[i])
    requires MixedFrom(base, streams, mixed) && |steps| == |mixed|
    ensures Carries(Text(mixed, steps, name), base, streams, starts)
  {
    hide Text, MixedFrom, TotalLength, SameKinds, AllCovered, Erase;
    starts := MixingKeepsStreams(base, streams, mixed);
    var text := Text(mixed, steps, name);
    KindsAreKept(mixed, steps, name);
    SameKindsEraseAlike(text, mixed);
    forall i | 0 <= i < |streams|
      ensures starts[i] + |streams[i]| <= |text|
      ensures SameKinds(text[starts[i]..starts[i] + |streams[i]|], streams[i])
    {
      BlockKinds(text, mixed, starts[i], streams[i]);
    }
  }

  lemma BlockKinds(text: seq<Line>, mixed: seq<Line>, s: nat, d: seq<Line>)
    requires SameKinds(text, mixed) && JalChain.At(mixed, s, d)
    ensures s + |d| <= |text| && SameKinds(text[s..s + |d|], d)
  {
    forall k | 0 <= k < |d|
      ensures text[s..s + |d|][k].category == d[k].category && text[s..s + |d|][k].atomic == d[k].atomic
    {
      assert mixed[s + k] == d[k];
    }
  }

  // ---- A single line ----

  /** The lines before line k that are labelled and not atomic. */
  function LabelledBefore(mixed: seq<Line>, k: nat): set<int>
    requires k <= |mixed|
  {
    set i | 0 <= i < k && mixed[i].hasLabel && !mixed[i].atomic
  }

  lemma {:induction false} LabelIdxCounts(mixed: seq<Line>, k: nat)
    requires k <= |mixed|
    ensures LabelIdx(mixed, k) == |LabelledBefore(mixed, k)|
  {
    if k == 0 {
      assert LabelledBefore(mixed, 0) == {};
    } else {
      LabelIdxCounts(mixed, k - 1);
      assert LabelledBefore(mixed, k)
          == LabelledBefore(mixed, k - 1) + if Numbered(mixed[k - 1]) then {k - 1} else {};
    }
  }

  /** An unassigned branch is to go a drawn number of labels ahead of the labels before it, but not beyond
      the last label of the sequence. */
  function Target(mixed: seq<Line>, k: nat, step: nat): int
    requires k < |mixed|
  {
    var ahead, count := |LabelledBefore(mixed, k)| + step, |LabelledBefore(mixed, |mixed|)|;
    if ahead < count then ahead else count - 1
  }

  /** Line k of the emitted text. Its kind is that of the mixed line. Line 0 bears the name of the
      sequence. Any other atomic line keeps its label; any other labelled line bears the number of such
      lines before it. A branch still unassigned gets its target, all other operands stay. */
  lemma EmittedLine(mixed: seq<Line>, steps: seq<nat>, name: string, k: nat)
    requires |steps| == |mixed| && Unprocessed(mixed) && k < |mixed|
    ensures var line, was := Text(mixed, steps, name)[k], mixed[k];
            && line.category == was.category && line.atomic == was.atomic
            && (k == 0 ==> line.hasLabel && line.lbl == Named(name))
            && (k > 0 && (was.atomic || !was.hasLabel) ==> line.hasLabel == was.hasLabel && line.lbl == was.lbl)
            && (k > 0 && !was.atomic && was.hasLabel ==> line.lbl == Numeric(|LabelledBefore(mixed, k)|))
            && (if was.category.Branch? && !was.branchAssigned && !was.isIllegal
                then line.immStr == Forward(Target(mixed, k, steps[k])) && line.branchAssigned
                else line.immStr == was.immStr && line.branchAssigned == was.branchAssigned)
  {
    LabelIdxCounts(mixed, k);
    LabelIdxCounts(mixed, |mixed|);
    assert OnePass(mixed, steps)[k] == OnePassLine(mixed, steps, k);
  }

  /** In a text that ends in a plain line a label behind line 0 stands on a line exactly when a branch
      goes there. */
  lemma LabelStandsIffTarget(mixed: seq<Line>, steps: seq<nat>, max: nat, name: string, k: nat)
    requires |steps| == |mixed| && InRange(steps, max) && Unprocessed(mixed) && EndsInPlainLine(mixed)
    requires 0 < k < |mixed| && mixed[k].hasLabel && !mixed[k].atomic
    ensures Text(mixed, steps, name)[k].hasLabel <==>
            exists j :: 0 <= j < |mixed| && NeedsTarget(mixed[j])
              && Target(mixed, j, steps[j]) == |LabelledBefore(mixed, k)|
  {
    LabelSurvivesIffUsed(mixed, steps, max, k);
    LabelIdxCounts(mixed, k);
    LabelIdxCounts(mixed, |mixed|);
    forall j | 0 <= j < |mixed| && NeedsTarget(mixed[j])
      ensures OnePass(mixed, steps)[j].immStr == Forward(Target(mixed, j, steps[j]))
    {
      LabelIdxCounts(mixed, j);
      assert OnePass(mixed, steps)[j] == OnePassLine(mixed, steps, j);
    }
  }

  // ---- The return of a sub-program ----

  /** Behind the text of a sub-program stand one plain line and one jump away, both labelled: a run that
      leaves the text comes to the first, goes on to the second and leaves the lines of the sequence. */
  lemma ReturnFollows(text: seq<Line>, n: nat)
    ensures var whole := text + InstrSequences.ReturnRoutine(n);
            && |whole| == |text| + 2
            && (forall next: nat :: Step(whole, |text|, next) <==> next == |text| + 1)
            && whole[|text| + 1].category.Jump? && !CanStep(whole, |text| + 1)
            && Defines(whole[|text|], n) && Defines(whole[|text| + 1], n)
  {
  }
}
