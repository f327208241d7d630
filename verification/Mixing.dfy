/** What repeated random insertion of directed streams keeps
    (insert_instr_stream in pygen_src/riscv_instr_stream.py). */
module Mixing {
  import opened Asm
  import opened InstrStreams
  import opened JalChain

  /** mixed is what inserting the directed streams one after another into base may give. */
  ghost predicate MixedFrom(base: seq<Line>, directed: seq<seq<Line>>, mixed: seq<Line>)
    decreases |directed|
  {
    if directed == [] then mixed == base
    else
      var n := |directed| - 1;
      exists before :: MixedFrom(base, directed[..n], before) && Inserted(before, directed[n], mixed)
  }

  ghost predicate Inserted(before: seq<Line>, block: seq<Line>, mixed: seq<Line>) {
    if before == [] then mixed == block
    else exists at :: InsertedBefore(before, block, at, mixed)
  }

  predicate AllAtomic(s: seq<Line>) {
    forall i :: 0 <= i < |s| ==> s[i].atomic
  }

  predicate NoneAtomic(s: seq<Line>) {
    forall i :: 0 <= i < |s| ==> !s[i].atomic
  }

  /** The list without its atomic lines. */
  function Erase(s: seq<Line>): (e: seq<Line>)
  {
    if s == [] then []
    else Erase(s[..|s| - 1]) + if s[|s| - 1].atomic then [] else [s[|s| - 1]]
  }

  lemma {:induction false} EraseConcat(a: seq<Line>, b: seq<Line>)
    ensures Erase(a + b) == Erase(a) + Erase(b)
    decreases |b|
  {
    if b == [] {
      assert a + b == a;
    } else {
      var n := |b| - 1;
      assert (a + b)[..|a| + n] == a + b[..n];
      EraseConcat(a, b[..n]);
    }
  }

  lemma {:induction false} EraseUniform(s: seq<Line>)
    ensures AllAtomic(s) ==> Erase(s) == []
    ensures NoneAtomic(s) ==> Erase(s) == s
    decreases |s|
  {
    if s != [] {
      EraseUniform(s[..|s| - 1]);
    }
  }

  /** Stream i stands as one block at starts[i], and no two blocks overlap. */
  ghost predicate Placed(mixed: seq<Line>, directed: seq<seq<Line>>, starts: seq<nat>) {
    && |starts| == |directed|
    && (forall i :: 0 <= i < |directed| ==> At(mixed, starts[i], directed[i]))
    && forall i, j :: 0 <= i < |directed| && 0 <= j < |directed| && i != j ==>
         starts[i] + |directed[i]| <= starts[j] || starts[j] + |directed[j]| <= starts[i]
  }

  ghost predicate Covers(directed: seq<seq<Line>>, starts: seq<nat>, i: nat, pc: nat)
    requires |starts| == |directed| && i < |directed|
  {
    starts[i] <= pc < starts[i] + |directed[i]|
  }

  function Moved(starts: seq<nat>, at: nat, len: nat): (moved: seq<nat>)
    ensures |moved| == |starts|
  {
    seq(|starts|, i requires 0 <= i < |starts| => if starts[i] >= at then starts[i] + len else starts[i])
  }

  lemma AtomicInside(mixed: seq<Line>, s: nat, d: seq<Line>, k: nat)
    requires At(mixed, s, d) && AllAtomic(d) && s <= k < s + |d|
    ensures mixed[k].atomic
  {
    assert mixed[s + (k - s)] == d[k - s];
  }

  /** An insertion in front of a non-atomic line never splits an earlier atomic block. */
  lemma InsertKeepsBlocks(before: seq<Line>, directed: seq<seq<Line>>, starts: seq<nat>,
                          block: seq<Line>, at: nat, mixed: seq<Line>)
    requires Placed(before, directed, starts) && InsertedBefore(before, block, at, mixed)
    requires forall i :: 0 <= i < |directed| ==> AllAtomic(directed[i])
    ensures Placed(mixed, directed + [block], Moved(starts, at, |block|) + [at])
  {
    var all, now := directed + [block], Moved(starts, at, |block|) + [at];
    forall i | 0 <= i < |directed|
      ensures starts[i] >= at || starts[i] + |directed[i]| <= at
      ensures At(mixed, now[i], directed[i])
    {
      if starts[i] < at < starts[i] + |directed[i]| {
        AtomicInside(before, starts[i], directed[i], at);
      }
      forall k | 0 <= k < |directed[i]|
        ensures mixed[now[i] + k] == directed[i][k]
      {
        assert before[starts[i] + k] == directed[i][k];
      }
    }
    forall i, j | 0 <= i < |all| && 0 <= j < |all| && i != j
      ensures now[i] + |all[i]| <= now[j] || now[j] + |all[j]| <= now[i]
    {
      if i < |directed| {
        assert all[i] == directed[i];
      }
      if j < |directed| {
        assert all[j] == directed[j];
      }
    }
  }

  lemma InsertKeepsBase(before: seq<Line>, block: seq<Line>, at: nat, mixed: seq<Line>)
    requires InsertedBefore(before, block, at, mixed) && AllAtomic(block)
    ensures Erase(mixed) == Erase(before)
    ensures |mixed| == |before| + |block| && mixed[|mixed| - 1] == before[|before| - 1]
  {
    var a, b := before[..at], before[at..];
    assert before == a + b && mixed == a + block + b;
    EraseBlock(a, block, b);
  }

  lemma EraseBlock(a: seq<Line>, block: seq<Line>, b: seq<Line>)
    requires AllAtomic(block)
    ensures Erase(a + block + b) == Erase(a + b)
  {
    EraseConcat(a, b);
    EraseConcat(a + block, b);
    EraseConcat(a, block);
    EraseUniform(block);
  }

  function TotalLength(streams: seq<seq<Line>>): nat {
    if streams == [] then 0 else TotalLength(streams[..|streams| - 1]) + |streams[|streams| - 1]|
  }

  /** However the random places are drawn: every directed stream stays one contiguous block, erasing
      the blocks gives back the base stream in order, nothing else is added, and the last line of a
      non-empty base stays last. */
  lemma {:induction false} MixingKeepsStreams(base: seq<Line>, directed: seq<seq<Line>>, mixed: seq<Line>)
    returns (starts: seq<nat>)
    requires NoneAtomic(base)
    requires forall i :: 0 <= i < |directed| ==> AllAtomic(directed[i])
    requires MixedFrom(base, directed, mixed)
    ensures Placed(mixed, directed, starts)
    ensures Erase(mixed) == base
    ensures |mixed| == |base| + TotalLength(directed)
    ensures base != [] ==> mixed[|mixed| - 1] == base[|base| - 1]
    ensures AllCovered(base, directed, starts, mixed)
    decreases |directed|
  {
    hide AllCovered, Placed, InsertedBefore, Erase, Moved;
    if directed == [] {
      starts := [];
      EraseUniform(base);
      BaseIsCovered(base);
    } else {
      var n := |directed| - 1;
      var before :| MixedFrom(base, directed[..n], before) && Inserted(before, directed[n], mixed);
      var was := MixingKeepsStreams(base, directed[..n], before);
      assert directed[..n] + [directed[n]] == directed;
      if before == [] {
        EraseUniform(mixed);
        starts := was + [0];
        FirstBlock(base, directed, was, mixed);
      } else {
        var at :| InsertedBefore(before, directed[n], at, mixed);
        InsertKeepsBlocks(before, directed[..n], was, directed[n], at, mixed);
        InsertKeepsBase(before, directed[n], at, mixed);
        starts := Moved(was, at, |directed[n]|) + [at];
        AllCoveredAfterInsert(base, directed, before, was, at, mixed);
      }
    }
  }

  /** Every line of the mixed list is a line of the base or stands in one of the blocks. */
  ghost predicate AllCovered(base: seq<Line>, directed: seq<seq<Line>>, starts: seq<nat>, mixed: seq<Line>) {
    && |starts| == |directed|
    && forall pc :: 0 <= pc < |mixed| ==>
         mixed[pc] in base || exists i :: 0 <= i < |directed| && Covers(directed, starts, i, pc)
  }

  lemma BaseIsCovered(base: seq<Line>)
    ensures AllCovered(base, [], [], base) && Placed(base, [], [])
  {
  }

  /** Into an empty list a stream comes as it is; the streams before it were empty. */
  lemma FirstBlock(base: seq<Line>, directed: seq<seq<Line>>, was: seq<nat>, mixed: seq<Line>)
    requires directed != [] && mixed == directed[|directed| - 1]
    requires Placed([], directed[..|directed| - 1], was)
    ensures Placed(mixed, directed, was + [0]) && AllCovered(base, directed, was + [0], mixed)
  {
    var n, starts := |directed| - 1, was + [0];
    forall i | 0 <= i < n
      ensures directed[i] == [] && starts[i] == 0
    {
      assert At([], was[i], directed[..n][i]);
    }
    forall pc | 0 <= pc < |mixed|
      ensures mixed[pc] in base || exists i :: 0 <= i < |directed| && Covers(directed, starts, i, pc)
    {
      assert Covers(directed, starts, n, pc);
    }
  }

  lemma AllCoveredAfterInsert(base: seq<Line>, directed: seq<seq<Line>>, before: seq<Line>, was: seq<nat>,
                              at: nat, mixed: seq<Line>)
    requires |directed| > 0 && |was| == |directed| - 1
    requires InsertedBefore(before, directed[|was|], at, mixed)
    requires Placed(before, directed[..|was|], was) && AllCovered(base, directed[..|was|], was, before)
    requires forall i :: 0 <= i < |was| ==> AllAtomic(directed[i])
    ensures AllCovered(base, directed, Moved(was, at, |directed[|was|]|) + [at], mixed)
  {
    var starts := Moved(was, at, |directed[|was|]|) + [at];
    forall pc | 0 <= pc < |mixed|
      ensures mixed[pc] in base || exists i :: 0 <= i < |directed| && Covers(directed, starts, i, pc)
    {
      CoverAfterInsert(base, directed, before, was, at, mixed, pc);
    }
  }

  lemma CoverAfterInsert(base: seq<Line>, directed: seq<seq<Line>>, before: seq<Line>, was: seq<nat>,
                         at: nat, mixed: seq<Line>, pc: nat)
    requires |directed| > 0 && |was| == |directed| - 1 && pc < |mixed|
    requires InsertedBefore(before, directed[|was|], at, mixed)
    requires Placed(before, directed[..|was|], was)
    requires forall i :: 0 <= i < |was| ==> AllAtomic(directed[i])
    requires AllCovered(base, directed[..|was|], was, before)
    ensures mixed[pc] in base ||
            exists i :: 0 <= i < |directed| && Covers(directed, Moved(was, at, |directed[|was|]|) + [at], i, pc)
  {
    var n := |was|;
    var block := directed[n];
    var starts := Moved(was, at, |block|) + [at];
    if at <= pc < at + |block| {
      assert Covers(directed, starts, n, pc);
    } else {
      var k := if pc < at then pc else pc - |block|;
      assert mixed[pc] == before[k];
      if before[k] !in base {
        var i :| 0 <= i < n && Covers(directed[..n], was, i, k);
        if was[i] < at < was[i] + |directed[i]| {
          AtomicInside(before, was[i], directed[..n][i], at);
        }
        assert Covers(directed, starts, i, pc);
      }
    }
  }
}
