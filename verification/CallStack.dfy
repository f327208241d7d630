/** The levelled call graph of pygen/experimental/riscv_callstack_gen.py. */
module CallStack {
  import opened Common
  import JalChain

  // ---- Levels and the calls between them ----

  /** The constraints on the levels: only program 0 is at level 0, and levels grow by at most one. */
  predicate Levels(level: seq<nat>) {
    && level != [] && level[0] == 0
    && forall i :: 1 <= i < |level| ==> 1 <= level[i] && level[i - 1] <= level[i] <= level[i - 1] + 1
  }

  function LastLevel(level: seq<nat>): nat
    requires level != []
  {
    level[|level| - 1]
  }

  /** The first n programs that are at level i. */
  function ProgramsAmong(level: seq<nat>, i: nat, n: nat): (ps: seq<nat>)
    requires n <= |level|
    ensures forall k :: 0 <= k < |ps| ==> ps[k] < n && level[ps[k]] == i
  {
    if n == 0 then [] else ProgramsAmong(level, i, n - 1) + if level[n - 1] == i then [n - 1] else []
  }

  function ProgramsAt(level: seq<nat>, i: nat): (ps: seq<nat>)
    ensures forall k :: 0 <= k < |ps| ==> ps[k] < |level| && level[ps[k]] == i
  {
    ProgramsAmong(level, i, |level|)
  }

  lemma {:induction false} ProgramsAreAll(level: seq<nat>, i: nat, n: nat)
    requires n <= |level|
    ensures forall j :: 0 <= j < n && level[j] == i ==> j in ProgramsAmong(level, i, n)
    ensures forall k, m :: 0 <= k < m < |ProgramsAmong(level, i, n)| ==>
              ProgramsAmong(level, i, n)[k] < ProgramsAmong(level, i, n)[m]
  {
    if n > 0 {
      ProgramsAreAll(level, i, n - 1);
    }
  }

  /** All sub-programs of the programs listed, caller after caller. */
  function Calls(subs: seq<seq<nat>>, callers: seq<nat>): seq<nat>
    requires Within(callers, |subs|)
  {
    if callers == [] then []
    else Calls(subs, callers[..|callers| - 1]) + subs[callers[|callers| - 1]]
  }

  /** The calls made at level i are the programs of level i + 1, with at most one of them once more. */
  ghost predicate Served(level: seq<nat>, subs: seq<seq<nat>>, i: nat)
    requires |subs| == |level|
  {
    IsPool(Calls(subs, ProgramsAt(level, i)), ProgramsAt(level, i + 1))
  }

  /** Level i makes as many calls as level i + 1 has programs, and one more with an extra one. */
  predicate CallsAreCounted(level: seq<nat>, subs: seq<seq<nat>>, i: nat, extra: bool)
    requires |subs| == |level|
  {
    |Calls(subs, ProgramsAt(level, i))| == |ProgramsAt(level, i + 1)| + if extra then 1 else 0
  }

  ghost predicate IsPool(pool: seq<nat>, next: seq<nat>) {
    || multiset(pool) == multiset(next)
    || exists d :: d in next && multiset(pool) == multiset(next + [d])
  }

  /** The generated graph: every level but the last calls the next one, the last calls nothing. */
  ghost predicate CallGraph(level: seq<nat>, subs: seq<seq<nat>>) {
    && Levels(level) && |subs| == |level|
    && (forall i :: 0 <= i < LastLevel(level) ==> Served(level, subs, i))
    && (forall j :: 0 <= j < |level| && level[j] == LastLevel(level) ==> subs[j] == [])
  }

  // ---- What the graph guarantees ----

  lemma IsProgramAt(level: seq<nat>, i: nat, j: nat)
    ensures j in ProgramsAt(level, i) <==> j < |level| && level[j] == i
  {
    ProgramsAreAll(level, i, |level|);
  }

  predicate Within(callers: seq<nat>, n: nat) {
    forall k :: 0 <= k < |callers| ==> callers[k] < n
  }

  lemma {:induction false} CallIsCounted(subs: seq<seq<nat>>, callers: seq<nat>, j: nat, c: nat)
    requires Within(callers, |subs|) && j in callers && c in subs[j]
    ensures c in Calls(subs, callers)
  {
    if j != callers[|callers| - 1] {
      var front := callers[..|callers| - 1];
      assert callers == front + [callers[|callers| - 1]];
      CallIsCounted(subs, front, j, c);
    }
  }

  lemma {:induction false} CallHasCaller(subs: seq<seq<nat>>, callers: seq<nat>, c: nat) returns (j: nat)
    requires Within(callers, |subs|) && c in Calls(subs, callers)
    ensures j in callers && c in subs[j]
  {
    var front := callers[..|callers| - 1];
    if c in Calls(subs, front) {
      j := CallHasCaller(subs, front, c);
    } else {
      j := callers[|callers| - 1];
    }
  }

  lemma PoolHoldsNext(pool: seq<nat>, next: seq<nat>)
    requires IsPool(pool, next)
    ensures forall c :: c in pool <==> c in next
    ensures |next| <= |pool| <= |next| + 1
  {
    if multiset(pool) == multiset(next) {
      assert |multiset(pool)| == |multiset(next)|;
      forall c ensures c in pool <==> c in next {
        assert c in multiset(pool) <==> c in multiset(next);
      }
    } else {
      var d :| d in next && multiset(pool) == multiset(next + [d]);
      assert |multiset(pool)| == |multiset(next + [d])|;
      forall c ensures c in pool <==> c in next {
        assert c in multiset(pool) <==> c in multiset(next + [d]);
      }
    }
  }

  /** Levels never fall, so every level up to the last is used. */
  lemma {:induction false} LevelsAreSorted(level: seq<nat>, i: nat, j: nat)
    requires Levels(level) && i <= j < |level|
    ensures level[i] <= level[j]
    decreases j - i
  {
    if i < j {
      LevelsAreSorted(level, i, j - 1);
    }
  }

  lemma {:induction false} EveryLevelIsUsed(level: seq<nat>, i: nat, n: nat)
    requires Levels(level) && n < |level| && i <= level[n]
    ensures exists j :: 0 <= j <= n && level[j] == i
  {
    if i < level[n] {
      EveryLevelIsUsed(level, i, n - 1);
    }
  }

  /** The programs called from level i are those of level i + 1. */
  lemma CalledAtLevel(level: seq<nat>, subs: seq<seq<nat>>, i: nat, c: nat)
    requires |subs| == |level| && Served(level, subs, i)
    ensures c in Calls(subs, ProgramsAt(level, i)) <==> c < |level| && level[c] == i + 1
  {
    hide Calls, IsPool;
    PoolHoldsNext(Calls(subs, ProgramsAt(level, i)), ProgramsAt(level, i + 1));
    IsProgramAt(level, i + 1, c);
  }

  /** Every call goes up exactly one level. */
  lemma CallsGoUpOneLevel(level: seq<nat>, subs: seq<seq<nat>>, j: nat, c: nat)
    requires CallGraph(level, subs) && j < |level| && c in subs[j]
    ensures c < |level| && level[c] == level[j] + 1
  {
    hide Levels, Served, Calls;
    LevelsAreSorted(level, j, |level| - 1);
    var i := level[j];
    IsProgramAt(level, i, j);
    CallIsCounted(subs, ProgramsAt(level, i), j, c);
    CalledAtLevel(level, subs, i, c);
  }

  /** Every program but the root has a caller one level below. */
  lemma EveryProgramHasACaller(level: seq<nat>, subs: seq<seq<nat>>, c: nat) returns (j: nat)
    requires CallGraph(level, subs) && 0 < c < |level|
    ensures j < |level| && c in subs[j] && level[j] + 1 == level[c]
  {
    LevelsAreSorted(level, c, |level| - 1);
    hide Served, Calls;
    var i := level[c] - 1;
    CalledAtLevel(level, subs, i, c);
    j := CallHasCaller(subs, ProgramsAt(level, i), c);
    IsProgramAt(level, i, j);
  }

  /** A chain of calls. */
  predicate IsCallPath(subs: seq<seq<nat>>, path: seq<nat>) {
    && path != []
    && (forall k :: 0 <= k < |path| ==> path[k] < |subs|)
    && forall k :: 1 <= k < |path| ==> path[k] in subs[path[k - 1]]
  }

  lemma {:induction false} PathClimbs(level: seq<nat>, subs: seq<seq<nat>>, path: seq<nat>)
    requires CallGraph(level, subs) && IsCallPath(subs, path)
    ensures level[path[|path| - 1]] == level[path[0]] + |path| - 1
  {
    if |path| > 1 {
      PathClimbs(level, subs, path[..|path| - 1]);
      CallsGoUpOneLevel(level, subs, path[|path| - 2], path[|path| - 1]);
    }
  }

  /** The graph has no cycle, and no chain of calls is longer than the last level. */
  lemma NoCallLoops(level: seq<nat>, subs: seq<seq<nat>>, path: seq<nat>)
    requires CallGraph(level, subs) && IsCallPath(subs, path)
    ensures |path| > 1 ==> path[0] != path[|path| - 1]
    ensures |path| - 1 <= LastLevel(level)
  {
    PathClimbs(level, subs, path);
    LevelsAreSorted(level, path[|path| - 1], |level| - 1);
  }

  /** No program is obsolete: a chain of calls leads from the root to each, as long as its level. */
  lemma {:induction false} EveryProgramIsReached(level: seq<nat>, subs: seq<seq<nat>>, c: nat)
    requires CallGraph(level, subs) && c < |level|
    ensures exists path ::
              IsCallPath(subs, path) && path[0] == 0 && path[|path| - 1] == c && |path| == level[c] + 1
    decreases level[c]
  {
    hide Served;
    if c == 0 {
      assert IsCallPath(subs, [0]);
    } else {
      var j := EveryProgramHasACaller(level, subs, c);
      EveryProgramIsReached(level, subs, j);
      var path :| IsCallPath(subs, path) && path[0] == 0 && path[|path| - 1] == j && |path| == level[j] + 1;
      var path' := path + [c];
      assert IsCallPath(subs, path') && path'[0] == 0 && path'[|path'| - 1] == c;
    }
  }

  // ---- The generator ----

  class Program {
    var programId: nat
    var callStackLevel: nat
    var subProgramId: seq<nat>

    constructor ()
      ensures subProgramId == []
    {
      subProgramId := [];
    }

    /** The program's sub-programs become the next count ones of the pool. */
    method Take(pool: seq<nat>, start: nat, count: nat) returns (idx: nat)
      requires start + count <= |pool|
      modifies this`subProgramId
      ensures idx == start + count
      ensures subProgramId == pool[start..idx]
    {
      idx := start;
      subProgramId := [];
      for i := 0 to count
        invariant idx == start + i
        invariant subProgramId == pool[start..idx]
      {
        subProgramId := subProgramId + [pool[idx]];
        idx := idx + 1;
      }
    }
  }

  function Sum(counts: seq<nat>): nat {
    if counts == [] then 0 else Sum(counts[..|counts| - 1]) + counts[|counts| - 1]
  }

  /** A solution of the sum constraint: any n counts that add up to the total may come out. */
  method ChooseCounts(n: nat, total: nat) returns (counts: seq<nat>)
    requires n > 0
    ensures |counts| == n && Sum(counts) == total
  {
    counts := [];
    var left: nat := total;
    while |counts| < n
      invariant |counts| <= n && Sum(counts) + left == total
      invariant |counts| == n ==> left == 0
    {
      var count: nat := left;
      if |counts| < n - 1 {
        count := AtMost(left);
      }
      ghost var before := counts;
      counts := counts + [count];
      assert counts[..|counts| - 1] == before;
      left := left - count;
    }
  }

  /** Any number up to max. */
  method AtMost(max: nat) returns (k: nat)
    ensures k <= max
  {
    k := 0;
    while k < max
      invariant k <= max
    {
      var stop: bool := *;
      if stop {
        return;
      }
      k := k + 1;
    }
  }

  function PoolSize(next: seq<nat>, extra: bool): nat {
    if extra then |next| + 1 else |next|
  }

  /** The pool: the programs of the next level, one of them again if an extra one is drawn, shuffled. */
  method ChoosePool(next: seq<nat>, extra: bool) returns (pool: seq<nat>)
    requires next != []
    ensures IsPool(pool, next) && |pool| == PoolSize(next, extra)
  {
    var total := PoolSize(next, extra);
    pool := [];
    for j := 0 to total
      invariant |pool| == j
      invariant j <= |next| ==> pool == next[..j]
      invariant j == |next| + 1 ==> pool[|next|] in next && pool == next + [pool[|next|]]
    {
      if j < |next| {
        pool := pool + [next[j]];
      } else {
        var d :| 0 <= d < |next|;
        pool := pool + [next[d]];
      }
    }
    ghost var unshuffled := pool;
    pool := JalChain.Shuffle(pool);
    if total == |next| {
      assert unshuffled == next;
    }
    assert |multiset(pool)| == |multiset(unshuffled)|;
  }

  lemma ServedDependsOnLevel(level: seq<nat>, subs: seq<seq<nat>>, subs': seq<seq<nat>>, i: nat)
    requires |subs| == |subs'| == |level| && Served(level, subs, i)
    requires forall j :: 0 <= j < |level| && level[j] == i ==> subs[j] == subs'[j]
    ensures Served(level, subs', i) && Calls(subs', ProgramsAt(level, i)) == Calls(subs, ProgramsAt(level, i))
  {
    hide Calls, IsPool;
    CallsDependOnCallers(subs, subs', ProgramsAt(level, i));
  }

  lemma {:induction false} CallsDependOnCallers(subs: seq<seq<nat>>, subs': seq<seq<nat>>, callers: seq<nat>)
    requires Within(callers, |subs|) && |subs| == |subs'|
    requires forall k :: 0 <= k < |callers| ==> subs[callers[k]] == subs'[callers[k]]
    ensures Calls(subs, callers) == Calls(subs', callers)
  {
    if callers != [] {
      CallsDependOnCallers(subs, subs', callers[..|callers| - 1]);
    }
  }

  lemma {:induction false} SumGrows(counts: seq<nat>, n: nat)
    requires n <= |counts|
    ensures Sum(counts[..n]) <= Sum(counts)
    ensures n < |counts| ==> Sum(counts[..n + 1]) == Sum(counts[..n]) + counts[n]
  {
    if n < |counts| {
      assert counts[..n + 1][..n] == counts[..n];
      var front := counts[..|counts| - 1];
      if n < |front| {
        SumGrows(front, n);
        assert front[..n] == counts[..n];
      }
    } else {
      assert counts[..n] == counts;
    }
  }

  class CallStackGen {
    var programCnt: nat
    var programH: seq<Program>
    var stackLevel: seq<nat>

    ghost predicate Valid()
      reads this
    {
      |programH| == |stackLevel| == programCnt > 0 && Levels(stackLevel) && Distinct(programH)
    }

    ghost function Subs(): (subs: seq<seq<nat>>)
      reads this, programH
      ensures |subs| == |programH|
    {
      seq(|programH|, j requires 0 <= j < |programH| reads this, programH => programH[j].subProgramId)
    }

    method Init(cnt: nat)
      modifies this
      ensures programCnt == |programH| == cnt && fresh(programH)
      ensures Distinct(programH)
      ensures forall i :: 0 <= i < |programH| ==> programH[i].subProgramId == []
      ensures stackLevel == old(stackLevel)
    {
      programCnt, programH := cnt, [];
      for i := 0 to cnt
        invariant |programH| == i && fresh(programH) && programCnt == cnt
        invariant Distinct(programH)
        invariant forall j :: 0 <= j < i ==> programH[j].subProgramId == []
        invariant stackLevel == old(stackLevel)
      {
        var program := new Program();
        programH := programH + [program];
      }
    }

    /** extras tells for each level whether its pool gets an extra program. */
    method PostRandomize(extras: seq<bool>)
      requires Valid() && |extras| >= LastLevel(stackLevel)
      requires forall j :: 0 <= j < |programH| ==> programH[j].subProgramId == []
      modifies programH
      ensures Valid() && programH == old(programH) && stackLevel == old(stackLevel)
      ensures Numbered(|programH|)
      ensures CallGraph(stackLevel, Subs())
      ensures forall i :: 0 <= i < LastLevel(stackLevel) ==> CallsAreCounted(stackLevel, Subs(), i, extras[i])
    {
      hide CallGraph, Levels, CallsAreCounted;
      for i := 0 to |programH|
        invariant Numbered(i)
        invariant forall j :: 0 <= j < |programH| ==> programH[j].subProgramId == []
      {
        programH[i].programId := i;
        programH[i].callStackLevel := stackLevel[i];
      }
      ServeLevels(extras);
    }

    /** The top-down loop over the levels. */
    method ServeLevels(extras: seq<bool>)
      requires Valid() && |extras| >= LastLevel(stackLevel)
      requires forall j :: 0 <= j < |programH| ==> Subs()[j] == []
      modifies programH`subProgramId
      ensures Valid() && CallGraph(stackLevel, Subs())
      ensures forall i :: 0 <= i < LastLevel(stackLevel) ==> CallsAreCounted(stackLevel, Subs(), i, extras[i])
    {
      hide Served, Levels, Distinct, Subs;
      for i := 0 to LastLevel(stackLevel)
        invariant Valid()
        invariant forall j :: 0 <= j < |programH| && stackLevel[j] >= i ==> Subs()[j] == []
        invariant forall k :: 0 <= k < i ==>
                    Served(stackLevel, Subs(), k) && CallsAreCounted(stackLevel, Subs(), k, extras[k])
      {
        ghost var before := Subs();
        DistributeLevel(i, extras[i]);
        forall k | 0 <= k < i
          ensures Served(stackLevel, Subs(), k) && CallsAreCounted(stackLevel, Subs(), k, extras[k])
        {
          ServedDependsOnLevel(stackLevel, before, Subs(), k);
        }
      }
    }

    ghost predicate Numbered(n: nat)
      reads this, programH
    {
      && n <= |programH| == |stackLevel|
      && forall j :: 0 <= j < n ==> programH[j].programId == j && programH[j].callStackLevel == stackLevel[j]
    }

    /** One round of the top-down loop: the programs of level i share out the pool of level i + 1. */
    method DistributeLevel(i: nat, extra: bool)
      requires Valid() && i < LastLevel(stackLevel)
      modifies programH`subProgramId
      ensures Valid()
      ensures forall j :: 0 <= j < |programH| && stackLevel[j] != i ==> Subs()[j] == old(Subs())[j]
      ensures Served(stackLevel, Subs(), i) && CallsAreCounted(stackLevel, Subs(), i, extra)
    {
      var programList, nextProgramList: seq<nat> := [], [];
      for j := 0 to |stackLevel|
        invariant programList == ProgramsAmong(stackLevel, i, j)
        invariant nextProgramList == ProgramsAmong(stackLevel, i + 1, j)
      {
        if stackLevel[j] == i {
          programList := programList + [j];
        }
        if stackLevel[j] == i + 1 {
          nextProgramList := nextProgramList + [j];
        }
      }
      ShareLevel(i, programList, nextProgramList, extra);
    }

    method ShareLevel(i: nat, programList: seq<nat>, nextProgramList: seq<nat>, extra: bool)
      requires Valid() && i < LastLevel(stackLevel)
      requires programList == ProgramsAt(stackLevel, i) && nextProgramList == ProgramsAt(stackLevel, i + 1)
      modifies programH`subProgramId
      ensures Valid()
      ensures forall j :: 0 <= j < |programH| && stackLevel[j] != i ==> Subs()[j] == old(Subs())[j]
      ensures Served(stackLevel, Subs(), i) && CallsAreCounted(stackLevel, Subs(), i, extra)
    {
      hide Distinct, Subs, Calls, IsPool, ProgramsAt;
      LevelHasPrograms(stackLevel, i);
      LevelHasPrograms(stackLevel, i + 1);
      ProgramsInOrder(stackLevel, i);
      var pool := ChoosePool(nextProgramList, extra);
      var counts := ChooseCounts(|programList|, |pool|);
      ShareOut(programList, pool, counts);
    }

    /** Each program listed takes its count of the pool, in order. */
    method ShareOut(programList: seq<nat>, pool: seq<nat>, counts: seq<nat>)
      requires Valid()
      requires Within(programList, |programH|)
      requires Ascending(programList)
      requires |counts| == |programList| && Sum(counts) == |pool|
      modifies programH`subProgramId
      ensures Valid()
      ensures forall j :: 0 <= j < |programH| && j !in programList ==> Subs()[j] == old(Subs())[j]
      ensures Calls(Subs(), programList) == pool
      ensures forall k :: 0 <= k < |programList| ==> |Subs()[programList[k]]| == counts[k]
    {
      hide Distinct, Levels, Subs, Calls, Sum;
      NothingShared(Subs());
      var idx := 0;
      for j := 0 to |programList|
        invariant Valid()
        invariant idx == Sum(counts[..j]) && idx <= |pool|
        invariant forall k :: 0 <= k < |programH| && k !in programList ==> Subs()[k] == old(Subs())[k]
        invariant Calls(Subs(), programList[..j]) == pool[..idx]
        invariant forall k :: 0 <= k < j ==> |Subs()[programList[k]]| == counts[k]
      {
        SumGrows(counts, j);
        SumGrows(counts, j + 1);
        ghost var before, was := Subs(), idx;
        idx := TakeFor(programList[j], pool, idx, counts[j]);
        CallsWithOneMore(before, Subs(), programList[..j], programList[j]);
        assert programList[..j + 1] == programList[..j] + [programList[j]];
        assert pool[..idx] == pool[..was] + pool[was..idx];
      }
      assert programList[..|programList|] == programList && counts[..|counts|] == counts;
    }

    method TakeFor(id: nat, pool: seq<nat>, start: nat, count: nat) returns (idx: nat)
      requires Valid() && id < |programH| && start + count <= |pool|
      modifies programH`subProgramId
      ensures Valid()
      ensures idx == start + count
      ensures Subs() == old(Subs())[id := pool[start..idx]]
    {
      hide Levels;
      idx := programH[id].Take(pool, start, count);
    }
  }

  predicate Ascending(ps: seq<nat>) {
    forall k, m :: 0 <= k < m < |ps| ==> ps[k] < ps[m]
  }

  lemma ProgramsInOrder(level: seq<nat>, i: nat)
    ensures Ascending(ProgramsAt(level, i)) && Within(ProgramsAt(level, i), |level|)
    ensures forall j :: j in ProgramsAt(level, i) ==> level[j] == i
  {
    ProgramsAreAll(level, i, |level|);
  }

  lemma LevelHasPrograms(level: seq<nat>, i: nat)
    requires Levels(level) && i <= LastLevel(level)
    ensures ProgramsAt(level, i) != []
  {
    EveryLevelIsUsed(level, i, |level| - 1);
    ProgramsAreAll(level, i, |level|);
  }

  lemma NothingShared(subs: seq<seq<nat>>)
    ensures Calls(subs, []) == [] && Sum([]) == 0
  {
  }

  lemma CallsWithOneMore(subs: seq<seq<nat>>, subs': seq<seq<nat>>, callers: seq<nat>, j: nat)
    requires |subs| == |subs'| && j < |subs| && Within(callers, |subs|)
    requires subs' == subs[j := subs'[j]] && j !in callers
    ensures Within(callers + [j], |subs|)
    ensures Calls(subs', callers + [j]) == Calls(subs, callers) + subs'[j]
  {
    CallsDependOnCallers(subs, subs', callers);
    assert (callers + [j])[..|callers|] == callers;
  }
}
