/** The back-to-back jump stream (riscv_jal_instr in pygen_src/riscv_directed_instr_lib.py): one start
    jump, n jumps linked in a shuffled order, and an end instruction. */
module JalChain {
  import opened Common
  import opened Asm
  import opened InstrStreams

  ghost predicate IsPermutation(order: seq<nat>) {
    && (forall i :: 0 <= i < |order| ==> order[i] < |order|)
    && Distinct(order)
  }

  /** The operand of the jump that is taken i-th: the next jump in order, forwards or backwards. */
  function JumpRef(order: seq<nat>, i: nat): Ref
    requires i < |order|
  {
    if i == |order| - 1 then Forward(|order|)
    else if order[i + 1] > order[i] then Forward(order[i + 1])
    else Backward(order[i + 1])
  }

  /** Jump j carries label j, so the i-th jump taken stands order[i] + 1 lines behind the start. */
  ghost predicate IsChain(d: seq<Line>, order: seq<nat>) {
    var n := |order|;
    && n > 0
    && IsPermutation(order)
    && |d| == n + 2
    && d[0].category == Jump && d[0].immStr == Forward(order[0]) && (d[0].hasLabel ==> !d[0].lbl.Numeric?)
    && (forall k :: 1 <= k <= n ==> d[k].category == Jump && d[k].hasLabel && d[k].lbl == Numeric(k - 1))
    && (forall i {:trigger JumpRef(order, i)} :: 0 <= i < n ==> d[order[i] + 1].immStr == JumpRef(order, i))
    && d[n + 1].category != Jump && d[n + 1].hasLabel && d[n + 1].lbl == Numeric(n)
  }

  /** The lines a chain visits, as offsets from its start. */
  ghost function ChainPath(order: seq<nat>): (path: seq<nat>)
    ensures |path| == |order| + 2
  {
    [0] + seq(|order|, i requires 0 <= i < |order| => order[i] + 1) + [|order| + 1]
  }

  /** p carries the lines d at offset s. */
  ghost predicate At(p: seq<Line>, s: nat, d: seq<Line>) {
    s + |d| <= |p| && forall i :: 0 <= i < |d| ==> p[s + i] == d[i]
  }

  lemma ChainForward(p: seq<Line>, s: nat, d: seq<Line>, order: seq<nat>, a: nat, b: nat)
    requires At(p, s, d) && IsChain(d, order) && a < b <= |order| + 1
    ensures ResolvesTo(p, s + a, Forward(b - 1), s + b)
  {
    assert p[s + b] == d[b];
    forall j | s + a < j < s + b
      ensures !Defines(p[j], b - 1)
    {
      assert p[s + (j - s)] == d[j - s];
    }
  }

  lemma ChainBackward(p: seq<Line>, s: nat, d: seq<Line>, order: seq<nat>, a: nat, b: nat)
    requires At(p, s, d) && IsChain(d, order) && 1 <= b <= a <= |order| + 1
    ensures ResolvesTo(p, s + a, Backward(b - 1), s + b)
  {
    assert p[s + b] == d[b];
    forall j | s + b < j <= s + a
      ensures !Defines(p[j], b - 1)
    {
      assert p[s + (j - s)] == d[j - s];
    }
  }

  /** Wherever a chain is embedded, and whatever numeric labels the rest of the text reuses, each of
      its jumps leads to exactly the next line of its path. */
  lemma JumpGoesToNext(p: seq<Line>, s: nat, d: seq<Line>, order: seq<nat>, i: nat)
    requires At(p, s, d) && IsChain(d, order) && i <= |order|
    ensures s + ChainPath(order)[i] < |p| && p[s + ChainPath(order)[i]].category == Jump
    ensures ResolvesTo(p, s + ChainPath(order)[i], p[s + ChainPath(order)[i]].immStr, s + ChainPath(order)[i + 1])
  {
    var n := |order|;
    var a, b := ChainPath(order)[i], ChainPath(order)[i + 1];
    assert p[s + a] == d[a];
    if i == 0 {
      ChainForward(p, s, d, order, a, b);
    } else {
      assert a == order[i - 1] + 1 && d[order[i - 1] + 1].immStr == JumpRef(order, i - 1);
      if i == n || b > a {
        ChainForward(p, s, d, order, a, b);
      } else {
        ChainBackward(p, s, d, order, a, b);
      }
    }
  }

  lemma ChainStep(p: seq<Line>, s: nat, d: seq<Line>, order: seq<nat>, i: nat, x: nat)
    requires At(p, s, d) && IsChain(d, order) && i <= |order|
    ensures Step(p, s + ChainPath(order)[i], x) <==> x == s + ChainPath(order)[i + 1]
  {
    JumpGoesToNext(p, s, d, order, i);
    var pc := s + ChainPath(order)[i];
    if ResolvesTo(p, pc, p[pc].immStr, x) {
      ResolutionIsUnique(p, pc, p[pc].immStr, x, s + ChainPath(order)[i + 1]);
    }
  }

  lemma ChainPathVisits(order: seq<nat>, j: nat)
    requires IsPermutation(order) && j < |order|
    ensures exists i :: 0 <= i < |order| && order[i] == j
  {
    if forall i :: 0 <= i < |order| ==> order[i] != j {
      MissingValue(order, |order|, j);
    }
  }

  lemma MissingValue(s: seq<nat>, n: nat, j: nat)
    requires Distinct(s) && j < n
    requires forall i :: 0 <= i < |s| ==> s[i] < n && s[i] != j
    ensures |s| < n
  {
    Pigeonhole(s + [j], n);
  }

  lemma {:induction false} Pigeonhole(s: seq<nat>, n: nat)
    requires Distinct(s)
    requires forall i :: 0 <= i < |s| ==> s[i] < n
    ensures |s| <= n
  {
    if s != [] {
      assert s[0] < n;
      if i :| 0 <= i < |s| && s[i] == n - 1 {
        var rest := s[..i] + s[i + 1..];
        forall a | 0 <= a < |rest|
          ensures rest[a] < n - 1
        {
          assert rest[a] == s[if a < i then a else a + 1];
        }
        Pigeonhole(rest, n - 1);
      } else {
        Pigeonhole(s, n - 1);
      }
    }
  }

  /** Running an embedded chain is forced: a run that starts at its first line follows the path until
      the end instruction, so every jump is visited exactly once and then the end is reached. */
  lemma {:induction false} ChainRunIsForced(p: seq<Line>, s: nat, d: seq<Line>, order: seq<nat>, run: seq<nat>, i: nat)
    requires At(p, s, d) && IsChain(d, order) && IsRun(p, run) && run[0] == s
    requires i < |run| && i < |order| + 2
    ensures run[i] == s + ChainPath(order)[i]
    ensures i == |run| - 1 && i <= |order| ==> CanStep(p, run[i])
  {
    if i > 0 {
      ChainRunIsForced(p, s, d, order, run, i - 1);
      assert Step(p, run[i - 1], run[i - 1 + 1]);
      ChainStep(p, s, d, order, i - 1, run[i]);
    }
    if i <= |order| {
      ChainStep(p, s, d, order, i, s + ChainPath(order)[i + 1]);
    }
  }

  /** The path visits each line of the chain exactly once. */
  lemma ChainPathIsBijective(order: seq<nat>)
    requires IsPermutation(order)
    ensures Distinct(ChainPath(order))
    ensures forall k :: 0 <= k < |order| + 2 ==> k in ChainPath(order)
  {
    var n := |order|;
    var path := ChainPath(order);
    forall k | 0 <= k < n + 2
      ensures k in path
    {
      if k == 0 {
        assert path[0] == 0;
      } else if k == n + 1 {
        assert path[n + 1] == n + 1;
      } else {
        ChainPathVisits(order, k - 1);
        var i :| 0 <= i < n && order[i] == k - 1;
        assert path[i + 1] == k;
      }
    }
  }

  /** random.shuffle: any permutation may come out. */
  method Shuffle<T>(s: seq<T>) returns (t: seq<T>)
    ensures multiset(t) == multiset(s)
  {
    t := s;
    var i := |t| - 1;
    while i > 0
      invariant |t| == |s| && i < |t|
      invariant multiset(t) == multiset(s)
    {
      var j :| 0 <= j <= i;
      t := t[i := t[j]][j := t[i]];
      i := i - 1;
    }
  }

  lemma ShuffledRangeIsPermutation(s: seq<nat>, t: seq<nat>)
    requires multiset(s) == multiset(t)
    requires forall i :: 0 <= i < |s| ==> s[i] == i
    ensures IsPermutation(t) && |t| == |s|
  {
    assert |multiset(s)| == |s| && |multiset(t)| == |t|;
    forall i | 0 <= i < |t|
      ensures t[i] < |t|
    {
      assert t[i] in multiset(t);
      assert t[i] in s;
    }
    forall i, j | 0 <= i < j < |t|
      ensures t[i] != t[j]
    {
      RangeCountsOnce(s, t[i]);
      assert t == t[..i] + [t[i]] + t[i + 1..j] + [t[j]] + t[j + 1..];
    }
  }

  lemma RangeCountsOnce(s: seq<nat>, v: nat)
    requires forall i :: 0 <= i < |s| ==> s[i] == i
    ensures multiset(s)[v] <= 1
  {
    if v < |s| {
      assert s == s[..v] + [v] + s[v + 1..];
    }
  }

  predicate Sealed(l: Line) {
    l.atomic && l.hasLabel && !l.isLocalNumeric && !l.branchAssigned && !l.isIllegal
  }

  lemma ChainFromParts(start: Line, jumps: seq<Line>, end: Line, order: seq<nat>)
    requires |jumps| == |order| > 0 && IsPermutation(order)
    requires start.category == Jump && start.immStr == Forward(order[0]) && start.lbl.Named?
    requires forall k :: 0 <= k < |jumps| ==>
               jumps[k].category == Jump && jumps[k].hasLabel && jumps[k].lbl == Numeric(k)
    requires forall i {:trigger JumpRef(order, i)} :: 0 <= i < |order| ==> jumps[order[i]].immStr == JumpRef(order, i)
    requires end.category != Jump && end.hasLabel && end.lbl == Numeric(|order|)
    ensures IsChain([start] + jumps + [end], order)
  {
    var d := [start] + jumps + [end];
    assert forall k :: 1 <= k <= |order| ==> d[k] == jumps[k - 1];
  }

  lemma SealedChain(was: seq<Line>, now: seq<Line>, order: seq<nat>)
    requires IsChain(was, order) && |now| == |was| && was[0].lbl.Named?
    requires forall k :: 0 <= k < |was| ==> now[k] == was[k].(hasLabel := true, atomic := true)
    ensures IsChain(now, order)
  {
    forall i {:trigger JumpRef(order, i)} | 0 <= i < |order|
      ensures now[order[i] + 1].immStr == JumpRef(order, i)
    {
      assert was[order[i] + 1].immStr == JumpRef(order, i);
    }
  }

  class JalInstr {
    var lbl: Label
    var numOfJumpInstr: nat
    var jump: seq<Instr>
    var jumpStart: Instr
    var jumpEnd: Instr
    var instrList: seq<Instr>

    constructor (name: string, n: nat)
      ensures lbl == Named(name) && numOfJumpInstr == n && instrList == []
    {
      lbl, numOfJumpInstr := Named(name), n;
      jump, instrList := [], [];
      jumpStart := new Instr(Jump);
      jumpEnd := new Instr(Other);
    }

    method PostRandomize() returns (ghost order: seq<nat>)
      requires numOfJumpInstr > 0 && instrList == [] && lbl.Named?
      modifies this
      ensures |order| == numOfJumpInstr == old(numOfJumpInstr) && lbl == old(lbl)
      ensures |instrList| == |order| + 2 && instrList[0].lbl == lbl
      ensures fresh(instrList) && Distinct(instrList)
      ensures IsChain(Views(instrList), order)
      ensures forall i :: 0 <= i < |instrList| ==> Sealed(instrList[i].View())
    {
      hide IsChain, IsPermutation, JumpRef, Sealed;
      jumpStart, jump, jumpEnd, order := Build(lbl, numOfJumpInstr);
      instrList := instrList + [jumpStart];
      instrList := instrList + jump;
      instrList := instrList + [jumpEnd];
      SealChain(jumpStart, jump, jumpEnd, instrList, order);
    }

    /** Labels every line of the chain and makes it atomic. */
    static method SealChain(start: Instr, jumps: seq<Instr>, end: Instr, all: seq<Instr>, ghost order: seq<nat>)
      requires all == [start] + jumps + [end]
      requires |order| == |jumps| > 0 && IsPermutation(order)
      requires start.View() == Fresh(Jump).(immStr := Forward(order[0]), lbl := start.lbl) && start.lbl.Named?
      requires forall k :: 0 <= k < |jumps| ==>
                 jumps[k].View() == Fresh(Jump).(lbl := Numeric(k), immStr := jumps[k].immStr)
      requires forall i {:trigger JumpRef(order, i)} :: 0 <= i < |order| ==> jumps[order[i]].immStr == JumpRef(order, i)
      requires end.category != Jump && end.View() == Fresh(end.category).(lbl := Numeric(|order|))
      modifies all`hasLabel, all`atomic
      ensures IsChain(Views(all), order)
      ensures forall i :: 0 <= i < |all| ==> Sealed(all[i].View())
    {
      ghost var was := Views(all);
      ghost var views := Views(jumps);
      ChainFromParts(start.View(), views, end.View(), order);
      assert was == [start.View()] + views + [end.View()];
      hide IsChain, JumpRef, IsPermutation;
      SealAtomic(all);
      SealedChain(was, Views(all), order);
    }

    static method Build(lbl: Label, n: nat)
      returns (start: Instr, jumps: seq<Instr>, end: Instr, ghost order: seq<nat>)
      requires n > 0 && lbl.Named?
      ensures |order| == n == |jumps| && IsPermutation(order)
      ensures fresh(start) && fresh(jumps) && fresh(end)
      ensures Distinct([start] + jumps + [end])
      ensures start.View() == Fresh(Jump).(immStr := Forward(order[0]), lbl := lbl)
      ensures forall k :: 0 <= k < n ==>
                jumps[k].View() == Fresh(Jump).(lbl := Numeric(k), immStr := jumps[k].immStr)
      ensures forall i {:trigger JumpRef(order, i)} :: 0 <= i < n ==> jumps[order[i]].immStr == JumpRef(order, i)
      ensures end.category != Jump && end.View() == Fresh(end.category).(lbl := Numeric(n))
    {
      var ids: seq<nat> := seq(n, i => i);
      var shuffled := Shuffle(ids);
      ShuffledRangeIsPermutation(ids, shuffled);
      order := shuffled;
      start := new Instr(Jump);
      start.immStr := Forward(shuffled[0]);
      start.lbl := lbl;
      var category :| category == Branch || category == Other;
      end := new Instr(category);
      end.lbl := Numeric(n);
      jumps := NewJumps(n);
      LinkJumps(jumps, shuffled);
    }

    static method NewJumps(n: nat) returns (jump: seq<Instr>)
      ensures |jump| == n && fresh(jump) && Distinct(jump)
      ensures forall j :: 0 <= j < n ==> jump[j].View() == Fresh(Jump).(lbl := Numeric(j))
    {
      jump := [];
      for i := 0 to n
        invariant |jump| == i && fresh(jump) && Distinct(jump)
        invariant forall j :: 0 <= j < i ==> jump[j].View() == Fresh(Jump).(lbl := Numeric(j))
      {
        var instr := new Instr(Jump);
        instr.lbl := Numeric(i);
        jump := jump + [instr];
      }
    }

    static method LinkJumps(jump: seq<Instr>, order: seq<nat>)
      requires IsPermutation(order) && |jump| == |order| && Distinct(jump)
      modifies jump`immStr
      ensures forall i {:trigger JumpRef(order, i)} :: 0 <= i < |order| ==> jump[order[i]].immStr == JumpRef(order, i)
    {
      for i := 0 to |order|
        invariant forall k {:trigger JumpRef(order, k)} :: 0 <= k < i ==> jump[order[k]].immStr == JumpRef(order, k)
      {
        var here := jump[order[i]];
        if i == |order| - 1 {
          here.immStr := Forward(|order|);
        } else if order[i + 1] > order[i] {
          here.immStr := Forward(order[i + 1]);
        } else {
          here.immStr := Backward(order[i + 1]);
        }
      }
    }

    static method SealAtomic(s: seq<Instr>)
      modifies s`hasLabel, s`atomic
      ensures forall i :: 0 <= i < |s| ==> s[i].hasLabel && s[i].atomic
    {
      for i := 0 to |s|
        invariant forall k :: 0 <= k < i ==> s[k].hasLabel && s[k].atomic
      {
        s[i].hasLabel, s[i].atomic := true, true;
      }
    }
  }
}
