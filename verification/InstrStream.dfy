/** Instruction objects and the streams that insert and mix lists of them
    (pygen_src/isa/riscv_instr.py, pygen_src/riscv_instr_stream.py). */
module InstrStreams {
  import opened Common
  import opened Asm

  /** Python's way out of a call: a normal return, sys.exit, or an IndexError/ValueError. */
  datatype Status = Done | Exits | Raises

  class Instr {
    var category: Category
    var atomic: bool
    var hasLabel: bool
    var lbl: Label
    var isLocalNumeric: bool
    var immStr: Ref
    var branchAssigned: bool
    var isIllegal: bool
    var idx: int

    constructor (category: Category)
      ensures View() == Fresh(category)
    {
      this.category := category;
      atomic, hasLabel, lbl, isLocalNumeric := false, true, Unlabelled, false;
      immStr, branchAssigned, isIllegal, idx := Literal(""), false, false, -1;
    }

    function View(): Line
      reads this
    {
      Line(category, atomic, hasLabel, lbl, isLocalNumeric, immStr, branchAssigned, isIllegal, idx)
    }
  }

  /** A newly created instruction: labelled (with no text yet), not atomic, nothing assigned. */
  function Fresh(category: Category): Line {
    Line(category, false, true, Unlabelled, false, Literal(""), false, false, -1)
  }

  ghost function Views(s: seq<Instr>): (v: seq<Line>)
    reads s
    ensures |v| == |s| && forall i :: 0 <= i < |s| ==> v[i] == s[i].View()
  {
    seq(|s|, i requires 0 <= i < |s| reads s => s[i].View())
  }

  /** What a random insertion may do: the new block goes in front of some non-atomic line. */
  ghost predicate InsertedBefore(was: seq<Line>, block: seq<Line>, at: nat, now: seq<Line>) {
    && at < |was|
    && !was[at].atomic
    && now == was[..at] + block + was[at..]
  }

  ghost function Atomics(s: seq<Instr>): (a: seq<bool>)
    reads s
    ensures |a| == |s| && forall i :: 0 <= i < |s| ==> a[i] == s[i].atomic
  {
    seq(|s|, i requires 0 <= i < |s| reads s => s[i].atomic)
  }

  /** Where a search from start puts an instruction: in front of the next non-atomic line, but behind
      the list when that search moves on as far as the last line. */
  ghost predicate RandomPlace(atomic: seq<bool>, start: nat, at: nat) {
    var last := |atomic| - 1;
    && start <= last
    && if at <= last then
         start <= at && !atomic[at] && (at == last ==> start == last) && forall j :: start <= j < at ==> atomic[j]
       else
         at == |atomic| && start < last && forall j :: start <= j < last ==> atomic[j]
  }

  predicate IsSorted(s: seq<nat>) {
    forall i, j :: 0 <= i < j < |s| ==> s[i] <= s[j]
  }

  predicate AtMost(s: seq<nat>, bound: nat) {
    forall i :: 0 <= i < |s| ==> s[i] <= bound
  }

  /** Python's list.insert. */
  function InsertAt<T>(m: seq<T>, at: nat, x: T): (r: seq<T>)
    requires at <= |m|
    ensures |r| == |m| + 1 && r[at] == x
    ensures forall k :: 0 <= k < at ==> r[k] == m[k]
    ensures forall k :: at <= k < |m| ==> r[k + 1] == m[k]
  {
    m[..at] + [x] + m[at..]
  }

  /** Item i can be inserted at positions[i] + i once i items have been added. */
  predicate Insertable(positions: seq<int>, bound: nat) {
    forall i :: 0 <= i < |positions| ==> -i <= positions[i] <= bound
  }

  /** The list after new item i has been inserted at positions[i] + i, one item after another. */
  ghost function Merged<T>(was: seq<T>, added: seq<T>, positions: seq<int>): (m: seq<T>)
    requires |added| == |positions| && Insertable(positions, |was|)
    ensures |m| == |was| + |added|
  {
    if added == [] then was
    else
      var n := |added| - 1;
      var m := Merged(was, added[..n], positions[..n]);
      InsertAt(m, positions[n] + n, added[n])
  }

  /** The positions with contained: the first one, and the last one of several, are overwritten. */
  function Contained(drawn: seq<nat>, cnt: nat): (positions: seq<int>)
    requires drawn != []
    ensures |positions| == |drawn|
  {
    var first: seq<int> := drawn[0 := 0];
    if |drawn| > 1 then first[|drawn| - 1 := cnt - 1] else first
  }

  /** Where old item j ends up: behind the new items whose position is at most j. */
  ghost function Shift(j: nat, positions: seq<nat>): (k: nat)
    ensures j <= k <= j + |positions|
  {
    if positions == [] then j
    else Shift(j, positions[..|positions| - 1]) + if positions[|positions| - 1] <= j then 1 else 0
  }

  /** Mixing is an order-preserving merge: new item i stands exactly at positions[i] + i, old item j
      at Shift(j), both orders are kept, and no place is used twice. */
  lemma MixIsMerge<T>(was: seq<T>, added: seq<T>, positions: seq<nat>)
    requires |added| == |positions| && IsSorted(positions) && AtMost(positions, |was|)
    ensures forall i :: 0 <= i < |added| ==>
              positions[i] + i < |was| + |added| && Merged(was, added, positions)[positions[i] + i] == added[i]
    ensures forall j :: 0 <= j < |was| ==>
              Shift(j, positions) < |was| + |added| && Merged(was, added, positions)[Shift(j, positions)] == was[j]
    ensures forall i, j :: 0 <= i < j < |was| ==> Shift(i, positions) < Shift(j, positions)
    ensures forall i, j :: 0 <= i < |added| && 0 <= j < |was| ==> Shift(j, positions) != positions[i] + i
  {
    forall i | 0 <= i < |added|
      ensures positions[i] + i < |was| + |added| && Merged(was, added, positions)[positions[i] + i] == added[i]
    {
      NewItemPlace(was, added, positions, i);
    }
    forall j | 0 <= j < |was|
      ensures Shift(j, positions) < |was| + |added| && Merged(was, added, positions)[Shift(j, positions)] == was[j]
    {
      OldItemPlace(was, added, positions, j);
    }
    forall i, j | 0 <= i < j < |was|
      ensures Shift(i, positions) < Shift(j, positions)
    {
      ShiftGrows(i, j, positions);
    }
    forall i, j | 0 <= i < |added| && 0 <= j < |was|
      ensures Shift(j, positions) != positions[i] + i
    {
      ShiftBounds(j, positions, i);
    }
  }

  lemma {:induction false} NewItemPlace<T>(was: seq<T>, added: seq<T>, positions: seq<nat>, i: nat)
    requires |added| == |positions| && IsSorted(positions) && AtMost(positions, |was|)
    requires i < |added|
    ensures positions[i] + i < |was| + |added|
    ensures Merged(was, added, positions)[positions[i] + i] == added[i]
    decreases |added|
  {
    hide InsertAt;
    var n := |added| - 1;
    if i < n {
      NewItemPlace(was, added[..n], positions[..n], i);
      assert positions[i] <= positions[n];
    }
  }

  lemma {:induction false} OldItemPlace<T>(was: seq<T>, added: seq<T>, positions: seq<nat>, j: nat)
    requires |added| == |positions| && IsSorted(positions) && AtMost(positions, |was|)
    requires j < |was|
    ensures Shift(j, positions) < |was| + |added|
    ensures Merged(was, added, positions)[Shift(j, positions)] == was[j]
    decreases |added|
  {
    if added != [] {
      hide InsertAt, IsSorted, AtMost;
      var n := |added| - 1;
      PrefixIsSorted(positions, |was|);
      OldItemPlace(was, added[..n], positions[..n], j);
      ShiftBefore(j, positions);
      OldItemMoves(Merged(was, added[..n], positions[..n]), positions[n] + n, added[n], Shift(j, positions[..n]));
    }
  }

  lemma PrefixIsSorted(positions: seq<nat>, bound: nat)
    requires positions != [] && IsSorted(positions) && AtMost(positions, bound)
    ensures IsSorted(positions[..|positions| - 1]) && AtMost(positions[..|positions| - 1], bound)
    ensures positions[|positions| - 1] <= bound
  {
  }

  lemma OldItemMoves<T>(m: seq<T>, at: nat, x: T, k: nat)
    requires at <= |m| && k < |m|
    ensures InsertAt(m, at, x)[if at <= k then k + 1 else k] == m[k]
  {
  }

  /** With contained the first position is 0 and the last one is that of the last old item. The first line
      is then the first new item. The last new item, however, always ends up on the last line but one, and
      behind it stands the last old item, or the new item before it if that was drawn for the very end. So
      the new items keep their order exactly when no interior position is the length of the old list. */
  lemma ContainedMixIsNotContained<T>(was: seq<T>, added: seq<T>, drawn: seq<nat>)
    requires was != [] && |added| == |drawn| >= 2 && IsSorted(drawn) && AtMost(drawn, |was|)
    ensures var positions, n := Contained(drawn, |was|), |drawn| - 1;
            && Insertable(positions, |was|)
            && positions[0] == 0 && positions[n] == |was| - 1
            && (forall i :: 0 < i < n ==> positions[i] == drawn[i])
            && var m := Merged(was, added, positions);
            && m[0] == added[0] && m[|m| - 2] == added[n]
            && m[|m| - 1] == (if positions[n - 1] == |was| then added[n - 1] else was[|was| - 1])
            && (positions[n - 1] < |was| ==> Increases(positions))
            && (positions[n - 1] == |was| ==> !Increases(positions))
  {
    var n := |drawn| - 1;
    var positions: seq<nat> := drawn[0 := 0][n := |was| - 1];
    assert positions == Contained(drawn, |was|);
    ContainedMix(was, added, positions);
  }

  predicate Increases(positions: seq<int>) {
    forall i, j :: 0 <= i < j < |positions| ==> positions[i] <= positions[j]
  }

  lemma ContainedMix<T>(was: seq<T>, added: seq<T>, positions: seq<nat>)
    requires was != [] && |added| == |positions| >= 2 && AtMost(positions, |was|)
    requires var n := |positions| - 1; IsSorted(positions[..n]) && positions[0] == 0 && positions[n] == |was| - 1
    ensures var m, n := Merged(was, added, positions), |positions| - 1;
            && m[0] == added[0] && m[|m| - 2] == added[n]
            && m[|m| - 1] == (if positions[n - 1] == |was| then added[n - 1] else was[|was| - 1])
    ensures IsSorted(positions) <==> positions[|positions| - 2] < |was|
  {
    hide InsertAt;
    var n, last := |positions| - 1, |was| - 1;
    NewItemPlace(was, added[..n], positions[..n], 0);
    if positions[n - 1] == |was| {
      NewItemPlace(was, added[..n], positions[..n], n - 1);
    } else {
      OldItemPlace(was, added[..n], positions[..n], last);
      ShiftBounds(last, positions[..n], n - 1);
    }
    var before := Merged(was, added[..n], positions[..n]);
    assert Merged(was, added, positions) == InsertAt(before, last + n, added[n]);
  }

  /** Position i is at most j exactly when old item j is pushed behind new item i. */
  lemma {:induction false} ShiftBounds(j: nat, positions: seq<nat>, i: nat)
    requires IsSorted(positions) && i < |positions|
    ensures positions[i] <= j ==> Shift(j, positions) >= j + i + 1
    ensures positions[i] > j ==> Shift(j, positions) <= j + i
    decreases |positions|
  {
    var n := |positions| - 1;
    if i < n {
      ShiftBounds(j, positions[..n], i);
    } else if n > 0 {
      ShiftBounds(j, positions[..n], n - 1);
    }
  }

  /** Against the last new item: old item j stood behind it exactly when the item's position is at most j. */
  lemma {:induction false} ShiftBefore(j: nat, positions: seq<nat>)
    requires IsSorted(positions) && positions != []
    ensures var n := |positions| - 1;
            positions[n] <= j <==> positions[n] + n <= Shift(j, positions[..n])
  {
    var n := |positions| - 1;
    if n > 0 {
      ShiftBounds(j, positions[..n], n - 1);
    }
  }

  lemma {:induction false} ShiftGrows(i: nat, j: nat, positions: seq<nat>)
    requires i < j
    ensures Shift(i, positions) < Shift(j, positions)
    decreases |positions|
  {
    if positions != [] {
      ShiftGrows(i, j, positions[..|positions| - 1]);
    }
  }

  /** The longest prefix that does not end in a branch. */
  ghost function TrimBranches(s: seq<Line>): (t: seq<Line>)
    ensures t <= s
    ensures t != [] ==> !t[|t| - 1].category.Branch?
    ensures forall i :: |t| <= i < |s| ==> s[i].category.Branch?
  {
    if s != [] && s[|s| - 1].category.Branch? then TrimBranches(s[..|s| - 1]) else s
  }

  class InstrStream {
    var instrList: seq<Instr>

    constructor ()
      ensures instrList == []
    {
      instrList := [];
    }

    /** Inserts one instruction. Index -1 stands for a random place; start is the first index drawn. */
    method InsertInstr(instr: Instr, idx: int) returns (status: Status, ghost at: nat, ghost start: nat)
      modifies this
      ensures idx != -1 ==> (status.Done? <==> 0 <= idx <= |old(instrList)|) && !status.Raises?
      ensures idx != -1 && status.Done? ==> at == idx
      ensures idx == -1 ==> !status.Exits?
      ensures idx == -1 && status.Raises? ==>
                |old(instrList)| == 0 || (start == |old(instrList)| - 1 && old(instrList)[start].atomic)
      ensures idx == -1 && status.Done? ==> RandomPlace(old(Atomics(instrList)), start, at)
      ensures status.Done? ==>
                at <= |old(instrList)| && instrList == InsertAt(old(instrList), at, instr)
      ensures !status.Done? ==> instrList == old(instrList)
    {
      var cnt := |instrList|;
      start, at := 0, 0;
      var i := idx;
      if idx == -1 {
        if cnt == 0 {
          return Raises, 0, 0;
        }
        i :| 0 <= i < cnt;
        start := i;
        while instrList[i].atomic
          invariant start <= i < cnt
          invariant forall j :: start <= j < i ==> instrList[j].atomic
          invariant i != start ==> i < cnt - 1
          decreases cnt - i
        {
          i := i + 1;
          if i == cnt - 1 {
            at := cnt;
            assert instrList + [instr] == instrList[..cnt] + [instr] + instrList[cnt..];
            instrList := instrList + [instr];
            return Done, at, start;
          }
          if i == cnt {
            return Raises, 0, start;
          }
        }
      } else if idx > cnt || idx < 0 {
        return Exits, 0, 0;
      }
      at := i;
      instrList := instrList[..i] + [instr] + instrList[i..];
      return Done, at, start;
    }

    /** Inserts a list of instructions, at a random non-atomic place when the index is -1. */
    method InsertInstrStream(newInstr: seq<Instr>, idx: int, replace: bool) returns (status: Status, ghost at: nat)
      modifies this, if replace then newInstr else []
      ensures old(instrList) == [] ==> status.Done? && instrList == newInstr
      ensures old(instrList) != [] && idx == -1 && !replace ==>
                (status.Done? <==> exists i :: 0 <= i < |old(instrList)| && !old(instrList[i].atomic))
      ensures old(instrList) != [] && idx == -1 && status.Done? ==>
                at < |old(instrList)| && !old(instrList[at].atomic)
      ensures old(instrList) != [] && idx != -1 && status.Done? ==> at == idx
      ensures old(instrList) != [] && idx != -1 ==> (status.Exits? <==> !(0 <= idx <= |old(instrList)|))
      ensures old(instrList) != [] && status.Done? ==>
                && at <= |old(instrList)|
                && (replace ==> at < |old(instrList)| && newInstr != [])
                && instrList == old(instrList)[..at] + newInstr + old(instrList)[if replace then at + 1 else at..]
      ensures old(instrList) != [] && status.Done? && replace ==>
                newInstr[0].View() == old(newInstr[0].View()).(lbl := old(instrList[at].lbl),
                                                               hasLabel := old(instrList[at].hasLabel))
      ensures !status.Done? ==> instrList == old(instrList)
      ensures status.Raises? ==> replace && (newInstr == [] || idx == |old(instrList)|)
    {
      var cnt := |instrList|;
      at := 0;
      if cnt == 0 {
        instrList := newInstr;
        return Done, 0;
      }
      var i := idx;
      if idx == -1 {
        i :| 0 <= i < cnt;
        for _ := 0 to 10
          invariant 0 <= i < cnt
        {
          if instrList[i].atomic {
            break;
          }
          i :| 0 <= i < cnt;
        }
        if instrList[i].atomic {
          for k := 0 to cnt
            invariant 0 <= i < cnt && instrList[i].atomic
            invariant forall j :: 0 <= j < k ==> instrList[j].atomic
          {
            if !instrList[k].atomic {
              i := k;
              break;
            }
          }
          if instrList[i].atomic {
            return Exits, 0;
          }
        }
      } else if idx > cnt || idx < 0 {
        return Exits, 0;
      }
      at := i;
      if replace {
        if i == cnt || newInstr == [] {
          return Raises, at;
        }
        newInstr[0].lbl, newInstr[0].hasLabel := instrList[i].lbl, instrList[i].hasLabel;
        instrList := instrList[..i] + newInstr + instrList[i + 1..];
      } else {
        instrList := instrList[..i] + newInstr + instrList[i..];
      }
      return Done, at;
    }

    /** Mixes newInstr into the list at random places; the ghost result holds the places used. */
    method MixInstrStream(newInstr: seq<Instr>, contained: bool) returns (status: Status, ghost positions: seq<int>)
      modifies this
      ensures status == if contained && newInstr == [] then Raises else Done
      ensures status.Raises? ==> instrList == old(instrList)
      ensures status.Done? ==>
                && |positions| == |newInstr| && Insertable(positions, |old(instrList)|)
                && instrList == Merged(old(instrList), newInstr, positions)
      ensures status.Done? ==>
                exists drawn: seq<nat> ::
                  && |drawn| == |newInstr| && IsSorted(drawn) && AtMost(drawn, |old(instrList)|)
                  && positions == if contained then Contained(drawn, |old(instrList)|) else drawn
    {
      var cnt := |instrList|;
      var drawn := DrawSorted(|newInstr|, cnt);
      if contained && newInstr == [] {
        return Raises, [];
      }
      var places: seq<int> := if contained then Contained(drawn, cnt) else drawn;
      InsertAll(newInstr, places);
      return Done, places;
    }

    /** The sorted result of drawing n positions: any such list may come out. */
    static method DrawSorted(n: nat, max: nat) returns (positions: seq<nat>)
      ensures |positions| == n && IsSorted(positions) && AtMost(positions, max)
    {
      positions := [];
      var least: nat := 0;
      while |positions| < n
        invariant |positions| <= n && least <= max && IsSorted(positions) && AtMost(positions, max)
        invariant forall i :: 0 <= i < |positions| ==> positions[i] <= least
      {
        var position: nat :| least <= position <= max;
        least := position;
        positions := positions + [least];
      }
    }

    method InsertAll(newInstr: seq<Instr>, positions: seq<int>)
      requires |positions| == |newInstr| && Insertable(positions, |instrList|)
      modifies this
      ensures instrList == Merged(old(instrList), newInstr, positions)
    {
      hide InsertAt;
      ghost var was := instrList;
      for i := 0 to |newInstr|
        invariant i <= |positions| && Insertable(positions[..i], |was|)
        invariant instrList == Merged(was, newInstr[..i], positions[..i])
      {
        assert newInstr[..i + 1][..i] == newInstr[..i] && positions[..i + 1][..i] == positions[..i];
        var status, _, _ := InsertInstr(newInstr[i], positions[i] + i);
      }
      assert newInstr[..|newInstr|] == newInstr && positions[..|newInstr|] == positions;
    }

    /** Generates cnt random branches and straight-line instructions and drops the branches at the end. */
    method GenInstr(cnt: nat) returns (status: Status, ghost generated: seq<Line>)
      modifies this
      ensures status == if cnt == 0 then Raises else Done
      ensures |generated| == cnt
      ensures forall i :: 0 <= i < cnt ==> generated[i] == Fresh(Branch) || generated[i] == Fresh(Other)
      ensures fresh(instrList) && Distinct(instrList)
      ensures status.Done? ==> Views(instrList) == TrimBranches(generated)
    {
      instrList, generated := RandomInstrs(cnt);
      if cnt == 0 {
        return Raises, generated;
      }
      TrimTail();
      return Done, generated;
    }

    static method RandomInstrs(cnt: nat) returns (instrs: seq<Instr>, ghost generated: seq<Line>)
      ensures |generated| == cnt == |instrs|
      ensures forall i :: 0 <= i < cnt ==> generated[i] == Fresh(Branch) || generated[i] == Fresh(Other)
      ensures fresh(instrs) && Distinct(instrs)
      ensures Views(instrs) == generated
    {
      instrs, generated := [], [];
      while |instrs| < cnt
        invariant |instrs| == |generated| <= cnt
        invariant fresh(instrs) && Distinct(instrs)
        invariant forall i :: 0 <= i < |instrs| ==> generated[i] == instrs[i].View()
        invariant forall i :: 0 <= i < |instrs| ==> generated[i] == Fresh(Branch) || generated[i] == Fresh(Other)
      {
        var category :| category == Branch || category == Other;
        var instr := new Instr(category);
        instrs, generated := instrs + [instr], generated + [Fresh(category)];
      }
    }

    method TrimTail()
      requires instrList != []
      modifies this
      ensures instrList <= old(instrList)
      ensures Views(instrList) == TrimBranches(old(Views(instrList)))
    {
      ghost var generated := Views(instrList);
      while instrList[|instrList| - 1].category.Branch?
        invariant 0 < |instrList| && instrList <= old(instrList)
        invariant Views(instrList) == generated[..|instrList|]
        invariant TrimBranches(generated) == TrimBranches(generated[..|instrList|])
        decreases |instrList|
      {
        var n := |instrList| - 1;
        assert generated[..n + 1][..n] == generated[..n];
        instrList := instrList[..n];
        if n == 0 {
          break;
        }
      }
    }
  }
}
