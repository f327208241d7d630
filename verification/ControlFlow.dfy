/** The promise of the instruction generator about control flow: whatever is mixed and however the
    random choices fall, branches go strictly forward and every run leaves the sequence. */
module ControlFlow {
  import opened Common
  import opened Asm
  import opened InstrStreams
  import opened JalChain
  import opened Labels
  import opened Mixing

  /** A jump chain that starts at line start; with an empty order it stands for no chain at all. */
  datatype Chain = Chain(start: nat, order: seq<nat>)

  ghost predicate InChain(c: Chain, pc: nat) {
    c.order != [] && c.start <= pc < c.start + |c.order| + 2
  }

  ghost predicate ChainAt(p: seq<Line>, c: Chain) {
    c.order != [] ==>
      && c.start + |c.order| + 2 <= |p|
      && IsChain(p[c.start..c.start + |c.order| + 2], c.order)
  }

  ghost predicate GoesForward(p: seq<Line>, pc: nat)
    requires pc < |p|
  {
    exists k :: pc < k && ResolvesTo(p, pc, p[pc].immStr, k)
  }

  ghost predicate Disjoint(chains: seq<Chain>) {
    forall i, j, pc :: 0 <= i < |chains| && 0 <= j < |chains| && InChain(chains[i], pc) && InChain(chains[j], pc) ==>
      i == j
  }

  /** Jumps occur only in chains, chains do not overlap, and all branches go forward. */
  ghost predicate Structured(p: seq<Line>, chains: seq<Chain>) {
    && (forall i :: 0 <= i < |chains| ==> ChainAt(p, chains[i]))
    && Disjoint(chains)
    && (forall pc :: 0 <= pc < |p| && p[pc].category.Jump? ==> exists i :: 0 <= i < |chains| && InChain(chains[i], pc))
    && (forall pc :: 0 <= pc < |p| && p[pc].category.Branch? ==> GoesForward(p, pc))
  }

  /** When a chain visits the line at the given offset. */
  ghost function PathIndex(order: seq<nat>, offset: nat): (i: nat)
    requires IsPermutation(order) && offset < |order| + 2
    ensures i < |order| + 2 && ChainPath(order)[i] == offset
  {
    ChainPathIsBijective(order);
    assert offset in ChainPath(order);
    var i :| 0 <= i < |order| + 2 && ChainPath(order)[i] == offset;
    i
  }

  /** The place of a line in execution order: its own place, except that a chain's lines are counted
      in the order in which the chain visits them. */
  ghost function Rank(p: seq<Line>, chains: seq<Chain>, pc: nat): nat
    requires Structured(p, chains) && pc <= |p|
  {
    if i :| 0 <= i < |chains| && InChain(chains[i], pc) then
      assert ChainAt(p, chains[i]);
      chains[i].start + PathIndex(chains[i].order, pc - chains[i].start)
    else pc
  }

  lemma RankInChain(p: seq<Line>, chains: seq<Chain>, i: nat, pc: nat)
    requires Structured(p, chains) && i < |chains| && InChain(chains[i], pc) && pc < |p|
    ensures ChainAt(p, chains[i])
    ensures Rank(p, chains, pc) == chains[i].start + PathIndex(chains[i].order, pc - chains[i].start)
  {
  }

  lemma PathIndexOf(order: seq<nat>, i: nat)
    requires IsPermutation(order) && i < |order| + 2
    ensures ChainPath(order)[i] < |order| + 2 && PathIndex(order, ChainPath(order)[i]) == i
  {
    ChainPathIsBijective(order);
    if 0 < i <= |order| {
      assert ChainPath(order)[i] == order[i - 1] + 1;
    }
  }

  /** A line that is not a jump keeps its own place, and lines behind it come later. */
  lemma RankAhead(p: seq<Line>, chains: seq<Chain>, pc: nat, next: nat)
    requires Structured(p, chains) && pc < next <= |p| && !p[pc].category.Jump?
    ensures Rank(p, chains, pc) == pc < Rank(p, chains, next)
  {
    forall i | 0 <= i < |chains| && InChain(chains[i], pc)
      ensures pc == chains[i].start + |chains[i].order| + 1
    {
      var c := chains[i];
      assert ChainAt(p, c);
      assert p[c.start..c.start + |c.order| + 2][pc - c.start] == p[pc];
    }
    if i :| 0 <= i < |chains| && InChain(chains[i], pc) {
      RankInChain(p, chains, i, pc);
      PathIndexOf(chains[i].order, |chains[i].order| + 1);
    }
  }

  lemma ChainJump(p: seq<Line>, c: Chain, pc: nat, next: nat)
    requires ChainAt(p, c) && InChain(c, pc) && p[pc].category.Jump?
    ensures IsPermutation(c.order) && PathIndex(c.order, pc - c.start) <= |c.order|
    ensures Resolves(p, pc)
    ensures Step(p, pc, next) <==> next == c.start + ChainPath(c.order)[PathIndex(c.order, pc - c.start) + 1]
  {
    var d := p[c.start..c.start + |c.order| + 2];
    var at := PathIndex(c.order, pc - c.start);
    assert d[pc - c.start] == p[pc];
    JumpGoesToNext(p, c.start, d, c.order, at);
    ChainStep(p, c.start, d, c.order, at, next);
  }

  lemma JumpRaisesRank(p: seq<Line>, chains: seq<Chain>, pc: nat, next: nat)
    requires Structured(p, chains) && pc < |p| && p[pc].category.Jump? && Step(p, pc, next)
    ensures next < |p| && Rank(p, chains, next) == Rank(p, chains, pc) + 1
  {
    hide IsChain, Asm.Step, ResolvesTo, IsPermutation, Rank, GoesForward;
    var i :| 0 <= i < |chains| && InChain(chains[i], pc);
    var c := chains[i];
    assert ChainAt(p, c);
    ChainJump(p, c, pc, next);
    RankInChain(p, chains, i, pc);
    PathIndexOf(c.order, PathIndex(c.order, pc - c.start) + 1);
    assert InChain(c, next);
    RankInChain(p, chains, i, next);
  }

  lemma RankIsBounded(p: seq<Line>, chains: seq<Chain>, pc: nat)
    requires Structured(p, chains) && pc < |p|
    ensures Rank(p, chains, pc) < |p|
  {
    if i :| 0 <= i < |chains| && InChain(chains[i], pc) {
      RankInChain(p, chains, i, pc);
    }
  }

  ghost function Ranking(p: seq<Line>, chains: seq<Chain>): (rank: seq<nat>)
    requires Structured(p, chains)
    ensures |rank| == |p| + 1
  {
    seq(|p| + 1, pc requires 0 <= pc <= |p| => Rank(p, chains, pc))
  }

  /** In a structured text every step goes later in execution order and no reference dangles. */
  lemma StructuredTextIsRanked(p: seq<Line>, chains: seq<Chain>)
    requires Structured(p, chains)
    ensures Ranks(p, Ranking(p, chains)) && Closed(p)
  {
    var rank := Ranking(p, chains);
    forall pc: nat, next: nat | Step(p, pc, next)
      ensures next <= |p| && rank[pc] < rank[next]
    {
      if p[pc].category.Jump? {
        JumpRaisesRank(p, chains, pc, next);
      } else {
        if next != pc + 1 {
          assert GoesForward(p, pc);
          var k :| pc < k && ResolvesTo(p, pc, p[pc].immStr, k);
          ResolutionIsUnique(p, pc, p[pc].immStr, k, next);
        }
        RankAhead(p, chains, pc, next);
      }
    }
    forall pc | 0 <= pc < |p|
      ensures rank[pc] < |p|
    {
      RankIsBounded(p, chains, pc);
    }
    forall pc | 0 <= pc < |p| && !p[pc].category.Other?
      ensures Resolves(p, pc)
    {
      JumpResolves(p, chains, pc);
    }
    EndRank(p, chains);
  }

  lemma EndRank(p: seq<Line>, chains: seq<Chain>)
    requires Structured(p, chains)
    ensures Rank(p, chains, |p|) == |p|
  {
    forall i | 0 <= i < |chains|
      ensures !InChain(chains[i], |p|)
    {
      assert ChainAt(p, chains[i]);
    }
  }

  lemma JumpResolves(p: seq<Line>, chains: seq<Chain>, pc: nat)
    requires Structured(p, chains) && pc < |p| && !p[pc].category.Other?
    ensures Resolves(p, pc)
  {
    if p[pc].category.Jump? {
      var i :| 0 <= i < |chains| && InChain(chains[i], pc);
      assert ChainAt(p, chains[i]);
      ChainJump(p, chains[i], pc, pc);
    } else {
      assert GoesForward(p, pc);
    }
  }

  // ------------------------------------------------------------------------------------------

  /** A line as gen_instr leaves it in the base stream. */
  predicate BaseLine(l: Line) {
    Numbered(l) && !l.category.Jump? && Unassigned(l)
  }

  predicate Unassigned(l: Line) {
    !l.isLocalNumeric && !l.branchAssigned && !l.isIllegal
  }

  /** A directed stream: a jump chain when order is not empty, otherwise atomic lines without jumps.
      (Straight streams may contain branches, because the list of basic instructions is shared.) */
  ghost predicate Directed(d: seq<Line>, order: seq<nat>) {
    && AllAtomic(d)
    && (forall i :: 0 <= i < |d| ==> Unassigned(d[i]))
    && if order == [] then forall i :: 0 <= i < |d| ==> !d[i].category.Jump? else IsChain(d, order)
  }

  /** generate_instr_stream: line 0 is emitted with the name of the sequence in place of its label. */
  function Emit(out: seq<Line>, name: string): (text: seq<Line>)
    ensures |text| == |out|
  {
    if out == [] then [] else out[0 := out[0].(hasLabel := true, lbl := Named(name))]
  }

  /** Everything the generator did before emission: mixing, then post-processing. */
  ghost predicate Assembled(base: seq<Line>, directed: seq<seq<Line>>, orders: seq<seq<nat>>,
                            mixed: seq<Line>, starts: seq<nat>, steps: seq<nat>, max: nat)
  {
    && base != [] && (forall i :: 0 <= i < |base| ==> BaseLine(base[i]))
    && !base[|base| - 1].category.Branch?
    && |orders| == |directed| == |starts|
    && (forall i :: 0 <= i < |directed| ==> Directed(directed[i], orders[i]))
    && Placed(mixed, directed, starts)
    && |mixed| > 0 && mixed[|mixed| - 1] == base[|base| - 1]
    && (forall pc :: 0 <= pc < |mixed| ==>
          mixed[pc] in base || exists i :: 0 <= i < |directed| && Covers(directed, starts, i, pc))
    && |steps| == |mixed| && InRange(steps, max)
  }

  lemma LineKinds(base: seq<Line>, directed: seq<seq<Line>>, orders: seq<seq<nat>>,
                  mixed: seq<Line>, starts: seq<nat>, steps: seq<nat>, max: nat, pc: nat)
    requires Assembled(base, directed, orders, mixed, starts, steps, max) && pc < |mixed|
    ensures Unassigned(mixed[pc])
    ensures mixed[pc].category.Jump? ==>
              exists i :: 0 <= i < |directed| && Covers(directed, starts, i, pc) && orders[i] != []
  {
    if mixed[pc] !in base {
      var i :| 0 <= i < |directed| && Covers(directed, starts, i, pc);
      assert Directed(directed[i], orders[i]);
      assert mixed[starts[i] + (pc - starts[i])] == directed[i][pc - starts[i]];
    }
  }

  lemma AssembledBasics(base: seq<Line>, directed: seq<seq<Line>>, orders: seq<seq<nat>>,
                        mixed: seq<Line>, starts: seq<nat>, steps: seq<nat>, max: nat)
    requires Assembled(base, directed, orders, mixed, starts, steps, max)
    ensures Unprocessed(mixed) && EndsInPlainLine(mixed)
    ensures forall pc :: 0 <= pc < |mixed| && mixed[pc].category.Branch? ==> NeedsTarget(mixed[pc])
  {
    forall pc | 0 <= pc < |mixed|
      ensures Unassigned(mixed[pc])
    {
      LineKinds(base, directed, orders, mixed, starts, steps, max, pc);
    }
  }

  /** Overwriting the label of line 0 takes away no definition that a branch target needs, because
      targets are strictly later lines. */
  lemma AssignedBranchGoesForward(mixed: seq<Line>, steps: seq<nat>, max: nat, name: string, j: nat)
    requires EndsInPlainLine(mixed) && Unprocessed(mixed) && |steps| == |mixed| && InRange(steps, max)
    requires j < |mixed| && NeedsTarget(mixed[j])
    ensures Emit(OnePass(mixed, steps), name)[j].immStr == Forward(TargetOf(mixed, steps, j))
    ensures GoesForward(Emit(OnePass(mixed, steps), name), j)
  {
    var text := Emit(OnePass(mixed, steps), name);
    var k := TargetIsAhead(mixed, steps, j);
    assert Targeted(mixed, steps, LabelIdx(mixed, k), k + 1);
    assert Defines(text[k], TargetOf(mixed, steps, j));
    var near := LaterDefinitionResolves(text, j, TargetOf(mixed, steps, j), k);
  }

  ghost function Chains(orders: seq<seq<nat>>, starts: seq<nat>): (chains: seq<Chain>)
    requires |orders| == |starts|
    ensures |chains| == |orders|
  {
    seq(|orders|, i requires 0 <= i < |orders| => Chain(starts[i], orders[i]))
  }

  /** What emission leaves of an atomic line; only line 0 gets another label. */
  predicate Kept(was: Line, line: Line, first: bool) {
    && line.category == was.category
    && (was.category.Jump? ==> line.immStr == was.immStr)
    && if first then !line.lbl.Numeric? else line.hasLabel == was.hasLabel && line.lbl == was.lbl
  }

  lemma AtomicLineIsKept(mixed: seq<Line>, steps: seq<nat>, name: string, k: nat)
    requires |steps| == |mixed| && k < |mixed| && mixed[k].atomic && Unassigned(mixed[k])
    ensures Kept(mixed[k], Emit(OnePass(mixed, steps), name)[k], k == 0)
  {
    assert OnePass(mixed, steps)[k] == OnePassLine(mixed, steps, k);
  }

  lemma KeptChain(mixed: seq<Line>, text: seq<Line>, d: seq<Line>, s: nat, order: seq<nat>)
    requires At(mixed, s, d) && IsChain(d, order) && |text| == |mixed|
    requires forall k :: s <= k < s + |d| ==> Kept(mixed[k], text[k], k == 0)
    ensures ChainAt(text, Chain(s, order))
  {
    var e := text[s..s + |order| + 2];
    forall k | 0 <= k < |d|
      ensures Kept(d[k], e[k], s + k == 0)
    {
      assert mixed[s + k] == d[k];
    }
    ChainFieldsSuffice(d, e, order);
  }

  /** Post-processing and emission do not touch the jumps and labels of an embedded chain. */
  lemma ChainSurvives(mixed: seq<Line>, d: seq<Line>, s: nat, order: seq<nat>, steps: seq<nat>, name: string)
    requires At(mixed, s, d) && Directed(d, order) && |steps| == |mixed|
    ensures ChainAt(Emit(OnePass(mixed, steps), name), Chain(s, order))
  {
    if order != [] {
      forall k | s <= k < s + |d|
        ensures Kept(mixed[k], Emit(OnePass(mixed, steps), name)[k], k == 0)
      {
        assert mixed[s + (k - s)] == d[k - s];
        AtomicLineIsKept(mixed, steps, name, k);
      }
      KeptChain(mixed, Emit(OnePass(mixed, steps), name), d, s, order);
    }
  }

  lemma ChainFieldsSuffice(d: seq<Line>, e: seq<Line>, order: seq<nat>)
    requires IsChain(d, order) && |e| == |d|
    requires forall k :: 1 <= k < |d| ==> Kept(d[k], e[k], false)
    requires Kept(d[0], e[0], true) || Kept(d[0], e[0], false)
    ensures IsChain(e, order)
  {
    forall i {:trigger JumpRef(order, i)} | 0 <= i < |order|
      ensures e[order[i] + 1].immStr == JumpRef(order, i)
    {
      assert d[order[i] + 1].category == Jump;
    }
  }

  lemma ChainsAreDisjoint(directed: seq<seq<Line>>, orders: seq<seq<nat>>, mixed: seq<Line>, starts: seq<nat>)
    requires Placed(mixed, directed, starts) && |orders| == |directed|
    requires forall i :: 0 <= i < |directed| ==> Directed(directed[i], orders[i])
    ensures Disjoint(Chains(orders, starts))
  {
    var chains := Chains(orders, starts);
    forall i, j, pc | 0 <= i < |chains| && 0 <= j < |chains| && InChain(chains[i], pc) && InChain(chains[j], pc)
      ensures i == j
    {
      assert |directed[i]| == |orders[i]| + 2 && |directed[j]| == |orders[j]| + 2 by {
        assert Directed(directed[i], orders[i]) && Directed(directed[j], orders[j]);
      }
    }
  }

  lemma CategoriesAreKept(mixed: seq<Line>, steps: seq<nat>, name: string)
    requires |steps| == |mixed|
    ensures |Emit(OnePass(mixed, steps), name)| == |mixed|
    ensures forall pc :: 0 <= pc < |mixed| ==> Emit(OnePass(mixed, steps), name)[pc].category == mixed[pc].category
  {
    assert forall pc :: 0 <= pc < |mixed| ==> OnePass(mixed, steps)[pc] == OnePassLine(mixed, steps, pc);
  }

  lemma DirectedLength(d: seq<Line>, order: seq<nat>)
    requires Directed(d, order)
    ensures order != [] ==> |d| == |order| + 2
  {
  }

  lemma JumpIsInChain(base: seq<Line>, directed: seq<seq<Line>>, orders: seq<seq<nat>>, mixed: seq<Line>,
                      starts: seq<nat>, steps: seq<nat>, max: nat, pc: nat)
    requires Assembled(base, directed, orders, mixed, starts, steps, max)
    requires pc < |mixed| && mixed[pc].category.Jump?
    ensures exists i :: 0 <= i < |orders| && InChain(Chains(orders, starts)[i], pc)
  {
    hide Directed, Placed;
    LineKinds(base, directed, orders, mixed, starts, steps, max, pc);
    var i :| 0 <= i < |directed| && Covers(directed, starts, i, pc) && orders[i] != [];
    DirectedLength(directed[i], orders[i]);
    assert InChain(Chains(orders, starts)[i], pc);
  }

  lemma EmittedTextIsStructured(base: seq<Line>, directed: seq<seq<Line>>, orders: seq<seq<nat>>, mixed: seq<Line>,
                                starts: seq<nat>, steps: seq<nat>, max: nat, name: string)
    requires Assembled(base, directed, orders, mixed, starts, steps, max)
    ensures Structured(Emit(OnePass(mixed, steps), name), Chains(orders, starts))
  {
    hide OnePass, Emit, GoesForward, ChainAt, InChain, Directed, Disjoint, At;
    var text, chains := Emit(OnePass(mixed, steps), name), Chains(orders, starts);
    CategoriesAreKept(mixed, steps, name);
    AssembledBasics(base, directed, orders, mixed, starts, steps, max);
    forall i | 0 <= i < |chains|
      ensures ChainAt(text, chains[i])
    {
      ChainSurvives(mixed, directed[i], starts[i], orders[i], steps, name);
    }
    forall pc | 0 <= pc < |text| && text[pc].category.Jump?
      ensures exists i :: 0 <= i < |chains| && InChain(chains[i], pc)
    {
      JumpIsInChain(base, directed, orders, mixed, starts, steps, max, pc);
    }
    ChainsAreDisjoint(directed, orders, mixed, starts);
    forall pc | 0 <= pc < |text| && text[pc].category.Branch?
      ensures GoesForward(text, pc)
    {
      AssignedBranchGoesForward(mixed, steps, max, name, pc);
    }
  }

  /** The text of a whole sequence, from the base stream and all random choices. */
  ghost function Text(mixed: seq<Line>, steps: seq<nat>, name: string): (text: seq<Line>)
    requires |steps| == |mixed|
    ensures |text| == |mixed|
  {
    Emit(OnePass(mixed, steps), name)
  }

  /** What the generator is given: a base stream, which never ends in a branch, and directed streams. The
      base stream is empty when only branches were generated. */
  ghost predicate Ingredients(base: seq<Line>, directed: seq<seq<Line>>, orders: seq<seq<nat>>) {
    && (forall i :: 0 <= i < |base| ==> BaseLine(base[i]))
    && (base != [] ==> !base[|base| - 1].category.Branch?)
    && |orders| == |directed|
    && forall i :: 0 <= i < |directed| ==> Directed(directed[i], orders[i])
  }

  predicate NoBranches(s: seq<Line>) {
    forall i :: 0 <= i < |s| ==> !s[i].category.Branch?
  }

  // ---- An empty base stream ----

  /** Into a list of atomic lines nothing can be inserted, so at most one stream is taken in. */
  lemma {:induction false} EmptyBaseTakesOneStream(directed: seq<seq<Line>>, mixed: seq<Line>)
    requires forall i :: 0 <= i < |directed| ==> AllAtomic(directed[i])
    requires MixedFrom([], directed, mixed)
    ensures mixed == [] || mixed in directed
    decreases |directed|
  {
    if directed != [] {
      var n := |directed| - 1;
      var before :| MixedFrom([], directed[..n], before) && Inserted(before, directed[n], mixed);
      EmptyBaseTakesOneStream(directed[..n], before);
      assert before == [] || AllAtomic(before);
    }
  }

  lemma {:induction false} AtomicLinesGetNoLabel(list: seq<Line>, i: nat)
    requires AllAtomic(list) && i <= |list|
    ensures LabelIdx(list, i) == 0
  {
    if i > 0 {
      AtomicLinesGetNoLabel(list, i - 1);
    }
  }

  /** Without a numbered line every branch is given the reference "-1f", which resolves in no text. */
  lemma BranchAmongAtomicLinesDangles(mixed: seq<Line>, steps: seq<nat>, max: nat, name: string, j: nat,
                                      pre: seq<Line>, post: seq<Line>)
    requires AllAtomic(mixed) && |steps| == |mixed| && InRange(steps, max)
    requires j < |mixed| && NeedsTarget(mixed[j])
    ensures var whole := pre + Text(mixed, steps, name) + post;
            whole[|pre| + j].immStr == Forward(-1) && !Resolves(whole, |pre| + j)
  {
    AtomicLinesGetNoLabel(mixed, j);
    AtomicLinesGetNoLabel(mixed, |mixed|);
    var text := Text(mixed, steps, name);
    assert OnePass(mixed, steps)[j] == OnePassLine(mixed, steps, j);
    assert (pre + text + post)[|pre| + j] == text[j];
  }

  /** A single directed stream without branches is structured: it is one chain, or has no jumps at all. */
  lemma LoneStreamIsStructured(d: seq<Line>, order: seq<nat>, steps: seq<nat>, name: string)
    requires Directed(d, order) && |steps| == |d| && NoBranches(d)
    ensures Structured(Text(d, steps, name), [Chain(0, order)])
  {
    hide OnePass, Emit, IsChain;
    CategoriesAreKept(d, steps, name);
    ChainSurvives(d, d, 0, order, steps, name);
    DirectedLength(d, order);
    var text, chains := Text(d, steps, name), [Chain(0, order)];
    forall pc | 0 <= pc < |text| && text[pc].category.Jump?
      ensures exists i :: 0 <= i < |chains| && InChain(chains[i], pc)
    {
      assert d[pc].category.Jump?;
      assert InChain(chains[0], pc);
    }
  }

  // ---- What the text of a sequence guarantees ----

  /** With a base stream, or without branches, the text is structured by some chains. */
  lemma TextIsStructured(base: seq<Line>, directed: seq<seq<Line>>, orders: seq<seq<nat>>, mixed: seq<Line>,
                         steps: seq<nat>, max: nat, name: string) returns (chains: seq<Chain>)
    requires Ingredients(base, directed, orders) && MixedFrom(base, directed, mixed)
    requires |steps| == |mixed| && InRange(steps, max)
    requires base != [] || NoBranches(mixed)
    ensures Structured(Text(mixed, steps, name), chains)
  {
    hide Structured, IsChain;
    if base != [] {
      var starts := MixingKeepsStreams(base, directed, mixed);
      assert Assembled(base, directed, orders, mixed, starts, steps, max);
      EmittedTextIsStructured(base, directed, orders, mixed, starts, steps, max, name);
      chains := Chains(orders, starts);
    } else {
      EmptyBaseTakesOneStream(directed, mixed);
      var order: seq<nat> := [];
      if i :| 0 <= i < |directed| && mixed == directed[i] {
        order := orders[i];
      }
      LoneStreamIsStructured(mixed, order, steps, name);
      chains := [Chain(0, order)];
    }
  }

  /** Under that condition every branch of the emitted text resolves to an existing, strictly later line,
      no jump dangles, and there is an execution order in which every step goes later. */
  lemma BranchesGoForward(base: seq<Line>, directed: seq<seq<Line>>, orders: seq<seq<nat>>, mixed: seq<Line>,
                          steps: seq<nat>, max: nat, name: string) returns (rank: seq<nat>)
    requires Ingredients(base, directed, orders) && MixedFrom(base, directed, mixed)
    requires |steps| == |mixed| && InRange(steps, max)
    requires base != [] || NoBranches(mixed)
    ensures var text := Text(mixed, steps, name);
            && (forall pc :: 0 <= pc < |text| && text[pc].category.Branch? ==> GoesForward(text, pc))
            && Closed(text)
            && Ranks(text, rank)
  {
    var chains := TextIsStructured(base, directed, orders, mixed, steps, max, name);
    StructuredTextIsRanked(Text(mixed, steps, name), chains);
    rank := Ranking(Text(mixed, steps, name), chains);
  }

  /** The condition is exact: the text of a sequence is closed if and only if its base stream is not empty
      or no branch was mixed in. */
  lemma TextIsClosedIff(base: seq<Line>, directed: seq<seq<Line>>, orders: seq<seq<nat>>, mixed: seq<Line>,
                        steps: seq<nat>, max: nat, name: string)
    requires Ingredients(base, directed, orders) && MixedFrom(base, directed, mixed)
    requires |steps| == |mixed| && InRange(steps, max)
    ensures Closed(Text(mixed, steps, name)) <==> base != [] || NoBranches(mixed)
  {
    hide Text, IsChain, Resolves;
    if base != [] || NoBranches(mixed) {
      var rank := BranchesGoForward(base, directed, orders, mixed, steps, max, name);
    } else {
      var j :| 0 <= j < |mixed| && mixed[j].category.Branch?;
      DanglingBranch(base, directed, orders, mixed, steps, max, name, j, [], []);
      var text := Text(mixed, steps, name);
      assert [] + text + [] == text;
    }
  }

  /** When the condition fails, every branch dangles, whatever stands around the sequence. */
  lemma DanglingBranch(base: seq<Line>, directed: seq<seq<Line>>, orders: seq<seq<nat>>, mixed: seq<Line>,
                       steps: seq<nat>, max: nat, name: string, j: nat, pre: seq<Line>, post: seq<Line>)
    requires Ingredients(base, directed, orders) && MixedFrom(base, directed, mixed)
    requires |steps| == |mixed| && InRange(steps, max)
    requires base == [] && j < |mixed| && mixed[j].category.Branch?
    ensures var whole := pre + Text(mixed, steps, name) + post;
            && whole[|pre| + j].category.Branch? && whole[|pre| + j].immStr == Forward(-1)
            && !Resolves(whole, |pre| + j)
  {
    hide IsChain, Resolves;
    EmptyBaseTakesOneStream(directed, mixed);
    var i :| 0 <= i < |directed| && mixed == directed[i];
    assert Directed(directed[i], orders[i]);
    assert Unassigned(mixed[j]);
    BranchAmongAtomicLinesDangles(mixed, steps, max, name, j, pre, post);
    CategoriesAreKept(mixed, steps, name);
    assert (pre + Text(mixed, steps, name) + post)[|pre| + j] == Text(mixed, steps, name)[j];
  }

  predicate Inside(pre: seq<Line>, text: seq<Line>, pc: nat) {
    |pre| <= pc < |pre| + |text|
  }

  /** Inside the text a run can always step, goes on inside or to the line behind it, and stays for at most
      as many instructions as the text has lines. */
  ghost predicate LeavesInTime(pre: seq<Line>, text: seq<Line>, post: seq<Line>, run: seq<nat>) {
    && (forall i :: 0 <= i < |run| && Inside(pre, text, run[i]) ==> CanStep(pre + text + post, run[i]))
    && (forall i :: 0 <= i < |run| - 1 && Inside(pre, text, run[i]) ==> |pre| <= run[i + 1] <= |pre| + |text|)
    && ((forall i :: 0 <= i < |run| ==> Inside(pre, text, run[i])) ==> |run| <= |text|)
  }

  /** The main result. For every base stream, every list of directed streams, every way the random
      insertions and branch steps fall, and whatever other text precedes and follows the sequence in
      the file (reusing the same numeric labels), provided the text is closed: execution inside the
      sequence is never stuck, it leaves only to the line behind the sequence, and it stays inside for
      at most as many instructions as the sequence has lines. */
  lemma EveryRunLeaves(base: seq<Line>, directed: seq<seq<Line>>, orders: seq<seq<nat>>, mixed: seq<Line>,
                       steps: seq<nat>, max: nat, name: string,
                       pre: seq<Line>, post: seq<Line>, run: seq<nat>)
    requires Ingredients(base, directed, orders) && MixedFrom(base, directed, mixed)
    requires |steps| == |mixed| && InRange(steps, max)
    requires base != [] || NoBranches(mixed)
    requires IsRun(pre + Text(mixed, steps, name) + post, run)
    ensures LeavesInTime(pre, Text(mixed, steps, name), post, run)
  {
    hide Text, Ranks, Ingredients, MixedFrom;
    var rank := BranchesGoForward(base, directed, orders, mixed, steps, max, name);
    RankedTextInContext(pre, Text(mixed, steps, name), post, rank, run);
  }

  lemma RankedTextInContext(pre: seq<Line>, text: seq<Line>, post: seq<Line>, rank: seq<nat>, run: seq<nat>)
    requires Closed(text) && Ranks(text, rank) && IsRun(pre + text + post, run)
    ensures LeavesInTime(pre, text, post, run)
  {
    hide Asm.Step, ResolvesTo;
    forall i | 0 <= i < |run| && Inside(pre, text, run[i])
      ensures CanStep(pre + text + post, run[i])
    {
      StepExists(pre, text, post, run[i] - |pre|);
    }
    forall i | 0 <= i < |run| - 1 && Inside(pre, text, run[i])
      ensures |pre| <= run[i + 1] <= |pre| + |text|
    {
      StepInContext(pre, text, post, run[i] - |pre|, run[i + 1]);
    }
    if forall i :: 0 <= i < |run| ==> Inside(pre, text, run[i]) {
      var inner: seq<nat> := seq(|run|, i requires 0 <= i < |run| => if run[i] >= |pre| then run[i] - |pre| else 0);
      forall i | 0 <= i < |inner| - 1
        ensures Step(text, inner[i], inner[i + 1])
      {
        assert Inside(pre, text, run[i]) && Inside(pre, text, run[i + 1]);
        StepInContext(pre, text, post, run[i] - |pre|, run[i + 1]);
      }
      assert Inside(pre, text, run[0]) && Inside(pre, text, run[|run| - 1]);
      RankedRunClimbs(text, rank, inner, |inner| - 1);
    }
  }

  lemma StepExists(pre: seq<Line>, text: seq<Line>, post: seq<Line>, pc: nat)
    requires Closed(text) && pc < |text|
    ensures CanStep(pre + text + post, |pre| + pc)
  {
    var next: nat := pc + 1;
    if !text[pc].category.Other? {
      assert Resolves(text, pc);
      next :| ResolvesTo(text, pc, text[pc].immStr, next);
    }
    StepInContext(pre, text, post, pc, |pre| + next);
  }

  predicate JustGenerated(generated: seq<Line>) {
    forall i :: 0 <= i < |generated| ==> generated[i] == Fresh(Branch) || generated[i] == Fresh(Other)
  }

  /** Dropping the branches at the end of the random base stream makes it an ingredient, and leaves
      something exactly when something other than a branch was generated. */
  lemma TrimmedBaseIsFit(generated: seq<Line>, directed: seq<seq<Line>>, orders: seq<seq<nat>>)
    requires JustGenerated(generated) && |orders| == |directed|
    requires forall i :: 0 <= i < |directed| ==> Directed(directed[i], orders[i])
    ensures TrimBranches(generated) != [] <==> !AllBranches(generated)
    ensures Ingredients(TrimBranches(generated), directed, orders)
  {
    var base := TrimBranches(generated);
    if base != [] {
      assert generated[|base| - 1] == base[|base| - 1];
    }
  }

  predicate AllBranches(s: seq<Line>) {
    forall i :: 0 <= i < |s| ==> s[i].category.Branch?
  }

  /** From the instructions generated to the emitted text: it is closed if and only if something other
      than a branch was generated or no mixed line is a branch; and then every run leaves it in time. */
  lemma GeneratedTextIsClosedIff(generated: seq<Line>, directed: seq<seq<Line>>, orders: seq<seq<nat>>,
                                 mixed: seq<Line>, steps: seq<nat>, max: nat, name: string)
    requires JustGenerated(generated) && |orders| == |directed|
    requires forall i :: 0 <= i < |directed| ==> Directed(directed[i], orders[i])
    requires MixedFrom(TrimBranches(generated), directed, mixed)
    requires |steps| == |mixed| && InRange(steps, max)
    ensures Closed(Text(mixed, steps, name)) <==> !AllBranches(generated) || NoBranches(mixed)
    ensures Closed(Text(mixed, steps, name)) ==>
              forall pre, post, run :: IsRun(pre + Text(mixed, steps, name) + post, run) ==>
                LeavesInTime(pre, Text(mixed, steps, name), post, run)
  {
    hide Text, MixedFrom, TrimBranches, Ingredients, Closed, IsRun, LeavesInTime, Directed;
    var base := TrimBranches(generated);
    TrimmedBaseIsFit(generated, directed, orders);
    TextIsClosedIff(base, directed, orders, mixed, steps, max, name);
    if Closed(Text(mixed, steps, name)) {
      forall pre, post, run | IsRun(pre + Text(mixed, steps, name) + post, run)
        ensures LeavesInTime(pre, Text(mixed, steps, name), post, run)
      {
        EveryRunLeaves(base, directed, orders, mixed, steps, max, name, pre, post, run);
      }
    }
  }

  // ---- The failing case, on a stream that the jump generator builds ----

  /** A sealed chain is a directed stream. */
  lemma SealedIsDirected(d: seq<Line>, order: seq<nat>)
    requires IsChain(d, order) && forall i :: 0 <= i < |d| ==> Sealed(d[i])
    ensures Directed(d, order)
  {
    hide IsChain;
    ChainIsNotEmpty(d, order);
  }

  lemma ChainIsNotEmpty(d: seq<Line>, order: seq<nat>)
    requires IsChain(d, order)
    ensures order != [] && |d| == |order| + 2
  {
  }

  /** The jump stream whose shuffle left n jumps in their order and whose random end is a branch. */
  function PlainChain(n: nat, name: string): (d: seq<Line>)
    ensures |d| == n + 2
  {
    [Fresh(Jump).(atomic := true, lbl := Named(name), immStr := Forward(0))]
    + seq(n, k requires 0 <= k < n => Fresh(Jump).(atomic := true, lbl := Numeric(k), immStr := Forward(k + 1)))
    + [Fresh(Branch).(atomic := true, lbl := Numeric(n))]
  }

  function InOrder(n: nat): (order: seq<nat>)
    ensures |order| == n && forall i :: 0 <= i < n ==> order[i] == i
  {
    seq(n, i => i)
  }

  lemma PlainChainIsDirected(n: nat, name: string)
    requires n > 0
    ensures IsChain(PlainChain(n, name), InOrder(n)) && Directed(PlainChain(n, name), InOrder(n))
    ensures AllAtomic(PlainChain(n, name)) && NeedsTarget(PlainChain(n, name)[n + 1])
  {
    var d, order := PlainChain(n, name), InOrder(n);
    var jumps := d[1..n + 1];
    forall i {:trigger JumpRef(order, i)} | 0 <= i < n
      ensures jumps[order[i]].immStr == JumpRef(order, i)
    {
    }
    ChainFromParts(d[0], jumps, d[n + 1], order);
    assert d == [d[0]] + jumps + [d[n + 1]];
    SealedIsDirected(d, order);
  }

  /** If only branches were generated, a jump stream that ends in a branch is emitted with the reference
      "-1f" on its last line, which resolves nowhere: here with ten jumps, the least the stream has. */
  lemma EmptyBaseDangles(steps: seq<nat>, max: nat)
    requires |steps| == 12 && InRange(steps, max)
    ensures var d := PlainChain(10, "main_0");
            && MixedFrom(TrimBranches([Fresh(Branch)]), [d], d)
            && Text(d, steps, "main")[11].immStr == Forward(-1) && !Closed(Text(d, steps, "main"))
  {
    hide IsChain, Text, Resolves, PlainChain, AllAtomic, InRange;
    var d := PlainChain(10, "main_0");
    assert TrimBranches([Fresh(Branch)]) == [];
    var directed: seq<seq<Line>> := [d];
    assert directed[..0] == [];
    assert MixedFrom([], [], []) && Inserted([], directed[0], d);
    PlainChainIsDirected(10, "main_0");
    var text := Text(d, steps, "main");
    BranchAmongAtomicLinesDangles(d, steps, max, "main", 11, [], []);
    assert [] + text + [] == text;
    TextCategories(d, steps, "main");
  }

  lemma TextCategories(mixed: seq<Line>, steps: seq<nat>, name: string)
    requires |steps| == |mixed|
    ensures forall pc :: 0 <= pc < |mixed| ==> Text(mixed, steps, name)[pc].category == mixed[pc].category
    ensures NoBranches(Text(mixed, steps, name)) <==> NoBranches(mixed)
  {
    hide OnePass, Emit;
    CategoriesAreKept(mixed, steps, name);
  }
}
