/** The making of a main program (gen_program in pygen_src/riscv_asm_program_gen.py), from the choice of
    the streams to the emitted lines. */
module MainProgram {
  import opened Common
  import opened Asm
  import opened InstrStreams
  import opened JalChain
  import opened Labels
  import opened Mixing
  import opened ControlFlow
  import opened InstrSequences
  import opened EmittedLines

  /** The streams prepared so far are directed streams of distinct objects; orders holds the shuffles of
      the jump streams among them. */
  ghost predicate Prepared(streams: seq<seq<Instr>>, orders: seq<seq<nat>>)
    reads Objects(streams)
  {
    && AllApart([], streams)
    && |orders| == |streams|
    && forall i :: 0 <= i < |streams| ==> Directed(Views(streams[i]), orders[i])
  }

  /** One jump stream is created, randomized and added to the sequence's directed streams. */
  method AddJumpStream(program: InstrSequence, n: nat, ghost orders: seq<seq<nat>>)
    returns (ghost stream: seq<Instr>, ghost order: seq<nat>)
    requires n > 0 && Prepared(program.directedInstr, orders)
    modifies program`directedInstr
    ensures program.directedInstr == old(program.directedInstr) + [stream]
    ensures fresh(stream) && IsChain(Views(stream), order) && |order| == n
    ensures stream[0].lbl == Named(program.labelName)
    ensures Prepared(program.directedInstr, orders + [order])
  {
    hide IsChain, Directed;
    var jumps := new JalInstr(program.labelName, n);
    order := jumps.PostRandomize();
    SealedIsDirected(Views(jumps.instrList), order);
    OneMore(program.directedInstr, orders, jumps.instrList, order);
    stream := jumps.instrList;
    program.directedInstr := program.directedInstr + [jumps.instrList];
  }

  lemma OneMore(streams: seq<seq<Instr>>, orders: seq<seq<nat>>, stream: seq<Instr>, order: seq<nat>)
    requires Prepared(streams, orders) && Directed(Views(stream), order) && Distinct(stream)
    requires forall x :: x in stream ==> x !in Objects(streams)
    ensures Prepared(streams + [stream], orders + [order])
  {
    hide Directed;
    forall i | 0 <= i < |streams|
      ensures Apart(streams[i], stream)
    {
      forall k | 0 <= k < |streams[i]|
        ensures streams[i][k] in Objects(streams)
      {
      }
    }
  }

  function Permuted<T>(s: seq<T>, order: seq<nat>): (t: seq<T>)
    requires forall i :: 0 <= i < |order| ==> order[i] < |s|
    ensures |t| == |order| && forall i :: 0 <= i < |order| ==> t[i] == s[order[i]]
  {
    seq(|order|, i requires 0 <= i < |order| => s[order[i]])
  }

  lemma PermutedIsPrepared(streams: seq<seq<Instr>>, orders: seq<seq<nat>>, order: seq<nat>)
    requires Prepared(streams, orders) && IsPermutation(order) && |order| == |streams|
    ensures Objects(Permuted(streams, order)) <= Objects(streams)
    ensures Prepared(Permuted(streams, order), Permuted(orders, order))
  {
    hide Directed;
    var permuted := Permuted(streams, order);
    forall i, k | 0 <= i < |permuted| && 0 <= k < |permuted[i]|
      ensures permuted[i][k] in Objects(streams)
    {
      assert permuted[i] == streams[order[i]];
    }
    forall i, j | 0 <= i < |permuted| && 0 <= j < |permuted| && i != j
      ensures Apart(permuted[i], permuted[j])
    {
      assert order[i] != order[j];
    }
  }

  /** The directed streams in a random order. */
  method ShuffleStreams(program: InstrSequence, ghost orders: seq<seq<nat>>) returns (ghost order: seq<nat>)
    requires Prepared(program.directedInstr, orders)
    modifies program`directedInstr
    ensures IsPermutation(order) && |order| == |orders| == |old(program.directedInstr)|
    ensures program.directedInstr == Permuted(old(program.directedInstr), order)
    ensures Objects(program.directedInstr) <= old(Objects(program.directedInstr))
    ensures Prepared(program.directedInstr, Permuted(orders, order))
  {
    var ids: seq<nat> := seq(|program.directedInstr|, i => i);
    var shuffled := Shuffle(ids);
    ShuffledRangeIsPermutation(ids, shuffled);
    PermutedIsPrepared(program.directedInstr, orders, shuffled);
    order := shuffled;
    program.directedInstr := Permuted(program.directedInstr, shuffled);
  }

  /** What the emitted lines of a program promise: they are closed exactly when something other than a
      branch was generated or no line is a branch, and then every run leaves them in time. */
  ghost predicate Promised(generated: seq<Line>, text: seq<Line>) {
    && (Closed(text) <==> !AllBranches(generated) || NoBranches(text))
    && (Closed(text) ==>
          forall pre, post, run :: IsRun(pre + text + post, run) ==> LeavesInTime(pre, text, post, run))
  }

  lemma PromiseHolds(generated: seq<Line>, directed: seq<seq<Line>>, orders: seq<seq<nat>>, mixed: seq<Line>,
                     steps: seq<nat>, max: nat, name: string)
    requires JustGenerated(generated) && |orders| == |directed|
    requires forall i :: 0 <= i < |directed| ==> Directed(directed[i], orders[i])
    requires MixedFrom(TrimBranches(generated), directed, mixed)
    requires |steps| == |mixed| && InRange(steps, max)
    ensures Promised(generated, Text(mixed, steps, name))
  {
    hide Text, Directed, MixedFrom, Closed, IsRun, LeavesInTime;
    GeneratedTextIsClosedIff(generated, directed, orders, mixed, steps, max, name);
    TextCategories(mixed, steps, name);
  }

  /** What went into a program: the jump streams and their shuffles, the order of all streams, the mixed
      list, the step drawn for each line, and where the streams ended up. */
  datatype Made = Made(jumps: seq<seq<Line>>, orders: seq<seq<nat>>, order: seq<nat>,
                       mixed: seq<Line>, steps: seq<nat>, starts: seq<nat>)

  /** The streams of a program are those given and a jump stream with each of these numbers of jumps. */
  ghost predicate StreamsOf(m: Made, given: seq<seq<Line>>, numsOfJumps: seq<nat>, streams: seq<seq<Line>>) {
    && |m.jumps| == |m.orders| == |numsOfJumps|
    && (forall k :: 0 <= k < |numsOfJumps| ==> |m.orders[k]| == numsOfJumps[k] && IsChain(m.jumps[k], m.orders[k]))
    && IsPermutation(m.order) && |m.order| == |given| + |m.jumps|
    && streams == Permuted(given + m.jumps, m.order)
  }

  /** The text is that of these streams mixed into the base: it carries every line of the base in order and
      every stream once as a block, with the labels and targets that the steps give. */
  ghost predicate TextOf(m: Made, base: seq<Line>, streams: seq<seq<Line>>, max: nat, name: string, text: seq<Line>) {
    && MixedFrom(base, streams, m.mixed)
    && |m.steps| == |m.mixed| && InRange(m.steps, max)
    && text == Text(m.mixed, m.steps, name)
    && Carries(text, base, streams, m.starts)
  }

  method AddJumpStreams(program: InstrSequence, numsOfJumps: seq<nat>, ghost orders: seq<seq<nat>>)
    returns (ghost jumps: seq<seq<Instr>>, ghost jumpOrders: seq<seq<nat>>)
    requires Prepared(program.directedInstr, orders)
    requires forall k :: 0 <= k < |numsOfJumps| ==> numsOfJumps[k] > 0
    modifies program`directedInstr
    ensures program.directedInstr == old(program.directedInstr) + jumps
    ensures |jumps| == |jumpOrders| == |numsOfJumps|
    ensures forall k :: 0 <= k < |jumps| ==>
              fresh(jumps[k]) && |jumpOrders[k]| == numsOfJumps[k] && IsChain(Views(jumps[k]), jumpOrders[k])
    ensures Prepared(program.directedInstr, orders + jumpOrders)
  {
    hide Directed, IsChain;
    ghost var allOrders := orders;
    jumps, jumpOrders := [], [];
    for k := 0 to |numsOfJumps|
      invariant Prepared(program.directedInstr, allOrders) && allOrders == orders + jumpOrders
      invariant program.directedInstr == old(program.directedInstr) + jumps && |jumps| == |jumpOrders| == k
      invariant forall i :: 0 <= i < k ==>
                  fresh(jumps[i]) && |jumpOrders[i]| == numsOfJumps[i] && IsChain(Views(jumps[i]), jumpOrders[i])
    {
      ghost var stream, jumpOrder := AddJumpStream(program, numsOfJumps[k], allOrders);
      jumps, jumpOrders := jumps + [stream], jumpOrders + [jumpOrder];
      allOrders := allOrders + [jumpOrder];
    }
  }

  lemma JoinedViews(given: seq<seq<Instr>>, jumps: seq<seq<Instr>>, order: seq<nat>)
    requires forall i :: 0 <= i < |order| ==> order[i] < |given| + |jumps|
    ensures ViewsOf(Permuted(given + jumps, order)) == Permuted(ViewsOf(given) + ViewsOf(jumps), order)
  {
  }

  lemma ObjectsOfBoth(given: seq<seq<Instr>>, jumps: seq<seq<Instr>>)
    ensures Objects(given + jumps) == Objects(given) + Objects(jumps)
  {
    forall i, k | 0 <= i < |jumps| && 0 <= k < |jumps[i]|
      ensures jumps[i][k] in Objects(given + jumps)
    {
      assert (given + jumps)[|given| + i] == jumps[i];
    }
    forall i, k | 0 <= i < |given| && 0 <= k < |given[i]|
      ensures given[i][k] in Objects(given + jumps)
    {
      assert (given + jumps)[i] == given[i];
    }
  }

  /** The directed streams already there and the jump streams, shuffled. */
  method GenerateDirectedInstrStream(program: InstrSequence, numsOfJumps: seq<nat>, ghost orders: seq<seq<nat>>)
    returns (ghost allOrders: seq<seq<nat>>, ghost made: Made)
    requires Prepared(program.directedInstr, orders)
    requires forall k :: 0 <= k < |numsOfJumps| ==> numsOfJumps[k] > 0
    modifies program`directedInstr
    ensures StreamsOf(made, old(ViewsOf(program.directedInstr)), numsOfJumps, ViewsOf(program.directedInstr))
    ensures Prepared(program.directedInstr, allOrders)
    ensures fresh(Objects(program.directedInstr) - old(Objects(program.directedInstr)))
  {
    hide IsChain, Directed, IsPermutation, Prepared;
    ghost var given := program.directedInstr;
    ghost var jumps, jumpOrders := AddJumpStreams(program, numsOfJumps, orders);
    ObjectsOfBoth(given, jumps);
    ghost var order := ShuffleStreams(program, orders + jumpOrders);
    allOrders := Permuted(orders + jumpOrders, order);
    InRangeOf(order);
    JoinedViews(given, jumps, order);
    made := Made(ViewsOf(jumps), jumpOrders, order, [], [], []);
  }

  /** The directed streams and the random base stream. */
  method PrepareMainProgram(program: InstrSequence, instrCnt: nat, numsOfJumps: seq<nat>,
                            ghost orders: seq<seq<nat>>)
    returns (status: Status, ghost allOrders: seq<seq<nat>>, ghost generated: seq<Line>, ghost made: Made)
    requires Prepared(program.directedInstr, orders)
    requires forall k :: 0 <= k < |numsOfJumps| ==> numsOfJumps[k] > 0
    modifies program`directedInstr, program.instrStream
    ensures StreamsOf(made, old(ViewsOf(program.directedInstr)), numsOfJumps, ViewsOf(program.directedInstr))
    ensures |generated| == instrCnt && JustGenerated(generated)
    ensures Prepared(program.directedInstr, allOrders)
    ensures status == if instrCnt == 0 then Raises else Done
    ensures AllApart(program.instrStream.instrList, program.directedInstr)
    ensures fresh(program.instrStream.instrList)
    ensures fresh(Objects(program.directedInstr) - old(Objects(program.directedInstr)))
    ensures status.Done? ==> Views(program.instrStream.instrList) == TrimBranches(generated)
  {
    hide IsChain, Directed, StreamsOf;
    allOrders, made := GenerateDirectedInstrStream(program, numsOfJumps, orders);
    ghost var views := ViewsOf(program.directedInstr);
    status, generated := program.instrStream.GenInstr(instrCnt);
    assert ViewsOf(program.directedInstr) == views;
  }

  lemma InRangeOf(order: seq<nat>)
    requires IsPermutation(order)
    ensures forall i :: 0 <= i < |order| ==> order[i] < |order|
  {
  }

  /** Mixing, post-processing and emission of what has been prepared. */
  method FinishMainProgram(program: InstrSequence, maxBranchStep: nat, ghost generated: seq<Line>,
                           ghost orders: seq<seq<nat>>, ghost prepared: Made)
    returns (status: Status, ghost made: Made)
    requires JustGenerated(generated) && maxBranchStep >= 1
    requires Prepared(program.directedInstr, orders)
    requires AllApart(program.instrStream.instrList, program.directedInstr)
    requires Views(program.instrStream.instrList) == TrimBranches(generated)
    modifies program`instrStringList, program.instrStream, program.instrStream.instrList,
             Objects(program.directedInstr)
    ensures !AllBranches(generated) ==> status.Done?
    ensures made == prepared.(mixed := made.mixed, steps := made.steps, starts := made.starts)
    ensures status.Done? ==> TextOf(made, TrimBranches(generated), old(ViewsOf(program.directedInstr)),
                                    maxBranchStep, program.labelName, program.instrStringList)
    ensures status.Done? ==> Promised(generated, program.instrStringList)
  {
    hide Directed, IsChain, Promised, MixedFrom, OnePass, Emit, AllApart, TrimBranches, Carries;
    ghost var directed := ViewsOf(program.directedInstr);
    StreamsAreUnprocessed(generated, program.directedInstr, orders);
    made := prepared;
    if !AllBranches(generated) {
      HasPlainLine(generated, program.instrStream.instrList);
    }
    ghost var mixed, steps;
    status, mixed, steps := program.PostProcessInstr(maxBranchStep);
    if !status.Done? {
      return;
    }
    MixedIsNotEmpty(generated, directed, mixed);
    PromiseHolds(generated, directed, orders, mixed, steps, maxBranchStep, program.labelName);
    ghost var starts := TextCarriesStreams(generated, directed, orders, mixed, steps, program.labelName);
    made := prepared.(mixed := mixed, steps := steps, starts := starts);
    status := program.GenerateInstrStream(false, true);
    assert status.Done? ==> program.instrStringList == Text(mixed, steps, program.labelName);
  }

  lemma TextCarriesStreams(generated: seq<Line>, directed: seq<seq<Line>>, orders: seq<seq<nat>>, mixed: seq<Line>,
                           steps: seq<nat>, name: string) returns (starts: seq<nat>)
    requires JustGenerated(generated) && |orders| == |directed|
    requires forall i :: 0 <= i < |directed| ==> Directed(directed[i], orders[i])
    requires MixedFrom(TrimBranches(generated), directed, mixed) && |steps| == |mixed|
    ensures Carries(Text(mixed, steps, name), TrimBranches(generated), directed, starts)
  {
    hide Carries, Text, MixedFrom, IsChain;
    assert NoneAtomic(TrimBranches(generated));
    starts := TextCarriesAll(TrimBranches(generated), directed, mixed, steps, name);
  }

  lemma HasPlainLine(generated: seq<Line>, list: seq<Instr>)
    requires JustGenerated(generated) && !AllBranches(generated) && Views(list) == TrimBranches(generated)
    ensures exists x :: x in list && !x.atomic
  {
    TrimmedBaseIsFit(generated, [], []);
    assert !Views(list)[0].atomic;
    assert list[0] in list;
  }

  lemma MixedIsNotEmpty(generated: seq<Line>, directed: seq<seq<Line>>, mixed: seq<Line>)
    requires JustGenerated(generated) && MixedFrom(TrimBranches(generated), directed, mixed)
    ensures !AllBranches(generated) ==> mixed != []
  {
    TrimmedBaseIsFit(generated, [], []);
    MixingGrows(TrimBranches(generated), directed, mixed);
  }

  lemma {:induction false} MixingGrows(base: seq<Line>, directed: seq<seq<Line>>, mixed: seq<Line>)
    requires MixedFrom(base, directed, mixed)
    ensures |mixed| >= |base|
    decreases |directed|
  {
    if directed != [] {
      var n := |directed| - 1;
      var before :| MixedFrom(base, directed[..n], before) && Inserted(before, directed[n], mixed);
      MixingGrows(base, directed[..n], before);
    }
  }

  /** The life of a main program. Besides the directed streams it is given, it gets a jump stream for each
      number of jumps; it is emitted whenever something other than a branch is generated. */
  method GenMainProgram(program: InstrSequence, instrCnt: nat, numsOfJumps: seq<nat>, maxBranchStep: nat,
                        ghost orders: seq<seq<nat>>)
    returns (status: Status, ghost generated: seq<Line>, ghost streams: seq<seq<Line>>, ghost made: Made)
    requires Prepared(program.directedInstr, orders)
    requires (forall k :: 0 <= k < |numsOfJumps| ==> numsOfJumps[k] > 0) && maxBranchStep >= 1
    modifies program, program.instrStream, Objects(program.directedInstr)
    ensures instrCnt == 0 ==> status.Raises?
    ensures instrCnt > 0 && !AllBranches(generated) ==> status.Done?
    ensures |generated| == instrCnt && JustGenerated(generated)
    ensures StreamsOf(made, old(ViewsOf(program.directedInstr)), numsOfJumps, streams)
    ensures status.Done? ==> TextOf(made, TrimBranches(generated), streams, maxBranchStep, old(program.labelName),
                                    program.instrStringList)
    ensures status.Done? ==> Promised(generated, program.instrStringList)
  {
    hide Prepared, Promised, AllApart, JustGenerated, TrimBranches, TextOf;
    ghost var allOrders, prepared;
    status, allOrders, generated, prepared := PrepareMainProgram(program, instrCnt, numsOfJumps, orders);
    streams, made := ViewsOf(program.directedInstr), prepared;
    if !status.Done? {
      return;
    }
    status, made := FinishMainProgram(program, maxBranchStep, generated, allOrders, prepared);
  }

  lemma StreamsAreUnprocessed(generated: seq<Line>, streams: seq<seq<Instr>>, orders: seq<seq<nat>>)
    requires JustGenerated(generated) && Prepared(streams, orders)
    ensures Unprocessed(TrimBranches(generated))
    ensures forall i :: 0 <= i < |streams| ==> Unprocessed(Views(streams[i]))
  {
    hide IsChain;
    forall i | 0 <= i < |streams|
      ensures Unprocessed(Views(streams[i]))
    {
      assert Directed(Views(streams[i]), orders[i]);
    }
  }
}
