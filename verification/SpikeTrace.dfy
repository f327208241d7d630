/** Reading a Spike log into trace entries (scripts/spike_log_to_trace_csv.py). */
module SpikeTrace {
  import opened Common
  import opened TraceCompare
  import opened TraceCsv

  /** What the regular expressions find in one line of the log. A line may match several of them. */
  datatype Core = Core(addr: string, instr: string, binary: string)
  datatype Commit = Commit(pri: string, update: RegVal, csr: Option<RegVal>)
  datatype LogLine = LogLine(endsTrampoline: bool, core: Option<Core>, illegal: bool, commit: Option<Commit>)

  /** A finished trace entry and the flag yielded with it. */
  datatype TraceRecord = TraceRecord(pc: string, instrStr: string, binary: string,
                           gpr: seq<string>, csr: seq<string>, mode: string)
  datatype Yield = Yield(entry: TraceRecord, illegal: bool)

  // ---- The segmentation of a log ----

  /** The position after the first line from i on that ends the trampoline. */
  function TrampolineEnd(log: seq<LogLine>, i: nat): (n: nat)
    requires i <= |log|
    ensures i <= n <= |log|
    ensures forall k :: i <= k < n - 1 ==> !log[k].endsTrampoline
    ensures (exists k :: i <= k < |log| && log[k].endsTrampoline) ==> i < n && log[n - 1].endsTrampoline
    ensures (forall k :: i <= k < |log| ==> !log[k].endsTrampoline) ==> n == |log|
    decreases |log| - i
  {
    if i == |log| then i
    else if log[i].endsTrampoline then i + 1
    else TrampolineEnd(log, i + 1)
  }

  predicate Ends(line: LogLine) {
    line.core.Some? || line.illegal
  }

  /** The first line from p on that starts an instruction or reports an illegal one. */
  function SegmentEnd(log: seq<LogLine>, p: nat): (q: nat)
    requires p <= |log|
    ensures p <= q <= |log|
    ensures forall k :: p <= k < q ==> !Ends(log[k])
    ensures q < |log| ==> Ends(log[q])
    decreases |log| - p
  {
    if p == |log| || Ends(log[p]) then p else SegmentEnd(log, p + 1)
  }

  function Commits(lines: seq<LogLine>): seq<Commit> {
    if lines == [] then []
    else
      var last := lines[|lines| - 1];
      Commits(lines[..|lines| - 1]) + if last.commit.Some? then [last.commit.value] else []
  }

  function GprItems(cs: seq<Commit>): seq<string> {
    Items(Updates(cs))
  }

  function Updates(cs: seq<Commit>): (vs: seq<RegVal>)
    ensures |vs| == |cs|
    ensures forall i :: 0 <= i < |cs| ==> vs[i] == cs[i].update
  {
    seq(|cs|, i requires 0 <= i < |cs| => cs[i].update)
  }

  function CsrItems(cs: seq<Commit>): seq<string> {
    if cs == [] then []
    else
      var last := cs[|cs| - 1];
      CsrItems(cs[..|cs| - 1]) + if last.csr.Some? then [Item(last.csr.value)] else []
  }

  function Mode(cs: seq<Commit>): string {
    if cs == [] then "" else cs[|cs| - 1].pri
  }

  function Record(core: Core, cs: seq<Commit>): TraceRecord {
    TraceRecord(core.addr, core.instr, core.binary, GprItems(cs), CsrItems(cs), Mode(cs))
  }

  predicate IsEcall(line: LogLine) {
    line.core.Some? && line.core.value.instr == "ecall"
  }

  /** The entry of the instruction on line p: an ecall takes nothing, any other instruction takes the commits
      up to the next instruction or illegal-instruction line, and is illegal when the latter comes first. */
  function Segment(log: seq<LogLine>, p: nat): Yield
    requires p < |log| && log[p].core.Some?
  {
    if IsEcall(log[p]) then Yield(Record(log[p].core.value, []), false)
    else
      var q := SegmentEnd(log, p + 1);
      Yield(Record(log[p].core.value, Commits(log[p + 1..q])), q < |log| && log[q].core.None?)
  }

  /** The instruction lines from p on, up to and including the first ecall. */
  function InstrLines(log: seq<LogLine>, p: nat): (ps: seq<nat>)
    requires p <= |log|
    ensures forall i :: 0 <= i < |ps| ==> p <= ps[i] < |log| && log[ps[i]].core.Some?
    decreases |log| - p
  {
    if p == |log| then []
    else if log[p].core.None? then InstrLines(log, p + 1)
    else [p] + if IsEcall(log[p]) then [] else InstrLines(log, p + 1)
  }

  function SegmentsAt(log: seq<LogLine>, ps: seq<nat>): (ys: seq<Yield>)
    requires forall i :: 0 <= i < |ps| ==> ps[i] < |log| && log[ps[i]].core.Some?
    ensures |ys| == |ps|
    ensures forall i :: 0 <= i < |ps| ==> ys[i] == Segment(log, ps[i])
  {
    seq(|ps|, i requires 0 <= i < |ps| => Segment(log, ps[i]))
  }

  /** The segmentation: one entry for each instruction line after the trampoline. */
  function Segments(log: seq<LogLine>): seq<Yield> {
    Rest(log, TrampolineEnd(log, 0))
  }

  function Rest(log: seq<LogLine>, n: nat): seq<Yield>
    requires n <= |log|
  {
    SegmentsAt(log, InstrLines(log, n))
  }

  lemma SegmentsAtCons(log: seq<LogLine>, p: nat, ps: seq<nat>)
    requires p < |log| && log[p].core.Some?
    requires forall i :: 0 <= i < |ps| ==> ps[i] < |log| && log[ps[i]].core.Some?
    ensures SegmentsAt(log, [p] + ps) == [Segment(log, p)] + SegmentsAt(log, ps)
  {
    hide Segment;
  }

  lemma RestStep(log: seq<LogLine>, n: nat)
    requires n <= |log|
    ensures n == |log| ==> Rest(log, n) == []
    ensures n < |log| && log[n].core.None? ==> Rest(log, n) == Rest(log, n + 1)
    ensures n < |log| && log[n].core.Some? ==>
              Rest(log, n) == [Segment(log, n)] + if IsEcall(log[n]) then [] else Rest(log, n + 1)
  {
    hide Segment, SegmentsAt;
    if n < |log| && log[n].core.Some? {
      if IsEcall(log[n]) {
        SegmentsAtCons(log, n, []);
        assert [n] + [] == [n];
      } else {
        SegmentsAtCons(log, n, InstrLines(log, n + 1));
      }
    }
  }

  /** Line k starts an instruction that is read: no line from n on before it is an ecall. */
  predicate Reached(log: seq<LogLine>, n: nat, k: nat) {
    n <= k < |log| && log[k].core.Some? && forall m :: n <= m < k ==> !IsEcall(log[m])
  }

  /** The entries' lines are all instruction lines up to and including the first ecall, in order. */
  lemma {:induction false} InstrLinesAreAll(log: seq<LogLine>, n: nat)
    requires n <= |log|
    ensures forall i, j :: 0 <= i < j < |InstrLines(log, n)| ==> InstrLines(log, n)[i] < InstrLines(log, n)[j]
    ensures forall k: nat :: k in InstrLines(log, n) <==> Reached(log, n, k)
    decreases |log| - n
  {
    if n < |log| {
      InstrLinesAreAll(log, n + 1);
      var ps, rest := InstrLines(log, n), InstrLines(log, n + 1);
      forall k: nat
        ensures k in ps <==> Reached(log, n, k)
      {
        assert k in rest <==> Reached(log, n + 1, k);
        ReachedFromNext(log, n, k);
      }
    }
  }

  lemma ReachedFromNext(log: seq<LogLine>, n: nat, k: nat)
    requires n < |log|
    ensures Reached(log, n, k) <==>
              (k == n && log[n].core.Some?) || (!IsEcall(log[n]) && Reached(log, n + 1, k))
  {
  }

  // ---- The reader ----

  class TraceEntry {
    var pc: string
    var instrStr: string
    var binary: string
    var gpr: seq<string>
    var csr: seq<string>
    var mode: string

    constructor (core: Core)
      ensures View() == Record(core, [])
    {
      pc, instrStr, binary, gpr, csr, mode := core.addr, core.instr, core.binary, [], [], "";
    }

    function View(): TraceRecord
      reads this
    {
      TraceRecord(pc, instrStr, binary, gpr, csr, mode)
    }

    method AddCommit(commit: Commit)
      modifies this
      ensures View() == WithCommit(old(View()), commit)
    {
      gpr := gpr + [commit.update.reg + ":" + commit.update.val];
      if commit.csr.Some? {
        csr := csr + [commit.csr.value.reg + ":" + commit.csr.value.val];
      }
      mode := commit.pri;
    }
  }

  function WithCommit(e: TraceRecord, c: Commit): TraceRecord {
    e.(gpr := e.gpr + [Item(c.update)],
       csr := e.csr + if c.csr.Some? then [Item(c.csr.value)] else [],
       mode := c.pri)
  }

  lemma RecordGrows(core: Core, cs: seq<Commit>, c: Commit)
    ensures Record(core, cs + [c]) == WithCommit(Record(core, cs), c)
  {
    var cs' := cs + [c];
    assert cs'[..|cs'| - 1] == cs;
    assert GprItems(cs') == GprItems(cs) + [Item(c.update)];
  }

  /** The entry at hand when a segment that started at line p has been read up to line n. */
  ghost predicate Reading(log: seq<LogLine>, p: nat, n: nat, entry: TraceRecord) {
    && p < n <= |log| && log[p].core.Some? && !IsEcall(log[p])
    && entry == Record(log[p].core.value, Commits(log[p + 1..n]))
    && SegmentEnd(log, p + 1) == SegmentEnd(log, n)
  }

  lemma StartReading(log: seq<LogLine>, p: nat)
    requires p < |log| && log[p].core.Some?
    ensures Record(log[p].core.value, []).instrStr == log[p].core.value.instr
    ensures IsEcall(log[p]) ==> Segment(log, p) == Yield(Record(log[p].core.value, []), false)
    ensures !IsEcall(log[p]) ==> Reading(log, p, p + 1, Record(log[p].core.value, []))
  {
  }

  lemma ReadOn(log: seq<LogLine>, p: nat, n: nat, entry: TraceRecord)
    requires Reading(log, p, n, entry) && n < |log| && !Ends(log[n])
    ensures Reading(log, p, n + 1, if log[n].commit.Some? then WithCommit(entry, log[n].commit.value) else entry)
  {
    hide Record, WithCommit;
    var lines := log[p + 1..n + 1];
    assert lines[..|lines| - 1] == log[p + 1..n];
    if log[n].commit.Some? {
      RecordGrows(log[p].core.value, Commits(log[p + 1..n]), log[n].commit.value);
    } else {
      assert Commits(log[p + 1..n + 1]) == Commits(log[p + 1..n]);
    }
  }

  lemma ReadToEnd(log: seq<LogLine>, p: nat, n: nat, entry: TraceRecord)
    requires Reading(log, p, n, entry) && (n == |log| || Ends(log[n]))
    ensures Segment(log, p) == Yield(entry, n < |log| && log[n].core.None?)
  {
  }

  method ReadSpikeTrace(log: seq<LogLine>) returns (entries: seq<Yield>)
    ensures entries == Segments(log)
  {
    hide Rest, Segment, Reading, Record, WithCommit;
    entries := [];
    var inTrampoline := true;
    var instr: TraceEntry? := null;
    ghost var p := 0;
    for i := 0 to |log|
      invariant inTrampoline ==> entries == [] && instr == null && TrampolineEnd(log, i) == TrampolineEnd(log, 0)
      invariant !inTrampoline && instr == null ==> Segments(log) == entries + Rest(log, i)
      invariant instr != null ==> fresh(instr) && !inTrampoline && p < i && log[p].core.Some? && !IsEcall(log[p])
      invariant instr != null ==> Reading(log, p, i, instr.View())
      invariant instr != null ==> Segments(log) == entries + [Segment(log, p)] + Rest(log, i)
    {
      var line := log[i];
      if inTrampoline {
        if line.endsTrampoline {
          inTrampoline := false;
        }
        continue;
      }
      RestStep(log, i);
      if instr == null {
        // The INSTR state: lines that start no instruction are discarded.
        if line.core.None? {
          continue;
        }
        instr := new TraceEntry(line.core.value);
        p := i;
        StartReading(log, p);
        if instr.instrStr == "ecall" {
          break;
        }
        continue;
      }
      // The EFFECT state
      if line.core.Some? {
        ReadToEnd(log, p, i, instr.View());
        entries := entries + [Yield(instr.View(), false)];
        instr := new TraceEntry(line.core.value);
        p := i;
        StartReading(log, p);
        if instr.instrStr == "ecall" {
          break;
        }
        continue;
      }
      if line.illegal {
        ReadToEnd(log, p, i, instr.View());
        entries := entries + [Yield(instr.View(), true)];
        instr := null;
        continue;
      }
      ReadOn(log, p, i, instr.View());
      if line.commit.Some? {
        instr.AddCommit(line.commit.value);
      }
    }
    if instr != null {
      if !IsEcall(log[p]) {
        RestStep(log, |log|);
        ReadToEnd(log, p, |log|, instr.View());
      }
      entries := entries + [Yield(instr.View(), false)];
    } else {
      RestStep(log, |log|);
    }
  }

  // ---- The filter of process_spike_sim_log ----

  predicate IsKept(entry: TraceRecord, fullTrace: bool) {
    fullTrace || entry.gpr != [] || entry.instrStr == "wfi" || entry.instrStr == "ecall"
  }

  function Kept(ys: seq<Yield>, fullTrace: bool): seq<TraceRecord> {
    if ys == [] then []
    else (if IsKept(ys[0].entry, fullTrace) then [ys[0].entry] else []) + Kept(ys[1..], fullTrace)
  }

  lemma KeptFrom(ys: seq<Yield>, i: nat, fullTrace: bool)
    requires i <= |ys|
    ensures i == |ys| ==> Kept(ys[i..], fullTrace) == []
    ensures i < |ys| ==>
              Kept(ys[i..], fullTrace)
              == (if IsKept(ys[i].entry, fullTrace) then [ys[i].entry] else []) + Kept(ys[i + 1..], fullTrace)
  {
    assert i < |ys| ==> ys[i..][1..] == ys[i + 1..];
  }

  method ProcessSpikeSimLog(log: seq<LogLine>, fullTrace: bool) returns (rows: seq<TraceRecord>, instrsOut: nat)
    ensures rows == Kept(Segments(log), fullTrace)
    ensures instrsOut == |rows|
  {
    hide Kept, Segments;
    rows, instrsOut := [], 0;
    var entries := ReadSpikeTrace(log);
    assert entries[0..] == entries;
    for i := 0 to |entries|
      invariant rows + Kept(entries[i..], fullTrace) == Kept(entries, fullTrace)
      invariant instrsOut == |rows|
    {
      KeptFrom(entries, i, fullTrace);
      if !IsKept(entries[i].entry, fullTrace) {
        continue;
      }
      rows := rows + [entries[i].entry];
      instrsOut := instrsOut + 1;
    }
    KeptFrom(entries, |entries|, fullTrace);
  }
}
