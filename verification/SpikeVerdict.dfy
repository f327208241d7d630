/** A Spike log as one side of a comparison: what the verdict then says about the other side. */
module SpikeVerdict {
  import opened Common
  import opened HexInt
  import opened TraceCompare
  import opened VerdictExactness
  import opened TraceCsv
  import opened SpikeTrace

  /** What the regular expression of a commit line guarantees about the update it finds. */
  predicate WritableLog(log: seq<LogLine>) {
    forall i :: 0 <= i < |log| && log[i].commit.Some? ==> Writable(log[i].commit.value.update)
  }

  /** The trace that the comparator reads from the rows of a trace file. */
  function ReadTrace(rows: seq<TraceRecord>): (t: seq<Entry>)
    ensures |t| == |rows|
    ensures forall i :: 0 <= i < |rows| ==> t[i] == ReadGpr(Join(rows[i].gpr, ';'))
  {
    seq(|rows|, i requires 0 <= i < |rows| => ReadGpr(Join(rows[i].gpr, ';')))
  }

  function SpikeCsv(log: seq<LogLine>, fullTrace: bool): seq<Entry> {
    ReadTrace(Kept(Segments(log), fullTrace))
  }

  // ---- Spike's rows are well formed ----

  ghost predicate WritableRecord(r: TraceRecord) {
    exists vs :: AllWritable(vs) && r.gpr == Items(vs)
  }

  ghost predicate WritableYields(ys: seq<Yield>) {
    forall i :: 0 <= i < |ys| ==> WritableRecord(ys[i].entry)
  }

  lemma {:induction false} CommitsAreWritable(lines: seq<LogLine>)
    requires WritableLog(lines)
    ensures AllWritable(Updates(Commits(lines)))
  {
    if lines != [] {
      CommitsAreWritable(lines[..|lines| - 1]);
    }
  }

  lemma SegmentsAreWritable(log: seq<LogLine>)
    requires WritableLog(log)
    ensures WritableYields(Segments(log))
  {
    hide WritableRecord, Segment, WritableLog;
    var ps := InstrLines(log, TrampolineEnd(log, 0));
    forall i | 0 <= i < |ps|
      ensures WritableRecord(Segment(log, ps[i]).entry)
    {
      SegmentIsWritable(log, ps[i]);
    }
  }

  lemma SegmentIsWritable(log: seq<LogLine>, p: nat)
    requires WritableLog(log) && p < |log| && log[p].core.Some?
    ensures WritableRecord(Segment(log, p).entry)
  {
    if IsEcall(log[p]) {
      assert AllWritable([]) && Segment(log, p).entry.gpr == Items([]);
    } else {
      CommitsAreWritable(log[p + 1..SegmentEnd(log, p + 1)]);
    }
  }

  /** The row of a record, read back: its updates, or one blank when it has none. */
  lemma RecordIsRead(r: TraceRecord)
    requires WritableRecord(r)
    ensures WellFormedEntry(ReadGpr(Join(r.gpr, ';')))
    ensures r.gpr == [] ==> ReadGpr(Join(r.gpr, ';')) == [Blank]
  {
    hide ParseInt;
    var vs: seq<RegVal> :| AllWritable(vs) && r.gpr == Items(vs);
    GprColumnRoundTrip(vs);
    forall i | 0 <= i < |vs|
      ensures IsInt(vs[i].val)
    {
      PlainDigits(vs[i].val);
    }
  }

  lemma TraceOfFirst(ys: seq<Yield>, fullTrace: bool)
    requires ys != []
    ensures var rest := ReadTrace(Kept(ys[1..], fullTrace));
            ReadTrace(Kept(ys, fullTrace)) ==
            if IsKept(ys[0].entry, fullTrace) then [ReadGpr(Join(ys[0].entry.gpr, ';'))] + rest else rest
  {
    hide ReadGpr, Join;
  }

  lemma {:induction false} KeptIsWellFormed(ys: seq<Yield>, fullTrace: bool)
    requires WritableYields(ys)
    ensures WellFormed(ReadTrace(Kept(ys, fullTrace)))
  {
    if ys != [] {
      KeptIsWellFormed(ys[1..], fullTrace);
      RecordIsRead(ys[0].entry);
      TraceOfFirst(ys, fullTrace);
    }
  }

  // ---- The filter does not reach the changing entries ----

  lemma {:induction false} FilterKeepsChanging(ys: seq<Yield>, g: Gpr)
    requires WritableYields(ys)
    ensures WellFormed(ReadTrace(Kept(ys, false))) && WellFormed(ReadTrace(Kept(ys, true)))
    ensures Changing(ReadTrace(Kept(ys, false)), g) == Changing(ReadTrace(Kept(ys, true)), g)
  {
    hide ReadGpr, Join, Check, ReadTrace, WritableRecord;
    KeptIsWellFormed(ys, false);
    KeptIsWellFormed(ys, true);
    if ys != [] {
      var e := ReadGpr(Join(ys[0].entry.gpr, ';'));
      RecordIsRead(ys[0].entry);
      var thin, full := ReadTrace(Kept(ys[1..], false)), ReadTrace(Kept(ys[1..], true));
      TraceOfFirst(ys, true);
      TraceOfFirst(ys, false);
      assert ([e] + full)[1..] == full && ([e] + thin)[1..] == thin;
      FilterKeepsChanging(ys[1..], Apply(e, g).gpr);
      BlankIsIdle(g);
    }
  }

  lemma BlankIsIdle(g: Gpr)
    ensures Check([Blank], g, false) == Checked(false, g)
  {
  }

  lemma {:induction false} BlankEndIsIdle(t: seq<Entry>, g: Gpr)
    requires WellFormed(t) && t != [] && t[|t| - 1] == [Blank]
    ensures !EndsChanging(t, g)
  {
    if |t| > 1 {
      BlankEndIsIdle(t[1..], Apply(t[0], g).gpr);
    }
  }

  // ---- A log that reaches its ecall ----

  ghost predicate ReachesEcall(log: seq<LogLine>) {
    exists k: nat :: Reached(log, TrampolineEnd(log, 0), k) && IsEcall(log[k])
  }

  lemma {:induction false} EcallIsLastLine(log: seq<LogLine>, n: nat, k: nat)
    requires n <= |log| && Reached(log, n, k) && IsEcall(log[k])
    ensures var ps := InstrLines(log, n); ps != [] && ps[|ps| - 1] == k
    decreases |log| - n
  {
    hide Reached;
    ReachedBounds(log, n, k);
    if n == k {
      assert InstrLines(log, n) == [n];
    } else {
      ReachedFromNext(log, n, k);
      EcallIsLastLine(log, n + 1, k);
      var rest := InstrLines(log, n + 1);
      assert InstrLines(log, n) == if log[n].core.Some? then [n] + rest else rest;
    }
  }

  lemma ReachedBounds(log: seq<LogLine>, n: nat, k: nat)
    requires Reached(log, n, k)
    ensures n <= k < |log| && log[k].core.Some?
  {
  }

  lemma {:induction false} KeptEndsWith(ys: seq<Yield>, fullTrace: bool)
    requires ys != [] && IsKept(ys[|ys| - 1].entry, fullTrace)
    ensures Kept(ys, fullTrace) != []
    ensures Kept(ys, fullTrace)[|Kept(ys, fullTrace)| - 1] == ys[|ys| - 1].entry
  {
    if |ys| > 1 {
      KeptEndsWith(ys[1..], fullTrace);
    }
  }

  lemma EcallEndsSegments(log: seq<LogLine>)
    requires ReachesEcall(log)
    ensures Segments(log) != []
    ensures var last := Segments(log)[|Segments(log)| - 1].entry; last.gpr == [] && last.instrStr == "ecall"
  {
    hide InstrLines, TrampolineEnd;
    var n := TrampolineEnd(log, 0);
    var k: nat :| Reached(log, n, k) && IsEcall(log[k]);
    EcallIsLastLine(log, n, k);
    assert Segments(log)[|Segments(log)| - 1] == Segment(log, k);
  }

  lemma EcallTraceEndsIdle(log: seq<LogLine>, fullTrace: bool)
    requires WritableLog(log) && ReachesEcall(log)
    ensures SpikeCsv(log, fullTrace) != [] && WellFormed(SpikeCsv(log, fullTrace))
    ensures !EndsChanging(SpikeCsv(log, fullTrace), map[])
  {
    hide EndsChanging, WritableRecord, WritableLog, ReadGpr, Join, Kept, WellFormed, Segments, ReachesEcall;
    var ys := Segments(log);
    SegmentsAreWritable(log);
    EcallEndsSegments(log);
    var last := ys[|ys| - 1].entry;
    KeptEndsWith(ys, fullTrace);
    KeptIsWellFormed(ys, fullTrace);
    RecordIsRead(last);
    var t := SpikeCsv(log, fullTrace);
    assert t[|t| - 1] == ReadGpr(Join(last.gpr, ';'));
    BlankEndIsIdle(t, map[]);
  }

  /** Against a Spike log that reaches its ecall the verdict is strict, filtered or not: a trace passes
      exactly when it changes registers as the whole log does. */
  lemma SpikeReferenceIsStrict(t1: seq<Entry>, log: seq<LogLine>, fullTrace: bool)
    requires WritableLog(log) && ReachesEcall(log)
    requires t1 != [] && WellFormed(t1)
    ensures WellFormed(SpikeCsv(log, true))
    ensures Passed(Comparison(t1, SpikeCsv(log, fullTrace))) <==> Changes(t1) == Changes(SpikeCsv(log, true))
  {
    EcallTraceEndsIdle(log, fullTrace);
    EcallTraceEndsIdle(log, true);
    SegmentsAreWritable(log);
    FilterKeepsChanging(Segments(log), map[]);
    ExactVerdict(t1, SpikeCsv(log, fullTrace));
  }

  /** On the other side of the comparison the filter changes neither verdict nor counts. */
  lemma FilterKeepsVerdict(log: seq<LogLine>, t2: seq<Entry>)
    requires WritableLog(log) && ReachesEcall(log) && WellFormed(t2)
    ensures Comparison(SpikeCsv(log, false), t2) == Comparison(SpikeCsv(log, true), t2)
  {
    EcallTraceEndsIdle(log, false);
    EcallTraceEndsIdle(log, true);
    SegmentsAreWritable(log);
    FilterKeepsChanging(Segments(log), map[]);
    var thin, full := SpikeCsv(log, false), SpikeCsv(log, true);
    CompareCounts(thin, 0, map[], t2, 0, map[], 0, 0);
    CompareCounts(full, 0, map[], t2, 0, map[], 0, 0);
    assert thin[0..] == thin && full[0..] == full;
  }
}
