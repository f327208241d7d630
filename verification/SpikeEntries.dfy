/** The entries read from a Spike log, and the rows written, in terms of the numbered lines of the log. */
module SpikeEntries {
  import opened Common
  import opened TraceCompare
  import opened TraceCsv
  import opened SpikeTrace

  ghost predicate Ascending(ps: seq<nat>) {
    forall i, j :: 0 <= i < j < |ps| ==> ps[i] < ps[j]
  }

  /** ps are the lines between p and q that carry a commit, in order. */
  ghost predicate AreCommitLines(log: seq<LogLine>, p: nat, q: nat, ps: seq<nat>)
    requires q <= |log|
  {
    && Ascending(ps)
    && (forall j :: 0 <= j < |ps| ==> p < ps[j] < q && log[ps[j]].commit.Some?)
    && forall k :: p < k < q && log[k].commit.Some? ==> k in ps
  }

  /** Those of them whose commit also names a CSR. */
  ghost predicate AreCsrLines(log: seq<LogLine>, p: nat, q: nat, ps: seq<nat>)
    requires q <= |log|
  {
    && Ascending(ps)
    && (forall j :: 0 <= j < |ps| ==> p < ps[j] < q && HasCsr(log[ps[j]]))
    && forall k :: p < k < q && HasCsr(log[k]) ==> k in ps
  }

  predicate HasCsr(line: LogLine) {
    line.commit.Some? && line.commit.value.csr.Some?
  }

  /** Entry i of the trace: the lines p of its instruction and q where it ends, the lines of its commits and
      of its CSR updates. Its pc, text and binary are those of line p; it has one gpr item for each commit
      line and one csr item for each CSR line, in their order and no other; its mode is that of the last
      commit. An ecall takes no line; any other instruction takes all lines up to the next instruction or
      illegal-instruction line, and is illegal when the latter comes first. */
  lemma YieldedEntry(log: seq<LogLine>, i: nat) returns (p: nat, q: nat, commits: seq<nat>, csrs: seq<nat>)
    requires i < |Segments(log)|
    ensures p < q <= |log| && log[p].core.Some?
    ensures i < |InstrLines(log, TrampolineEnd(log, 0))| && p == InstrLines(log, TrampolineEnd(log, 0))[i]
    ensures forall k :: p < k < q ==> log[k].core.None? && !log[k].illegal
    ensures AreCommitLines(log, p, q, commits) && AreCsrLines(log, p, q, csrs)
    ensures var core, y := log[p].core.value, Segments(log)[i];
            && y.entry.pc == core.addr && y.entry.instrStr == core.instr && y.entry.binary == core.binary
            && |y.entry.gpr| == |commits|
            && (forall j :: 0 <= j < |commits| ==>
                  var update := log[commits[j]].commit.value.update;
                  y.entry.gpr[j] == update.reg + ":" + update.val)
            && |y.entry.csr| == |csrs|
            && (forall j :: 0 <= j < |csrs| ==>
                  var csr := log[csrs[j]].commit.value.csr.value;
                  y.entry.csr[j] == csr.reg + ":" + csr.val)
            && y.entry.mode == (if commits == [] then "" else log[commits[|commits| - 1]].commit.value.pri)
            && if core.instr == "ecall" then q == p + 1 && !y.illegal
               else if q == |log| then !y.illegal
               else (log[q].core.Some? || log[q].illegal) && (y.illegal <==> log[q].core.None?)
  {
    var ps := InstrLines(log, TrampolineEnd(log, 0));
    p := ps[i];
    assert Segments(log)[i] == Segment(log, p);
    q := EntryEnd(log, p);
    commits := CommitsAreLines(log, p, q);
    csrs := CsrItemsAreLines(log, p, q);
    assert forall j :: 0 <= j < |commits| ==>
        Segments(log)[i].entry.gpr[j] == Item(Commits(log[p + 1..q])[j].update);
  }

  lemma EntryEnd(log: seq<LogLine>, p: nat) returns (q: nat)
    requires p < |log| && log[p].core.Some?
    ensures p < q <= |log| && forall k :: p < k < q ==> log[k].core.None? && !log[k].illegal
    ensures Segment(log, p).entry == Record(log[p].core.value, Commits(log[p + 1..q]))
    ensures if log[p].core.value.instr == "ecall" then q == p + 1 && !Segment(log, p).illegal
            else if q == |log| then !Segment(log, p).illegal
            else (log[q].core.Some? || log[q].illegal) && (Segment(log, p).illegal <==> log[q].core.None?)
  {
    q := if IsEcall(log[p]) then p + 1 else SegmentEnd(log, p + 1);
    assert IsEcall(log[p]) ==> log[p + 1..q] == [];
  }

  lemma {:induction false} CommitsAreLines(log: seq<LogLine>, p: nat, q: nat) returns (ps: seq<nat>)
    requires p < q <= |log|
    ensures AreCommitLines(log, p, q, ps)
    ensures var cs := Commits(log[p + 1..q]);
            |cs| == |ps| && forall j :: 0 <= j < |ps| ==> cs[j] == log[ps[j]].commit.value
    decreases q
  {
    hide Commits;
    if q == p + 1 {
      NothingCommitted();
      assert log[p + 1..q] == [];
      ps := [];
    } else {
      ps := CommitsAreLines(log, p, q - 1);
      CommitsGrow(log, p, q);
      if log[q - 1].commit.Some? {
        ps := ps + [q - 1];
      }
    }
  }

  lemma CommitsGrow(log: seq<LogLine>, p: nat, q: nat)
    requires p + 1 < q <= |log|
    ensures Commits(log[p + 1..q])
         == Commits(log[p + 1..q - 1]) + if log[q - 1].commit.Some? then [log[q - 1].commit.value] else []
  {
    var lines := log[p + 1..q];
    assert lines[..|lines| - 1] == log[p + 1..q - 1] && lines[|lines| - 1] == log[q - 1];
  }

  lemma {:induction false} CsrItemsAreLines(log: seq<LogLine>, p: nat, q: nat) returns (ps: seq<nat>)
    requires p < q <= |log|
    ensures AreCsrLines(log, p, q, ps)
    ensures var items := CsrItems(Commits(log[p + 1..q]));
            && |items| == |ps|
            && forall j :: 0 <= j < |ps| ==>
                 var csr := log[ps[j]].commit.value.csr.value; items[j] == csr.reg + ":" + csr.val
    decreases q
  {
    hide CsrItems, Commits;
    if q == p + 1 {
      NothingCommitted();
      assert log[p + 1..q] == [];
      ps := [];
    } else {
      ps := CsrItemsAreLines(log, p, q - 1);
      CommitsGrow(log, p, q);
      if log[q - 1].commit.Some? {
        CsrItemsGrow(Commits(log[p + 1..q - 1]), log[q - 1].commit.value);
      } else {
        assert Commits(log[p + 1..q]) == Commits(log[p + 1..q - 1]);
      }
      if HasCsr(log[q - 1]) {
        ps := ps + [q - 1];
      }
    }
  }

  lemma CsrItemsGrow(cs: seq<Commit>, c: Commit)
    ensures CsrItems(cs + [c]) == CsrItems(cs) + if c.csr.Some? then [c.csr.value.reg + ":" + c.csr.value.val] else []
  {
    assert (cs + [c])[..|cs|] == cs;
  }

  lemma NothingCommitted()
    ensures Commits([]) == [] && CsrItems([]) == []
  {
  }

  // ---- The rows written ----

  /** The rows are the entries of the yields at ps: all of them in a full trace, and otherwise those with a
      register update and the instructions wfi and ecall, in order. */
  ghost predicate AreRows(ys: seq<Yield>, fullTrace: bool, rows: seq<TraceRecord>, ps: seq<nat>) {
    && Ascending(ps) && |rows| == |ps|
    && (forall j :: 0 <= j < |ps| ==> ps[j] < |ys| && rows[j] == ys[ps[j]].entry && RowWanted(rows[j], fullTrace))
    && forall k :: 0 <= k < |ys| && RowWanted(ys[k].entry, fullTrace) ==> k in ps
  }

  predicate RowWanted(entry: TraceRecord, fullTrace: bool) {
    fullTrace || |entry.gpr| > 0 || entry.instrStr in ["wfi", "ecall"]
  }

  lemma KeptRows(ys: seq<Yield>, fullTrace: bool) returns (ps: seq<nat>)
    ensures AreRows(ys, fullTrace, Kept(ys, fullTrace), ps)
  {
    hide IsKept, RowWanted, Kept, AreRows;
    ps := [];
    var i := 0;
    NoRows(fullTrace);
    assert ys[0..] == ys;
    ghost var rows: seq<TraceRecord> := [];
    while i < |ys|
      invariant i <= |ys| && Kept(ys, fullTrace) == rows + Kept(ys[i..], fullTrace)
      invariant AreRows(ys[..i], fullTrace, rows, ps)
    {
      KeptFrom(ys, i, fullTrace);
      WantedIsKept(ys[i].entry, fullTrace);
      OneRow(ys, i, fullTrace, rows, ps);
      if RowWanted(ys[i].entry, fullTrace) {
        rows, ps := rows + [ys[i].entry], ps + [i];
      }
      i := i + 1;
    }
    assert ys[..i] == ys;
    KeptFrom(ys, i, fullTrace);
    assert Kept(ys, fullTrace) == rows;
  }

  lemma NoRows(fullTrace: bool)
    ensures AreRows([], fullTrace, [], [])
  {
  }

  lemma WantedIsKept(entry: TraceRecord, fullTrace: bool)
    ensures RowWanted(entry, fullTrace) <==> IsKept(entry, fullTrace)
  {
  }

  lemma OneRow(ys: seq<Yield>, i: nat, fullTrace: bool, rows: seq<TraceRecord>, ps: seq<nat>)
    requires i < |ys| && AreRows(ys[..i], fullTrace, rows, ps)
    ensures if RowWanted(ys[i].entry, fullTrace)
            then AreRows(ys[..i + 1], fullTrace, rows + [ys[i].entry], ps + [i])
            else AreRows(ys[..i + 1], fullTrace, rows, ps)
  {
  }
}
