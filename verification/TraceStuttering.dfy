/** What the verdict does not depend on: entries that change no register. */
module TraceStuttering {
  import opened Common
  import opened HexInt
  import opened TraceCompare
  import opened VerdictExactness

  // ---- Register values ----

  /** A well-formed entry that spells zero in one way, as writers of one width do. */
  predicate OneZero(e: Entry, z: string) {
    && WellFormedEntry(e)
    && forall k :: 0 <= k < |e| && e[k].Write? && IntValue(e[k].val) == 0 ==> e[k].val == z
  }

  predicate AllOneZero(t: seq<Entry>, z: string) {
    forall i :: 0 <= i < |t| ==> OneZero(t[i], z)
  }

  /** Such an entry in which a blank item (no register write) stands alone. */
  predicate Clean(e: Entry, z: string) {
    OneZero(e, z) && forall k :: 1 <= k < |e| ==> e[k].Write?
  }

  predicate AllClean(t: seq<Entry>, z: string) {
    forall i :: 0 <= i < |t| ==> Clean(t[i], z)
  }

  /** The value of a register; one never written holds zero. */
  function Val(g: Gpr, z: string, rd: string): string {
    if rd in g then g[rd] else z
  }

  ghost predicate SameVals(g: Gpr, h: Gpr, z: string) {
    forall rd :: Val(g, z, rd) == Val(h, z, rd)
  }

  predicate IsZero(z: string) {
    IsInt(z) && IntValue(z) == 0
  }

  /** An entry with one zero acts alike on register maps that hold the same values. */
  lemma {:induction false} CheckSeesValues(e: Entry, g: Gpr, h: Gpr, z: string, c: bool)
    requires IsZero(z) && OneZero(e, z) && SameVals(g, h, z)
    ensures Check(e, g, c).Checked? && Check(e, h, c).Checked?
    ensures Check(e, g, c).changed == Check(e, h, c).changed
    ensures SameVals(Check(e, g, c).gpr, Check(e, h, c).gpr, z)
    decreases |e|
  {
    hide ParseInt, SameVals;
    if e != [] && e[0].Write? {
      var rd, val := e[0].rd, e[0].val;
      OneWrite(e, g, z, c);
      OneWrite(e, h, z, c);
      WriteBoth(g, h, z, rd, val);
      CheckSeesValues(e[1..], g[rd := val], h[rd := val], z, c || val != Val(g, z, rd));
    }
  }

  /** A clean entry that changes nothing leaves every value as it was. */
  lemma {:induction false} IdleKeepsValues(e: Entry, g: Gpr, z: string, c: bool)
    requires IsZero(z) && Clean(e, z)
    ensures Check(e, g, c).Checked?
    ensures !Check(e, g, c).changed ==> SameVals(Check(e, g, c).gpr, g, z)
    ensures c && (e == [] || e[0].Write?) ==> Check(e, g, c).changed
    decreases |e|
  {
    hide ParseInt, SameVals;
    SameValsIsTransitive(g, g, g, z);
    if e != [] && e[0].Write? {
      var rd, val := e[0].rd, e[0].val;
      OneWrite(e, g, z, c);
      WriteBoth(g, g, z, rd, val);
      assert Clean(e[1..], z) && (e[1..] == [] || e[1].Write?);
      IdleKeepsValues(e[1..], g[rd := val], z, c || val != Val(g, z, rd));
      SameValsIsTransitive(Check(e, g, c).gpr, g[rd := val], g, z);
    }
  }

  lemma SameValsIsTransitive(f: Gpr, g: Gpr, h: Gpr, z: string)
    ensures SameVals(f, f, z)
    ensures SameVals(f, g, z) && SameVals(g, h, z) ==> SameVals(f, h, z)
  {
  }

  /** The first write of an entry with one zero changes a register when its value differs from the one held. */
  lemma OneWrite(e: Entry, g: Gpr, z: string, c: bool)
    requires IsZero(z) && OneZero(e, z) && e != [] && e[0].Write?
    ensures OneZero(e[1..], z)
    ensures Check(e, g, c) == Check(e[1..], g[e[0].rd := e[0].val], c || e[0].val != Val(g, z, e[0].rd))
  {
    hide ParseInt;
    assert WellFormedUpdate(e[0]);
  }

  lemma WriteBoth(g: Gpr, h: Gpr, z: string, rd: string, val: string)
    requires SameVals(g, h, z)
    ensures SameVals(g[rd := val], h[rd := val], z) && Val(g, z, rd) == Val(h, z, rd)
    ensures val == Val(g, z, rd) ==> SameVals(g[rd := val], g, z)
  {
    var g', h' := g[rd := val], h[rd := val];
    forall r
      ensures Val(g', z, r) == Val(h', z, r)
    {
      assert Val(g, z, r) == Val(h, z, r);
    }
  }

  lemma {:induction false} ReadingSeesValues(t: seq<Entry>, g: Gpr, h: Gpr, z: string)
    requires IsZero(z) && AllOneZero(t, z) && SameVals(g, h, z)
    ensures WellFormed(t)
    ensures Changing(t, g) == Changing(t, h)
    ensures EndsChanging(t, g) == EndsChanging(t, h)
  {
    hide Check, ParseInt, SameVals;
    if t != [] {
      CheckSeesValues(t[0], g, h, z, false);
      ReadingSeesValues(t[1..], Apply(t[0], g).gpr, Apply(t[0], h).gpr, z);
    }
  }

  // ---- An entry between two parts of a trace ----

  /** The registers after a trace read from the start. */
  function After(t: seq<Entry>): Gpr
    requires WellFormed(t)
  {
    Final(t, map[])
  }

  lemma {:induction false} ReadInParts(a: seq<Entry>, b: seq<Entry>, g: Gpr)
    requires WellFormed(a) && WellFormed(b)
    ensures WellFormed(a + b)
    ensures Changing(a + b, g) == Changing(a, g) + Changing(b, Final(a, g))
    ensures EndsChanging(a + b, g) == if b == [] then EndsChanging(a, g) else EndsChanging(b, Final(a, g))
    ensures Final(a + b, g) == Final(b, Final(a, g))
  {
    hide Check, WellFormedUpdate, ParseInt;
    if a == [] {
      assert a + b == b;
    } else {
      assert (a + b)[1..] == a[1..] + b;
      ReadInParts(a[1..], b, Apply(a[0], g).gpr);
    }
  }

  /** Entry e, read after the entries before it, changes no register. */
  predicate Idle(before: seq<Entry>, e: Entry)
    requires WellFormed(before) && WellFormedEntry(e)
  {
    !Apply(e, After(before)).changed
  }

  /** The dictionary that e leaves behind there. */
  function Left(before: seq<Entry>, e: Entry): Gpr
    requires WellFormed(before) && WellFormedEntry(e)
  {
    Apply(e, After(before)).gpr
  }

  /** The trace with e, read in parts: what follows is read from the dictionary that e leaves. */
  lemma ReadWith(before: seq<Entry>, e: Entry, rest: seq<Entry>)
    requires WellFormed(before) && WellFormedEntry(e) && WellFormed(rest)
    ensures WellFormed(before + rest) && WellFormed(before + [e] + rest)
    ensures Changes(before + rest) == Changes(before) + Changing(rest, After(before))
    ensures Idle(before, e) ==>
              Changes(before + [e] + rest) == Changes(before) + Changing(rest, Left(before, e))
    ensures !Idle(before, e) ==>
              Changes(before + [e] + rest) == Changes(before) + [e] + Changing(rest, Left(before, e))
    ensures rest != [] ==> EndsChanging(before + rest, map[]) == EndsChanging(rest, After(before))
    ensures rest != [] ==> EndsChanging(before + [e] + rest, map[]) == EndsChanging(rest, Left(before, e))
    ensures rest == [] ==> EndsChanging(before + [e] + rest, map[]) == !Idle(before, e)
  {
    hide Check, Changing, EndsChanging, Final, WellFormed, WellFormedEntry;
    ReadInParts(before, rest, map[]);
    SingleEntry(e, After(before));
    ReadInParts([e], rest, After(before));
    ReadInParts(before, [e] + rest, map[]);
    assert before + [e] + rest == before + ([e] + rest);
  }

  lemma SingleEntry(e: Entry, g: Gpr)
    requires WellFormedEntry(e)
    ensures WellFormed([e]) && Final([e], g) == Apply(e, g).gpr
    ensures Changing([e], g) == if Apply(e, g).changed then [e] else []
    ensures EndsChanging([e], g) == Apply(e, g).changed
  {
    hide Check;
    assert [e][1..] == [];
  }

  /** The comparison depends on trace 1 only through its changing entries. */
  lemma SameChangesInTrace1(t: seq<Entry>, u: seq<Entry>, t2: seq<Entry>)
    requires t != [] && u != [] && WellFormed(t) && WellFormed(u) && WellFormed(t2)
    requires Changes(t) == Changes(u)
    ensures Comparison(t, t2) == Comparison(u, t2)
  {
    CompareCounts(t, 0, map[], t2, 0, map[], 0, 0);
    CompareCounts(u, 0, map[], t2, 0, map[], 0, 0);
    assert t[0..] == t && u[0..] == u;
  }

  /** Two outcomes with the same verdict and the same matched count. */
  predicate Agrees(o: Outcome, o': Outcome) {
    o.Verdict? && o'.Verdict? && Passed(o) == Passed(o') && o.matched == o'.matched
  }

  // ---- At the end of a trace ----

  /** Behind the last entry an idle entry changes nothing in trace 1; in trace 2 it makes the verdict
      strict: PASSED is then equality of the changing entries. */
  lemma IdleTailMakesVerdictStrict(t1: seq<Entry>, t2: seq<Entry>, e: Entry)
    requires t1 != [] && WellFormed(t1) && WellFormed(t2) && WellFormedEntry(e)
    ensures Idle(t1, e) ==> Comparison(t1 + [e], t2) == Comparison(t1, t2)
    ensures Idle(t2, e) ==> (Passed(Comparison(t1, t2 + [e])) <==> Changes(t1) == Changes(t2))
  {
    ReadWith(t1, e, []);
    ReadWith(t2, e, []);
    assert t1 + [e] + [] == t1 + [e] && t2 + [e] + [] == t2 + [e];
    assert t1 + [] == t1 && t2 + [] == t2;
    if Idle(t1, e) {
      SameChangesInTrace1(t1 + [e], t1, t2);
    }
    ExactVerdict(t1, t2 + [e]);
  }

  // ---- Anywhere in a trace: sufficient conditions ----

  /** e changes no register and leaves the dictionary as it was: a row without register writes, or a
      rewrite of the values already recorded. */
  predicate Silent(before: seq<Entry>, e: Entry)
    requires WellFormed(before) && WellFormedEntry(e)
  {
    Idle(before, e) && Left(before, e) == After(before)
  }

  /** e changes no register and leaves every value as it was, a register never written holding zero. */
  ghost predicate KeepsValues(before: seq<Entry>, e: Entry, z: string)
    requires WellFormed(before) && WellFormedEntry(e)
  {
    Idle(before, e) && SameVals(Left(before, e), After(before), z)
  }

  /** What may follow: any well-formed entries, or only such that spell zero as z. */
  predicate Allowed(rest: seq<Entry>, zero: Option<string>) {
    WellFormed(rest) && (zero.Some? ==> AllOneZero(rest, zero.value))
  }

  /** The condition that fits what may follow. */
  ghost predicate Quiet(before: seq<Entry>, e: Entry, zero: Option<string>)
    requires WellFormed(before) && WellFormedEntry(e)
  {
    match zero
    case None => Silent(before, e)
    case Some(z) => KeepsValues(before, e, z)
  }

  lemma QuietEntryReadsTheSame(before: seq<Entry>, e: Entry, rest: seq<Entry>, zero: Option<string>)
    requires WellFormed(before) && WellFormedEntry(e) && Allowed(rest, zero) && Quiet(before, e, zero)
    requires zero.Some? ==> IsZero(zero.value)
    ensures Changing(rest, Left(before, e)) == Changing(rest, After(before))
    ensures EndsChanging(rest, Left(before, e)) == EndsChanging(rest, After(before))
  {
    if zero.Some? {
      ReadingSeesValues(rest, Left(before, e), After(before), zero.value);
    }
  }

  /** Stuttering in trace 1: a quiet entry anywhere in a non-empty trace 1 leaves the whole outcome. With
      zero == None this covers all well-formed traces. */
  lemma StutterInTrace1(before: seq<Entry>, e: Entry, rest: seq<Entry>, t2: seq<Entry>, zero: Option<string>)
    requires WellFormed(before) && WellFormedEntry(e) && Allowed(rest, zero) && WellFormed(t2)
    requires zero.Some? ==> IsZero(zero.value)
    requires before + rest != [] && Quiet(before, e, zero)
    ensures Comparison(before + [e] + rest, t2) == Comparison(before + rest, t2)
  {
    hide Comparison, Quiet;
    QuietEntryReadsTheSame(before, e, rest, zero);
    QuietIsIdle(before, e, zero);
    ReadWith(before, e, rest);
    SameChangesInTrace1(before + [e] + rest, before + rest, t2);
  }

  /** Stuttering in trace 2: a quiet entry anywhere but at the end leaves verdict and matched count. */
  lemma StutterInTrace2(t1: seq<Entry>, before: seq<Entry>, e: Entry, rest: seq<Entry>, zero: Option<string>)
    requires WellFormed(before) && WellFormedEntry(e) && Allowed(rest, zero) && WellFormed(t1)
    requires zero.Some? ==> IsZero(zero.value)
    requires t1 != [] && rest != [] && Quiet(before, e, zero)
    ensures Agrees(Comparison(t1, before + [e] + rest), Comparison(t1, before + rest))
  {
    hide Comparison, Quiet;
    QuietEntryReadsTheSame(before, e, rest, zero);
    QuietIsIdle(before, e, zero);
    ReadWith(before, e, rest);
    ExactVerdict(t1, before + [e] + rest);
    ExactVerdict(t1, before + rest);
  }

  lemma QuietIsIdle(before: seq<Entry>, e: Entry, zero: Option<string>)
    requires WellFormed(before) && WellFormedEntry(e) && Quiet(before, e, zero)
    ensures Idle(before, e)
  {
  }

  /** For a clean entry quietness before entries with one zero is just idleness. */
  lemma CleanIdleEntryIsQuiet(before: seq<Entry>, e: Entry, z: string)
    requires WellFormed(before) && IsZero(z) && Clean(e, z)
    ensures KeepsValues(before, e, z) <==> Idle(before, e)
  {
    IdleKeepsValues(e, After(before), z, false);
  }

  // ---- The condition is exact ----

  /** No continuation of trace 1 and no trace 2 can tell whether e stands behind the entries before it. */
  ghost predicate UnseenInTrace1(before: seq<Entry>, e: Entry, zero: Option<string>) {
    forall rest, t2 :: before + rest != [] && Allowed(rest, zero) && WellFormed(t2) ==>
      Comparison(before + [e] + rest, t2) == Comparison(before + rest, t2)
  }

  /** The same for trace 2, where something has to follow. */
  ghost predicate UnseenInTrace2(before: seq<Entry>, e: Entry, zero: Option<string>) {
    forall t1, rest :: t1 != [] && rest != [] && Allowed(rest, zero) && WellFormed(t1) ==>
      Agrees(Comparison(t1, before + [e] + rest), Comparison(t1, before + rest))
  }

  /** An entry is invisible before every well-formed continuation, in either trace, exactly when it
      changes no register and leaves the dictionary as it was. Before every continuation that spells
      zero as e does, it is invisible exactly when it changes no register and keeps every value. */
  lemma UnseenIffQuiet(before: seq<Entry>, e: Entry, zero: Option<string>)
    requires WellFormed(before) && WellFormedEntry(e)
    requires zero.Some? ==> IsZero(zero.value) && OneZero(e, zero.value)
    ensures UnseenInTrace1(before, e, zero) <==> Quiet(before, e, zero)
    ensures UnseenInTrace2(before, e, zero) <==> Quiet(before, e, zero)
  {
    hide Comparison, Quiet, Agrees, WellFormed, WellFormedEntry, OneZero, IsZero;
    if Quiet(before, e, zero) {
      forall rest, t2 | before + rest != [] && Allowed(rest, zero) && WellFormed(t2)
        ensures Comparison(before + [e] + rest, t2) == Comparison(before + rest, t2)
      {
        StutterInTrace1(before, e, rest, t2, zero);
      }
      forall t1, rest | t1 != [] && rest != [] && Allowed(rest, zero) && WellFormed(t1)
        ensures Agrees(Comparison(t1, before + [e] + rest), Comparison(t1, before + rest))
      {
        StutterInTrace2(t1, before, e, rest, zero);
      }
    } else {
      var x := Telltale(before, e, zero);
      SeenBy(before, e, x);
    }
  }

  /** An entry that reads differently behind e gives e away: the trace without e and with x at its end
      passes against itself, and no longer when e is put in on either side. */
  lemma SeenBy(before: seq<Entry>, e: Entry, x: Entry)
    requires WellFormed(before) && WellFormedEntry(e) && WellFormedEntry(x)
    requires !Idle(before, e) ==> x == [Blank]
    requires Idle(before, e) ==> Apply(x, After(before)).changed != Apply(x, Left(before, e)).changed
    ensures WellFormed([x]) && WellFormed(before + [x])
    ensures Comparison(before + [e] + [x], before + [x]) != Comparison(before + [x], before + [x])
    ensures !Agrees(Comparison(before + [x], before + [e] + [x]), Comparison(before + [x], before + [x]))
  {
    hide Check, Comparison, WellFormedEntry;
    SingleEntry(x, After(before));
    SingleEntry(x, Left(before, e));
    ReadWith(before, e, [x]);
    BlankChangesNothing(After(before));
    BlankChangesNothing(Left(before, e));
    var with_, without := before + [e] + [x], before + [x];
    ExactVerdict(without, without);
    ExactVerdict(with_, without);
    ExactVerdict(without, with_);
  }

  lemma BlankChangesNothing(g: Gpr)
    ensures WellFormedEntry([Blank]) && Apply([Blank], g) == Checked(false, g)
  {
  }

  /** Such an entry exists unless e is quiet. */
  lemma Telltale(before: seq<Entry>, e: Entry, zero: Option<string>) returns (x: Entry)
    requires WellFormed(before) && WellFormedEntry(e) && !Quiet(before, e, zero)
    requires zero.Some? ==> IsZero(zero.value) && OneZero(e, zero.value)
    ensures WellFormedEntry(x) && Allowed([x], zero)
    ensures !Idle(before, e) ==> x == [Blank]
    ensures Idle(before, e) ==> Apply(x, After(before)).changed != Apply(x, Left(before, e)).changed
  {
    hide ParseInt, IsHex, HexValue, Check;
    if !Idle(before, e) {
      x := [Blank];
    } else {
      var g, h := After(before), Left(before, e);
      var rd, v;
      if zero.Some? {
        rd :| Val(h, zero.value, rd) != Val(g, zero.value, rd);
        KeysStay(e, g, false, rd);
        WrittenOrKept(e, g, false, rd);
        v := h[rd];
      } else {
        rd := RewrittenRegister(e, g, h);
        SpellingsOfZero();
        v := if rd in g || IntValue(h[rd]) != 0 then h[rd] else if h[rd] == "0" then "00" else "0";
      }
      x := [Write(rd, v)];
      SingleWrite(rd, v, g);
      SingleWrite(rd, v, h);
    }
  }

  lemma SingleWrite(rd: string, v: string, g: Gpr)
    requires IsInt(v)
    ensures WellFormedEntry([Write(rd, v)])
    ensures Apply([Write(rd, v)], g) == Checked(if rd in g then v != g[rd] else IntValue(v) != 0, g[rd := v])
  {
    hide ParseInt;
    var e := [Write(rd, v)];
    var c := if rd in g then v != g[rd] else IntValue(v) != 0;
    assert e[1..] == [];
    assert Check(e, g, false) == Check(e[1..], g[rd := v], c);
  }

  /** A dictionary that differs behind e holds a value that e has written. */
  lemma RewrittenRegister(e: Entry, g: Gpr, h: Gpr) returns (rd: string)
    requires WellFormedEntry(e) && h == Apply(e, g).gpr && h != g
    ensures rd in h && IsInt(h[rd]) && (rd in g ==> g[rd] != h[rd])
  {
    hide ParseInt, Check;
    forall r
      ensures r in g ==> r in h
    {
      KeysStay(e, g, false, r);
    }
    if forall r :: r in h ==> r in g && g[r] == h[r] {
      SameMap(g, h);
    }
    rd :| rd in h && !(rd in g && g[rd] == h[rd]);
    WrittenOrKept(e, g, false, rd);
  }

  lemma SameMap(g: Gpr, h: Gpr)
    requires forall r :: r in g ==> r in h
    requires forall r :: r in h ==> r in g && g[r] == h[r]
    ensures g == h
  {
    assert g.Keys == h.Keys;
  }

  lemma {:induction false} KeysStay(e: Entry, g: Gpr, c: bool, r: string)
    requires Check(e, g, c).Checked?
    ensures r in g ==> r in Check(e, g, c).gpr
    decreases |e|
  {
    hide ParseInt;
    if e != [] && e[0].Write? {
      var g' := g[e[0].rd := e[0].val];
      if Check(e, g, c) == Check(e[1..], g', true) {
        KeysStay(e[1..], g', true, r);
      } else {
        KeysStay(e[1..], g', false, r);
      }
    }
  }

  lemma {:induction false} WrittenOrKept(e: Entry, g: Gpr, c: bool, r: string)
    requires WellFormedEntry(e) && Check(e, g, c).Checked?
    ensures var h := Check(e, g, c).gpr;
            r in h ==> (r in g && h[r] == g[r]) || (IsInt(h[r]) && Write(r, h[r]) in e)
    decreases |e|
  {
    hide ParseInt;
    if e != [] && e[0].Write? {
      assert WellFormedUpdate(e[0]);
      var g' := g[e[0].rd := e[0].val];
      if Check(e, g, c) == Check(e[1..], g', true) {
        WrittenOrKept(e[1..], g', true, r);
      } else {
        WrittenOrKept(e[1..], g', false, r);
      }
    }
  }

  // ---- Idle entries that are seen ----

  /** Two spellings of zero: a write of "0" to a register never written is idle, but a later "00" then
      counts as a change, and a pass becomes a failure. */
  lemma SecondSpellingIsSeen()
    ensures var e, rest := [Write("ra", "0")], [[Write("ra", "00")]];
            && WellFormedEntry(e) && WellFormed(rest) && Idle([], e)
            && Passed(Comparison(rest, [])) && !Passed(Comparison([e] + rest, []))
  {
    hide ParseInt, HexValue;
    SpellingsOfZero();
    var e, f := [Write("ra", "0")], [Write("ra", "00")];
    SingleWrite("ra", "0", map[]);
    SingleWrite("ra", "00", map[]);
    SingleWrite("ra", "00", Left([], e));
    SingleEntry(f, map[]);
    SingleEntry(f, Left([], e));
    ReadWith([], e, [f]);
    assert [] + [e] + [f] == [e] + [f] && [] + [f] == [f];
    ExactVerdict([f], []);
    ExactVerdict([e] + [f], []);
  }

  /** A blank behind a write: the entry counts as idle although it records the value, and the write that
      follows is no longer a change. */
  lemma HiddenWriteIsSeen()
    ensures var e, rest := [Write("ra", "1"), Blank], [[Write("ra", "1")]];
            && WellFormedEntry(e) && WellFormed(rest) && Idle([], e)
            && Passed(Comparison(rest, rest)) && !Passed(Comparison([e] + rest, rest))
  {
    hide ParseInt, HexValue;
    OneAndTwo();
    var e, f := [Write("ra", "1"), Blank], [Write("ra", "1")];
    SingleWrite("ra", "1", map[]);
    assert e[1..] == [Blank];
    SingleWrite("ra", "1", Left([], e));
    SingleEntry(f, map[]);
    SingleEntry(f, Left([], e));
    ReadWith([], e, [f]);
    assert [] + [e] + [f] == [e] + [f] && [] + [f] == [f];
    ExactVerdict([f], [f]);
    ExactVerdict([e] + [f], [f]);
  }

  // ---- What the changing entries decide: the final registers ----

  lemma {:induction false} FinalFromChanging(t: seq<Entry>, g: Gpr, h: Gpr, z: string)
    requires IsZero(z) && AllClean(t, z) && WellFormed(t) && SameVals(g, h, z)
    ensures AllClean(Changing(t, g), z) && WellFormed(Changing(t, g))
    ensures SameVals(Final(t, g), Final(Changing(t, g), h), z)
  {
    hide Check;
    if t != [] {
      CheckSeesValues(t[0], g, h, z, false);
      IdleKeepsValues(t[0], g, z, false);
      var r := Apply(t[0], g);
      var rest := Changing(t[1..], r.gpr);
      if r.changed {
        FinalFromChanging(t[1..], r.gpr, Apply(t[0], h).gpr, z);
        assert Changing(t, g)[0] == t[0] && Changing(t, g)[1..] == rest;
      } else {
        FinalFromChanging(t[1..], r.gpr, h, z);
        assert Changing(t, g) == rest;
      }
    }
  }

  /** Traces with equal changing entries leave every register with the same value. */
  lemma EqualChangesEqualState(t1: seq<Entry>, t2: seq<Entry>, z: string)
    requires IsZero(z) && AllClean(t1, z) && AllClean(t2, z) && WellFormed(t1) && WellFormed(t2)
    requires Changes(t1) == Changes(t2)
    ensures forall rd :: Val(Final(t1, map[]), z, rd) == Val(Final(t2, map[]), z, rd)
  {
    FinalFromChanging(t1, map[], map[], z);
    FinalFromChanging(t2, map[], map[], z);
    forall rd ensures Val(Final(t1, map[]), z, rd) == Val(Final(t2, map[]), z, rd) {
      assert Val(Final(t1, map[]), z, rd) == Val(Final(Changes(t1), map[]), z, rd);
    }
  }

  /** A pass against a trace that ends idle therefore is agreement on the final registers. */
  lemma PassedMeansSameState(t1: seq<Entry>, t2: seq<Entry>, z: string)
    requires IsZero(z) && AllClean(t1, z) && AllClean(t2, z) && WellFormed(t1) && WellFormed(t2)
    requires t1 != [] && !EndsChanging(t2, map[]) && Passed(Comparison(t1, t2))
    ensures forall rd :: Val(Final(t1, map[]), z, rd) == Val(Final(t2, map[]), z, rd)
  {
    ExactVerdict(t1, t2);
    EqualChangesEqualState(t1, t2, z);
  }
}
