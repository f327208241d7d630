/** What PASSED means: the comparator's outcome in terms of the traces' state-changing entries. */
module VerdictExactness {
  import opened HexInt
  import opened TraceCompare

  // ---- Well-formed traces ----

  predicate WellFormedUpdate(u: Update) {
    !u.Malformed? && (u.Write? ==> IsInt(u.val))
  }

  predicate WellFormed(t: seq<Entry>) {
    forall i, k :: 0 <= i < |t| && 0 <= k < |t[i]| ==> WellFormedUpdate(t[i][k])
  }

  predicate WellFormedEntry(e: Entry) {
    forall k :: 0 <= k < |e| ==> WellFormedUpdate(e[k])
  }

  lemma {:induction false} WellFormedIsChecked(e: Entry, g: Gpr, c: bool)
    requires WellFormedEntry(e)
    ensures Check(e, g, c).Checked?
    decreases |e|
  {
    if e != [] && e[0].Write? {
      var c' := c || if e[0].rd in g then e[0].val != g[e[0].rd] else IntValue(e[0].val) != 0;
      WellFormedIsChecked(e[1..], g[e[0].rd := e[0].val], c');
    }
  }

  /** Whether the entry changes a register, and the registers after it. */
  function Apply(e: Entry, g: Gpr): (r: Checked)
    requires WellFormedEntry(e)
    ensures r.Checked? && r == Check(e, g, false)
  {
    WellFormedIsChecked(e, g, false);
    Check(e, g, false)
  }

  // ---- The state-changing entries of a trace ----

  function Changing(t: seq<Entry>, g: Gpr): seq<Entry>
    requires WellFormed(t)
  {
    if t == [] then []
    else
      var r := Apply(t[0], g);
      (if r.changed then [t[0]] else []) + Changing(t[1..], r.gpr)
  }

  predicate EndsChanging(t: seq<Entry>, g: Gpr)
    requires WellFormed(t)
  {
    t != [] &&
    var r := Apply(t[0], g);
    if |t| == 1 then r.changed else EndsChanging(t[1..], r.gpr)
  }

  /** The number of entries from the k-th changing one on, counting from zero. */
  function LeftFrom(t: seq<Entry>, g: Gpr, k: nat): nat
    requires WellFormed(t)
  {
    if t == [] then 0
    else
      var r := Apply(t[0], g);
      if r.changed && k == 0 then |t|
      else LeftFrom(t[1..], r.gpr, if r.changed then k - 1 else k)
  }

  function Final(t: seq<Entry>, g: Gpr): Gpr
    requires WellFormed(t)
  {
    if t == [] then g else Final(t[1..], Apply(t[0], g).gpr)
  }

  lemma {:induction false} FindIsNextChanging(t: seq<Entry>, j: nat, g: Gpr)
    requires j <= |t| && WellFormed(t)
    ensures WellFormed(t[j..])
    ensures !Find(t, j, g).Fails?
    ensures Find(t, j, g).Nothing? <==> Changing(t[j..], g) == []
    ensures Find(t, j, g).Nothing? ==> !EndsChanging(t[j..], g)
    ensures var s := Find(t, j, g);
            s.Found? ==>
              && Changing(t[j..], g) == [t[s.at]] + Changing(t[s.at + 1..], s.gpr)
              && EndsChanging(t[j..], g) == (s.at + 1 == |t| || EndsChanging(t[s.at + 1..], s.gpr))
              && LeftFrom(t[j..], g, 0) == |t| - s.at
              && forall k: nat :: k > 0 ==> LeftFrom(t[j..], g, k) == LeftFrom(t[s.at + 1..], s.gpr, k - 1)
    decreases |t| - j
  {
    hide Check, WellFormedUpdate;
    if j < |t| {
      var r := Apply(t[j], g);
      assert t[j..][1..] == t[j + 1..];
      if !r.changed {
        FindIsNextChanging(t, j + 1, r.gpr);
      }
    }
  }

  // ---- Exact counts ----

  function Min(a: nat, b: nat): nat {
    if a <= b then a else b
  }

  /** How many positions of the two lists hold equal items. */
  function Agree(a: seq<Entry>, b: seq<Entry>): nat {
    if a == [] || b == [] then 0
    else (if a[0] == b[0] then 1 else 0) + Agree(a[1..], b[1..])
  }

  lemma {:induction false} AgreeEverywhere(a: seq<Entry>, b: seq<Entry>)
    ensures Agree(a, b) <= Min(|a|, |b|)
    ensures Agree(a, b) == Min(|a|, |b|) <==> a[..Min(|a|, |b|)] == b[..Min(|a|, |b|)]
  {
    if a != [] && b != [] {
      AgreeEverywhere(a[1..], b[1..]);
      var n := Min(|a|, |b|);
      assert a[..n] == [a[0]] + a[1..][..n - 1];
      assert b[..n] == [b[0]] + b[1..][..n - 1];
    }
  }

  /** The counts for changing entries a and b, when trace 2 ends in a change or not and has left entries
      from its |a|-th change on: unpaired entries cost one for trace 1, every line left for trace 2. */
  function Counts(a: seq<Entry>, b: seq<Entry>, ends: bool, left: nat, matched: nat, mismatched: nat): Outcome {
    AgreeEverywhere(a, b);
    var surplus := if |a| < |b| then left else if |a| == |b| || ends then 0 else 1;
    Verdict(matched + Agree(a, b), mismatched + (Min(|a|, |b|) - Agree(a, b)) + surplus)
  }

  function Counted(t1: seq<Entry>, g1: Gpr, t2: seq<Entry>, g2: Gpr, matched: nat, mismatched: nat): Outcome
    requires WellFormed(t1) && WellFormed(t2)
  {
    var a, b := Changing(t1, g1), Changing(t2, g2);
    Counts(a, b, EndsChanging(t2, g2), LeftFrom(t2, g2, |a|), matched, mismatched)
  }

  lemma PairCounts(x: Entry, a: seq<Entry>, y: Entry, b: seq<Entry>, ends: bool, left: nat,
                   matched: nat, mismatched: nat)
    ensures Counts([x] + a, [y] + b, ends, left, matched, mismatched)
         == Counts(a, b, ends, left, if x == y then matched + 1 else matched,
                   if x == y then mismatched else mismatched + 1)
    ensures b == [] && ends ==>
              Counts([x] + a, [y] + b, ends, left, matched, mismatched)
              == Verdict(if x == y then matched + 1 else matched, if x == y then mismatched else mismatched + 1)
  {
    var a', b' := [x] + a, [y] + b;
    assert a'[1..] == a && b'[1..] == b;
    AgreeEverywhere(a, b);
  }

  lemma UnpairedCounts(x: Entry, a: seq<Entry>, b: seq<Entry>, ends: bool, left: nat, matched: nat, mismatched: nat)
    ensures Counts([x] + a, [], false, left, matched, mismatched) == Verdict(matched, mismatched + 1)
    ensures Counts([], b, ends, left, matched, mismatched)
         == Verdict(matched, mismatched + if b == [] then 0 else left)
  {
  }

  lemma ChangingFrom(t: seq<Entry>, i: nat, g: Gpr)
    requires i < |t| && WellFormed(t)
    ensures WellFormed(t[i..]) && WellFormed(t[i + 1..])
    ensures var r := Apply(t[i], g);
            Changing(t[i..], g) == (if r.changed then [t[i]] else []) + Changing(t[i + 1..], r.gpr)
  {
    assert t[i..][1..] == t[i + 1..];
  }

  lemma NothingLeft(t: seq<Entry>, g: Gpr)
    requires WellFormed(t)
    ensures WellFormed(t[|t|..]) && Changing(t[|t|..], g) == []
  {
  }

  lemma {:induction false} CompareCounts(t1: seq<Entry>, i: nat, g1: Gpr, t2: seq<Entry>, j: nat, g2: Gpr,
                                         matched: nat, mismatched: nat)
    requires t1 != [] && i <= |t1| && j <= |t2| && WellFormed(t1) && WellFormed(t2)
    ensures WellFormed(t1[i..]) && WellFormed(t2[j..])
    ensures Compare(t1, i, g1, t2, j, g2, matched, mismatched)
         == Counted(t1[i..], g1, t2[j..], g2, matched, mismatched)
    decreases |t1| - i
  {
    hide Check, Find, LeftFrom, EndsChanging, Counts, Changing, WellFormedUpdate;
    FindIsNextChanging(t2, j, g2);
    var s := Find(t2, j, g2);
    var b, ends := Changing(t2[j..], g2), EndsChanging(t2[j..], g2);
    if i == |t1| {
      NothingLeft(t1, g1);
      UnpairedCounts([], [], b, ends, LeftFrom(t2[j..], g2, 0), matched, mismatched);
    } else {
      ChangingFrom(t1, i, g1);
      var r := Apply(t1[i], g1);
      var a := Changing(t1[i + 1..], r.gpr);
      if !r.changed {
        CompareCounts(t1, i + 1, r.gpr, t2, j, g2, matched, mismatched);
        assert Changing(t1[i..], g1) == a;
      } else {
        assert Changing(t1[i..], g1) == [t1[i]] + a;
        var left := LeftFrom(t2[j..], g2, |a| + 1);
        if s.Nothing? {
          UnpairedCounts(t1[i], a, b, ends, left, matched, mismatched);
        } else {
          var m := if t1[i] == t2[s.at] then matched + 1 else matched;
          var mm := if t1[i] == t2[s.at] then mismatched else mismatched + 1;
          PairCounts(t1[i], a, t2[s.at], Changing(t2[s.at + 1..], s.gpr), ends, left, matched, mismatched);
          if s.at + 1 < |t2| {
            CompareCounts(t1, i + 1, r.gpr, t2, s.at + 1, s.gpr, m, mm);
          } else {
            NothingLeft(t2, s.gpr);
          }
        }
      }
    }
  }

  /** The end of the whole comparison of two traces. */
  function Comparison(t1: seq<Entry>, t2: seq<Entry>): Outcome {
    Compare(t1, 0, map[], t2, 0, map[], 0, 0)
  }

  /** The state-changing entries of a whole trace. */
  function Changes(t: seq<Entry>): seq<Entry>
    requires WellFormed(t)
  {
    Changing(t, map[])
  }

  lemma {:induction false} LeftFromIsPositive(t: seq<Entry>, g: Gpr, k: nat)
    requires WellFormed(t) && k < |Changing(t, g)|
    ensures 0 < LeftFrom(t, g, k) <= |t|
  {
    var r := Apply(t[0], g);
    if !(r.changed && k == 0) {
      LeftFromIsPositive(t[1..], r.gpr, if r.changed then k - 1 else k);
    }
  }

  predicate ProperPrefix(b: seq<Entry>, a: seq<Entry>) {
    |b| < |a| && b == a[..|b|]
  }

  /** PASSED is equality of the changing entries, except when trace 2 ends early on a change. */
  lemma ExactVerdict(t1: seq<Entry>, t2: seq<Entry>)
    requires t1 != [] && WellFormed(t1) && WellFormed(t2)
    ensures Comparison(t1, t2).Verdict?
    ensures Comparison(t1, t2).matched == Agree(Changes(t1), Changes(t2))
    ensures Passed(Comparison(t1, t2)) <==>
              || Changes(t1) == Changes(t2)
              || (EndsChanging(t2, map[]) && ProperPrefix(Changes(t2), Changes(t1)))
  {
    CompareCounts(t1, 0, map[], t2, 0, map[], 0, 0);
    assert t1[0..] == t1 && t2[0..] == t2;
    var a, b := Changes(t1), Changes(t2);
    AgreeEverywhere(a, b);
    assert a[..|a|] == a && b[..|b|] == b;
    if |a| < |b| {
      LeftFromIsPositive(t2, map[], |a|);
    }
  }

  /** An empty trace 1 is never a failure: it passes, or the comparator itself fails. */
  lemma EmptyTraceVerdict(t2: seq<Entry>)
    requires WellFormed(t2)
    ensures Comparison([], t2) == if Changes(t2) == [] then Verdict(0, 0) else Error
  {
    FindIsNextChanging(t2, 0, map[]);
    assert t2[0..] == t2;
  }

  /** The asymmetry: a truncated trace 2 passes, the same pair the other way round fails. */
  lemma TruncatedTracePasses()
    ensures var long, short := [[Write("ra", "1")], [Write("sp", "2")]], [[Write("ra", "1")]];
            Comparison(long, short) == Verdict(1, 0) && Comparison(short, long) == Verdict(1, 1)
  {
    hide ParseInt;
    var ra, sp := [Write("ra", "1")], [Write("sp", "2")];
    var long: seq<Entry>, short: seq<Entry> := [ra, sp], [ra];
    OneAndTwo();
    var g1: Gpr := map["ra" := "1"];
    assert Check(ra, map[], false) == Checked(true, g1) by {
      assert ra[1..] == [];
      var none: Gpr := map[];
      assert none["ra" := "1"] == g1;
    }
    var g2 := g1["sp" := "2"];
    assert Check(sp, g1, false) == Checked(true, g2) by {
      assert sp[1..] == [];
    }
    assert Find(short, 0, map[]) == Found(0, g1);
    assert Find(long, 0, map[]) == Found(0, g1);
    assert Find(long, 1, g1) == Found(1, g2);
    assert Compare(short, 1, g1, long, 1, g1, 1, 0) == Drain(short, long, 1, g1, 1, 0);
  }

  // ---- What the counts count ----

  /** The positions below n at which two lists hold equal items. */
  function EqualPlaces(a: seq<Entry>, b: seq<Entry>, n: nat): set<int> {
    set i | 0 <= i < n && i < |a| && i < |b| && a[i] == b[i]
  }

  /** The matched count is the number of positions at which the changing entries are equal. */
  lemma AgreeCounts(a: seq<Entry>, b: seq<Entry>)
    ensures Agree(a, b) == |EqualPlaces(a, b, |a|)|
  {
    AgreeCountsTo(a, b, Min(|a|, |b|));
    AgreeIsOnCommonPart(a, b);
    assert EqualPlaces(a, b, |a|) == EqualPlaces(a, b, Min(|a|, |b|));
  }

  lemma {:induction false} AgreeIsOnCommonPart(a: seq<Entry>, b: seq<Entry>)
    ensures var n := Min(|a|, |b|); Agree(a, b) == Agree(a[..n], b[..n])
  {
    if a != [] && b != [] {
      var n := Min(|a|, |b|);
      AgreeIsOnCommonPart(a[1..], b[1..]);
      assert a[..n][1..] == a[1..][..n - 1] && b[..n][1..] == b[1..][..n - 1];
    }
  }

  lemma {:induction false} AgreeCountsTo(a: seq<Entry>, b: seq<Entry>, n: nat)
    requires n <= |a| && n <= |b|
    ensures Agree(a[..n], b[..n]) == |EqualPlaces(a, b, n)|
  {
    if n == 0 {
      assert EqualPlaces(a, b, 0) == {};
    } else {
      AgreeCountsTo(a, b, n - 1);
      AgreeAtEnd(a[..n], b[..n]);
      assert a[..n][..n - 1] == a[..n - 1] && b[..n][..n - 1] == b[..n - 1];
      assert EqualPlaces(a, b, n) == EqualPlaces(a, b, n - 1) + if a[n - 1] == b[n - 1] then {n - 1} else {};
    }
  }

  lemma {:induction false} AgreeAtEnd(a: seq<Entry>, b: seq<Entry>)
    requires |a| == |b| > 0
    ensures var n := |a| - 1; Agree(a, b) == Agree(a[..n], b[..n]) + if a[n] == b[n] then 1 else 0
  {
    var n := |a| - 1;
    if n > 0 {
      AgreeAtEnd(a[1..], b[1..]);
      assert a[..n][1..] == a[1..][..n - 1] && b[..n][1..] == b[1..][..n - 1];
    }
  }

  /** The lines left from the k-th change on: all from that change's position to the end. */
  lemma {:induction false} LeftFromPosition(t: seq<Entry>, g: Gpr, p: nat)
    requires WellFormed(t) && p < |t| && Apply(t[p], Final(t[..p], g)).changed
    ensures LeftFrom(t, g, |Changing(t[..p], g)|) == |t| - p
  {
    hide Check, WellFormedUpdate;
    if p > 0 {
      var r := Apply(t[0], g);
      assert t[..p][0] == t[0] && t[..p][1..] == t[1..][..p - 1];
      LeftFromPosition(t[1..], r.gpr, p - 1);
    }
  }

  /** A mismatch is reported for each unequal pair, once when trace 1 has changes left over that are not
      cut off, and for every line from the first unpaired change of trace 2 on. */
  lemma ExactMismatches(t1: seq<Entry>, t2: seq<Entry>, p: nat)
    requires t1 != [] && WellFormed(t1) && WellFormed(t2) && p < |t2|
    requires |Changing(t2[..p], map[])| == |Changes(t1)| && Apply(t2[p], Final(t2[..p], map[])).changed
    ensures var o, equal := Comparison(t1, t2), |EqualPlaces(Changes(t1), Changes(t2), |Changes(t1)|)|;
            o.Verdict? && o.matched == equal && o.mismatched as int == |Changes(t1)| - equal + |t2| - p
  {
    hide Check, WellFormedUpdate, EndsChanging;
    CompareCounts(t1, 0, map[], t2, 0, map[], 0, 0);
    assert t1[0..] == t1 && t2[0..] == t2;
    AgreeCounts(Changes(t1), Changes(t2));
    LeftFromPosition(t2, map[], p);
    MoreChanges(t2, map[], p);
  }

  lemma {:induction false} MoreChanges(t: seq<Entry>, g: Gpr, p: nat)
    requires WellFormed(t) && p < |t| && Apply(t[p], Final(t[..p], g)).changed
    ensures |Changing(t[..p], g)| < |Changing(t, g)|
  {
    hide Check, WellFormedUpdate;
    if p > 0 {
      assert t[..p][0] == t[0] && t[..p][1..] == t[1..][..p - 1];
      MoreChanges(t[1..], Apply(t[0], g).gpr, p - 1);
    }
  }

  // ---- Abnormal ends ----

  predicate HasMalformed(t: seq<Entry>) {
    exists i, k :: 0 <= i < |t| && 0 <= k < |t[i]| && t[i][k].Malformed?
  }

  predicate HasNonNumber(t: seq<Entry>) {
    exists i, k :: 0 <= i < |t| && 0 <= k < |t[i]| && t[i][k].Write? && !IsInt(t[i][k].val)
  }

  /** The comparator exits only over a malformed item, and fails only over a value that is no number or
      when trace 1 is empty. */
  lemma AbnormalEndsHaveReasons(t1: seq<Entry>, t2: seq<Entry>)
    ensures Comparison(t1, t2).SysExit? ==> HasMalformed(t1) || HasMalformed(t2)
    ensures Comparison(t1, t2).Error? ==> t1 == [] || HasNonNumber(t1) || HasNonNumber(t2)
  {
    CompareEnds(t1, 0, map[], t2, 0, map[], 0, 0);
  }

  lemma {:induction false} CheckEnds(e: Entry, g: Gpr, c: bool)
    ensures Check(e, g, c).Exits? ==> exists k :: 0 <= k < |e| && e[k].Malformed?
    ensures Check(e, g, c).Raises? ==> exists k :: 0 <= k < |e| && e[k].Write? && !IsInt(e[k].val)
    decreases |e|
  {
    hide ParseInt;
    if e != [] && e[0].Write? {
      var g' := g[e[0].rd := e[0].val];
      CheckEnds(e[1..], g', true);
      CheckEnds(e[1..], g', false);
    }
  }

  lemma {:induction false} FindEnds(t: seq<Entry>, j: nat, g: Gpr)
    requires j <= |t|
    ensures Find(t, j, g).Fails? ==> !Find(t, j, g).outcome.Verdict?
    ensures Find(t, j, g).Fails? && Find(t, j, g).outcome.SysExit? ==> HasMalformed(t)
    ensures Find(t, j, g).Fails? && Find(t, j, g).outcome.Error? ==> HasNonNumber(t)
    decreases |t| - j
  {
    hide Check, ParseInt;
    if j < |t| {
      CheckEnds(t[j], g, false);
      var r := Check(t[j], g, false);
      if r.Checked? && !r.changed {
        FindEnds(t, j + 1, r.gpr);
      }
    }
  }

  lemma {:induction false} CompareEnds(t1: seq<Entry>, i: nat, g1: Gpr, t2: seq<Entry>, j: nat, g2: Gpr,
                                       matched: nat, mismatched: nat)
    requires i <= |t1| && j <= |t2|
    ensures Compare(t1, i, g1, t2, j, g2, matched, mismatched).SysExit? ==> HasMalformed(t1) || HasMalformed(t2)
    ensures Compare(t1, i, g1, t2, j, g2, matched, mismatched).Error? ==>
              t1 == [] || HasNonNumber(t1) || HasNonNumber(t2)
    decreases |t1| - i
  {
    hide Check, Find, ParseInt, HasMalformed, HasNonNumber;
    FindEnds(t2, j, g2);
    if i < |t1| {
      EntryEnds(t1, i, g1);
      var r, s := Check(t1[i], g1, false), Find(t2, j, g2);
      if r.Checked? && !r.changed {
        CompareEnds(t1, i + 1, r.gpr, t2, j, g2, matched, mismatched);
      } else if r.Checked? && s.Found? && s.at + 1 < |t2| {
        var agree := t1[i] == t2[s.at];
        CompareEnds(t1, i + 1, r.gpr, t2, s.at + 1, s.gpr, if agree then matched + 1 else matched,
                    if agree then mismatched else mismatched + 1);
      }
    }
  }

  lemma EntryEnds(t: seq<Entry>, i: nat, g: Gpr)
    requires i < |t|
    ensures Check(t[i], g, false).Exits? ==> HasMalformed(t)
    ensures Check(t[i], g, false).Raises? ==> HasNonNumber(t)
  {
    hide Check, ParseInt;
    CheckEnds(t[i], g, false);
  }
}
