/** The in-order comparison of two instruction traces (scripts/instr_trace_compare.py). */
module TraceCompare {
  import opened HexInt

  /** One ";"-separated item of a trace entry's gpr column: nothing, "reg:value", or anything else. */
  datatype Update = Blank | Write(rd: string, val: string) | Malformed

  type Entry = seq<Update>
  type Gpr = map<string, string>

  /** check_update_gpr: whether the entry changes a register, and the registers afterwards. */
  datatype Checked = Checked(changed: bool, gpr: Gpr) | Exits | Raises

  function Check(updates: Entry, gpr: Gpr, changed: bool): Checked
    decreases |updates|
  {
    if updates == [] then Checked(changed, gpr)
    else
      match updates[0]
      case Blank => Checked(false, gpr)
      case Malformed => Exits
      case Write(rd, val) =>
        if rd in gpr then Check(updates[1..], gpr[rd := val], changed || val != gpr[rd])
        else if !IsInt(val) then Raises
        else Check(updates[1..], gpr[rd := val], changed || IntValue(val) != 0)
  }

  /** The end of a comparison: a verdict with its two counts, or an abnormal end. */
  datatype Outcome = Verdict(matched: nat, mismatched: nat) | SysExit | Error

  predicate Passed(o: Outcome) {
    o.Verdict? && o.mismatched == 0
  }

  /** The next changing entry of a trace from position j on. */
  datatype Search = Found(at: nat, gpr: Gpr) | Nothing(gpr: Gpr) | Fails(outcome: Outcome)

  function Find(t: seq<Entry>, j: nat, gpr: Gpr): (s: Search)
    requires j <= |t|
    ensures s.Found? ==> j <= s.at < |t|
    decreases |t| - j
  {
    if j == |t| then Nothing(gpr)
    else
      match Check(t[j], gpr, false)
      case Exits => Fails(SysExit)
      case Raises => Fails(Error)
      case Checked(changed, gpr') => if changed then Found(j, gpr') else Find(t, j + 1, gpr')
  }

  /** What is left of trace 2 when trace 1 has been read. */
  function Drain(t1: seq<Entry>, t2: seq<Entry>, j: nat, g2: Gpr, matched: nat, mismatched: nat): Outcome
    requires j <= |t2|
  {
    match Find(t2, j, g2)
    case Fails(o) => o
    case Nothing(_) => Verdict(matched, mismatched)
    case Found(at, _) => if t1 == [] then Error else Verdict(matched, mismatched + |t2| - at)
  }

  /** The comparison from positions i and j on, with the registers of both traces so far. */
  function Compare(t1: seq<Entry>, i: nat, g1: Gpr, t2: seq<Entry>, j: nat, g2: Gpr,
                   matched: nat, mismatched: nat): Outcome
    requires i <= |t1| && j <= |t2|
    decreases |t1| - i
  {
    if i == |t1| then Drain(t1, t2, j, g2, matched, mismatched)
    else
      match Check(t1[i], g1, false)
      case Exits => SysExit
      case Raises => Error
      case Checked(changed1, g1') =>
        if !changed1 then Compare(t1, i + 1, g1', t2, j, g2, matched, mismatched)
        else
          match Find(t2, j, g2)
          case Fails(o) => o
          case Nothing(_) => Verdict(matched, mismatched + 1)
          case Found(at, g2') =>
            var agree := t1[i] == t2[at];
            var matched' := if agree then matched + 1 else matched;
            var mismatched' := if agree then mismatched else mismatched + 1;
            if at + 1 == |t2| then Verdict(matched', mismatched')
            else Compare(t1, i + 1, g1', t2, at + 1, g2', matched', mismatched')
  }

  /** A dictionary that check_update_gpr updates for its caller. */
  class RegisterMap {
    var val: Gpr

    constructor ()
      ensures val == map[]
    {
      val := map[];
    }
  }

  method CheckUpdateGpr(gprUpdate: Entry, gpr: RegisterMap) returns (result: Checked)
    modifies gpr
    ensures result == Check(gprUpdate, old(gpr.val), false)
    ensures result.Checked? ==> gpr.val == result.gpr
  {
    hide ParseInt;
    var change := false;
    for i := 0 to |gprUpdate|
      invariant Check(gprUpdate, old(gpr.val), false) == Check(gprUpdate[i..], gpr.val, change)
    {
      match gprUpdate[i]
      case Blank =>
        return Checked(false, gpr.val);
      case Malformed =>
        return Exits;
      case Write(rd, val) =>
        if rd in gpr.val {
          if val != gpr.val[rd] {
            change := true;
          }
        } else if !IsInt(val) {
          return Raises;
        } else if IntValue(val) != 0 {
          change := true;
        }
        gpr.val := gpr.val[rd := val];
    }
    return Checked(change, gpr.val);
  }

  lemma EmptyEntry(gpr: Gpr)
    ensures Check([], gpr, false) == Checked(false, gpr)
  {
  }

  method CompareTraceCsv(t1: seq<Entry>, t2: seq<Entry>) returns (outcome: Outcome)
    ensures outcome == Compare(t1, 0, map[], t2, 0, map[], 0, 0)
  {
    hide Check;
    var mismatchCnt, matchedCnt, traceIndex2 := 0, 0, 0;
    var gprVal1 := new RegisterMap();
    var gprVal2 := new RegisterMap();
    ghost var goal := Compare(t1, 0, map[], t2, 0, map[], 0, 0);
    var i := 0;
    while i < |t1|
      invariant i <= |t1| && traceIndex2 <= |t2| && gprVal1 != gprVal2
      invariant fresh(gprVal1) && fresh(gprVal2)
      invariant goal == Compare(t1, i, gprVal1.val, t2, traceIndex2, gprVal2.val, matchedCnt, mismatchCnt)
    {
      var trace := t1[i];
      i := i + 1;
      if |trace| == 0 {
        EmptyEntry(gprVal1.val);
        continue;
      }
      var check1 := CheckUpdateGpr(trace, gprVal1);
      match check1 {
        case Exits => return SysExit;
        case Raises => return Error;
        case Checked(changed, _) =>
          if !changed {
            continue;
          }
      }
      // The search in trace 2 stops behind its next entry that changes a register.
      ghost var search := Find(t2, traceIndex2, gprVal2.val);
      var stateChange2 := false;
      while !stateChange2 && traceIndex2 < |t2|
        invariant traceIndex2 <= |t2|
        invariant gprVal1.val == check1.gpr
        invariant !stateChange2 ==> search == Find(t2, traceIndex2, gprVal2.val)
        invariant stateChange2 ==> traceIndex2 > 0 && search == Found(traceIndex2 - 1, gprVal2.val)
        decreases |t2| - traceIndex2, !stateChange2
      {
        var check2 := CheckUpdateGpr(t2[traceIndex2], gprVal2);
        match check2 {
          case Exits => return SysExit;
          case Raises => return Error;
          case Checked(changed, _) => stateChange2 := changed;
        }
        traceIndex2 := traceIndex2 + 1;
      }
      if !stateChange2 {
        mismatchCnt := mismatchCnt + 1;
      } else {
        var agree := SameUpdates(trace, t2[traceIndex2 - 1]);
        if agree {
          matchedCnt := matchedCnt + 1;
        } else {
          mismatchCnt := mismatchCnt + 1;
        }
      }
      // Nothing left to compare with: the rest of trace 1 is not looked at.
      if traceIndex2 == |t2| {
        return Verdict(matchedCnt, mismatchCnt);
      }
    }
    // Trace 1 is consumed; a change left in trace 2 counts as a mismatch for every line from it on.
    ghost var search := Find(t2, traceIndex2, gprVal2.val);
    while traceIndex2 < |t2|
      invariant traceIndex2 <= |t2|
      invariant search == Find(t2, traceIndex2, gprVal2.val)
    {
      var check2 := CheckUpdateGpr(t2[traceIndex2], gprVal2);
      match check2 {
        case Exits => return SysExit;
        case Raises => return Error;
        case Checked(changed, _) =>
          if changed {
            if t1 == [] {
              return Error;  // the message quotes the last entry of trace 1, which does not exist
            }
            return Verdict(matchedCnt, mismatchCnt + |t2| - traceIndex2);
          }
      }
      traceIndex2 := traceIndex2 + 1;
    }
    return Verdict(matchedCnt, mismatchCnt);
  }

  /** The entries' update lists have the same length and agree item by item. */
  method SameUpdates(a: Entry, b: Entry) returns (same: bool)
    ensures same <==> a == b
  {
    if |a| != |b| {
      return false;
    }
    for i := 0 to |a|
      invariant a[..i] == b[..i]
    {
      if a[i] != b[i] {
        return false;
      }
    }
    return true;
  }
}
