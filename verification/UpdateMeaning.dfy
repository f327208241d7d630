/** What check_update_gpr decides about an entry, item by item and without following its loop. */
module UpdateMeaning {
  import opened Common
  import opened HexInt
  import opened TraceCompare

  /** The value recorded for a register when item k is reached: that of the last write before it. */
  function Recorded(e: Entry, g: Gpr, k: nat, rd: string): Option<string>
    requires k <= |e|
  {
    if k == 0 then if rd in g then Some(g[rd]) else None
    else if e[k - 1].Write? && e[k - 1].rd == rd then Some(e[k - 1].val)
    else Recorded(e, g, k - 1, rd)
  }

  /** Item k writes another value than the one recorded, or a first value that is not zero. */
  predicate Changes(e: Entry, g: Gpr, k: nat)
    requires k < |e| && e[k].Write? && !Unreadable(e, g, k)
  {
    match Recorded(e, g, k, e[k].rd)
    case Some(v) => v != e[k].val
    case None => IntValue(e[k].val) != 0
  }

  /** Item k is the first value of a register and not a number. */
  predicate Unreadable(e: Entry, g: Gpr, k: nat)
    requires k < |e|
  {
    e[k].Write? && Recorded(e, g, k, e[k].rd).None? && ParseInt(e[k].val).None?
  }

  /** The items before k are all written, and k is at the end or at an item that stops the reading. */
  predicate ReadUpTo(e: Entry, g: Gpr, k: nat) {
    && k <= |e|
    && (forall j :: 0 <= j < k ==> e[j].Write? && !Unreadable(e, g, j))
    && (k < |e| ==> !e[k].Write? || Unreadable(e, g, k))
  }

  /** The dictionary d holds what has been recorded before item k. */
  ghost predicate Records(d: Gpr, e: Entry, g: Gpr, k: nat)
    requires k <= |e|
  {
    forall rd :: Recorded(e, g, k, rd) == if rd in d then Some(d[rd]) else None
  }

  /** Every entry is read up to some item. */
  lemma ReadingStops(e: Entry, g: Gpr) returns (k: nat)
    ensures ReadUpTo(e, g, k)
  {
    k := 0;
    while k < |e| && e[k].Write? && !Unreadable(e, g, k)
      invariant k <= |e| && forall j :: 0 <= j < k ==> e[j].Write? && !Unreadable(e, g, j)
    {
      k := k + 1;
    }
  }

  /** A malformed item exits, a first value that is no number raises, a blank item reports no change, and
      otherwise an entry changes a register exactly when one of its items does. Every value written
      before the end of the reading is recorded. */
  lemma CheckMeans(e: Entry, g: Gpr, k: nat)
    requires ReadUpTo(e, g, k)
    ensures var r := Check(e, g, false);
            && (r.Exits? <==> k < |e| && e[k].Malformed?)
            && (r.Raises? <==> k < |e| && e[k].Write?)
            && (r.Checked? ==> Records(r.gpr, e, g, k))
            && (r.Checked? && k < |e| ==> !r.changed)
            && (r.Checked? && k == |e| ==> (r.changed <==> exists j :: 0 <= j < |e| && Changes(e, g, j)))
  {
    CheckFrom(e, g, g, false, 0, k);
  }

  lemma {:induction false} CheckFrom(e: Entry, g: Gpr, d: Gpr, c: bool, j: nat, k: nat)
    requires ReadUpTo(e, g, k) && j <= k && Records(d, e, g, j)
    ensures var r := Check(e[j..], d, c);
            && (r.Exits? <==> k < |e| && e[k].Malformed?)
            && (r.Raises? <==> k < |e| && e[k].Write?)
            && (r.Checked? ==> Records(r.gpr, e, g, k))
            && (r.Checked? && k < |e| ==> !r.changed)
            && (r.Checked? && k == |e| ==> (r.changed <==> c || exists i :: j <= i < |e| && Changes(e, g, i)))
    decreases k - j
  {
    hide ParseInt;
    if j < k {
      var rd, val := e[j].rd, e[j].val;
      assert e[j..][1..] == e[j + 1..];
      assert Recorded(e, g, j, rd) == if rd in d then Some(d[rd]) else None;
      RecordOne(e, g, d, j);
      CheckFrom(e, g, d[rd := val], c || Changes(e, g, j), j + 1, k);
    } else if k < |e| {
      assert e[k].Write? ==> e[k].rd !in d;
    }
  }

  lemma RecordOne(e: Entry, g: Gpr, d: Gpr, j: nat)
    requires j < |e| && e[j].Write? && Records(d, e, g, j)
    ensures Records(d[e[j].rd := e[j].val], e, g, j + 1)
  {
    var d' := d[e[j].rd := e[j].val];
    forall rd
      ensures Recorded(e, g, j + 1, rd) == if rd in d' then Some(d'[rd]) else None
    {
      assert Recorded(e, g, j, rd) == if rd in d then Some(d[rd]) else None;
    }
  }

  /** A first write of plain digits is a change exactly when one of them is not a zero. */
  lemma FirstWriteIsChange(rd: string, val: string, g: Gpr)
    requires rd !in g && IsHex(val)
    ensures Check([Write(rd, val)], g, false)
         == Checked(exists i :: 0 <= i < |val| && val[i] != '0', g[rd := val])
  {
    hide ParseInt;
    ZeroIffAllZeros(val);
    assert [Write(rd, val)][1..] == [];
  }
}
