/** The columns of a trace file: lists of items joined with ";", register updates written "reg:value". */
module TraceCsv {
  import opened HexInt
  import opened TraceCompare

  function Join(items: seq<string>, sep: char): string {
    if items == [] then ""
    else if |items| == 1 then items[0]
    else items[0] + [sep] + Join(items[1..], sep)
  }

  /** str.split with a one-character separator. */
  function Split(s: string, sep: char): (parts: seq<string>)
    ensures parts != []
  {
    if s == "" then [""]
    else
      var rest := Split(s[1..], sep);
      if s[0] == sep then [""] + rest else [[s[0]] + rest[0]] + rest[1..]
  }

  lemma {:induction false} SplitStartsWith(item: string, sep: char, rest: string)
    requires sep !in item
    ensures Split(item, sep) == [item]
    ensures Split(item + [sep] + rest, sep) == [item] + Split(rest, sep)
  {
    if item == "" {
      assert ([sep] + rest)[1..] == rest;
      assert item + [sep] + rest == [sep] + rest;
    } else {
      SplitStartsWith(item[1..], sep, rest);
      var s := item + [sep] + rest;
      assert s[1..] == item[1..] + [sep] + rest;
      assert item == [item[0]] + item[1..];
    }
  }

  /** Reading a column gives back the items written, an empty list reading as one empty item. */
  lemma {:induction false} SplitUndoesJoin(items: seq<string>, sep: char)
    requires forall i :: 0 <= i < |items| ==> sep !in items[i]
    ensures Split(Join(items, sep), sep) == if items == [] then [""] else items
  {
    if |items| == 1 {
      SplitStartsWith(items[0], sep, "");
    } else if |items| > 1 {
      SplitStartsWith(items[0], sep, Join(items[1..], sep));
      SplitUndoesJoin(items[1..], sep);
      assert items == [items[0]] + items[1..];
    }
  }

  /** Splitting loses nothing: the parts hold no separator and joined again give the text. */
  lemma {:induction false} JoinUndoesSplit(s: string, sep: char)
    ensures Join(Split(s, sep), sep) == s
    ensures forall i :: 0 <= i < |Split(s, sep)| ==> sep !in Split(s, sep)[i]
  {
    if s != "" {
      var rest := Split(s[1..], sep);
      JoinUndoesSplit(s[1..], sep);
      if s[0] == sep {
        assert ([""] + rest)[1..] == rest;
      } else {
        assert ([[s[0]] + rest[0]] + rest[1..])[1..] == rest[1..];
      }
    }
  }

  /** Two items joined are the two with the separator between them. */
  lemma JoinOfTwo(a: string, b: string, sep: char)
    ensures Join([a, b], sep) == a + [sep] + b
  {
    assert [a, b][1..] == [b];
  }

  /** How check_update_gpr takes one item apart. */
  function ParseUpdate(item: string): Update {
    if item == "" then Blank
    else
      var parts := Split(item, ':');
      if |parts| == 2 then Write(parts[0], parts[1]) else Malformed
  }

  /** A register update: register name and value. */
  datatype RegVal = RegVal(reg: string, val: string)

  predicate Writable(v: RegVal) {
    && ':' !in v.reg && ';' !in v.reg
    && IsHex(v.val)
  }

  predicate AllWritable(vs: seq<RegVal>) {
    forall i :: 0 <= i < |vs| ==> Writable(vs[i])
  }

  function Item(v: RegVal): string {
    v.reg + ":" + v.val
  }

  function Items(vs: seq<RegVal>): (items: seq<string>)
    ensures |items| == |vs|
    ensures forall i :: 0 <= i < |vs| ==> items[i] == Item(vs[i])
  {
    seq(|vs|, i requires 0 <= i < |vs| => Item(vs[i]))
  }

  lemma HexHasNoSeparator(s: string)
    requires IsHex(s)
    ensures ':' !in s && ';' !in s
  {
  }

  lemma ParseUndoesItem(v: RegVal)
    requires Writable(v)
    ensures ParseUpdate(v.reg + ":" + v.val) == Write(v.reg, v.val)
    ensures Item(v) == v.reg + ":" + v.val && ';' !in Item(v)
  {
    HexHasNoSeparator(v.val);
    SplitStartsWith(v.reg, ':', v.val);
    SplitStartsWith(v.val, ':', "");
  }

  /** Nothing is a blank; one colon makes a write of what stands on its two sides; any other number of
      colons makes a malformed item. */
  lemma ParseUpdateMeans(a: string, b: string, c: string)
    requires ':' !in a && ':' !in b
    ensures ParseUpdate("") == Blank
    ensures ParseUpdate(a + ":" + b) == Write(a, b)
    ensures a != "" ==> ParseUpdate(a) == Malformed
    ensures ParseUpdate(a + ":" + (b + ":" + c)) == Malformed
  {
    SplitStartsWith(a, ':', b);
    SplitStartsWith(b, ':', c);
    SplitStartsWith(a, ':', b + ":" + c);
  }

  /** The gpr column as the comparator sees it. */
  function ReadGpr(column: string): (e: Entry)
    ensures |e| == |Split(column, ';')|
    ensures forall i :: 0 <= i < |e| ==> e[i] == ParseUpdate(Split(column, ';')[i])
  {
    var items := Split(column, ';');
    seq(|items|, i requires 0 <= i < |items| => ParseUpdate(items[i]))
  }

  function Writes(vs: seq<RegVal>): (e: Entry)
    ensures |e| == |vs|
    ensures forall i :: 0 <= i < |vs| ==> e[i] == Write(vs[i].reg, vs[i].val)
  {
    seq(|vs|, i requires 0 <= i < |vs| => Write(vs[i].reg, vs[i].val))
  }

  /** The comparator reads exactly the updates written; an entry without any reads as one blank. */
  lemma GprColumnRoundTrip(vs: seq<RegVal>)
    requires AllWritable(vs)
    ensures ReadGpr(Join(Items(vs), ';')) == if vs == [] then [Blank] else Writes(vs)
  {
    var items := Items(vs);
    forall i | 0 <= i < |vs|
      ensures ';' !in items[i] && ParseUpdate(items[i]) == Write(vs[i].reg, vs[i].val)
    {
      ParseUndoesItem(vs[i]);
    }
    SplitUndoesJoin(items, ';');
  }
}
