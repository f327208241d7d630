/** Bit indices of a generalized reverse: reversing groups of bits in fields is inverting some of the five
    bits of the index. */
module BitReverse {
  import opened Bits

  /** The index i with one of its bits inverted. */
  function Flip(i: nat, bit: nat): nat
    requires bit > 0
  {
    if (i / bit) % 2 == 0 then i + bit else if i >= bit then i - bit else 0
  }

  /** The index i with those of its five lower bits inverted that are asked for. */
  function Flips(i: nat, c0: bool, c1: bool, c2: bool, c3: bool, c4: bool): nat {
    var i1 := if c0 then Flip(i, 1) else i;
    var i2 := if c1 then Flip(i1, 2) else i1;
    var i3 := if c2 then Flip(i2, 4) else i2;
    var i4 := if c3 then Flip(i3, 8) else i3;
    if c4 then Flip(i4, 16) else i4
  }

  /** The place that bit i changes with when the groups of bits in each field are put in reverse order: the
      same bit of the group that lies as far from the other end of the field. */
  function ReversedSource(i: nat, group: nat, field: nat): int
    requires 0 < group <= field
  {
    i - i % field + (field / group - 1 - i % field / group) * group + i % group
  }

  predicate IsSize(n: nat) {
    n == 1 || n == 2 || n == 4 || n == 8 || n == 16
  }

  /** What inverting a bit of i adds. */
  function Change(i: nat, bit: nat): int
    requires bit > 0
  {
    bit - 2 * (i % (2 * bit) - i % bit)
  }

  // ---- One bit ----

  /** An index by its quotient and remainder for twice a size: whether the bit of that size is set. */
  lemma HalvedAt(i: nat, bit: nat)
    requires bit > 0
    ensures var q, r := i / (2 * bit), i % (2 * bit);
            if r < bit then i / bit == 2 * q && i % bit == r else i / bit == 2 * q + 1 && i % bit == r - bit
  {
    var q, r := i / (2 * bit), i % (2 * bit);
    assert i == q * (2 * bit) + r;
    assert q * (2 * bit) == (2 * q) * bit && (2 * q + 1) * bit == (2 * q) * bit + bit;
    if r < bit {
      DivisionIsUnique(i, bit, 2 * q, r);
    } else {
      DivisionIsUnique(i, bit, 2 * q + 1, r - bit);
    }
  }

  lemma FlipChanges(i: nat, bit: nat)
    requires bit > 0
    ensures Flip(i, bit) as int == i + Change(i, bit)
    ensures Flip(i, bit) / (2 * bit) == i / (2 * bit)
  {
    var q, r := i / (2 * bit), i % (2 * bit);
    HalvedAt(i, bit);
    assert i == q * (2 * bit) + r;
    EvenAndOdd(q);
    QuotientIsNotNegative(i, 2 * bit);
    if r < bit {
      DivisionIsUnique(i + bit, 2 * bit, q, r + bit);
    } else {
      DivisionIsUnique(i - bit, 2 * bit, q, r - bit);
    }
  }

  lemma EvenAndOdd(q: int)
    ensures 2 * q % 2 == 0 && (2 * q + 1) % 2 == 1
  {
  }

  lemma QuotientIsNotNegative(i: nat, d: nat)
    requires d > 0
    ensures i / d * d <= i && i % d <= i
  {
  }

  /** The change depends on the index from that bit upwards only. */
  lemma ChangeSeesUpperBits(a: nat, b: nat, bit: nat)
    requires bit > 0 && a / bit == b / bit
    ensures Change(a, bit) == Change(b, bit) && a / (2 * bit) == b / (2 * bit)
  {
    HalvedAt(a, bit);
    HalvedAt(b, bit);
  }

  // ---- Several bits ----

  lemma FlipsAdd(i: nat, c0: bool, c1: bool, c2: bool, c3: bool, c4: bool)
    ensures Flips(i, c0, c1, c2, c3, c4) as int == i
              + (if c0 then Change(i, 1) else 0) + (if c1 then Change(i, 2) else 0) + (if c2 then Change(i, 4) else 0)
              + (if c3 then Change(i, 8) else 0) + (if c4 then Change(i, 16) else 0)
  {
    hide Flip, Change;
    var i1 := if c0 then Flip(i, 1) else i;
    var i2 := if c1 then Flip(i1, 2) else i1;
    var i3 := if c2 then Flip(i2, 4) else i2;
    var i4 := if c3 then Flip(i3, 8) else i3;
    FlipChanges(i, 1);
    FlipChanges(i1, 2);
    ChangeSeesUpperBits(i1, i, 2);
    FlipChanges(i2, 4);
    ChangeSeesUpperBits(i2, i, 4);
    FlipChanges(i3, 8);
    ChangeSeesUpperBits(i3, i, 8);
    FlipChanges(i4, 16);
    ChangeSeesUpperBits(i4, i, 16);
  }

  /** Inverting just the bits from the group size up to the field size, that size excluded, reverses. */
  lemma FlipsReverse(i: nat, group: nat, field: nat)
    requires IsSize(group) && (field == 32 || IsSize(field)) && group < field
    ensures Flips(i, group <= 1 < field, group <= 2 < field, group <= 4 < field, group <= 8 < field,
                  group <= 16 < field)
         == ReversedSource(i, group, field)
  {
    hide Flips, ReversedSource;
    FlipsAdd(i, group <= 1 < field, group <= 2 < field, group <= 4 < field, group <= 8 < field, group <= 16 < field);
    ReversedInClosedForm(i, group, field);
  }

  lemma ReversedInClosedForm(i: nat, group: nat, field: nat)
    requires IsSize(group) && (field == 32 || IsSize(field)) && group < field
    ensures ReversedSource(i, group, field) == i + field - group - 2 * (i % field - i % group)
  {
    RemainderOfRemainder(i, group, field);
    var m := field / group;
    assert field == m * group;
    ReversedClosed(i, group, field, m);
  }

  lemma ReversedClosed(i: nat, group: nat, field: nat, m: nat)
    requires 0 < group <= field && field == m * group && field / group == m && i % field % group == i % group
    ensures ReversedSource(i, group, field) == i + field - group - 2 * (i % field - i % group)
  {
    var q, r := i % field / group, i % group;
    assert i % field == q * group + r;
    assert (m - 1 - q) * group == m * group - group - q * group;
  }

  lemma RemainderOfRemainder(i: nat, group: nat, field: nat)
    requires IsSize(group) && (field == 32 || IsSize(field)) && group < field
    ensures i % field % group == i % group
    decreases field - group
  {
    if field > 2 * group {
      RemainderOfRemainder(i, 2 * group, field);
    }
    HalvedRemainder(i, group);
    HalvedRemainder(i % field, group);
  }

  lemma HalvedRemainder(i: nat, group: nat)
    requires group > 0
    ensures i % (2 * group) % group == i % group
  {
    var r := i % (2 * group);
    HalvedAt(i, group);
    if r < group {
      DivisionIsUnique(r, group, 0, r);
    } else {
      DivisionIsUnique(r, group, 1, r - group);
    }
  }
}
