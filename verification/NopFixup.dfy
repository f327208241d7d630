/** The delayed-write fixup of .github/scripts/code_fixup.py. */
module NopFixup {

  /** A line of assembly text; only instructions that carry operands are told apart from other text. */
  datatype Line = Text(text: string) | Instr(text: string, mnemonic: string, firstOperand: string)

  datatype OutLine = Kept(line: Line) | Nop

  const MAX_NOPS := 10

  predicate IsDelayed(line: Line) {
    line.Instr? && line.mnemonic in ["div", "divu", "rem", "remu", "lw"]
  }

  // ---- The specification ----

  /** The next n instructions from line j on. */
  function Following(lines: seq<Line>, j: nat, n: nat): (f: seq<Line>)
    requires j <= |lines|
    ensures |f| <= n && forall k :: 0 <= k < |f| ==> f[k].Instr?
    decreases |lines| - j
  {
    if n == 0 || j == |lines| then []
    else if lines[j].Instr? then [lines[j]] + Following(lines, j + 1, n - 1)
    else Following(lines, j + 1, n)
  }

  /** How many NOPs separate a write to dst from the first of these instructions that names it first. */
  function Gap(dst: string, following: seq<Line>, k: nat): (n: nat)
    requires k <= |following| <= 2 && forall m :: 0 <= m < |following| ==> following[m].Instr?
    decreases |following| - k
  {
    if k == |following| then 0
    else if following[k].firstOperand == dst then MAX_NOPS - k
    else Gap(dst, following, k + 1)
  }

  function NopsAfter(lines: seq<Line>, i: nat): nat
    requires i < |lines|
  {
    if IsDelayed(lines[i]) then Gap(lines[i].firstOperand, Following(lines, i + 1, 2), 0) else 0
  }

  function Nops(n: nat): (s: seq<OutLine>)
    ensures |s| == n && forall k :: 0 <= k < n ==> s[k] == Nop
  {
    seq(n, _ => Nop)
  }

  /** The output for the lines from i up to j. */
  function Fixed(lines: seq<Line>, i: nat, j: nat): seq<OutLine>
    requires i <= j <= |lines|
    decreases j - i
  {
    if i == j then []
    else Fixed(lines, i, j - 1) + [Kept(lines[j - 1])] + Nops(NopsAfter(lines, j - 1))
  }

  // ---- The script ----

  method Fixup(inpLines: seq<Line>) returns (outLines: seq<OutLine>)
    ensures outLines == Fixed(inpLines, 0, |inpLines|)
  {
    outLines := [];
    for i := 0 to |inpLines|
      invariant outLines == Fixed(inpLines, 0, i)
    {
      var line := inpLines[i];
      outLines := outLines + [Kept(line)];
      if !line.Instr? || !IsDelayed(line) {
        assert Nops(0) == [];
        continue;
      }
      var following := NextTwo(inpLines, i + 1);
      var nops := 0;
      ghost var before := outLines;
      for j := 0 to |following|
        invariant nops == 0 && outLines == before
        invariant Gap(line.firstOperand, following, j) == NopsAfter(inpLines, i)
      {
        if following[j].firstOperand == line.firstOperand {
          nops := if MAX_NOPS - j > 0 then MAX_NOPS - j else 0;
          break;
        }
      }
      for k := 0 to nops
        invariant outLines == before + Nops(k)
      {
        outLines := outLines + [Nop];
        assert Nops(k) + [Nop] == Nops(k + 1);
      }
    }
  }

  method NextTwo(inpLines: seq<Line>, start: nat) returns (following: seq<Line>)
    requires start <= |inpLines|
    ensures following == Following(inpLines, start, 2)
  {
    following := [];
    ghost var goal := Following(inpLines, start, 2);
    for j := start to |inpLines|
      invariant |following| < 2 && forall k :: 0 <= k < |following| ==> following[k].Instr?
      invariant goal == following + Following(inpLines, j, 2 - |following|)
    {
      if inpLines[j].Instr? {
        ghost var rest := Following(inpLines, j + 1, 1 - |following|);
        assert following + ([inpLines[j]] + rest) == (following + [inpLines[j]]) + rest;
        following := following + [inpLines[j]];
        if |following| >= 2 {
          break;
        }
      }
    }
  }

  // ---- Nothing but NOPs is added ----

  function Erase(out: seq<OutLine>): seq<Line> {
    if out == [] then []
    else Erase(out[..|out| - 1]) + if out[|out| - 1].Nop? then [] else [out[|out| - 1].line]
  }

  lemma {:induction false} EraseNops(out: seq<OutLine>, n: nat)
    ensures Erase(out + Nops(n)) == Erase(out)
  {
    if n == 0 {
      assert out + Nops(0) == out;
    } else {
      assert (out + Nops(n))[..|out| + n - 1] == out + Nops(n - 1);
      EraseNops(out, n - 1);
    }
  }

  lemma {:induction false} FixupOnlyAddsNops(lines: seq<Line>, n: nat)
    requires n <= |lines|
    ensures Erase(Fixed(lines, 0, n)) == lines[..n]
  {
    hide NopsAfter, Nops;
    if n > 0 {
      FixupOnlyAddsNops(lines, n - 1);
      var out := Fixed(lines, 0, n - 1) + [Kept(lines[n - 1])];
      assert out[..|out| - 1] == Fixed(lines, 0, n - 1);
      EraseNops(out, NopsAfter(lines, n - 1));
    }
  }

  // ---- A delayed write and the next writes to its register are kept apart ----

  /** The instructions between two lines. */
  function Between(lines: seq<Line>, i: nat, j: nat): nat
    requires i <= j <= |lines|
    decreases j - i
  {
    if i == j then 0 else (if lines[i].Instr? then 1 else 0) + Between(lines, i + 1, j)
  }

  /** The instruction lines of an output, NOPs included. */
  function Instructions(out: seq<OutLine>): nat {
    if out == [] then 0
    else
      var last := out[|out| - 1];
      Instructions(out[..|out| - 1]) + if last.Nop? || last.line.Instr? then 1 else 0
  }

  lemma {:induction false} InstructionsAdd(a: seq<OutLine>, b: seq<OutLine>)
    ensures Instructions(a + b) == Instructions(a) + Instructions(b)
  {
    if b == [] {
      assert a + b == a;
    } else {
      InstructionsAdd(a, b[..|b| - 1]);
      assert (a + b)[..|a + b| - 1] == a + b[..|b| - 1];
    }
  }

  lemma {:induction false} NopsAreInstructions(n: nat)
    ensures Instructions(Nops(n)) == n
  {
    if n > 0 {
      NopsAreInstructions(n - 1);
      assert Nops(n)[..n - 1] == Nops(n - 1);
    }
  }

  lemma {:induction false} FixedSplits(lines: seq<Line>, i: nat, j: nat, k: nat)
    requires i <= j <= k <= |lines|
    ensures Fixed(lines, i, k) == Fixed(lines, i, j) + Fixed(lines, j, k)
    decreases k - j
  {
    if j < k {
      FixedSplits(lines, i, j, k - 1);
    }
  }

  /** An instruction reached past at most one other is among the next two. */
  lemma {:induction false} FollowingIs(lines: seq<Line>, i: nat, j: nat, n: nat)
    requires i <= j < |lines| && lines[j].Instr? && Between(lines, i, j) < n
    ensures var f := Following(lines, i, n); Between(lines, i, j) < |f| && f[Between(lines, i, j)] == lines[j]
    decreases j - i
  {
    if i < j {
      FollowingIs(lines, i + 1, j, if lines[i].Instr? then n - 1 else n);
    }
  }

  lemma {:induction false} GapIsWide(dst: string, following: seq<Line>, k: nat, m: nat)
    requires k <= m < |following| <= 2 && forall m :: 0 <= m < |following| ==> following[m].Instr?
    requires following[m].firstOperand == dst
    ensures Gap(dst, following, k) >= MAX_NOPS - m
    decreases m - k
  {
    if following[k].firstOperand != dst {
      GapIsWide(dst, following, k + 1, m);
    }
  }

  lemma FixedLine(lines: seq<Line>, i: nat)
    requires i < |lines|
    ensures Fixed(lines, i, i + 1) == [Kept(lines[i])] + Nops(NopsAfter(lines, i))
  {
  }

  lemma LineCounts(line: Line)
    ensures Instructions([Kept(line)]) == if line.Instr? then 1 else 0
  {
    assert [Kept(line)][..0] == [];
  }

  lemma {:induction false} InstructionsStay(lines: seq<Line>, i: nat, j: nat)
    requires i <= j <= |lines|
    ensures Instructions(Fixed(lines, i, j)) >= Between(lines, i, j)
    decreases j - i
  {
    hide Fixed, Instructions, NopsAfter;
    if i < j {
      InstructionsStay(lines, i + 1, j);
      FixedSplits(lines, i, i + 1, j);
      FixedLine(lines, i);
      LineCounts(lines[i]);
      InstructionsAdd(Fixed(lines, i, i + 1), Fixed(lines, i + 1, j));
      InstructionsAdd([Kept(lines[i])], Nops(NopsAfter(lines, i)));
    }
  }

  lemma {:induction false} Layout(lines: seq<Line>, i: nat, j: nat)
    requires i < j < |lines|
    ensures var mid, post := Nops(NopsAfter(lines, i)) + Fixed(lines, i + 1, j),
                             Nops(NopsAfter(lines, j)) + Fixed(lines, j + 1, |lines|);
            Fixed(lines, 0, |lines|) == Fixed(lines, 0, i) + [Kept(lines[i])] + mid + [Kept(lines[j])] + post
  {
    hide Fixed, Nops, NopsAfter;
    FixedSplits(lines, 0, i, |lines|);
    FixedSplits(lines, i, i + 1, |lines|);
    FixedSplits(lines, i + 1, j, |lines|);
    FixedSplits(lines, j, j + 1, |lines|);
    FixedLine(lines, i);
    FixedLine(lines, j);
  }

  /** For a delayed write and either of the next two instructions, when both name the same register
      first: in the output at least ten instruction lines stand between the two. */
  lemma DelayedWritesAreApart(lines: seq<Line>, i: nat, j: nat)
    requires i < j < |lines| && lines[i].Instr? && lines[j].Instr?
    requires lines[i].mnemonic in ["div", "divu", "rem", "remu", "lw"]
    requires Between(lines, i + 1, j) <= 1
    requires lines[j].firstOperand == lines[i].firstOperand
    ensures exists pre, mid, post ::
              && Fixed(lines, 0, |lines|) == pre + [Kept(lines[i])] + mid + [Kept(lines[j])] + post
              && Erase(pre) == lines[..i]
              && Instructions(mid) >= 10
  {
    hide Fixed, Instructions, Gap, Following, Erase;
    var between := Between(lines, i + 1, j);
    FollowingIs(lines, i + 1, j, 2);
    GapIsWide(lines[i].firstOperand, Following(lines, i + 1, 2), 0, between);
    NopsAreInstructions(NopsAfter(lines, i));
    InstructionsStay(lines, i + 1, j);
    InstructionsAdd(Nops(NopsAfter(lines, i)), Fixed(lines, i + 1, j));
    FixupOnlyAddsNops(lines, i);
    Layout(lines, i, j);
  }

  /** A delayed write that neither of the next two instructions names first gets no NOPs, nor does any
      other line. */
  lemma NopsOnlyWhereNeeded(lines: seq<Line>, i: nat)
    requires i < |lines| && NopsAfter(lines, i) > 0
    ensures lines[i].Instr? && lines[i].mnemonic in ["div", "divu", "rem", "remu", "lw"]
    ensures exists j :: i < j < |lines| && lines[j].Instr? && Between(lines, i + 1, j) <= 1
                        && lines[j].firstOperand == lines[i].firstOperand
  {
    var f := Following(lines, i + 1, 2);
    var m := GapHasReason(lines[i].firstOperand, f, 0);
    var j := FollowingStandsAt(lines, i + 1, 2, m);
  }

  lemma {:induction false} GapHasReason(dst: string, following: seq<Line>, k: nat) returns (m: nat)
    requires k <= |following| <= 2 && forall m :: 0 <= m < |following| ==> following[m].Instr?
    requires Gap(dst, following, k) > 0
    ensures k <= m < |following| && following[m].firstOperand == dst
    decreases |following| - k
  {
    if following[k].firstOperand == dst { m := k; } else { m := GapHasReason(dst, following, k + 1); }
  }

  lemma {:induction false} FollowingStandsAt(lines: seq<Line>, i: nat, n: nat, m: nat) returns (j: nat)
    requires i <= |lines| && m < |Following(lines, i, n)|
    ensures i <= j < |lines| && lines[j] == Following(lines, i, n)[m] && Between(lines, i, j) == m
    decreases |lines| - i
  {
    if !lines[i].Instr? {
      j := FollowingStandsAt(lines, i + 1, n, m);
    } else if m == 0 {
      j := i;
    } else {
      j := FollowingStandsAt(lines, i + 1, n - 1, m - 1);
    }
  }

  // ---- The exact number of NOPs ----

  /** The first instruction from line j on. */
  function NextInstr(lines: seq<Line>, j: nat): (k: nat)
    requires j <= |lines|
    ensures j <= k <= |lines| && (k < |lines| ==> lines[k].Instr?)
    ensures forall m :: j <= m < k ==> !lines[m].Instr?
    decreases |lines| - j
  {
    if j == |lines| || lines[j].Instr? then j else NextInstr(lines, j + 1)
  }

  /** Some instruction stands on line k and names this register first. */
  predicate Names(lines: seq<Line>, k: nat, register: string) {
    k < |lines| && lines[k].Instr? && lines[k].firstOperand == register
  }

  /** Every line i of the input is followed in the output by an exact number of NOPs, and around them stand
      the lines before and after it: ten behind a division, remainder or load whose register the next
      instruction names first, nine when only the one after that does, and none otherwise. */
  lemma ExactNops(lines: seq<Line>, i: nat) returns (pre: seq<OutLine>, n: nat, post: seq<OutLine>)
    requires i < |lines|
    ensures var first := NextInstr(lines, i + 1);
            var second := if first < |lines| then NextInstr(lines, first + 1) else first;
            n == if !lines[i].Instr? || lines[i].mnemonic !in ["div", "divu", "rem", "remu", "lw"] then 0
                 else if Names(lines, first, lines[i].firstOperand) then 10
                 else if Names(lines, second, lines[i].firstOperand) then 9
                 else 0
    ensures Fixed(lines, 0, |lines|) == pre + [Kept(lines[i])] + Nops(n) + post
    ensures Erase(pre) == lines[..i] && Erase(post) == lines[i + 1..]
    ensures post != [] ==> !post[0].Nop?
  {
    hide Fixed, NopsAfter, Erase, Names, Nops;
    NopsAfterIs(lines, i);
    pre, n, post := Fixed(lines, 0, i), NopsAfter(lines, i), Fixed(lines, i + 1, |lines|);
    FixedSplits(lines, 0, i, |lines|);
    FixedSplits(lines, i, i + 1, |lines|);
    FixedLine(lines, i);
    FixupOnlyAddsNops(lines, i);
    RestOnlyAddsNops(lines, i + 1);
    StartsWithLine(lines, i + 1);
  }

  lemma NopsAfterIs(lines: seq<Line>, i: nat)
    requires i < |lines|
    ensures var first := NextInstr(lines, i + 1);
            var second := if first < |lines| then NextInstr(lines, first + 1) else first;
            NopsAfter(lines, i) ==
              if !lines[i].Instr? || lines[i].mnemonic !in ["div", "divu", "rem", "remu", "lw"] then 0
              else if Names(lines, first, lines[i].firstOperand) then 10
              else if Names(lines, second, lines[i].firstOperand) then 9
              else 0
  {
    FollowingStartsAt(lines, i + 1, 2);
    var first, f := NextInstr(lines, i + 1), Following(lines, i + 1, 2);
    if first < |lines| {
      FollowingStartsAt(lines, first + 1, 1);
      var g := Following(lines, first + 1, 1);
      assert f == [lines[first]] + g && |g| <= 1;
    }
    if IsDelayed(lines[i]) && |f| > 0 {
      var dst := lines[i].firstOperand;
      assert Gap(dst, f, 0) == if f[0].firstOperand == dst then 10 else Gap(dst, f, 1);
      assert Gap(dst, f, 1) == if |f| == 2 && f[1].firstOperand == dst then 9 else 0;
    }
  }

  lemma {:induction false} FollowingStartsAt(lines: seq<Line>, j: nat, n: nat)
    requires j <= |lines| && n > 0
    ensures var k := NextInstr(lines, j);
            Following(lines, j, n) == if k == |lines| then [] else [lines[k]] + Following(lines, k + 1, n - 1)
    decreases |lines| - j
  {
    if j < |lines| && !lines[j].Instr? {
      FollowingStartsAt(lines, j + 1, n);
    }
  }

  lemma {:induction false} EraseAdds(a: seq<OutLine>, b: seq<OutLine>)
    ensures Erase(a + b) == Erase(a) + Erase(b)
  {
    if b == [] {
      assert a + b == a;
    } else {
      EraseAdds(a, b[..|b| - 1]);
      assert (a + b)[..|a + b| - 1] == a + b[..|b| - 1];
    }
  }

  lemma RestOnlyAddsNops(lines: seq<Line>, i: nat)
    requires i <= |lines|
    ensures Erase(Fixed(lines, i, |lines|)) == lines[i..]
  {
    FixedSplits(lines, 0, i, |lines|);
    EraseAdds(Fixed(lines, 0, i), Fixed(lines, i, |lines|));
    FixupOnlyAddsNops(lines, i);
    FixupOnlyAddsNops(lines, |lines|);
    assert lines[..|lines|] == lines[..i] + lines[i..];
  }

  lemma StartsWithLine(lines: seq<Line>, i: nat)
    requires i <= |lines|
    ensures var post := Fixed(lines, i, |lines|); post != [] ==> !post[0].Nop?
  {
    if i < |lines| {
      FixedSplits(lines, i, i + 1, |lines|);
      FixedLine(lines, i);
    }
  }
}
