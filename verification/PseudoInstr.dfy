/** Rewriting of pseudo-instructions (scripts/lib.py, convert_pseudo_instr) and what it preserves. */
module PseudoInstr {
  import opened Common
  import opened BitReverse

  type Reg = r: int | 0 <= r < 32
  type Regs = x: seq<bv32> | |x| == 32 && x[0] == 0 witness seq(32, _ => 0)

  // The instruction names that the rewriting tests or produces, by the way it treats them.

  datatype BaseName =
    | ADDI | XORI | SLTIU | ADDIW | GREVI
    | SUB | SUBW | SLTU | SLT
    | BEQ | BNE | BGE | BLT | BGEU | BLTU
    | CSRRW | CSRRS | CSRRC | CSRRWI | CSRRSI | CSRRCI
    | JAL | JALR | C_JR

  datatype RegForm = MV | NOT | NEG | NEGW | SEXT_W | SEQZ | SNEZ | SLTZ | SGTZ
  datatype ZeroBranchForm = BEQZ | BNEZ | BGEZ | BLTZ | BLEZ | BGTZ
  datatype BranchForm = BGT | BLE | BGTU | BLEU
  datatype RevForm = REV_P | REV2_N | REV_N | REV4_B | REV2_B | REV_B | REV8_H | REV4_H | REV2_H | REV_H
    | REV16 | REV8 | REV4 | REV2 | REV
  datatype CsrForm = CSRW | CSRS | CSRC | CSRWI | CSRSI | CSRCI

  datatype Name =
    | NOP
    | RegPseudo(r: RegForm)
    | ZeroBranch(z: ZeroBranchForm)
    | SwappedBranch(w: BranchForm)
    | CSRR
    | CsrPseudo(c: CsrForm)
    | JR | J | RET
    | RevPseudo(f: RevForm)
    | Base(b: BaseName)
    | OTHER(text: string)

  /** One operand between commas: a register, an immediate (in decimal, extended to 32 bits), a CSR, a
      decimal offset with a base register in parentheses, or any other text. */
  datatype Operand = Reg(r: Reg) | Imm(v: bv32) | Csr(n: nat) | Mem(imm: bv32, base: Reg) | Text(text: string)

  const ZERO := Reg(0)
  const RA := Reg(1)
  const MINUS_ONE: bv32 := 0xFFFF_FFFF

  datatype Asm = Asm(name: Name, ops: seq<Operand>)

  /** An operand list with an operand added behind, or in front. */
  function Append(b: BaseName, o: seq<Operand>, last: Operand): Option<Asm> {
    Some(Asm(Base(b), o + [last]))
  }

  function Prepend(b: BaseName, first: Operand, o: seq<Operand>): Option<Asm> {
    Some(Asm(Base(b), [first] + o))
  }

  /** "zero" put between the first two operands; a missing second operand is an IndexError. */
  function ZeroSecond(b: BaseName, o: seq<Operand>): Option<Asm> {
    if |o| < 2 then None else Some(Asm(Base(b), [o[0], ZERO, o[1]]))
  }

  function SwapFirst(b: BaseName, o: seq<Operand>): Option<Asm> {
    if |o| < 3 then None else Some(Asm(Base(b), [o[1], o[0], o[2]]))
  }

  function ConvertReg(r: RegForm, o: seq<Operand>): Option<Asm> {
    match r
    case MV => Append(ADDI, o, Imm(0))
    case NOT => Append(XORI, o, Imm(MINUS_ONE))
    case NEG => ZeroSecond(SUB, o)
    case NEGW => ZeroSecond(SUBW, o)
    case SEXT_W => Append(ADDIW, o, Imm(0))
    case SEQZ => Append(SLTIU, o, Imm(1))
    case SNEZ => ZeroSecond(SLTU, o)
    case SLTZ => Append(SLT, o, ZERO)
    case SGTZ => ZeroSecond(SLT, o)
  }

  function ConvertZeroBranch(z: ZeroBranchForm, o: seq<Operand>): Option<Asm> {
    match z
    case BEQZ => ZeroSecond(BEQ, o)
    case BNEZ => ZeroSecond(BNE, o)
    case BGEZ => ZeroSecond(BGE, o)
    case BLTZ => ZeroSecond(BLT, o)
    case BLEZ => Prepend(BGE, ZERO, o)
    case BGTZ => Prepend(BLT, ZERO, o)
  }

  function ConvertBranch(w: BranchForm, o: seq<Operand>): Option<Asm> {
    match w
    case BGT => SwapFirst(BLT, o)
    case BLE => SwapFirst(BGE, o)
    case BGTU => SwapFirst(BLTU, o)
    case BLEU => SwapFirst(BGEU, o)
  }

  function ConvertCsr(c: CsrForm, o: seq<Operand>): Option<Asm> {
    match c
    case CSRW => Prepend(CSRRW, ZERO, o)
    case CSRS => Prepend(CSRRS, ZERO, o)
    case CSRC => Prepend(CSRRC, ZERO, o)
    case CSRWI => Prepend(CSRRWI, ZERO, o)
    case CSRSI => Prepend(CSRRSI, ZERO, o)
    case CSRCI => Prepend(CSRRCI, ZERO, o)
  }

  function RevControl(f: RevForm): bv32 {
    match f
    case REV_P => 1
    case REV2_N => 2
    case REV_N => 3
    case REV4_B => 4
    case REV2_B => 6
    case REV_B => 7
    case REV8_H => 8
    case REV4_H => 12
    case REV2_H => 14
    case REV_H => 15
    case REV16 => 16
    case REV8 => 24
    case REV4 => 28
    case REV2 => 30
    case REV => 31
  }

  predicate IsWordChar(c: char) {
    'a' <= c <= 'z' || '0' <= c <= '9'
  }

  function WordAtEnd(text: string): string {
    if text == "" || !IsWordChar(text[|text| - 1]) then ""
    else WordAtEnd(text[..|text| - 1]) + [text[|text| - 1]]
  }

  /** What the regular expression for "rd,imm(rs1)" takes as rd from the operand in front of the comma: the
      lower-case letters and digits it ends with, which leaves out the sign of an immediate. */
  function LastWord(op: Operand): Option<Operand> {
    match op
    case Mem(_, _) => None
    case Imm(v) => Some(Imm(if v >= 0x8000_0000 then 0 - v else v))
    case Text(text) => if WordAtEnd(text) == "" then None else Some(Text(WordAtEnd(text)))
    case _ => Some(op)
  }

  predicate BaseAt(o: seq<Operand>, i: nat) {
    i + 1 < |o| && LastWord(o[i]).Some? && o[i + 1].Mem?
  }

  /** The search for a base with an offset behind another operand; |o| when there is none. */
  function FindBase(o: seq<Operand>, i: nat): (k: nat)
    requires i <= |o|
    ensures i <= k <= |o|
    ensures k < |o| ==> BaseAt(o, k)
    ensures forall j :: i <= j < k ==> !BaseAt(o, j)
    decreases |o| - i
  {
    if i == |o| || BaseAt(o, i) then i else FindBase(o, i + 1)
  }

  /** Some operand is a base with an offset that the search finds. */
  predicate HasBase(o: seq<Operand>) {
    FindBase(o, 0) < |o|
  }

  function ConvertJalr(o: seq<Operand>): Option<Asm> {
    var k := FindBase(o, 0);
    if k < |o| then
      Some(Asm(Base(JALR), [LastWord(o[k]).value, Reg(o[k + 1].base), Imm(o[k + 1].imm)]))
    else if |o| > 1 then Some(Asm(Base(JALR), o))
    else Some(Asm(Base(JALR), [RA] + o + [Imm(0)]))
  }

  function ConvertRet(binary: string): Option<Asm> {
    if binary == "" then None
    else if binary[|binary| - 1] == '2' then Some(Asm(Base(C_JR), [RA]))
    else Some(Asm(Base(JALR), [ZERO, RA, Imm(0)]))
  }

  /** convert_pseudo_instr; None where it raises. */
  function Convert(i: Asm, binary: string): Option<Asm> {
    match i.name
    case NOP => Some(Asm(Base(ADDI), [ZERO, ZERO, Imm(0)]))
    case RegPseudo(r) => ConvertReg(r, i.ops)
    case ZeroBranch(z) => ConvertZeroBranch(z, i.ops)
    case SwappedBranch(w) => ConvertBranch(w, i.ops)
    case CSRR => Append(CSRRW, i.ops, ZERO)
    case CsrPseudo(c) => ConvertCsr(c, i.ops)
    case JR => Some(Asm(Base(JALR), [ZERO] + i.ops + [Imm(0)]))
    case J => Prepend(JAL, ZERO, i.ops)
    case Base(JAL) => if |i.ops| > 1 then Some(i) else Prepend(JAL, RA, i.ops)
    case Base(JALR) => ConvertJalr(i.ops)
    case RET => ConvertRet(binary)
    case RevPseudo(f) => Append(GREVI, i.ops, Imm(RevControl(f)))
    case _ => Some(i)
  }

  /** Splitting the operand text on commas yields at least one operand. */
  predicate Parsed(i: Asm) {
    i.ops != []
  }

  // ---- The machine ----

  datatype State = State(pc: bv32, x: Regs, csrs: map<nat, bv32>)

  // Arithmetic on words, named so that a proof can set it aside.
  function Plus(a: bv32, b: bv32): bv32 { a + b }
  function Minus(a: bv32, b: bv32): bv32 { a - b }
  function Xor(a: bv32, b: bv32): bv32 { a ^ b }
  function Or(a: bv32, b: bv32): bv32 { a | b }
  function AndNot(a: bv32, b: bv32): bv32 { a & !b }
  function Even(a: bv32): bv32 { a & 0xFFFF_FFFE }
  function Next(pc: bv32): bv32 { pc + 4 }
  predicate Less(a: bv32, b: bv32) { a < b }
  predicate SignedLess(a: bv32, b: bv32) { (a ^ 0x8000_0000) < (b ^ 0x8000_0000) }
  function Complement(a: bv32): bv32 { !a }
  function Negation(a: bv32): bv32 { !a + 1 }
  predicate Negative(a: bv32) { a >= 0x8000_0000 }
  predicate More(a: bv32, b: bv32) { a > b }
  predicate Positive(a: bv32) { a != 0 && !Negative(a) }

  /** Signed a > b, by sign and then by magnitude. */
  predicate Greater(a: bv32, b: bv32) {
    if Negative(a) == Negative(b) then a > b else Negative(b)
  }

  function Bit(b: bool): bv32 {
    if b then 1 else 0
  }

  function Set(x: Regs, rd: Reg, v: bv32): Regs {
    if rd == 0 then x else x[rd := v]
  }

  /** rd := v and on to the next instruction. */
  function Put(s: State, rd: Reg, v: bv32): State {
    State(Next(s.pc), Set(s.x, rd, v), s.csrs)
  }

  function Branch(s: State, taken: bool, offset: bv32): State {
    s.(pc := if taken then Plus(s.pc, offset) else Next(s.pc))
  }

  function Jump(s: State, rd: Reg, target: bv32): State {
    State(target, Set(s.x, rd, Next(s.pc)), s.csrs)
  }

  /** rd := csr; csr := v if it is written. */
  function Swap(s: State, rd: Reg, n: nat, writes: bool, v: bv32): State
    requires n in s.csrs
  {
    State(Next(s.pc), Set(s.x, rd, s.csrs[n]), if writes then s.csrs[n := v] else s.csrs)
  }

  function PutCsr(s: State, n: nat, v: bv32): State {
    State(Next(s.pc), s.x, s.csrs[n := v])
  }

  predicate RegRegReg(o: seq<Operand>) {
    |o| == 3 && o[0].Reg? && o[1].Reg? && o[2].Reg?
  }

  predicate RegRegImm(o: seq<Operand>) {
    |o| == 3 && o[0].Reg? && o[1].Reg? && o[2].Imm?
  }

  predicate RegCsr(o: seq<Operand>, s: State) {
    |o| == 3 && o[0].Reg? && o[1].Csr? && o[1].n in s.csrs
  }

  /** The word whose bit i is bit from[i] of x, for the first n bits. */
  function Rearranged(x: bv32, from: seq<nat>, n: nat): bv32
    requires n <= |from| && n <= 32
  {
    if n == 0 then 0
    else Or(Rearranged(x, from, n - 1), if from[n - 1] < 32 && (x >> from[n - 1]) & 1 == 1 then 1 << (n - 1) else 0)
  }

  /** Where a generalized reverse takes bit i from: the index i xor the control value. */
  function GrevSource(i: nat, control: bv32): nat {
    Flips(i, control & 1 != 0, control & 2 != 0, control & 4 != 0, control & 8 != 0, control & 16 != 0)
  }

  function Grev(x: bv32, control: bv32): bv32 {
    Rearranged(x, seq(32, i requires 0 <= i < 32 => GrevSource(i, control)), 32)
  }

  // The base instructions (RISC-V Unprivileged ISA 20191213, chapters 2 and 9; section 16.4 for c.jr).

  function StepImm(name: BaseName, o: seq<Operand>, s: State): Option<State> {
    if !RegRegImm(o) then None
    else
      var rd, a, v := o[0].r, s.x[o[1].r], o[2].v;
      match name
      case ADDI => Some(Put(s, rd, Plus(a, v)))
      case XORI => Some(Put(s, rd, Xor(a, v)))
      case ADDIW => Some(Put(s, rd, Plus(a, v)))
      case SLTIU => Some(Put(s, rd, Bit(Less(a, v))))
      case GREVI => if Less(v, 32) then Some(Put(s, rd, Grev(a, v))) else None
      case JALR => Some(Jump(s, rd, Even(Plus(a, v))))
      case _ => None
  }

  function StepReg(name: BaseName, o: seq<Operand>, s: State): Option<State> {
    if !RegRegReg(o) then None
    else
      var rd, a, b := o[0].r, s.x[o[1].r], s.x[o[2].r];
      match name
      case SUB | SUBW => Some(Put(s, rd, Minus(a, b)))
      case SLTU => Some(Put(s, rd, Bit(Less(a, b))))
      case SLT => Some(Put(s, rd, Bit(SignedLess(a, b))))
      case _ => None
  }

  function StepBranch(name: BaseName, o: seq<Operand>, s: State): Option<State> {
    if !RegRegImm(o) then None
    else
      var a, b, v := s.x[o[0].r], s.x[o[1].r], o[2].v;
      match name
      case BEQ => Some(Branch(s, a == b, v))
      case BNE => Some(Branch(s, a != b, v))
      case BLT => Some(Branch(s, SignedLess(a, b), v))
      case BGE => Some(Branch(s, !SignedLess(a, b), v))
      case BLTU => Some(Branch(s, Less(a, b), v))
      case BGEU => Some(Branch(s, !Less(a, b), v))
      case _ => None
  }

  /** csrrs and csrrc write only when their source is not x0, the immediate forms only when it is not 0. */
  function StepCsr(name: BaseName, o: seq<Operand>, s: State): Option<State> {
    if !RegCsr(o, s) then None
    else
      var rd, n, c := o[0].r, o[1].n, s.csrs[o[1].n];
      if o[2].Reg? then
        match name
        case CSRRW => Some(Swap(s, rd, n, true, s.x[o[2].r]))
        case CSRRS => Some(Swap(s, rd, n, o[2].r != 0, Or(c, s.x[o[2].r])))
        case CSRRC => Some(Swap(s, rd, n, o[2].r != 0, AndNot(c, s.x[o[2].r])))
        case _ => None
      else if o[2].Imm? && Less(o[2].v, 32) then
        match name
        case CSRRWI => Some(Swap(s, rd, n, true, o[2].v))
        case CSRRSI => Some(Swap(s, rd, n, o[2].v != 0, Or(c, o[2].v)))
        case CSRRCI => Some(Swap(s, rd, n, o[2].v != 0, AndNot(c, o[2].v)))
        case _ => None
      else None
  }

  function StepBase(i: Asm, s: State): Option<State> {
    if !i.name.Base? then None
    else
      var b, o := i.name.b, i.ops;
      match b
      case ADDI | XORI | SLTIU | ADDIW | GREVI | JALR => StepImm(b, o, s)
      case SUB | SUBW | SLTU | SLT => StepReg(b, o, s)
      case BEQ | BNE | BLT | BGE | BLTU | BGEU => StepBranch(b, o, s)
      case CSRRW | CSRRS | CSRRC | CSRRWI | CSRRSI | CSRRCI => StepCsr(b, o, s)
      case JAL => if RegImm(o) then Some(Jump(s, o[0].r, Plus(s.pc, o[1].v))) else None
      case C_JR => if OneReg(o) then Some(s.(pc := Even(s.x[o[0].r]))) else None
  }

  predicate RegReg(o: seq<Operand>) {
    |o| == 2 && o[0].Reg? && o[1].Reg?
  }

  predicate RegImm(o: seq<Operand>) {
    |o| == 2 && o[0].Reg? && o[1].Imm?
  }

  predicate OneReg(o: seq<Operand>) {
    |o| == 1 && o[0].Reg?
  }

  predicate OneImm(o: seq<Operand>) {
    |o| == 1 && o[0].Imm?
  }

  predicate IsCsr(o: Operand, s: State) {
    o.Csr? && o.n in s.csrs
  }

  // What chapter 25 of the RISC-V Unprivileged ISA 20191213 says each pseudo-instruction does on RV32.

  /** Copy, complement, negate, compare with zero. */
  function PseudoArithmetic(name: RegForm, o: seq<Operand>, s: State): Option<State> {
    if !RegReg(o) then None
    else
      var rd, a := o[0].r, s.x[o[1].r];
      match name
      case MV | SEXT_W => Some(Put(s, rd, a))
      case NOT => Some(Put(s, rd, Complement(a)))
      case NEG | NEGW => Some(Put(s, rd, Negation(a)))
      case SEQZ => Some(Put(s, rd, Bit(a == 0)))
      case SNEZ => Some(Put(s, rd, Bit(a != 0)))
      case SLTZ => Some(Put(s, rd, Bit(Negative(a))))
      case SGTZ => Some(Put(s, rd, Bit(Positive(a))))
  }

  /** The size of the groups a reverse keeps together, and of the fields it reverses them in: rev2.b keeps
      pairs of bits and reverses them in every byte; a name without a field means the whole word. */
  function GroupBits(f: RevForm): nat {
    match f
    case REV_P | REV_N | REV_B | REV_H | REV => 1
    case REV2_N | REV2_B | REV2_H | REV2 => 2
    case REV4_B | REV4_H | REV4 => 4
    case REV8_H | REV8 => 8
    case REV16 => 16
  }

  function FieldBits(f: RevForm): nat {
    match f
    case REV_P => 2
    case REV_N | REV2_N => 4
    case REV_B | REV2_B | REV4_B => 8
    case REV_H | REV2_H | REV4_H | REV8_H => 16
    case REV | REV2 | REV4 | REV8 | REV16 => 32
  }

  function Reversed(x: bv32, f: RevForm): bv32 {
    Rearranged(x, seq(32, i requires 0 <= i < 32 => ReversedIndex(i, f)), 32)
  }

  function ReversedIndex(i: nat, f: RevForm): nat {
    var source := ReversedSource(i, GroupBits(f), FieldBits(f));
    if source >= 0 then source else 0
  }

  function PseudoReverse(f: RevForm, o: seq<Operand>, s: State): Option<State> {
    if RegReg(o) then Some(Put(s, o[0].r, Reversed(s.x[o[1].r], f))) else None
  }

  /** Branch on a comparison with zero. */
  function PseudoZeroBranch(name: ZeroBranchForm, o: seq<Operand>, s: State): Option<State> {
    if !RegImm(o) then None
    else
      var a, v := s.x[o[0].r], o[1].v;
      match name
      case BEQZ => Some(Branch(s, a == 0, v))
      case BNEZ => Some(Branch(s, a != 0, v))
      case BGEZ => Some(Branch(s, !Negative(a), v))
      case BLTZ => Some(Branch(s, Negative(a), v))
      case BLEZ => Some(Branch(s, !Positive(a), v))
      case BGTZ => Some(Branch(s, Positive(a), v))
  }

  /** Branch on greater than or on its opposite. */
  function PseudoBranch(name: BranchForm, o: seq<Operand>, s: State): Option<State> {
    if !RegRegImm(o) then None
    else
      var a, b, v := s.x[o[0].r], s.x[o[1].r], o[2].v;
      match name
      case BGT => Some(Branch(s, Greater(a, b), v))
      case BLE => Some(Branch(s, !Greater(a, b), v))
      case BGTU => Some(Branch(s, More(a, b), v))
      case BLEU => Some(Branch(s, !More(a, b), v))
  }

  /** Write, set or clear bits of a CSR. */
  function PseudoCsrWrite(name: CsrForm, o: seq<Operand>, s: State): Option<State> {
    if |o| != 2 || !IsCsr(o[0], s) then None
    else
      var n, c := o[0].n, s.csrs[o[0].n];
      if o[1].Reg? then
        var a := s.x[o[1].r];
        match name
        case CSRW => Some(PutCsr(s, n, a))
        case CSRS => Some(PutCsr(s, n, Or(c, a)))
        case CSRC => Some(PutCsr(s, n, AndNot(c, a)))
        case _ => None
      else if o[1].Imm? && Less(o[1].v, 32) then
        var v := o[1].v;
        match name
        case CSRWI => Some(PutCsr(s, n, v))
        case CSRSI => Some(PutCsr(s, n, Or(c, v)))
        case CSRCI => Some(PutCsr(s, n, AndNot(c, v)))
        case _ => None
      else None
  }

  /** Jump without or with a link in ra; jalr also in its base-and-offset spelling. */
  function PseudoJump(name: Name, o: seq<Operand>, s: State): Option<State> {
    match name
    case J => if OneImm(o) then Some(s.(pc := Plus(s.pc, o[0].v))) else None
    case Base(JAL) => if OneImm(o) then Some(Jump(s, 1, Plus(s.pc, o[0].v))) else None
    case JR => if OneReg(o) then Some(s.(pc := Even(s.x[o[0].r]))) else None
    case Base(JALR) =>
      if OneReg(o) then Some(Jump(s, 1, Even(s.x[o[0].r])))
      else if |o| == 2 && o[0].Reg? && o[1].Mem? then Some(Jump(s, o[0].r, Even(Plus(s.x[o[1].base], o[1].imm))))
      else None
    case RET => Some(s.(pc := Even(s.x[1])))
    case _ => None
  }

  function StepPseudo(i: Asm, s: State): Option<State> {
    var o := i.ops;
    match i.name
    case NOP => Some(s.(pc := Next(s.pc)))
    case RegPseudo(r) => PseudoArithmetic(r, o, s)
    case ZeroBranch(z) => PseudoZeroBranch(z, o, s)
    case SwappedBranch(w) => PseudoBranch(w, o, s)
    case CSRR => if |o| == 2 && o[0].Reg? && IsCsr(o[1], s) then Some(Put(s, o[0].r, s.csrs[o[1].n])) else None
    case CsrPseudo(c) => PseudoCsrWrite(c, o, s)
    case RevPseudo(f) => PseudoReverse(f, o, s)
    case _ => PseudoJump(i.name, o, s)
  }

  // ---- Meaning preserved ----

  lemma ZeroComparisons(a: bv32)
    ensures SignedLess(a, 0) == Negative(a)
    ensures SignedLess(0, a) == Positive(a)
    ensures Less(a, 1) == (a == 0)
    ensures Less(0, a) == (a != 0)
  {
  }

  lemma Comparisons(a: bv32, b: bv32)
    ensures SignedLess(b, a) == Greater(a, b)
    ensures Less(b, a) == More(a, b)
  {
  }

  lemma OnesComplement(a: bv32)
    ensures Xor(a, MINUS_ONE) == Complement(a)
  {
  }

  lemma TwosComplement(a: bv32)
    ensures Minus(0, a) == Negation(a)
  {
  }

  lemma ZeroIsNeutral(a: bv32)
    ensures Plus(a, 0) == a && Or(a, 0) == a && AndNot(a, 0) == a
  {
  }

  lemma ArithmeticIsPreserved(r: RegForm, o: seq<Operand>, s: State)
    requires PseudoArithmetic(r, o, s).Some?
    ensures ConvertReg(r, o).Some?
    ensures StepBase(ConvertReg(r, o).value, s) == PseudoArithmetic(r, o, s)
  {
    hide StepBranch, StepCsr, Plus, Minus, Xor, Less, SignedLess, Negative, Positive, Complement, Negation, Next, Even;
    var a := s.x[o[1].r];
    ZeroComparisons(a);
    OnesComplement(a);
    TwosComplement(a);
    ZeroIsNeutral(a);
  }

  lemma ZeroBranchIsPreserved(z: ZeroBranchForm, o: seq<Operand>, s: State)
    requires PseudoZeroBranch(z, o, s).Some?
    ensures ConvertZeroBranch(z, o).Some?
    ensures StepBase(ConvertZeroBranch(z, o).value, s) == PseudoZeroBranch(z, o, s)
  {
    hide StepImm, StepReg, StepCsr, Plus, Less, SignedLess, Negative, Positive, Next, Even;
    ZeroComparisons(s.x[o[0].r]);
  }

  lemma BranchIsPreserved(w: BranchForm, o: seq<Operand>, s: State)
    requires PseudoBranch(w, o, s).Some?
    ensures ConvertBranch(w, o).Some?
    ensures StepBase(ConvertBranch(w, o).value, s) == PseudoBranch(w, o, s)
  {
    hide StepImm, StepReg, StepCsr, Plus, Less, SignedLess, Greater, More, Next, Even;
    Comparisons(s.x[o[0].r], s.x[o[1].r]);
  }

  lemma CsrWriteIsPreserved(c: CsrForm, o: seq<Operand>, s: State)
    requires PseudoCsrWrite(c, o, s).Some?
    ensures ConvertCsr(c, o).Some?
    ensures StepBase(ConvertCsr(c, o).value, s) == PseudoCsrWrite(c, o, s)
  {
    hide StepCsr, Or, AndNot, PutCsr;
    if o[1].Reg? {
      RegWriteIsPreserved(c, o, s);
    } else {
      ImmWriteIsPreserved(c, o, s);
    }
  }

  lemma RegWriteIsPreserved(c: CsrForm, o: seq<Operand>, s: State)
    requires PseudoCsrWrite(c, o, s).Some? && o[1].Reg?
    ensures ConvertCsr(c, o).Some? && ConvertCsr(c, o).value.name.Base?
    ensures ConvertCsr(c, o).value.name.b in {CSRRW, CSRRS, CSRRC}
    ensures StepCsr(ConvertCsr(c, o).value.name.b, ConvertCsr(c, o).value.ops, s) == PseudoCsrWrite(c, o, s)
  {
    hide Less, Or, AndNot, Swap, PutCsr;
    var n, a := o[0].n, s.x[o[1].r];
    ZeroIsNeutral(s.csrs[n]);
    SwapIntoZero(s, n, a);
    SwapIntoZero(s, n, Or(s.csrs[n], a));
    SwapIntoZero(s, n, AndNot(s.csrs[n], a));
  }

  lemma ImmWriteIsPreserved(c: CsrForm, o: seq<Operand>, s: State)
    requires PseudoCsrWrite(c, o, s).Some? && !o[1].Reg?
    ensures ConvertCsr(c, o).Some? && ConvertCsr(c, o).value.name.Base?
    ensures ConvertCsr(c, o).value.name.b in {CSRRWI, CSRRSI, CSRRCI}
    ensures StepCsr(ConvertCsr(c, o).value.name.b, ConvertCsr(c, o).value.ops, s) == PseudoCsrWrite(c, o, s)
  {
    hide Less, Or, AndNot, Swap, PutCsr;
    var n, v := o[0].n, o[1].v;
    ZeroIsNeutral(s.csrs[n]);
    SwapIntoZero(s, n, v);
    SwapIntoZero(s, n, Or(s.csrs[n], v));
    SwapIntoZero(s, n, AndNot(s.csrs[n], v));
  }

  /** A CSR instruction with rd = x0 only writes; writing back the value held changes nothing. */
  lemma SwapIntoZero(s: State, n: nat, v: bv32)
    requires n in s.csrs
    ensures Swap(s, 0, n, true, v) == PutCsr(s, n, v)
    ensures v == s.csrs[n] ==> forall w :: Swap(s, 0, n, false, w) == PutCsr(s, n, v)
  {
    assert s.csrs[n := s.csrs[n]] == s.csrs;
  }

  lemma JumpIsPreserved(i: Asm, binary: string, s: State)
    requires PseudoJump(i.name, i.ops, s).Some? && binary != ""
    ensures Convert(i, binary).Some?
    ensures StepBase(Convert(i, binary).value, s) == PseudoJump(i.name, i.ops, s)
  {
    hide StepReg, StepCsr, StepBranch, Plus, Next, Even, Xor, Less, ConvertReg, ConvertCsr, ConvertBranch,
      ConvertZeroBranch, ConvertJalr;
    ZeroIsNeutral(s.x[1]);
    if OneReg(i.ops) {
      ZeroIsNeutral(s.x[i.ops[0].r]);
    }
    if i.name == Base(JALR) {
      JalrForms(i.ops);
    }
  }

  lemma JalrForms(o: seq<Operand>)
    ensures OneReg(o) ==> ConvertJalr(o) == Some(Asm(Base(JALR), [RA, o[0], Imm(0)]))
    ensures |o| == 2 && o[0].Reg? && o[1].Mem? ==>
              ConvertJalr(o) == Some(Asm(Base(JALR), [o[0], Reg(o[1].base), Imm(o[1].imm)]))
  {
    if OneReg(o) {
      NoBase(o);
      assert [RA] + o + [Imm(0)] == [RA, o[0], Imm(0)];
    } else if |o| == 2 && o[0].Reg? && o[1].Mem? {
      assert BaseAt(o, 0);
    }
  }

  /** The control value has just the bits from the group size up to the field size, that size excluded. */
  lemma ControlBits(f: RevForm)
    ensures RevControl(f) & 1 != 0 <==> GroupBits(f) <= 1 < FieldBits(f)
    ensures RevControl(f) & 2 != 0 <==> GroupBits(f) <= 2 < FieldBits(f)
    ensures RevControl(f) & 4 != 0 <==> GroupBits(f) <= 4 < FieldBits(f)
    ensures RevControl(f) & 8 != 0 <==> GroupBits(f) <= 8 < FieldBits(f)
    ensures RevControl(f) & 16 != 0 <==> GroupBits(f) <= 16 < FieldBits(f)
  {
  }

  /** So the generalized reverse takes every bit from where the name says. */
  lemma ReversedIsGrev(f: RevForm, i: nat)
    ensures GrevSource(i, RevControl(f)) == ReversedSource(i, GroupBits(f), FieldBits(f))
  {
    hide Flips, ReversedSource, RevControl;
    ControlBits(f);
    FlipsReverse(i, GroupBits(f), FieldBits(f));
  }

  lemma ReverseIsPreserved(f: RevForm, i: Asm, binary: string, s: State)
    requires i.name == RevPseudo(f) && PseudoReverse(f, i.ops, s).Some?
    ensures Convert(i, binary).Some?
    ensures StepBase(Convert(i, binary).value, s) == PseudoReverse(f, i.ops, s)
  {
    hide Rearranged, GrevSource, ReversedSource, Less;
    forall k | 0 <= k < 32
      ensures GrevSource(k, RevControl(f)) == ReversedIndex(k, f)
    {
      ReversedIsGrev(f, k);
    }
    var a, b := seq(32, k requires 0 <= k < 32 => GrevSource(k, RevControl(f))),
                seq(32, k requires 0 <= k < 32 => ReversedIndex(k, f));
    assert a == b;
    ControlFits(f);
  }

  lemma ControlFits(f: RevForm)
    ensures Less(RevControl(f), 32)
  {
  }

  lemma NopIsPreserved(i: Asm, binary: string, s: State)
    requires i.name == NOP
    ensures StepBase(Convert(i, binary).value, s) == Some(s.(pc := Next(s.pc)))
  {
  }

  /** Wherever the pseudo-instruction is defined the rewritten instruction steps to the same state. */
  lemma MeaningIsPreserved(i: Asm, binary: string, s: State)
    requires StepPseudo(i, s).Some? && i.name != CSRR && binary != ""
    ensures Convert(i, binary).Some?
    ensures StepBase(Convert(i, binary).value, s) == StepPseudo(i, s)
  {
    hide StepBase, PseudoArithmetic, PseudoZeroBranch, PseudoBranch, PseudoCsrWrite, PseudoJump;
    match i.name
    case NOP => NopIsPreserved(i, binary, s);
    case RegPseudo(r) => ArithmeticIsPreserved(r, i.ops, s);
    case ZeroBranch(z) => ZeroBranchIsPreserved(z, i.ops, s);
    case SwappedBranch(w) => BranchIsPreserved(w, i.ops, s);
    case CsrPseudo(c) => CsrWriteIsPreserved(c, i.ops, s);
    case RevPseudo(f) => ReverseIsPreserved(f, i, binary, s);
    case _ => JumpIsPreserved(i, binary, s);
  }

  /** csrr becomes a csrrw that also clears the CSR: the same step if and only if the CSR holds zero. */
  lemma CsrrIsPreservedOnlyForZero(i: Asm, binary: string, s: State)
    requires i.name == CSRR && StepPseudo(i, s).Some?
    ensures Convert(i, binary).Some?
    ensures StepBase(Convert(i, binary).value, s) == StepPseudo(i, s) <==> s.csrs[i.ops[1].n] == 0
  {
    var n := i.ops[1].n;
    if s.csrs[n] == 0 {
      assert s.csrs[n := 0] == s.csrs;
    } else {
      assert s.csrs[n := 0][n] != s.csrs[n];
    }
  }

  /** A base instruction is kept as it is. */
  lemma BaseIsKept(i: Asm, binary: string, s: State)
    requires StepBase(i, s).Some?
    ensures Convert(i, binary) == Some(i)
  {
  }

  /** Instructions the rewriting does not touch. */
  predicate Untouched(i: Asm) {
    match i.name
    case Base(JAL) => |i.ops| > 1
    case Base(JALR) => |i.ops| > 1 && !HasBase(i.ops)
    case Base(_) => true
    case OTHER(_) => true
    case _ => false
  }

  lemma UntouchedIsKept(i: Asm, binary: string)
    requires Untouched(i)
    ensures Convert(i, binary) == Some(i)
  {
  }

  /** The two forms in which the rewriting leaves a base with an offset among the operands of a jalr. */
  predicate LeavesBase(i: Asm) {
    match i.name
    case JR => HasBase([ZERO] + i.ops)
    case Base(JALR) => |i.ops| == 1 && i.ops[0].Mem?
    case _ => false
  }

  /** Rewriting twice is rewriting once, for all operands, exactly unless the instruction is a jr with a
      base and offset or a jalr with nothing else: "jalr 9(x3)" becomes "jalr ra,9(x3),0", and that
      "jalr ra,x3,9". */
  lemma ConvertIsIdempotent(i: Asm, binary: string, binary': string)
    requires Parsed(i) && Convert(i, binary).Some?
    ensures Convert(Convert(i, binary).value, binary') == Convert(i, binary) <==> !LeavesBase(i)
  {
    hide Convert, ConvertJalr, Untouched, FindBase;
    if LeavesBase(i) {
      BaseIsRegroupedLater(i, binary, binary');
    } else {
      ConvertedIsUntouched(i, binary);
      UntouchedIsKept(Convert(i, binary).value, binary');
    }
  }

  lemma ConvertedIsUntouched(i: Asm, binary: string)
    requires Parsed(i) && Convert(i, binary).Some? && !LeavesBase(i)
    ensures Untouched(Convert(i, binary).value)
  {
    hide FindBase, LastWord, HasBase;
    match i.name
    case JR => NoBaseAppended([ZERO] + i.ops);
    case Base(JALR) => ConvertedJalrHasNoBase(i.ops);
    case RET => NoBase([ZERO, RA, Imm(0)]);
    case _ =>
  }

  lemma ConvertedJalrHasNoBase(o: seq<Operand>)
    requires o != [] && !(|o| == 1 && o[0].Mem?)
    ensures |ConvertJalr(o).value.ops| > 1 && !HasBase(ConvertJalr(o).value.ops)
  {
    if HasBase(o) || |o| == 1 {
      NoBase(ConvertJalr(o).value.ops);
    }
  }

  lemma NoBase(o: seq<Operand>)
    requires forall k :: 0 <= k < |o| ==> !o[k].Mem?
    ensures !HasBase(o)
  {
  }

  /** An immediate at the end adds nothing to find. */
  lemma NoBaseAppended(o: seq<Operand>)
    ensures HasBase(o + [Imm(0)]) <==> HasBase(o)
  {
    var p := o + [Imm(0)];
    assert forall k: nat :: BaseAt(p, k) <==> BaseAt(o, k);
    FindBaseIff(o);
    FindBaseIff(p);
  }

  lemma FindBaseIff(o: seq<Operand>)
    ensures HasBase(o) <==> exists k: nat :: BaseAt(o, k)
  {
  }

  lemma BaseIsRegroupedLater(i: Asm, binary: string, binary': string)
    requires LeavesBase(i)
    ensures Convert(i, binary).Some?
    ensures Convert(Convert(i, binary).value, binary') != Convert(i, binary)
  {
    var o := if i.name.JR? then [ZERO] + i.ops else [RA] + i.ops;
    assert i.name.JR? || BaseAt(o, 0);
    FindBaseIff(o);
    NoBaseAppended(o);
    var p := o + [Imm(0)];
    if !i.name.JR? {
      assert !BaseAt(i.ops, 0);
      FindBaseIff(i.ops);
    }
    assert Convert(i, binary) == Some(Asm(Base(JALR), p));
    var k := FindBase(p, 0);
    assert p[k + 1].Mem?;
    RegroupedHasNoMem(p);
  }

  lemma RegroupedHasNoMem(p: seq<Operand>)
    requires HasBase(p)
    ensures ConvertJalr(p).Some?
    ensures var ops := ConvertJalr(p).value.ops; forall k :: 0 <= k < |ops| ==> !ops[k].Mem?
  {
  }

  // ---- Encodings and errors ----

  /** A ret becomes the compressed jump exactly when its encoding ends in the digit 2, as that of c.jr ra
      (8082) does and that of jalr zero,0(ra) (00008067) does not. */
  lemma RetFollowsEncoding(o: seq<Operand>, binary: string)
    requires binary != ""
    ensures binary[|binary| - 1] == '2' ==> Convert(Asm(RET, o), binary) == Some(Asm(Base(C_JR), [Reg(1)]))
    ensures binary[|binary| - 1] != '2' ==>
              Convert(Asm(RET, o), binary) == Some(Asm(Base(JALR), [Reg(0), Reg(1), Imm(0)]))
    ensures Convert(Asm(RET, o), "8082").value.name == Base(C_JR)
    ensures Convert(Asm(RET, o), "00008067").value.name == Base(JALR)
  {
  }

  /** The rewriting fails only over a missing operand of the forms it takes apart, or an empty encoding. */
  lemma RaisesIffSomethingIsMissing(i: Asm, binary: string)
    ensures Convert(i, binary).None? <==>
              match i.name
              case RegPseudo(r) => r in [NEG, NEGW, SNEZ, SGTZ] && |i.ops| < 2
              case ZeroBranch(z) => z in [BEQZ, BNEZ, BGEZ, BLTZ] && |i.ops| < 2
              case SwappedBranch(_) => |i.ops| < 3
              case RET => binary == ""
              case _ => false
  {
    hide FindBase;
  }
}
