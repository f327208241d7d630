/** A small RV32 machine: 32 registers, the machine-mode CSRs a trap handler touches, and a byte
    memory with wrap-around addresses, running assembly text with labels. */
module Machine {
  import opened Bits

  type Word = x: int | 0 <= x < 0x1_0000_0000
  type Byte = x: int | 0 <= x < 0x100
  type Reg = x: int | 0 <= x < 32
  type Regs = s: seq<Word> | |s| == 32 && s[0] == 0 witness seq(32, _ => 0)

  /** Reduction modulo 2^32; the first three cases spare the solver the division. */
  function Wrap(x: int): Word {
    if 0 <= x < WORDS then x
    else if WORDS <= x < 2 * WORDS then x - WORDS
    else if -WORDS <= x < 0 then x + WORDS
    else x % WORDS
  }

  lemma WrapIsMod(x: int)
    ensures Wrap(x) == x % WORDS
  {
  }

  datatype Csr = MSTATUS | MIE | MIP | MSCRATCH | MEPC | MCAUSE | MTVAL

  datatype Csrs = Csrs(mstatus: Word, mie: Word, mip: Word, mscratch: Word, mepc: Word, mcause: Word, mtval: Word)

  datatype State = State(regs: Regs, csrs: Csrs, mem: map<int, Byte>)

  datatype Instr =
    | Csrrw(rd: Reg, csr: Csr, rs1: Reg)
    | Csrrs(rd: Reg, csr: Csr, rs1: Reg)
    | Csrrc(rd: Reg, csr: Csr, rs1: Reg)
    | Add(rd: Reg, rs1: Reg, rs2: Reg)
    | Addi(rd: Reg, rs1: Reg, imm: int)
    | Srli(rd: Reg, rs1: Reg, shamt: nat)
    | Sw(rs2: Reg, imm: int, rs1: Reg)
    | Lw(rd: Reg, imm: int, rs1: Reg)
    | Bne(rs1: Reg, rs2: Reg, target: string)
    | Beq(rs1: Reg, rs2: Reg, target: string)
    | La(rd: Reg, symbol: string)
    | Jalr(rd: Reg, rs1: Reg, imm: int)
    | Nop
    | Mret

  datatype Item = Def(name: string) | Ins(instr: Instr)

  // Pseudo-instructions the generator writes.
  function Csrr(rd: Reg, csr: Csr): Instr { Csrrs(rd, csr, 0) }
  function Csrw(csr: Csr, rs: Reg): Instr { Csrrw(0, csr, rs) }
  function Li(rd: Reg, imm: int): Instr { Addi(rd, 0, imm) }

  function Set(regs: Regs, rd: Reg, v: Word): (r: Regs) {
    if rd == 0 then regs else regs[rd := v]
  }

  function ReadCsr(c: Csrs, csr: Csr): Word {
    match csr
    case MSTATUS => c.mstatus
    case MIE => c.mie
    case MIP => c.mip
    case MSCRATCH => c.mscratch
    case MEPC => c.mepc
    case MCAUSE => c.mcause
    case MTVAL => c.mtval
  }

  /** mepc holds instruction addresses: without compressed instructions its two low bits stay zero. */
  function WriteCsr(c: Csrs, csr: Csr, v: Word): Csrs {
    match csr
    case MSTATUS => c.(mstatus := v)
    case MIE => c.(mie := v)
    case MIP => c.(mip := v)
    case MSCRATCH => c.(mscratch := v)
    case MEPC => c.(mepc := v - v % 4)
    case MCAUSE => c.(mcause := v)
    case MTVAL => c.(mtval := v)
  }

  function LoadByte(m: map<int, Byte>, a: Word): Byte {
    if a in m then m[a] else 0
  }

  function LoadWord(m: map<int, Byte>, a: Word): (w: Word) {
    LoadByte(m, a) + 0x100 * LoadByte(m, Wrap(a + 1)) + 0x1_0000 * LoadByte(m, Wrap(a + 2))
      + 0x100_0000 * LoadByte(m, Wrap(a + 3))
  }

  function StoreWord(m: map<int, Byte>, a: Word, v: Word): map<int, Byte> {
    m[a := v % 0x100]
     [Wrap(a + 1) := v / 0x100 % 0x100]
     [Wrap(a + 2) := v / 0x1_0000 % 0x100]
     [Wrap(a + 3) := v / 0x100_0000]
  }

  predicate IsStraight(i: Instr) {
    !i.Bne? && !i.Beq? && !i.La? && !i.Jalr? && !i.Mret?
  }

  /** The effect of an instruction that goes on to the next one. */
  function Exec(i: Instr, s: State): State {
    var r := s.regs;
    match i
    case Csrrw(rd, csr, rs1) =>
      State(Set(r, rd, ReadCsr(s.csrs, csr)), WriteCsr(s.csrs, csr, r[rs1]), s.mem)
    case Csrrs(rd, csr, rs1) =>
      var v := ReadCsr(s.csrs, csr);
      State(Set(r, rd, v), if rs1 == 0 then s.csrs else WriteCsr(s.csrs, csr, Wrap(BitOr(v, r[rs1]))), s.mem)
    case Csrrc(rd, csr, rs1) =>
      var v := ReadCsr(s.csrs, csr);
      State(Set(r, rd, v), if rs1 == 0 then s.csrs else WriteCsr(s.csrs, csr, Wrap(BitAndNot(v, r[rs1]))), s.mem)
    case Add(rd, rs1, rs2) => s.(regs := Set(r, rd, Wrap(r[rs1] as int + r[rs2] as int)))
    case Addi(rd, rs1, imm) => s.(regs := Set(r, rd, Wrap(r[rs1] + imm)))
    case Srli(rd, rs1, shamt) => s.(regs := Set(r, rd, ShiftRight(r[rs1], shamt)))
    case Sw(rs2, imm, rs1) => s.(mem := StoreWord(s.mem, Wrap(r[rs1] + imm), r[rs2]))
    case Lw(rd, imm, rs1) => s.(regs := Set(r, rd, LoadWord(s.mem, Wrap(r[rs1] + imm))))
    case _ => s
  }

  function ExecItem(item: Item, s: State): State {
    if item.Ins? then Exec(item.instr, s) else s
  }

  function ExecAll(items: seq<Item>, s: State): State {
    if items == [] then s else ExecItem(items[|items| - 1], ExecAll(items[..|items| - 1], s))
  }

  predicate AllStraight(items: seq<Item>) {
    forall k :: 0 <= k < |items| ==> items[k].Ins? ==> IsStraight(items[k].instr)
  }

  /** The first definition of a label. */
  function Find(code: seq<Item>, name: string): (k: nat)
    ensures k <= |code|
    ensures k < |code| ==> code[k] == Def(name)
    ensures forall j :: 0 <= j < k ==> code[j] != Def(name)
  {
    if code == [] || code[0] == Def(name) then 0 else 1 + Find(code[1..], name)
  }

  datatype Cpu = Cpu(pc: nat, st: State)

  /** One step; mret, the end of the text and the address-based jumps out of it stop the machine. */
  function Step(code: seq<Item>, c: Cpu): Cpu {
    if c.pc >= |code| then c
    else if code[c.pc].Def? then Cpu(c.pc + 1, c.st)
    else
      match code[c.pc].instr
      case Bne(a, b, target) => Cpu(if c.st.regs[a] != c.st.regs[b] then Find(code, target) else c.pc + 1, c.st)
      case Beq(a, b, target) => Cpu(if c.st.regs[a] == c.st.regs[b] then Find(code, target) else c.pc + 1, c.st)
      case La(_, _) => c
      case Jalr(_, _, _) => c
      case Mret => c
      case i => Cpu(c.pc + 1, Exec(i, c.st))
  }

  function Steps(code: seq<Item>, c: Cpu, n: nat): Cpu {
    if n == 0 then c else Step(code, Steps(code, c, n - 1))
  }

  ghost predicate Reaches(code: seq<Item>, c: Cpu, d: Cpu) {
    exists n: nat :: Steps(code, c, n) == d
  }

  lemma {:induction false} StepsAdd(code: seq<Item>, c: Cpu, m: nat, n: nat)
    ensures Steps(code, c, m + n) == Steps(code, Steps(code, c, m), n)
  {
    hide Step;
    if n > 0 {
      StepsAdd(code, c, m, n - 1);
    }
  }

  lemma ReachesTrans(code: seq<Item>, c: Cpu, d: Cpu, e: Cpu)
    requires Reaches(code, c, d) && Reaches(code, d, e)
    ensures Reaches(code, c, e)
  {
    var m: nat :| Steps(code, c, m) == d;
    var n: nat :| Steps(code, d, n) == e;
    StepsAdd(code, c, m, n);
    assert Steps(code, c, m + n) == e;
  }

  lemma ReachesOne(code: seq<Item>, c: Cpu)
    ensures Reaches(code, c, Step(code, c))
  {
    assert Steps(code, c, 0) == c;
    assert Steps(code, c, 1) == Step(code, c);
  }

  lemma {:induction false} ExecConcat(a: seq<Item>, b: seq<Item>, s: State)
    ensures ExecAll(a + b, s) == ExecAll(b, ExecAll(a, s))
    decreases |b|
  {
    if b == [] {
      assert a + b == a;
    } else {
      var n := |b| - 1;
      assert (a + b)[..|a| + n] == a + b[..n];
      ExecConcat(a, b[..n], s);
    }
  }

  /** Straight-line text at any place of the program runs through with its combined effect. */
  lemma {:induction false} RunsThrough(pre: seq<Item>, items: seq<Item>, post: seq<Item>, s: State)
    requires AllStraight(items)
    ensures Reaches(pre + items + post, Cpu(|pre|, s), Cpu(|pre| + |items|, ExecAll(items, s)))
    decreases |items|
  {
    var code := pre + items + post;
    if items == [] {
      assert Steps(code, Cpu(|pre|, s), 0) == Cpu(|pre|, s);
    } else {
      var n := |items| - 1;
      assert pre + items[..n] + (items[n..] + post) == code;
      RunsThrough(pre, items[..n], items[n..] + post, s);
      var mid := Cpu(|pre| + n, ExecAll(items[..n], s));
      assert code[|pre| + n] == items[n];
      ReachesOne(code, mid);
      ReachesTrans(code, Cpu(|pre|, s), mid, Step(code, mid));
    }
  }

  lemma FindDefined(pre: seq<Item>, name: string, post: seq<Item>)
    requires Def(name) !in pre
    ensures Find(pre + [Def(name)] + post, name) == |pre|
  {
    var code := pre + [Def(name)] + post;
    assert code[|pre|] == Def(name);
    forall j | 0 <= j < |pre|
      ensures code[j] != Def(name)
    {
      assert code[j] == pre[j] && pre[j] in pre;
    }
  }

  lemma WrapAdd(x: int, k: int)
    ensures Wrap(Wrap(x) + k) == Wrap(x + k)
  {
    WrapIsMod(x);
    WrapIsMod(x + k);
    WrapIsMod(x % WORDS + k);
  }

  lemma Offsets(base: Word, o: nat, p: nat)
    requires o < WORDS && p < WORDS
    ensures Wrap(base + o) == Wrap(base + p) <==> o == p
  {
  }

  lemma BytesOfWord(v: Word)
    ensures v % 0x100 + 0x100 * (v / 0x100 % 0x100) + 0x1_0000 * (v / 0x1_0000 % 0x100)
              + 0x100_0000 * (v / 0x100_0000) == v
  {
    var q1, q2, q3 := v / 0x100, v / 0x1_0000, v / 0x100_0000;
    assert v == 0x100 * q1 + v % 0x100;
    assert q2 == q1 / 0x100 && q1 == 0x100 * q2 + q1 % 0x100;
    assert q3 == q2 / 0x100 && q2 == 0x100 * q3 + q2 % 0x100;
  }

  lemma StoredBytes(m: map<int, Byte>, a: Word, v: Word)
    ensures var m' := StoreWord(m, a, v);
            && LoadByte(m', a) == v % 0x100
            && LoadByte(m', Wrap(a + 1)) == v / 0x100 % 0x100
            && LoadByte(m', Wrap(a + 2)) == v / 0x1_0000 % 0x100
            && LoadByte(m', Wrap(a + 3)) == v / 0x100_0000
  {
    Offsets(a, 0, 1);
    Offsets(a, 0, 2);
    Offsets(a, 0, 3);
    Offsets(a, 1, 2);
    Offsets(a, 1, 3);
    Offsets(a, 2, 3);
  }

  lemma StoredWordIsLoaded(m: map<int, Byte>, a: Word, v: Word)
    ensures LoadWord(StoreWord(m, a, v), a) == v
  {
    StoredBytes(m, a, v);
    BytesOfWord(v);
  }

  lemma OtherByte(base: Word, at: nat, k: nat, o: nat)
    requires at + k < WORDS && o < WORDS && at + k != o
    ensures Wrap(Wrap(base + at) + k) != Wrap(base + o)
  {
    WrapAdd(base + at, k);
    Offsets(base, at + k, o);
  }

  /** A store changes only its own four bytes. */
  lemma StoreIsLocal(m: map<int, Byte>, base: Word, at: nat, v: Word, o: nat)
    requires at + 3 < WORDS && o < WORDS && (o < at || at + 4 <= o)
    ensures LoadByte(StoreWord(m, Wrap(base + at), v), Wrap(base + o)) == LoadByte(m, Wrap(base + o))
  {
    OtherByte(base, at, 0, o);
    OtherByte(base, at, 1, o);
    OtherByte(base, at, 2, o);
    OtherByte(base, at, 3, o);
  }

  // The effect of single instructions, one small lemma each.

  lemma AddZero(rd: Reg, rs: Reg, s: State)
    ensures ExecItem(Ins(Add(rd, rs, 0)), s) == s.(regs := Set(s.regs, rd, s.regs[rs]))
  {
  }

  lemma AddImm(rd: Reg, rs: Reg, imm: int, s: State)
    ensures ExecItem(Ins(Addi(rd, rs, imm)), s) == s.(regs := Set(s.regs, rd, Wrap(s.regs[rs] as int + imm)))
  {
  }

  lemma SwapScratch(r: Reg, s: State)
    ensures ExecItem(Ins(Csrrw(r, MSCRATCH, r)), s) ==
            State(Set(s.regs, r, s.csrs.mscratch), s.csrs.(mscratch := s.regs[r]), s.mem)
  {
  }

  lemma ReadsCsr(rd: Reg, csr: Csr, s: State)
    ensures ExecItem(Ins(Csrr(rd, csr)), s) == s.(regs := Set(s.regs, rd, ReadCsr(s.csrs, csr)))
  {
  }

  lemma ShiftsRight(rd: Reg, n: nat, s: State)
    ensures ExecItem(Ins(Srli(rd, rd, n)), s) == s.(regs := Set(s.regs, rd, ShiftRight(s.regs[rd], n)))
  {
  }

  lemma WritesEpc(rs: Reg, s: State)
    ensures ExecItem(Ins(Csrw(MEPC, rs)), s) == s.(csrs := s.csrs.(mepc := s.regs[rs] - s.regs[rs] % 4))
  {
  }

  lemma StoresWord(rs2: Reg, imm: int, rs1: Reg, s: State)
    ensures ExecItem(Ins(Sw(rs2, imm, rs1)), s) ==
            s.(mem := StoreWord(s.mem, Wrap(s.regs[rs1] as int + imm), s.regs[rs2]))
  {
  }

  lemma LoadsWord(rd: Reg, imm: int, rs1: Reg, s: State)
    ensures ExecItem(Ins(Lw(rd, imm, rs1)), s) ==
            s.(regs := Set(s.regs, rd, LoadWord(s.mem, Wrap(s.regs[rs1] as int + imm))))
  {
  }

  lemma ExecNone(s: State)
    ensures ExecAll([], s) == s
  {
  }

  lemma ExecSingle(a: Item, s: State)
    ensures ExecAll([a], s) == ExecItem(a, s)
  {
    assert [a][..0] == [];
  }

  lemma ExecTwo(a: Item, b: Item, s: State)
    ensures ExecAll([a, b], s) == ExecItem(b, ExecItem(a, s))
  {
    assert [a, b][..1] == [a];
    ExecSingle(a, s);
  }

  lemma ExecThree(a: Item, b: Item, c: Item, s: State)
    ensures ExecAll([a, b, c], s) == ExecItem(c, ExecItem(b, ExecItem(a, s)))
  {
    assert [a, b, c][..2] == [a, b];
    ExecTwo(a, b, s);
  }
}
