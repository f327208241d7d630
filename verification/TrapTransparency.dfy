/** What the generated trap code does to the interrupted program: nothing. */
module TrapTransparency {
  import opened Bits
  import opened Machine
  import opened KernelStack
  import opened TrapHandler

  ghost predicate At(code: seq<Item>, k: nat, items: seq<Item>) {
    k + |items| <= |code| && code[k..k + |items|] == items
  }

  lemma RunsAt(code: seq<Item>, k: nat, items: seq<Item>, s: State)
    requires At(code, k, items) && AllStraight(items)
    ensures Reaches(code, Cpu(k, s), Cpu(k + |items|, ExecAll(items, s)))
  {
    assert code == code[..k] + items + code[k + |items|..];
    RunsThrough(code[..k], items, code[k + |items|..], s);
  }

  /** What the trap code needs of its registers: the stack pointers and the two registers it works with are
      four different ones, none of them x0. */
  ghost predicate Workable(cfg: Config) {
    && |cfg.gpr| == 4
    && cfg.sp != 0 && cfg.tp != 0 && cfg.sp != cfg.tp
    && cfg.gpr[0] != 0 && cfg.gpr[0] != cfg.sp && cfg.gpr[0] != cfg.tp
    && cfg.gpr[1] != 0 && cfg.gpr[1] != cfg.sp && cfg.gpr[1] != cfg.tp
    && cfg.gpr[0] != cfg.gpr[1]
  }

  /** The generator's constraints on the reserved registers guarantee it. */
  lemma LegalIsWorkable(cfg: Config)
    requires Legal(cfg)
    ensures Workable(cfg)
  {
  }

  /** Any two different registers other than zero, ra and gp can be the stack pointers of a legal choice. */
  lemma LegalChoicesExist(sp: Reg, tp: Reg) returns (cfg: Config)
    requires sp != tp && sp !in {0, 1, 3} && tp !in {0, 1, 3}
    ensures Legal(cfg) && cfg.sp == sp && cfg.tp == tp
  {
    var a := Other(sp, tp, 0);
    var b := Other(sp, tp, a);
    var c := Other(sp, tp, b);
    var d := Other(sp, tp, c);
    var e := Other(sp, tp, d);
    cfg := Config(sp, tp, 1, e, e, [a, b, c, d], true);
  }

  /** The next register behind this one that is neither of the two nor one of x0 to x3. */
  function Other(sp: Reg, tp: Reg, after: Reg): (r: Reg)
    requires after < 28
    ensures r > after && r > 3 && r != sp && r != tp && r <= (if after < 4 then 4 else after + 1) + 2
  {
    var first := if after < 4 then 4 else after + 1;
    if first != sp && first != tp then first
    else if first + 1 != sp && first + 1 != tp then first + 1
    else first + 2
  }

  /** No line of the program in front of the kernel text defines one of its labels. */
  ghost predicate FreeOfHandlers(pre: seq<Item>) {
    && Def("ecall_handler") !in pre
    && Def("illegal_instr_handler") !in pre
    && Def("mmode_intr_handler") !in pre
  }

  lemma {:induction false} StoresDefineNothing(sp: Reg, n: nat, name: string)
    requires n < 32
    ensures Def(name) !in Stores(sp, n) && AllStraight(Stores(sp, n))
    ensures Def(name) !in Loads(sp, n) && AllStraight(Loads(sp, n))
  {
    if n > 0 {
      StoresDefineNothing(sp, n - 1, name);
    }
  }

  lemma {:induction false} DumpDefinesNothing(base: Reg, n: nat, name: string)
    requires n <= 32
    ensures Def(name) !in DumpStores(base, n)
  {
    if n > 0 {
      DumpDefinesNothing(base, n - 1, name);
    }
  }

  ghost predicate IsHandlerName(name: string) {
    name == "ecall_handler" || name == "illegal_instr_handler" || name == "mmode_intr_handler"
  }

  lemma TrapSectionsDefine(cfg: Config, name: string)
    requires |cfg.gpr| == 4 && IsHandlerName(name)
    ensures Def(name) !in TrapSections(cfg)
  {
    StoresDefineNothing(cfg.sp, 31, name);
    assert name != "mtvec_handler" && name != "mmode_exception_handler" && name != "1";
    assert Def(name) !in PushCode(cfg.sp, cfg.tp, true);
    assert Def(name) !in EntryCode(cfg);
    assert Def(name) !in ExceptionCode(cfg);
  }

  lemma EcallCodeDefines(cfg: Config, name: string)
    requires |cfg.gpr| == 4
    ensures Def(name) !in EcallCode(cfg)
  {
    DumpDefinesNothing(cfg.gpr[0], 32, name);
  }

  lemma IllegalCodeDefines(cfg: Config, name: string)
    requires |cfg.gpr| == 4
    ensures Def(name) !in IllegalCode(cfg)
  {
    StoresDefineNothing(cfg.sp, 31, name);
    assert Def(name) !in PopCode(cfg.sp, cfg.tp, true);
  }

  function Program(pre: seq<Item>, cfg: Config, post: seq<Item>): seq<Item>
    requires |cfg.gpr| == 4
  {
    pre + KernelCode(cfg) + post
  }

  // Where the sections of the kernel text start.
  function ExceptionPc(pre: seq<Item>, cfg: Config): nat
    requires |cfg.gpr| == 4
  {
    |pre| + 1 + |EntryCode(cfg)|
  }

  function EcallPc(pre: seq<Item>, cfg: Config): nat
    requires |cfg.gpr| == 4
  {
    |pre| + |TrapSections(cfg)|
  }

  function IllegalPc(pre: seq<Item>, cfg: Config): nat
    requires |cfg.gpr| == 4
  {
    EcallPc(pre, cfg) + |EcallSection(cfg)|
  }

  function InterruptPc(pre: seq<Item>, cfg: Config): nat
    requires |cfg.gpr| == 4
  {
    IllegalPc(pre, cfg) + |IllegalSection(cfg)| + 1
  }

  lemma SectionPlaces(pre: seq<Item>, a: seq<Item>, b: seq<Item>, c: seq<Item>, d: seq<Item>, e: seq<Item>,
                      f: seq<Item>, post: seq<Item>)
    ensures var code := pre + (a + b + c + d + e + f) + post;
            && At(code, |pre|, a)
            && At(code, |pre| + |a|, b)
            && At(code, |pre| + |a| + |b|, c)
            && At(code, |pre| + |a| + |b| + |c| + |d|, e)
  {
  }

  lemma Slices(pre: seq<Item>, cfg: Config, post: seq<Item>)
    requires |cfg.gpr| == 4
    ensures At(Program(pre, cfg, post), |pre|, TrapSections(cfg))
    ensures At(Program(pre, cfg, post), EcallPc(pre, cfg), EcallSection(cfg))
    ensures At(Program(pre, cfg, post), IllegalPc(pre, cfg), IllegalSection(cfg))
    ensures At(Program(pre, cfg, post), InterruptPc(pre, cfg), InterruptSection(cfg))
  {
    SectionPlaces(pre, TrapSections(cfg), EcallSection(cfg), IllegalSection(cfg), [Def("pt_fault_handler")],
                  InterruptSection(cfg), [Def("kernel_instr_end"), Ins(Nop)], post);
  }

  /** A section that begins with its label is found by that label if nothing in front defines it. */
  lemma FoundAt(code: seq<Item>, k: nat, section: seq<Item>, name: string)
    requires At(code, k, section) && section != [] && section[0] == Def(name)
    requires Def(name) !in code[..k]
    ensures Find(code, name) == k
  {
    assert code == code[..k] + [Def(name)] + code[k + 1..] by {
      assert code[k] == section[0];
    }
    FindDefined(code[..k], name, code[k + 1..]);
  }

  lemma Fronts(pre: seq<Item>, a: seq<Item>, b: seq<Item>, c: seq<Item>, d: seq<Item>, e: seq<Item>,
               f: seq<Item>, post: seq<Item>, x: Item)
    requires x !in pre && x !in a
    ensures var code := pre + (a + b + c + d + e + f) + post;
            && x !in code[..|pre| + |a|]
            && (x !in b ==> x !in code[..|pre| + |a| + |b|])
            && (x !in b && x !in c && x !in d ==> x !in code[..|pre| + |a| + |b| + |c| + |d|])
  {
    var code := pre + (a + b + c + d + e + f) + post;
    assert code[..|pre| + |a|] == pre + a;
    assert code[..|pre| + |a| + |b|] == pre + a + b;
    assert code[..|pre| + |a| + |b| + |c| + |d|] == pre + a + b + c + d;
  }

  lemma LabelsAreFound(pre: seq<Item>, cfg: Config, post: seq<Item>)
    requires |cfg.gpr| == 4 && FreeOfHandlers(pre)
    ensures Find(Program(pre, cfg, post), "ecall_handler") == EcallPc(pre, cfg)
    ensures Find(Program(pre, cfg, post), "illegal_instr_handler") == IllegalPc(pre, cfg)
    ensures Find(Program(pre, cfg, post), "mmode_intr_handler") == InterruptPc(pre, cfg)
  {
    Slices(pre, cfg, post);
    HandlerIsFound(pre, cfg, post, "ecall_handler");
    HandlerIsFound(pre, cfg, post, "illegal_instr_handler");
    HandlerIsFound(pre, cfg, post, "mmode_intr_handler");
    FoundAt(Program(pre, cfg, post), EcallPc(pre, cfg), EcallSection(cfg), "ecall_handler");
    FoundAt(Program(pre, cfg, post), IllegalPc(pre, cfg), IllegalSection(cfg), "illegal_instr_handler");
    FoundAt(Program(pre, cfg, post), InterruptPc(pre, cfg), InterruptSection(cfg), "mmode_intr_handler");
  }

  lemma HandlerIsFound(pre: seq<Item>, cfg: Config, post: seq<Item>, name: string)
    requires |cfg.gpr| == 4 && FreeOfHandlers(pre)
    requires IsHandlerName(name)
    ensures name == "ecall_handler" ==> Def(name) !in Program(pre, cfg, post)[..EcallPc(pre, cfg)]
    ensures name == "illegal_instr_handler" ==> Def(name) !in Program(pre, cfg, post)[..IllegalPc(pre, cfg)]
    ensures name == "mmode_intr_handler" ==> Def(name) !in Program(pre, cfg, post)[..InterruptPc(pre, cfg)]
  {
    TrapSectionsDefine(cfg, name);
    EcallCodeDefines(cfg, name);
    IllegalCodeDefines(cfg, name);
    Fronts(pre, TrapSections(cfg), EcallSection(cfg), IllegalSection(cfg), [Def("pt_fault_handler")],
           InterruptSection(cfg), [Def("kernel_instr_end"), Ins(Nop)], post, Def(name));
  }

  // ---- Entry ----

  /** Two states that differ at most in the two registers the handler works with. */
  ghost predicate DiffersInGprs(a: State, b: State, cfg: Config)
    requires |cfg.gpr| == 4
  {
    && b.mem == a.mem && b.csrs == a.csrs
    && forall r :: 0 <= r < 32 && r != cfg.gpr[0] && r != cfg.gpr[1] ==> b.regs[r] == a.regs[r]
  }

  lemma CauseBit(cause: Word)
    ensures ShiftRight(cause, 31) == if cause >= 0x8000_0000 then 1 else 0
  {
    WordPowers();
    TopBit(cause, 31);
  }

  /** Reading the cause leaves its interrupt bit in gpr[0]. */
  lemma ReadCauseEffect(cfg: Config, s: State)
    requires Workable(cfg)
    ensures var e := ExecAll(ReadCause(cfg), s);
            && DiffersInGprs(s, e, cfg)
            && e.regs[cfg.gpr[0]] == if s.csrs.mcause >= 0x8000_0000 then 1 else 0
  {
    hide ExecItem, ExecAll, ShiftRight;
    var g := cfg.gpr[0];
    var check := if cfg.checkXstatus then [Ins(Csrr(g, MSTATUS))] else [];
    var read, shift := Ins(Csrr(g, MCAUSE)), Ins(Srli(g, g, 31));
    ExecConcat(check, [read, shift], s);
    if cfg.checkXstatus {
      ExecSingle(check[0], s);
      ReadsCsr(g, MSTATUS, s);
    } else {
      ExecNone(s);
    }
    var checked := ExecAll(check, s);
    ExecTwo(read, shift, checked);
    ReadsCsr(g, MCAUSE, checked);
    ShiftsRight(g, 31, checked.(regs := Set(checked.regs, g, checked.csrs.mcause)));
    CauseBit(s.csrs.mcause);
  }

  lemma EntryIsStraight(cfg: Config)
    requires |cfg.gpr| == 4
    ensures AllStraight([Def("mtvec_handler")] + EntryHead(cfg))
  {
    StoresDefineNothing(cfg.sp, 31, "");
  }

  lemma EntryEffect(cfg: Config, s: State)
    requires Workable(cfg)
    ensures var pushed := ExecAll(PushCode(cfg.sp, cfg.tp, true), s);
            var e := ExecAll([Def("mtvec_handler")] + EntryHead(cfg), s);
            && DiffersInGprs(pushed, e, cfg)
            && e.regs[cfg.gpr[0]] == if pushed.csrs.mcause >= 0x8000_0000 then 1 else 0
  {
    ExecConcat([Def("mtvec_handler")], EntryHead(cfg), s);
    ExecSingle(Def("mtvec_handler"), s);
    ExecConcat(PushCode(cfg.sp, cfg.tp, true), ReadCause(cfg), s);
    ReadCauseEffect(cfg, ExecAll(PushCode(cfg.sp, cfg.tp, true), s));
  }

  /** From the trap vector the machine saves all registers and goes to the interrupt handler if the
      cause has its top bit set, and to the exception handler otherwise. */
  lemma EntryRuns(pre: seq<Item>, cfg: Config, post: seq<Item>, s: State) returns (e: State)
    requires Workable(cfg) && FreeOfHandlers(pre)
    ensures DiffersInGprs(ExecAll(PushCode(cfg.sp, cfg.tp, true), s), e, cfg)
    ensures Reaches(Program(pre, cfg, post), Cpu(|pre|, s),
                    Cpu(if s.csrs.mcause >= 0x8000_0000 then InterruptPc(pre, cfg) else ExceptionPc(pre, cfg), e))
  {
    hide ExecItem, ExecAll, PushCode, EntryHead, Find, Program, FreeOfHandlers, ExceptionPc, InterruptPc, Machine.Step,
      DiffersInGprs, At, AllStraight, Reaches;
    var code := Program(pre, cfg, post);
    var head := [Def("mtvec_handler")] + EntryHead(cfg);
    e := ExecAll(head, s);
    EntryEffect(cfg, s);
    PushEffectKeepsCause(cfg, s);
    EntryIsStraight(cfg);
    EntryPlaces(pre, cfg, post);
    RunsAt(code, |pre|, head, s);
    LabelsAreFound(pre, cfg, post);
    InterruptBranchAt(code, |pre| + |head|, e, cfg.gpr[0], "mmode_intr_handler");
    ReachesTrans(code, Cpu(|pre|, s), Cpu(|pre| + |head|, e),
                 Cpu(if e.regs[cfg.gpr[0]] != 0 then InterruptPc(pre, cfg) else ExceptionPc(pre, cfg), e));
  }

  lemma InterruptBranchAt(code: seq<Item>, k: nat, s: State, a: Reg, target: string)
    requires k < |code| && code[k] == Ins(Bne(a, 0, target))
    ensures Reaches(code, Cpu(k, s), Cpu(if s.regs[a] != 0 then Find(code, target) else k + 1, s))
  {
    ReachesOne(code, Cpu(k, s));
  }

  lemma PushEffectKeepsCause(cfg: Config, s: State)
    requires Workable(cfg)
    ensures ExecAll(PushCode(cfg.sp, cfg.tp, true), s).csrs.mcause == s.csrs.mcause
  {
    PushEffect(s, cfg.sp, cfg.tp, true);
  }

  lemma EntryPlaces(pre: seq<Item>, cfg: Config, post: seq<Item>)
    requires |cfg.gpr| == 4
    ensures var head := [Def("mtvec_handler")] + EntryHead(cfg);
            && At(Program(pre, cfg, post), |pre|, head)
            && |pre| + |head| < |Program(pre, cfg, post)|
            && Program(pre, cfg, post)[|pre| + |head|] == Ins(Bne(cfg.gpr[0], 0, "mmode_intr_handler"))
            && ExceptionPc(pre, cfg) == |pre| + |head| + 1
  {
    hide PushCode, EntryHead, Program, ExceptionCode;
    var head := [Def("mtvec_handler")] + EntryHead(cfg);
    var branch := Ins(Bne(cfg.gpr[0], 0, "mmode_intr_handler"));
    var rest := [Def("mmode_exception_handler")] + ExceptionCode(cfg);
    Slices(pre, cfg, post);
    assert TrapSections(cfg) == head + [branch] + rest;
    SubSlice(Program(pre, cfg, post), |pre|, head, [branch], rest);
  }

  lemma PartPlaces(p: seq<Item>, a: seq<Item>, b: seq<Item>, c: seq<Item>, q: seq<Item>)
    ensures var code := p + (a + b + c) + q;
            && At(code, |p|, a) && At(code, |p| + |a|, b) && At(code, |p| + |a| + |b|, c)
            && (|b| > 0 ==> code[|p| + |a|] == b[0])
            && (|c| > 0 ==> code[|p| + |a| + |b|] == c[0])
  {
  }

  lemma SubSlice(code: seq<Item>, k: nat, a: seq<Item>, b: seq<Item>, c: seq<Item>)
    requires At(code, k, a + b + c)
    ensures At(code, k, a) && At(code, k + |a|, b) && At(code, k + |a| + |b|, c)
    ensures |b| > 0 ==> code[k + |a|] == b[0]
    ensures |c| > 0 ==> code[k + |a| + |b|] == c[0]
  {
    assert code == code[..k] + (a + b + c) + code[k + |a + b + c|..];
    PartPlaces(code[..k], a, b, c, code[k + |a + b + c|..]);
  }

  // ---- Exceptions ----

  function TestDonePc(pre: seq<Item>, cfg: Config): nat
    requires |cfg.gpr| == 4
  {
    ExceptionPc(pre, cfg) + 9
  }

  lemma LoadCauseEffect(cfg: Config, s: State)
    requires Workable(cfg)
    ensures var x := ExecAll([Def("mmode_exception_handler"), Ins(Csrr(cfg.gpr[0], MEPC)),
                              Ins(Csrr(cfg.gpr[0], MCAUSE)), Ins(Li(cfg.gpr[1], ECALL_MMODE))], s);
            && DiffersInGprs(s, x, cfg)
            && x.regs[cfg.gpr[0]] == s.csrs.mcause && x.regs[cfg.gpr[1]] == ECALL_MMODE
  {
    var a, b, c, d := Def("mmode_exception_handler"), Ins(Csrr(cfg.gpr[0], MEPC)), Ins(Csrr(cfg.gpr[0], MCAUSE)),
      Ins(Li(cfg.gpr[1], ECALL_MMODE));
    assert [a, b, c, d] == [a] + [b, c, d];
    ExecConcat([a], [b, c, d], s);
    ExecSingle(a, s);
    ExecThree(b, c, d, s);
  }

  lemma BranchAt(code: seq<Item>, k: nat, s: State, a: Reg, b: Reg, target: string)
    requires k < |code| && code[k] == Ins(Beq(a, b, target))
    ensures Reaches(code, Cpu(k, s), Cpu(if s.regs[a] == s.regs[b] then Find(code, target) else k + 1, s))
  {
    ReachesOne(code, Cpu(k, s));
  }

  /** The lines of the exception handler, placed at k. */
  ghost predicate ExceptionShape(code: seq<Item>, k: nat, cfg: Config)
    requires |cfg.gpr| == 4
  {
    var g0, g1 := cfg.gpr[0], cfg.gpr[1];
    && k + 11 <= |code|
    && At(code, k, [Def("mmode_exception_handler"), Ins(Csrr(g0, MEPC)), Ins(Csrr(g0, MCAUSE)),
                    Ins(Li(g1, ECALL_MMODE))])
    && code[k + 4] == Ins(Beq(g0, g1, "ecall_handler"))
    && At(code, k + 5, [Ins(Li(g1, ILLEGAL_INSTRUCTION))])
    && code[k + 6] == Ins(Beq(g0, g1, "illegal_instr_handler"))
    && At(code, k + 7, [Ins(Csrr(g1, MTVAL)), Def("1")])
    && code[k + 9] == Ins(La(cfg.scratchReg, "test_done"))
    && code[k + 10] == Ins(Jalr(1, cfg.scratchReg, 0))
  }

  lemma PartAt(code: seq<Item>, k: nat, section: seq<Item>, i: nat, part: seq<Item>)
    requires At(code, k, section) && i + |part| <= |section| && section[i..i + |part|] == part
    ensures At(code, k + i, part)
  {
    assert section == section[..i] + part + section[i + |part|..];
    SubSlice(code, k, section[..i], part, section[i + |part|..]);
  }

  lemma ExceptionShapeHolds(code: seq<Item>, k: nat, cfg: Config)
    requires |cfg.gpr| == 4 && At(code, k, [Def("mmode_exception_handler")] + ExceptionCode(cfg))
    ensures ExceptionShape(code, k, cfg)
  {
    var section := [Def("mmode_exception_handler")] + ExceptionCode(cfg);
    var g0, g1 := cfg.gpr[0], cfg.gpr[1];
    assert |section| == 11;
    assert code[k + 4] == section[4] && code[k + 6] == section[6];
    assert code[k + 9] == section[9] && code[k + 10] == section[10];
    PartAt(code, k, section, 0,
           [Def("mmode_exception_handler"), Ins(Csrr(g0, MEPC)), Ins(Csrr(g0, MCAUSE)), Ins(Li(g1, ECALL_MMODE))]);
    PartAt(code, k, section, 5, [Ins(Li(g1, ILLEGAL_INSTRUCTION))]);
    PartAt(code, k, section, 7, [Ins(Csrr(g1, MTVAL)), Def("1")]);
  }

  lemma FirstTest(code: seq<Item>, k: nat, cfg: Config, s: State) returns (x: State)
    requires Workable(cfg) && ExceptionShape(code, k, cfg)
    ensures DiffersInGprs(s, x, cfg) && x.regs[cfg.gpr[0]] == s.csrs.mcause
    ensures Reaches(code, Cpu(k, s),
                    Cpu(if s.csrs.mcause == ECALL_MMODE then Find(code, "ecall_handler") else k + 5, x))
  {
    var head := [Def("mmode_exception_handler"), Ins(Csrr(cfg.gpr[0], MEPC)), Ins(Csrr(cfg.gpr[0], MCAUSE)),
                 Ins(Li(cfg.gpr[1], ECALL_MMODE))];
    x := ExecAll(head, s);
    LoadCauseEffect(cfg, s);
    RunsAt(code, k, head, s);
    BranchAt(code, k + 4, x, cfg.gpr[0], cfg.gpr[1], "ecall_handler");
    ReachesTrans(code, Cpu(k, s), Cpu(k + 4, x), Step(code, Cpu(k + 4, x)));
  }

  lemma LoadIllegalEffect(cfg: Config, s: State)
    requires Workable(cfg)
    ensures var x := ExecAll([Ins(Li(cfg.gpr[1], ILLEGAL_INSTRUCTION))], s);
            DiffersInGprs(s, x, cfg) && x.regs[cfg.gpr[0]] == s.regs[cfg.gpr[0]]
            && x.regs[cfg.gpr[1]] == ILLEGAL_INSTRUCTION
  {
    ExecSingle(Ins(Li(cfg.gpr[1], ILLEGAL_INSTRUCTION)), s);
  }

  lemma SecondTest(code: seq<Item>, k: nat, cfg: Config, s: State) returns (x: State)
    requires Workable(cfg) && ExceptionShape(code, k, cfg)
    ensures DiffersInGprs(s, x, cfg)
    ensures Reaches(code, Cpu(k + 5, s),
                    Cpu(if s.regs[cfg.gpr[0]] == ILLEGAL_INSTRUCTION then Find(code, "illegal_instr_handler")
                        else k + 7, x))
  {
    var li := Ins(Li(cfg.gpr[1], ILLEGAL_INSTRUCTION));
    x := ExecAll([li], s);
    LoadIllegalEffect(cfg, s);
    RunsAt(code, k + 5, [li], s);
    BranchAt(code, k + 6, x, cfg.gpr[0], cfg.gpr[1], "illegal_instr_handler");
    ReachesTrans(code, Cpu(k + 5, s), Cpu(k + 6, x), Step(code, Cpu(k + 6, x)));
  }

  lemma OtherCauses(code: seq<Item>, k: nat, cfg: Config, s: State) returns (x: State)
    requires Workable(cfg) && ExceptionShape(code, k, cfg)
    ensures DiffersInGprs(s, x, cfg) && Reaches(code, Cpu(k + 7, s), Cpu(k + 9, x))
  {
    var read, mark := Ins(Csrr(cfg.gpr[1], MTVAL)), Def("1");
    x := ExecAll([read, mark], s);
    ExecTwo(read, mark, s);
    RunsAt(code, k + 7, [read, mark], s);
  }

  lemma Dispatch(code: seq<Item>, k: nat, cfg: Config, s: State) returns (x: State)
    requires Workable(cfg) && ExceptionShape(code, k, cfg)
    ensures DiffersInGprs(s, x, cfg)
    ensures Reaches(code, Cpu(k, s),
                    Cpu(if s.csrs.mcause == ECALL_MMODE then Find(code, "ecall_handler")
                        else if s.csrs.mcause == ILLEGAL_INSTRUCTION then Find(code, "illegal_instr_handler")
                        else k + 9, x))
  {
    x := FirstTest(code, k, cfg, s);
    if s.csrs.mcause != ECALL_MMODE {
      var first := x;
      x := SecondTest(code, k, cfg, first);
      if s.csrs.mcause == ILLEGAL_INSTRUCTION {
        ReachesTrans(code, Cpu(k, s), Cpu(k + 5, first), Cpu(Find(code, "illegal_instr_handler"), x));
      } else {
        ReachesTrans(code, Cpu(k, s), Cpu(k + 5, first), Cpu(k + 7, x));
        var second := x;
        x := OtherCauses(code, k, cfg, second);
        ReachesTrans(code, Cpu(k, s), Cpu(k + 7, second), Cpu(k + 9, x));
      }
    }
  }

  lemma ExceptionCodeAt(pre: seq<Item>, cfg: Config, post: seq<Item>)
    requires |cfg.gpr| == 4
    ensures ExceptionShape(Program(pre, cfg, post), ExceptionPc(pre, cfg), cfg)
  {
    hide Program, EntryCode, ExceptionCode, ExceptionShape, At;
    var code := Program(pre, cfg, post);
    var section := [Def("mmode_exception_handler")] + ExceptionCode(cfg);
    Slices(pre, cfg, post);
    assert TrapSections(cfg) == [Def("mtvec_handler")] + EntryCode(cfg) + section;
    SubSlice(code, |pre|, [Def("mtvec_handler")], EntryCode(cfg), section);
    ExceptionShapeHolds(code, ExceptionPc(pre, cfg), cfg);
  }

  // ---- The two handlers that return ----

  lemma PopIsStraight(cfg: Config)
    ensures AllStraight(PopCode(cfg.sp, cfg.tp, true))
  {
    StoresDefineNothing(cfg.sp, 31, "");
  }

  function Returned(s: State, b: State, cfg: Config): State {
    State(s.regs, b.csrs.(mscratch := s.regs[cfg.tp]), b.mem)
  }

  lemma PopRestores(cfg: Config, s: State, b: State)
    requires Workable(cfg) && BodyKeepsFrame(ExecAll(PushCode(cfg.sp, cfg.tp, true), s), b, cfg.sp)
    ensures ExecAll(PopCode(cfg.sp, cfg.tp, true), b) == Returned(s, b, cfg)
  {
    PushEffect(s, cfg.sp, cfg.tp, true);
    PopUndoesPush(s, ExecAll(PushCode(cfg.sp, cfg.tp, true), s), b, cfg.sp, cfg.tp, true);
  }

  /** A handler that keeps the frame and then pops reaches mret with all registers restored. */
  lemma PopAndReturn(code: seq<Item>, start: Cpu, k: nat, cfg: Config, head: seq<Item>, s: State, x: State)
    returns (pc: nat)
    requires Workable(cfg) && At(code, k, head + PopCode(cfg.sp, cfg.tp, true) + [Ins(Mret)]) && AllStraight(head)
    requires Reaches(code, start, Cpu(k, x))
    requires BodyKeepsFrame(ExecAll(PushCode(cfg.sp, cfg.tp, true), s), ExecAll(head, x), cfg.sp)
    ensures pc < |code| && code[pc] == Ins(Mret)
    ensures Reaches(code, start, Cpu(pc, Returned(s, ExecAll(head, x), cfg)))
  {
    hide ExecItem, ExecAll, Step, PopCode, PushCode;
    var pop := PopCode(cfg.sp, cfg.tp, true);
    var b := ExecAll(head, x);
    SubSlice(code, k, head, pop, [Ins(Mret)]);
    RunsAt(code, k, head, x);
    ReachesTrans(code, start, Cpu(k, x), Cpu(k + |head|, b));
    PopIsStraight(cfg);
    RunsAt(code, k + |head|, pop, b);
    pc := k + |head| + |pop|;
    ReachesTrans(code, start, Cpu(k + |head|, b), Cpu(pc, ExecAll(pop, b)));
    PopRestores(cfg, s, b);
  }

  lemma SkipInstruction(cfg: Config, s: State)
    requires Workable(cfg) && s.csrs.mepc % 4 == 0
    ensures var x := ExecAll(IllegalHead(cfg), s);
            x == State(Set(s.regs, cfg.gpr[0], Wrap(s.csrs.mepc as int + 4)),
                       s.csrs.(mepc := Wrap(s.csrs.mepc as int + 4)), s.mem)
  {
    var g := cfg.gpr[0];
    var next := Wrap(s.csrs.mepc as int + 4);
    ExecThree(Ins(Csrr(g, MEPC)), Ins(Addi(g, g, 4)), Ins(Csrw(MEPC, g)), s);
    ReadsCsr(g, MEPC, s);
    AddImm(g, g, 4, s.(regs := Set(s.regs, g, s.csrs.mepc)));
    SetTwice(s.regs, g, s.csrs.mepc, next);
    WritesEpc(g, s.(regs := Set(s.regs, g, next)));
    StaysAligned(s.csrs.mepc);
  }

  lemma StaysAligned(x: Word)
    requires x % 4 == 0
    ensures Wrap(x as int + 4) % 4 == 0
  {
  }

  lemma IllegalHeadEffect(cfg: Config, s: State)
    requires Workable(cfg) && s.csrs.mepc % 4 == 0
    ensures var x := ExecAll([Def("illegal_instr_handler")] + IllegalHead(cfg), s);
            && x.mem == s.mem && x.csrs == s.csrs.(mepc := Wrap(s.csrs.mepc as int + 4))
            && forall r :: 0 <= r < 32 && r != cfg.gpr[0] ==> x.regs[r] == s.regs[r]
  {
    ExecConcat([Def("illegal_instr_handler")], IllegalHead(cfg), s);
    ExecSingle(Def("illegal_instr_handler"), s);
    SkipInstruction(cfg, s);
  }

  lemma InterruptHeadEffect(cfg: Config, s: State)
    requires Workable(cfg)
    ensures var x := ExecAll([Def("mmode_intr_handler")] + InterruptHead(cfg), s);
            && x.mem == s.mem && x.csrs == s.csrs.(mip := 0)
            && forall r :: 0 <= r < 32 && r != cfg.gpr[0] ==> x.regs[r] == s.regs[r]
  {
    var g := cfg.gpr[0];
    var a, b, c, d := Ins(Csrr(g, MSTATUS)), Ins(Csrr(g, MIE)), Ins(Csrr(g, MIP)), Ins(Csrrc(g, MIP, g));
    assert InterruptHead(cfg) == [a, b, c] + [d];
    ExecConcat([Def("mmode_intr_handler")], InterruptHead(cfg), s);
    ExecConcat([a, b, c], [d], s);
    ExecSingle(Def("mmode_intr_handler"), s);
    ExecThree(a, b, c, s);
    ExecSingle(d, ExecAll([a, b, c], s));
    ClearAll(s.csrs.mip);
  }

  lemma FrameSurvives(cfg: Config, s: State, e: State, x: State, b: State)
    requires Workable(cfg)
    requires DiffersInGprs(s, e, cfg) && DiffersInGprs(e, x, cfg)
    requires b.mem == x.mem && b.csrs.mscratch == x.csrs.mscratch
    requires forall r :: 0 <= r < 32 && r != cfg.gpr[0] ==> b.regs[r] == x.regs[r]
    ensures BodyKeepsFrame(s, b, cfg.sp)
  {
    assert cfg.gpr[0] != cfg.sp && cfg.gpr[1] != cfg.sp;
  }

  function IllegalEntry(cfg: Config): seq<Item>
    requires |cfg.gpr| == 4
  {
    [Def("illegal_instr_handler")] + IllegalHead(cfg)
  }

  function InterruptEntry(cfg: Config): seq<Item>
    requires |cfg.gpr| == 4
  {
    [Def("mmode_intr_handler")] + InterruptHead(cfg)
  }

  lemma IllegalOutcome(cfg: Config, s: State, e: State, x: State)
    requires Workable(cfg) && s.csrs.mepc % 4 == 0
    requires DiffersInGprs(ExecAll(PushCode(cfg.sp, cfg.tp, true), s), e, cfg) && DiffersInGprs(e, x, cfg)
    ensures BodyKeepsFrame(ExecAll(PushCode(cfg.sp, cfg.tp, true), s), ExecAll(IllegalEntry(cfg), x), cfg.sp)
    ensures var t := Returned(s, ExecAll(IllegalEntry(cfg), x), cfg);
            && t.csrs == s.csrs.(mepc := Wrap(s.csrs.mepc as int + 4), mscratch := s.regs[cfg.tp])
            && SameOutside(s.mem, t.mem, FrameBase(s, cfg.sp, cfg.tp, true), 31)
  {
    PushEffect(s, cfg.sp, cfg.tp, true);
    IllegalHeadEffect(cfg, x);
    FrameSurvives(cfg, ExecAll(PushCode(cfg.sp, cfg.tp, true), s), e, x, ExecAll(IllegalEntry(cfg), x));
  }

  lemma InterruptOutcome(cfg: Config, s: State, e: State)
    requires Workable(cfg)
    requires DiffersInGprs(ExecAll(PushCode(cfg.sp, cfg.tp, true), s), e, cfg)
    ensures BodyKeepsFrame(ExecAll(PushCode(cfg.sp, cfg.tp, true), s), ExecAll(InterruptEntry(cfg), e), cfg.sp)
    ensures var t := Returned(s, ExecAll(InterruptEntry(cfg), e), cfg);
            && t.csrs == s.csrs.(mip := 0, mscratch := s.regs[cfg.tp])
            && SameOutside(s.mem, t.mem, FrameBase(s, cfg.sp, cfg.tp, true), 31)
  {
    PushEffect(s, cfg.sp, cfg.tp, true);
    InterruptHeadEffect(cfg, e);
    FrameSurvives(cfg, ExecAll(PushCode(cfg.sp, cfg.tp, true), s), e, e, ExecAll(InterruptEntry(cfg), e));
  }

  lemma HandlersAt(pre: seq<Item>, cfg: Config, post: seq<Item>)
    requires |cfg.gpr| == 4
    ensures At(Program(pre, cfg, post), IllegalPc(pre, cfg),
               IllegalEntry(cfg) + PopCode(cfg.sp, cfg.tp, true) + [Ins(Mret)])
    ensures At(Program(pre, cfg, post), InterruptPc(pre, cfg),
               InterruptEntry(cfg) + PopCode(cfg.sp, cfg.tp, true) + [Ins(Mret)])
    ensures AllStraight(IllegalEntry(cfg)) && AllStraight(InterruptEntry(cfg))
  {
    hide PopCode, Program, EcallSection, TrapSections, EntryCode;
    Slices(pre, cfg, post);
    assert IllegalSection(cfg) == IllegalEntry(cfg) + PopCode(cfg.sp, cfg.tp, true) + [Ins(Mret)];
    assert InterruptSection(cfg) == InterruptEntry(cfg) + PopCode(cfg.sp, cfg.tp, true) + [Ins(Mret)];
  }

  lemma ToIllegalHandler(pre: seq<Item>, cfg: Config, post: seq<Item>, s: State) returns (e: State, x: State)
    requires Workable(cfg) && FreeOfHandlers(pre) && s.csrs.mcause == ILLEGAL_INSTRUCTION
    ensures DiffersInGprs(ExecAll(PushCode(cfg.sp, cfg.tp, true), s), e, cfg) && DiffersInGprs(e, x, cfg)
    ensures Reaches(Program(pre, cfg, post), Cpu(|pre|, s), Cpu(IllegalPc(pre, cfg), x))
  {
    PushEffect(s, cfg.sp, cfg.tp, true);
    e := EntryRuns(pre, cfg, post, s);
    ExceptionCodeAt(pre, cfg, post);
    LabelsAreFound(pre, cfg, post);
    x := Dispatch(Program(pre, cfg, post), ExceptionPc(pre, cfg), cfg, e);
    ReachesTrans(Program(pre, cfg, post), Cpu(|pre|, s), Cpu(ExceptionPc(pre, cfg), e), Cpu(IllegalPc(pre, cfg), x));
  }

  /** An illegal instruction is transparent: from every machine state at trap entry the handler
      reaches mret with every register as it was and mepc behind the instruction; besides mepc only
      mscratch (now the kernel stack pointer) and the 31 words of the frame have changed. */
  lemma IllegalInstructionIsTransparent(pre: seq<Item>, cfg: Config, post: seq<Item>, s: State)
    returns (pc: nat, t: State)
    requires Workable(cfg) && FreeOfHandlers(pre)
    requires s.csrs.mcause == ILLEGAL_INSTRUCTION && s.csrs.mepc % 4 == 0
    ensures pc < |Program(pre, cfg, post)| && Program(pre, cfg, post)[pc] == Ins(Mret)
    ensures Reaches(Program(pre, cfg, post), Cpu(|pre|, s), Cpu(pc, t))
    ensures t.regs == s.regs
    ensures t.csrs == s.csrs.(mepc := Wrap(s.csrs.mepc as int + 4), mscratch := s.regs[cfg.tp])
    ensures SameOutside(s.mem, t.mem, FrameBase(s, cfg.sp, cfg.tp, true), 31)
  {
    var e, x := ToIllegalHandler(pre, cfg, post, s);
    IllegalOutcome(cfg, s, e, x);
    HandlersAt(pre, cfg, post);
    pc := PopAndReturn(Program(pre, cfg, post), Cpu(|pre|, s), IllegalPc(pre, cfg), cfg, IllegalEntry(cfg), s, x);
    t := Returned(s, ExecAll(IllegalEntry(cfg), x), cfg);
  }

  /** An interrupt is transparent: from every machine state at trap entry the handler reaches mret with
      every register and mepc as they were. */
  lemma InterruptIsTransparent(pre: seq<Item>, cfg: Config, post: seq<Item>, s: State)
    returns (pc: nat, t: State)
    requires Workable(cfg) && FreeOfHandlers(pre) && s.csrs.mcause >= 0x8000_0000
    ensures pc < |Program(pre, cfg, post)| && Program(pre, cfg, post)[pc] == Ins(Mret)
    ensures Reaches(Program(pre, cfg, post), Cpu(|pre|, s), Cpu(pc, t))
    ensures t.regs == s.regs
    ensures t.csrs == s.csrs.(mip := 0, mscratch := s.regs[cfg.tp])
    ensures SameOutside(s.mem, t.mem, FrameBase(s, cfg.sp, cfg.tp, true), 31)
  {
    var e := EntryRuns(pre, cfg, post, s);
    InterruptOutcome(cfg, s, e);
    HandlersAt(pre, cfg, post);
    pc := PopAndReturn(Program(pre, cfg, post), Cpu(|pre|, s), InterruptPc(pre, cfg), cfg, InterruptEntry(cfg), s, e);
    t := Returned(s, ExecAll(InterruptEntry(cfg), e), cfg);
  }

  /** Every other exception ends the program: an ecall in its own handler, anything else at the jump
      to test_done. In both cases the interrupted registers are still in the frame. */
  lemma OtherExceptionsEndTheTest(pre: seq<Item>, cfg: Config, post: seq<Item>, s: State) returns (x: State)
    requires Workable(cfg) && FreeOfHandlers(pre)
    requires s.csrs.mcause < 0x8000_0000 && s.csrs.mcause != ILLEGAL_INSTRUCTION
    ensures s.csrs.mcause == ECALL_MMODE ==>
              Reaches(Program(pre, cfg, post), Cpu(|pre|, s), Cpu(Find(Program(pre, cfg, post), "ecall_handler"), x))
    ensures TestDonePc(pre, cfg) + 1 < |Program(pre, cfg, post)|
    ensures Program(pre, cfg, post)[TestDonePc(pre, cfg)] == Ins(La(cfg.scratchReg, "test_done"))
    ensures Program(pre, cfg, post)[TestDonePc(pre, cfg) + 1] == Ins(Jalr(1, cfg.scratchReg, 0))
    ensures s.csrs.mcause != ECALL_MMODE ==>
              Reaches(Program(pre, cfg, post), Cpu(|pre|, s), Cpu(TestDonePc(pre, cfg), x))
    ensures var base := FrameBase(s, cfg.sp, cfg.tp, true); Holds(x.mem, base, Set(s.regs, cfg.sp, base), 31)
  {
    var code := Program(pre, cfg, post);
    PushEffect(s, cfg.sp, cfg.tp, true);
    var e := EntryRuns(pre, cfg, post, s);
    ExceptionCodeAt(pre, cfg, post);
    x := Dispatch(code, ExceptionPc(pre, cfg), cfg, e);
    ReachesTrans(code, Cpu(|pre|, s), Cpu(ExceptionPc(pre, cfg), e),
                 Cpu(if s.csrs.mcause == ECALL_MMODE then Find(code, "ecall_handler") else TestDonePc(pre, cfg), x));
  }

  // ---- The register dump of the ecall handler ----

  /** The first n words from base on hold the first n registers. */
  ghost predicate Dumped(m: map<int, Byte>, base: Word, saved: Regs, n: nat)
    requires n <= 32
  {
    forall i :: 0 <= i < n ==> LoadWord(m, Wrap(base + 4 * i)) == saved[i]
  }

  /** Two memories agree outside the first n words from base on. */
  ghost predicate SameBehind(m: map<int, Byte>, m': map<int, Byte>, base: Word, n: nat) {
    forall o :: 4 * n <= o < WORDS ==> ByteAt(m', base, o) == ByteAt(m, base, o)
  }

  lemma {:induction false} DumpEffect(base: Reg, n: nat, s: State)
    requires n <= 32
    ensures var e := ExecAll(DumpStores(base, n), s);
            && e.regs == s.regs && e.csrs == s.csrs
            && Dumped(e.mem, s.regs[base], s.regs, n) && SameBehind(s.mem, e.mem, s.regs[base], n)
  {
    hide ExecItem, ExecAll, StoreWord, Dumped, SameBehind, Wrap;
    if n == 0 {
      ExecNone(s);
      NothingDumped(s.mem, s.regs[base], s.regs);
    } else {
      var front, store := DumpStores(base, n - 1), Ins(Sw(n - 1, (n - 1) * 4, base));
      var mid := ExecAll(front, s);
      DumpEffect(base, n - 1, s);
      assert DumpStores(base, n) == front + [store];
      ExecConcat(front, [store], s);
      ExecSingle(store, mid);
      StoresWord(n - 1, (n - 1) * 4, base, mid);
      DumpOne(s.mem, mid.mem, s.regs[base], s.regs, n - 1);
    }
  }

  lemma {:induction false} DumpIsStraight(base: Reg, n: nat)
    requires n <= 32
    ensures |DumpStores(base, n)| == n && AllStraight(DumpStores(base, n))
  {
    if n > 0 {
      DumpIsStraight(base, n - 1);
    }
  }

  lemma NothingDumped(m: map<int, Byte>, base: Word, saved: Regs)
    ensures Dumped(m, base, saved, 0) && SameBehind(m, m, base, 0)
  {
  }

  lemma DumpOne(m: map<int, Byte>, mid: map<int, Byte>, base: Word, saved: Regs, n: nat)
    requires n < 32 && Dumped(mid, base, saved, n) && SameBehind(m, mid, base, n)
    ensures var e := StoreWord(mid, Wrap(base + n * 4), saved[n]);
            Dumped(e, base, saved, n + 1) && SameBehind(m, e, base, n + 1)
  {
    hide StoreWord, LoadWord;
    var e := StoreWord(mid, Wrap(base + n * 4), saved[n]);
    StoredWordIsLoaded(mid, Wrap(base + n * 4), saved[n]);
    forall o | 0 <= o < WORDS && !(4 * n <= o < 4 * n + 4)
      ensures ByteAt(e, base, o) == ByteAt(mid, base, o)
    {
      StoreIsLocal(mid, base, n * 4, saved[n], o);
    }
    forall i | 0 <= i < n
      ensures LoadWord(e, Wrap(base + 4 * i)) == saved[i]
    {
      SlotBytes(mid, e, base, i);
      assert Slot(e, base, i) == LoadWord(e, Wrap(base + 4 * i));
      assert Slot(mid, base, i) == LoadWord(mid, Wrap(base + 4 * i));
    }
  }

  /** The ecall handler loads the address of _start, writes all registers as they then are into the 32 words
      from there on and nothing else, and jumps to write_tohost without a link. */
  lemma EcallHandlerDumps(pre: seq<Item>, cfg: Config, post: seq<Item>, s: State) returns (e: State)
    requires |cfg.gpr| == 4 && FreeOfHandlers(pre)
    ensures var code := Program(pre, cfg, post);
            var k := Find(code, "ecall_handler");
            && k + 36 <= |code|
            && code[k + 1] == Ins(La(cfg.gpr[0], "_start"))
            && Reaches(code, Cpu(k + 2, s), Cpu(k + 34, e))
            && code[k + 34] == Ins(La(cfg.scratchReg, "write_tohost"))
            && code[k + 35] == Ins(Jalr(0, cfg.scratchReg, 0))
    ensures e.regs == s.regs && e.csrs == s.csrs
    ensures Dumped(e.mem, s.regs[cfg.gpr[0]], s.regs, 32) && SameBehind(s.mem, e.mem, s.regs[cfg.gpr[0]], 32)
  {
    hide ExecItem, ExecAll, Program, Find, FreeOfHandlers, Dumped, SameBehind, EcallPc, At, AllStraight, Reaches;
    LabelsAreFound(pre, cfg, post);
    EcallPlaces(pre, cfg, post);
    DumpEffect(cfg.gpr[0], 32, s);
    DumpIsStraight(cfg.gpr[0], 32);
    e := ExecAll(DumpStores(cfg.gpr[0], 32), s);
    RunsAt(Program(pre, cfg, post), EcallPc(pre, cfg) + 2, DumpStores(cfg.gpr[0], 32), s);
  }

  lemma EcallPlaces(pre: seq<Item>, cfg: Config, post: seq<Item>)
    requires |cfg.gpr| == 4
    ensures var code, k := Program(pre, cfg, post), EcallPc(pre, cfg);
            && k + 36 <= |code|
            && code[k + 1] == Ins(La(cfg.gpr[0], "_start"))
            && At(code, k + 2, DumpStores(cfg.gpr[0], 32))
            && code[k + 34] == Ins(La(cfg.scratchReg, "write_tohost"))
            && code[k + 35] == Ins(Jalr(0, cfg.scratchReg, 0))
  {
    hide Program, EcallPc, DumpStores;
    var code, k := Program(pre, cfg, post), EcallPc(pre, cfg);
    var head, dump := [Def("ecall_handler"), Ins(La(cfg.gpr[0], "_start"))], DumpStores(cfg.gpr[0], 32);
    var tail := [Ins(La(cfg.scratchReg, "write_tohost")), Ins(Jalr(0, cfg.scratchReg, 0))];
    DumpIsStraight(cfg.gpr[0], 32);
    Slices(pre, cfg, post);
    assert EcallSection(cfg) == head + dump + tail;
    SubSlice(code, k, head, dump, tail);
    assert code[k..k + 2] == head && code[k + 34..k + 36] == tail;
    assert code[k + 1] == code[k..k + 2][1] && code[k + 35] == code[k + 34..k + 36][1];
  }

  // ---- What the handlers read on their way ----

  lemma ReadsOnTheWay(code: seq<Item>, k: nat, name: string, g: Reg, csr: Csr, s: State)
    requires At(code, k, [Def(name), Ins(Csrr(g, csr))])
    ensures Reaches(code, Cpu(k, s), Cpu(k + 2, s.(regs := Set(s.regs, g, ReadCsr(s.csrs, csr)))))
  {
    ExecTwo(Def(name), Ins(Csrr(g, csr)), s);
    ReadsCsr(g, csr, s);
    RunsAt(code, k, [Def(name), Ins(Csrr(g, csr))], s);
  }

  lemma ReadsNext(code: seq<Item>, k: nat, g: Reg, csr: Csr, s: State)
    requires At(code, k, [Ins(Csrr(g, csr))])
    ensures Reaches(code, Cpu(k, s), Cpu(k + 1, s.(regs := Set(s.regs, g, ReadCsr(s.csrs, csr)))))
  {
    ExecSingle(Ins(Csrr(g, csr)), s);
    ReadsCsr(g, csr, s);
    RunsAt(code, k, [Ins(Csrr(g, csr))], s);
  }

  /** The interrupt handler first reads mstatus, mie and mip into gpr[0], one after the other, for the
      comparison of traces to see. */
  lemma InterruptHandlerReads(pre: seq<Item>, cfg: Config, post: seq<Item>, s: State)
    requires |cfg.gpr| == 4
    ensures var code, k, g := Program(pre, cfg, post), InterruptPc(pre, cfg), cfg.gpr[0];
            && Reaches(code, Cpu(k, s), Cpu(k + 2, s.(regs := Set(s.regs, g, s.csrs.mstatus))))
            && Reaches(code, Cpu(k + 2, s), Cpu(k + 3, s.(regs := Set(s.regs, g, s.csrs.mie))))
            && Reaches(code, Cpu(k + 3, s), Cpu(k + 4, s.(regs := Set(s.regs, g, s.csrs.mip))))
  {
    hide Program, PopCode, Reaches;
    var code, k, g, section := Program(pre, cfg, post), InterruptPc(pre, cfg), cfg.gpr[0], InterruptSection(cfg);
    Slices(pre, cfg, post);
    PartAt(code, k, section, 0, [Def("mmode_intr_handler"), Ins(Csrr(g, MSTATUS))]);
    PartAt(code, k, section, 2, [Ins(Csrr(g, MIE))]);
    PartAt(code, k, section, 3, [Ins(Csrr(g, MIP))]);
    ReadsOnTheWay(code, k, "mmode_intr_handler", g, MSTATUS, s);
    ReadsNext(code, k + 2, g, MIE, s);
    ReadsNext(code, k + 3, g, MIP, s);
  }

  /** The exception code reads mepc and mcause into gpr[0], and mtval into gpr[1] before it gives up. */
  lemma ExceptionCodeReads(pre: seq<Item>, cfg: Config, post: seq<Item>, s: State)
    requires |cfg.gpr| == 4
    ensures var code, k := Program(pre, cfg, post), ExceptionPc(pre, cfg);
            && Reaches(code, Cpu(k, s), Cpu(k + 2, s.(regs := Set(s.regs, cfg.gpr[0], s.csrs.mepc))))
            && Reaches(code, Cpu(k + 2, s), Cpu(k + 3, s.(regs := Set(s.regs, cfg.gpr[0], s.csrs.mcause))))
            && Reaches(code, Cpu(k + 7, s), Cpu(k + 8, s.(regs := Set(s.regs, cfg.gpr[1], s.csrs.mtval))))
  {
    hide Program, Reaches;
    var code, k, g := Program(pre, cfg, post), ExceptionPc(pre, cfg), cfg.gpr[0];
    ExceptionCodeAt(pre, cfg, post);
    var head := [Def("mmode_exception_handler"), Ins(Csrr(g, MEPC)), Ins(Csrr(g, MCAUSE)),
                 Ins(Li(cfg.gpr[1], ECALL_MMODE))];
    PartAt(code, k, head, 0, [Def("mmode_exception_handler"), Ins(Csrr(g, MEPC))]);
    PartAt(code, k, head, 2, [Ins(Csrr(g, MCAUSE))]);
    PartAt(code, k + 7, [Ins(Csrr(cfg.gpr[1], MTVAL)), Def("1")], 0, [Ins(Csrr(cfg.gpr[1], MTVAL))]);
    ReadsOnTheWay(code, k, "mmode_exception_handler", g, MEPC, s);
    ReadsNext(code, k + 2, g, MCAUSE, s);
    ReadsNext(code, k + 7, cfg.gpr[1], MTVAL, s);
  }

  /** With check_xstatus the trap entry reads mstatus into gpr[0] behind the push. */
  lemma EntryReadsStatus(pre: seq<Item>, cfg: Config, post: seq<Item>, s: State)
    requires |cfg.gpr| == 4 && cfg.checkXstatus
    ensures var code, k := Program(pre, cfg, post), |pre| + 1 + |PushCode(cfg.sp, cfg.tp, true)|;
            Reaches(code, Cpu(k, s), Cpu(k + 1, s.(regs := Set(s.regs, cfg.gpr[0], s.csrs.mstatus))))
  {
    hide Program, PushCode, Reaches;
    var code, push := Program(pre, cfg, post), PushCode(cfg.sp, cfg.tp, true);
    EntryPlaces(pre, cfg, post);
    var head := [Def("mtvec_handler")] + EntryHead(cfg);
    assert head[1 + |push|..2 + |push|] == [Ins(Csrr(cfg.gpr[0], MSTATUS))];
    PartAt(code, |pre|, head, 1 + |push|, [Ins(Csrr(cfg.gpr[0], MSTATUS))]);
    ReadsNext(code, |pre| + 1 + |push|, cfg.gpr[0], MSTATUS, s);
  }

  /** The text between the handlers: the page-fault label in front of the interrupt handler, and the end
      label with a nop behind it; and the label on which the push moves the stack pointer. */
  lemma KernelLandmarks(pre: seq<Item>, cfg: Config, post: seq<Item>)
    requires |cfg.gpr| == 4
    ensures var code, end := Program(pre, cfg, post), InterruptPc(pre, cfg) + |InterruptSection(cfg)|;
            && InterruptPc(pre, cfg) > 0 && end + 2 + |post| == |code|
            && code[InterruptPc(pre, cfg) - 1] == Def("pt_fault_handler")
            && code[end] == Def("kernel_instr_end") && code[end + 1] == Ins(Nop)
    ensures var push := PushCode(cfg.sp, cfg.tp, true);
            |push| == 35 && push[2] == Def("1") && push[3] == Ins(Addi(cfg.sp, cfg.sp, -124))
  {
    hide TrapSections, EcallSection, IllegalSection, InterruptSection;
  }
}
