/** The machine-mode trap code of a generated program (pygen_src/riscv_asm_program_gen.py): direct
    mtvec, bare address translation, no nested interrupts, no signature writes, one hart. */
module TrapHandler {
  import opened Machine
  import opened KernelStack

  const ECALL_MMODE: int := 0xB
  const ILLEGAL_INSTRUCTION: int := 0x2

  /** The registers the generator reserves (riscv_instr_gen_config.py). */
  datatype Config = Config(sp: Reg, tp: Reg, ra: Reg, scratchReg: Reg, pmpReg: Reg, gpr: seq<Reg>, checkXstatus: bool)

  /** sp_tp_c, reserve_scratch_reg_c and gpr_c. */
  ghost predicate Legal(cfg: Config) {
    && cfg.sp != cfg.tp
    && cfg.sp !in {0, 1, 3} && cfg.tp !in {0, 1, 3}
    && cfg.scratchReg !in {0, cfg.sp, cfg.tp, cfg.ra, 3}
    && |cfg.gpr| == 4
    && (forall i :: 0 <= i < 4 ==> cfg.gpr[i] !in {cfg.sp, cfg.tp, cfg.scratchReg, cfg.pmpReg, 0, 1, 3})
    && forall i, j :: 0 <= i < j < 4 ==> cfg.gpr[i] != cfg.gpr[j]
  }

  // The text of the sections, as the generator methods below emit it.

  function EntryHead(cfg: Config): seq<Item>
    requires |cfg.gpr| == 4
  {
    PushCode(cfg.sp, cfg.tp, true) + ReadCause(cfg)
  }

  function ReadCause(cfg: Config): seq<Item>
    requires |cfg.gpr| == 4
  {
    (if cfg.checkXstatus then [Ins(Csrr(cfg.gpr[0], MSTATUS))] else [])
      + [Ins(Csrr(cfg.gpr[0], MCAUSE)), Ins(Srli(cfg.gpr[0], cfg.gpr[0], 31))]
  }

  function EntryCode(cfg: Config): seq<Item>
    requires |cfg.gpr| == 4
  {
    EntryHead(cfg) + [Ins(Bne(cfg.gpr[0], 0, "mmode_intr_handler"))]
  }

  function ExceptionCode(cfg: Config): seq<Item>
    requires |cfg.gpr| == 4
  {
    [Ins(Csrr(cfg.gpr[0], MEPC)), Ins(Csrr(cfg.gpr[0], MCAUSE)), Ins(Li(cfg.gpr[1], ECALL_MMODE))]
      + [Ins(Beq(cfg.gpr[0], cfg.gpr[1], "ecall_handler"))]
      + [Ins(Li(cfg.gpr[1], ILLEGAL_INSTRUCTION))]
      + [Ins(Beq(cfg.gpr[0], cfg.gpr[1], "illegal_instr_handler"))]
      + [Ins(Csrr(cfg.gpr[1], MTVAL))]
      + [Def("1"), Ins(La(cfg.scratchReg, "test_done")), Ins(Jalr(1, cfg.scratchReg, 0))]
  }

  function DumpStores(base: Reg, n: nat): (s: seq<Item>)
    requires n <= 32
  {
    if n == 0 then [] else DumpStores(base, n - 1) + [Ins(Sw(n - 1, (n - 1) * 4, base))]
  }

  function EcallCode(cfg: Config): seq<Item>
    requires |cfg.gpr| == 4
  {
    [Ins(La(cfg.gpr[0], "_start"))] + DumpStores(cfg.gpr[0], 32)
      + [Ins(La(cfg.scratchReg, "write_tohost")), Ins(Jalr(0, cfg.scratchReg, 0))]
  }

  function IllegalHead(cfg: Config): seq<Item>
    requires |cfg.gpr| == 4
  {
    [Ins(Csrr(cfg.gpr[0], MEPC)), Ins(Addi(cfg.gpr[0], cfg.gpr[0], 4)), Ins(Csrw(MEPC, cfg.gpr[0]))]
  }

  function IllegalCode(cfg: Config): seq<Item>
    requires |cfg.gpr| == 4
  {
    IllegalHead(cfg) + PopCode(cfg.sp, cfg.tp, true) + [Ins(Mret)]
  }

  function InterruptHead(cfg: Config): seq<Item>
    requires |cfg.gpr| == 4
  {
    [Ins(Csrr(cfg.gpr[0], MSTATUS)), Ins(Csrr(cfg.gpr[0], MIE)),
     Ins(Csrr(cfg.gpr[0], MIP)), Ins(Csrrc(cfg.gpr[0], MIP, cfg.gpr[0]))]
  }

  function InterruptCode(cfg: Config): seq<Item>
    requires |cfg.gpr| == 4
  {
    InterruptHead(cfg) + PopCode(cfg.sp, cfg.tp, true) + [Ins(Mret)]
  }

  function TrapSections(cfg: Config): seq<Item>
    requires |cfg.gpr| == 4
  {
    [Def("mtvec_handler")] + EntryCode(cfg) + [Def("mmode_exception_handler")] + ExceptionCode(cfg)
  }

  function EcallSection(cfg: Config): seq<Item>
    requires |cfg.gpr| == 4
  {
    [Def("ecall_handler")] + EcallCode(cfg)
  }

  function IllegalSection(cfg: Config): seq<Item>
    requires |cfg.gpr| == 4
  {
    [Def("illegal_instr_handler")] + IllegalCode(cfg)
  }

  function InterruptSection(cfg: Config): seq<Item>
    requires |cfg.gpr| == 4
  {
    [Def("mmode_intr_handler")] + InterruptCode(cfg)
  }

  /** The kernel text from the trap vector on. */
  function KernelCode(cfg: Config): seq<Item>
    requires |cfg.gpr| == 4
  {
    TrapSections(cfg) + EcallSection(cfg) + IllegalSection(cfg) + [Def("pt_fault_handler")]
      + InterruptSection(cfg) + [Def("kernel_instr_end"), Ins(Nop)]
  }

  lemma Regroup(s: seq<Item>, a: seq<Item>, b: seq<Item>, c: seq<Item>, d: seq<Item>, e: seq<Item>, f: seq<Item>)
    ensures s + a + b + c + d + e + f == s + (a + b + c + d + e + f)
  {
  }

  class AsmProgramGen {
    const cfg: Config
    var instrStream: seq<Item>

    constructor (cfg: Config)
      requires |cfg.gpr| == 4
      ensures this.cfg == cfg && instrStream == []
    {
      this.cfg := cfg;
      instrStream := [];
    }

    method GenSection(name: string, instr: Section)
      modifies this
      ensures instrStream == old(instrStream) + ([Def(name)] + instr.items)
    {
      instrStream := instrStream + [Def(name)];
      instrStream := instrStream + instr.items;
    }

    method GenTrapHandlerSection()
      requires |cfg.gpr| == 4
      modifies this
      ensures instrStream == old(instrStream) + TrapSections(cfg)
    {
      var instr := new Section();
      PushGprToKernelStack(true, cfg.sp, cfg.tp, instr);
      if cfg.checkXstatus {
        instr.items := instr.items + [Ins(Csrr(cfg.gpr[0], MSTATUS))];
      }
      instr.items := instr.items + [Ins(Csrr(cfg.gpr[0], MCAUSE)), Ins(Srli(cfg.gpr[0], cfg.gpr[0], 32 - 1)),
                                    Ins(Bne(cfg.gpr[0], 0, "mmode_intr_handler"))];
      assert instr.items == EntryCode(cfg);
      GenSection("mtvec_handler", instr);

      instr := new Section();
      instr.items := instr.items + [
        Ins(Csrr(cfg.gpr[0], MEPC)),
        Ins(Csrr(cfg.gpr[0], MCAUSE)),
        Ins(Li(cfg.gpr[1], ECALL_MMODE)),
        Ins(Beq(cfg.gpr[0], cfg.gpr[1], "ecall_handler")),
        Ins(Li(cfg.gpr[1], ILLEGAL_INSTRUCTION)),
        Ins(Beq(cfg.gpr[0], cfg.gpr[1], "illegal_instr_handler")),
        Ins(Csrr(cfg.gpr[1], MTVAL)),
        Def("1"), Ins(La(cfg.scratchReg, "test_done")),
        Ins(Jalr(1, cfg.scratchReg, 0))];
      assert instr.items == ExceptionCode(cfg);
      GenSection("mmode_exception_handler", instr);
    }

    method GenEcallHandler()
      requires |cfg.gpr| == 4
      modifies this
      ensures instrStream == old(instrStream) + EcallSection(cfg)
    {
      var instr := new Section();
      instr.items := instr.items + [Ins(La(cfg.gpr[0], "_start"))];
      for i := 0 to 32
        invariant instrStream == old(instrStream)
        invariant instr.items == [Ins(La(cfg.gpr[0], "_start"))] + DumpStores(cfg.gpr[0], i)
      {
        instr.items := instr.items + [Ins(Sw(i, i * 4, cfg.gpr[0]))];
      }
      instr.items := instr.items + [Ins(La(cfg.scratchReg, "write_tohost")), Ins(Jalr(0, cfg.scratchReg, 0))];
      GenSection("ecall_handler", instr);
    }

    method GenIllegalInstrHandler()
      requires |cfg.gpr| == 4
      modifies this
      ensures instrStream == old(instrStream) + IllegalSection(cfg)
    {
      var instr := new Section();
      instr.items := instr.items + [Ins(Csrr(cfg.gpr[0], MEPC)), Ins(Addi(cfg.gpr[0], cfg.gpr[0], 4)),
                                    Ins(Csrw(MEPC, cfg.gpr[0]))];
      PopGprFromKernelStack(true, cfg.sp, cfg.tp, instr);
      instr.items := instr.items + [Ins(Mret)];
      assert instr.items == IllegalCode(cfg);
      GenSection("illegal_instr_handler", instr);
    }

    method GenInterruptHandlerSection()
      requires |cfg.gpr| == 4
      modifies this
      ensures instrStream == old(instrStream) + InterruptSection(cfg)
    {
      var instr := new Section();
      instr.items := instr.items + [Ins(Csrr(cfg.gpr[0], MSTATUS)), Ins(Csrr(cfg.gpr[0], MIE)),
                                    Ins(Csrr(cfg.gpr[0], MIP)), Ins(Csrrc(cfg.gpr[0], MIP, cfg.gpr[0]))];
      PopGprFromKernelStack(true, cfg.sp, cfg.tp, instr);
      instr.items := instr.items + [Ins(Mret)];
      assert instr.items == InterruptCode(cfg);
      GenSection("mmode_intr_handler", instr);
    }

    /** gen_all_trap_handler, gen_interrupt_handler_section and the end of the kernel text. */
    method GenKernelSections()
      requires |cfg.gpr| == 4
      modifies this
      ensures instrStream == old(instrStream) + KernelCode(cfg)
    {
      GenTrapHandlerSection();
      GenEcallHandler();
      GenIllegalInstrHandler();
      var empty := new Section();
      GenSection("pt_fault_handler", empty);
      GenInterruptHandlerSection();
      instrStream := instrStream + [Def("kernel_instr_end"), Ins(Nop)];
      Regroup(old(instrStream), TrapSections(cfg), EcallSection(cfg), IllegalSection(cfg), [Def("pt_fault_handler")],
              InterruptSection(cfg), [Def("kernel_instr_end"), Ins(Nop)]);
    }
  }
}
