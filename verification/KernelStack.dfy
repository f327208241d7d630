/** Saving and restoring the registers on the kernel stack
    (push_gpr_to_kernel_stack and pop_gpr_from_kernel_stack in pygen_src/riscv_instr_pkg.py), for
    XLEN 32 and bare address translation. */
module KernelStack {
  import opened Bits
  import opened Machine

  /** A list of assembly lines that the generator's methods extend in place. */
  class Section {
    var items: seq<Item>

    constructor ()
      ensures items == []
    {
      items := [];
    }
  }

  function StoreItem(sp: Reg, i: Reg): Item { Ins(Sw(i, i * 4, sp)) }

  function LoadItem(sp: Reg, i: Reg): Item { Ins(Lw(i, i * 4, sp)) }

  /** The stores (loads) of x1 to xn. */
  function Stores(sp: Reg, n: nat): (s: seq<Item>)
    requires n < 32
    ensures |s| == n
  {
    if n == 0 then [] else Stores(sp, n - 1) + [StoreItem(sp, n)]
  }

  function Loads(sp: Reg, n: nat): (s: seq<Item>)
    requires n < 32
    ensures |s| == n
  {
    if n == 0 then [] else Loads(sp, n - 1) + [LoadItem(sp, n)]
  }

  function PushSwitch(sp: Reg, tp: Reg, hasScratch: bool): seq<Item> {
    if hasScratch then [Ins(Csrrw(sp, MSCRATCH, sp)), Ins(Add(sp, tp, 0))] else []
  }

  function PushCode(sp: Reg, tp: Reg, hasScratch: bool): seq<Item> {
    PushHead(sp, tp, hasScratch) + Stores(sp, 31)
  }

  function PopSwitch(sp: Reg, tp: Reg, hasScratch: bool): seq<Item> {
    if hasScratch then [Ins(Add(tp, sp, 0)), Ins(Csrrw(sp, MSCRATCH, sp))] else []
  }

  function PopCode(sp: Reg, tp: Reg, hasScratch: bool): seq<Item> {
    Loads(sp, 31) + [Ins(Addi(sp, sp, 124))] + PopSwitch(sp, tp, hasScratch)
  }

  method PushGprToKernelStack(hasScratch: bool, sp: Reg, tp: Reg, instr: Section)
    modifies instr
    ensures instr.items == old(instr.items) + PushCode(sp, tp, hasScratch)
  {
    if hasScratch {
      instr.items := instr.items + [Ins(Csrrw(sp, MSCRATCH, sp)), Ins(Add(sp, tp, 0))];
    }
    instr.items := instr.items + [Def("1"), Ins(Addi(sp, sp, -(31 * 4)))];
    for i := 1 to 32
      invariant instr.items ==
                old(instr.items) + PushHead(sp, tp, hasScratch) + Stores(sp, i - 1)
    {
      instr.items := instr.items + [Ins(Sw(i, i * 4, sp))];
    }
  }

  method PopGprFromKernelStack(hasScratch: bool, sp: Reg, tp: Reg, instr: Section)
    modifies instr
    ensures instr.items == old(instr.items) + PopCode(sp, tp, hasScratch)
  {
    for i := 1 to 32
      invariant instr.items == old(instr.items) + Loads(sp, i - 1)
    {
      instr.items := instr.items + [Ins(Lw(i, i * 4, sp))];
    }
    instr.items := instr.items + [Ins(Addi(sp, sp, 31 * 4))];
    if hasScratch {
      instr.items := instr.items + [Ins(Add(tp, sp, 0)), Ins(Csrrw(sp, MSCRATCH, sp))];
    }
  }

  /** The word that the frame at base holds for register i. */
  function Slot(m: map<int, Byte>, base: Word, i: Reg): Word {
    LoadWord(m, Wrap(base + i * 4))
  }

  ghost predicate Holds(m: map<int, Byte>, base: Word, saved: Regs, n: nat)
    requires n < 32
  {
    forall i :: 1 <= i <= n ==> Slot(m, base, i) == saved[i]
  }

  /** Two memories agree outside the words 1 to n of the frame at base. */
  ghost predicate SameOutside(m: map<int, Byte>, m': map<int, Byte>, base: Word, n: nat) {
    forall o :: 0 <= o < WORDS && !(4 <= o < 4 * n + 4) ==> ByteAt(m', base, o) == ByteAt(m, base, o)
  }

  function ByteAt(m: map<int, Byte>, base: Word, o: nat): Byte {
    LoadByte(m, Wrap(base + o))
  }

  lemma SlotBytes(m: map<int, Byte>, m': map<int, Byte>, base: Word, i: Reg)
    requires forall k :: 4 * i <= k < 4 * i + 4 ==> ByteAt(m', base, k) == ByteAt(m, base, k)
    ensures Slot(m', base, i) == Slot(m, base, i)
  {
    WrapAdd(base + i * 4, 1);
    WrapAdd(base + i * 4, 2);
    WrapAdd(base + i * 4, 3);
    assert ByteAt(m', base, 4 * i) == ByteAt(m, base, 4 * i);
    assert ByteAt(m', base, 4 * i + 1) == ByteAt(m, base, 4 * i + 1);
    assert ByteAt(m', base, 4 * i + 2) == ByteAt(m, base, 4 * i + 2);
    assert ByteAt(m', base, 4 * i + 3) == ByteAt(m, base, 4 * i + 3);
  }

  lemma OneStore(m: map<int, Byte>, base: Word, n: Reg, v: Word, saved: Regs)
    requires n >= 1 && Holds(m, base, saved, n - 1) && saved[n] == v
    ensures var m' := StoreWord(m, Wrap(base + n * 4), v);
            && Holds(m', base, saved, n)
            && forall o :: 0 <= o < WORDS && !(4 * n <= o < 4 * n + 4) ==> ByteAt(m', base, o) == ByteAt(m, base, o)
  {
    var m' := StoreWord(m, Wrap(base + n * 4), v);
    StoredWordIsLoaded(m, Wrap(base + n * 4), v);
    forall o | 0 <= o < WORDS && !(4 * n <= o < 4 * n + 4)
      ensures ByteAt(m', base, o) == ByteAt(m, base, o)
    {
      StoreIsLocal(m, base, n * 4, v, o);
    }
    forall i | 1 <= i <= n - 1
      ensures Slot(m', base, i) == saved[i]
    {
      SlotBytes(m, m', base, i);
    }
  }

  lemma FrameGrows(m: map<int, Byte>, mid: map<int, Byte>, base: Word, saved: Regs, n: nat)
    requires 1 <= n < 32 && Holds(mid, base, saved, n - 1) && SameOutside(m, mid, base, n - 1)
    ensures Holds(StoreWord(mid, Wrap(base + n * 4), saved[n]), base, saved, n)
    ensures SameOutside(m, StoreWord(mid, Wrap(base + n * 4), saved[n]), base, n)
  {
    OneStore(mid, base, n, saved[n], saved);
    WidenOutside(m, mid, StoreWord(mid, Wrap(base + n * 4), saved[n]), base, n);
  }

  lemma {:induction false} StoresFillFrame(sp: Reg, n: nat, s: State)
    requires n < 32
    ensures var s' := ExecAll(Stores(sp, n), s);
            && s'.regs == s.regs && s'.csrs == s.csrs
            && Holds(s'.mem, s.regs[sp], s.regs, n)
            && SameOutside(s.mem, s'.mem, s.regs[sp], n)
  {
    hide ExecItem, StoreWord, Holds, SameOutside;
    if n == 0 {
      EmptyFrame(s.mem, s.regs[sp], s.regs);
    } else {
      StoresFillFrame(sp, n - 1, s);
      assert Stores(sp, n)[..n - 1] == Stores(sp, n - 1);
      var mid := ExecAll(Stores(sp, n - 1), s);
      assert ExecAll(Stores(sp, n), s) == ExecItem(StoreItem(sp, n), mid);
      StoresWord(n, n * 4, sp, mid);
      FrameGrows(s.mem, mid.mem, s.regs[sp], s.regs, n);
    }
  }

  lemma EmptyFrame(m: map<int, Byte>, base: Word, saved: Regs)
    ensures Holds(m, base, saved, 0) && SameOutside(m, m, base, 0)
  {
  }

  lemma WidenOutside(a: map<int, Byte>, b: map<int, Byte>, c: map<int, Byte>, base: Word, n: nat)
    requires n >= 1 && SameOutside(a, b, base, n - 1)
    requires forall o :: 0 <= o < WORDS && !(4 * n <= o < 4 * n + 4) ==> ByteAt(c, base, o) == ByteAt(b, base, o)
    ensures SameOutside(a, c, base, n)
  {
  }

  lemma LoadItemEffect(sp: Reg, n: nat, s: State, mid: State, saved: Regs)
    requires 1 <= n < 32 && sp != 0 && mid.mem == s.mem && mid.regs[sp] == s.regs[sp]
    requires Slot(s.mem, s.regs[sp], n) == saved[n]
    ensures ExecItem(LoadItem(sp, n), mid) == mid.(regs := Set(mid.regs, n, saved[n]))
  {
    LoadsWord(n, n * 4, sp, mid);
  }

  /** Loading the frame back works although one of the loads reloads the stack pointer itself: the
      frame holds its current value. */
  lemma {:induction false} LoadsReadFrame(sp: Reg, n: nat, s: State, saved: Regs)
    requires n < 32 && sp != 0
    requires Holds(s.mem, s.regs[sp], saved, 31) && saved[sp] == s.regs[sp]
    ensures var s' := ExecAll(Loads(sp, n), s);
            && s'.csrs == s.csrs && s'.mem == s.mem
            && (forall i :: 1 <= i <= n ==> s'.regs[i] == saved[i])
            && (forall i :: n < i < 32 ==> s'.regs[i] == s.regs[i])
  {
    hide ExecItem, Slot;
    if n > 0 {
      LoadsReadFrame(sp, n - 1, s, saved);
      assert Loads(sp, n)[..n - 1] == Loads(sp, n - 1);
      LoadItemEffect(sp, n, s, ExecAll(Loads(sp, n - 1), s), saved);
    }
  }

  /** The registers as push stores them: only the stack pointer has moved down to the frame. */
  function FrameBase(s: State, sp: Reg, tp: Reg, hasScratch: bool): Word {
    Wrap(s.regs[if hasScratch then tp else sp] as int - 124)
  }

  lemma SetTwice(r: Regs, sp: Reg, a: Word, b: Word)
    ensures Set(Set(r, sp, a), sp, b) == Set(r, sp, b)
  {
  }

  lemma OpenFrame(sp: Reg, s: State)
    ensures ExecAll([Def("1"), Ins(Addi(sp, sp, -124))], s) ==
            s.(regs := Set(s.regs, sp, Wrap(s.regs[sp] as int - 124)))
  {
    ExecTwo(Def("1"), Ins(Addi(sp, sp, -124)), s);
    AddImm(sp, sp, -124, s);
  }

  function PushHead(sp: Reg, tp: Reg, hasScratch: bool): seq<Item> {
    PushSwitch(sp, tp, hasScratch) + [Def("1"), Ins(Addi(sp, sp, -124))]
  }

  lemma SwitchToKernel(s: State, sp: Reg, tp: Reg)
    requires sp != 0 && sp != tp
    ensures ExecAll([Ins(Csrrw(sp, MSCRATCH, sp)), Ins(Add(sp, tp, 0))], s) ==
            State(Set(s.regs, sp, s.regs[tp]), s.csrs.(mscratch := s.regs[sp]), s.mem)
  {
    hide ExecItem, ExecAll;
    var swapped := State(Set(s.regs, sp, s.csrs.mscratch), s.csrs.(mscratch := s.regs[sp]), s.mem);
    ExecTwo(Ins(Csrrw(sp, MSCRATCH, sp)), Ins(Add(sp, tp, 0)), s);
    SwapScratch(sp, s);
    AddZero(sp, tp, swapped);
    SetTwice(s.regs, sp, s.csrs.mscratch, s.regs[tp]);
  }

  lemma HeadWithScratch(s: State, sp: Reg, tp: Reg)
    requires sp != 0 && sp != tp
    ensures ExecAll([Ins(Csrrw(sp, MSCRATCH, sp)), Ins(Add(sp, tp, 0))] + [Def("1"), Ins(Addi(sp, sp, -124))], s) ==
            State(Set(s.regs, sp, Wrap(s.regs[tp] as int - 124)), s.csrs.(mscratch := s.regs[sp]), s.mem)
  {
    hide ExecItem, ExecAll;
    var moved := State(Set(s.regs, sp, s.regs[tp]), s.csrs.(mscratch := s.regs[sp]), s.mem);
    SwitchToKernel(s, sp, tp);
    OpenFrame(sp, moved);
    SetTwice(s.regs, sp, s.regs[tp], Wrap(s.regs[tp] as int - 124));
    ExecConcat([Ins(Csrrw(sp, MSCRATCH, sp)), Ins(Add(sp, tp, 0))], [Def("1"), Ins(Addi(sp, sp, -124))], s);
  }

  lemma PushHeadEffect(s: State, sp: Reg, tp: Reg, hasScratch: bool)
    requires sp != 0 && sp != tp
    ensures ExecAll(PushHead(sp, tp, hasScratch), s) ==
            State(Set(s.regs, sp, FrameBase(s, sp, tp, hasScratch)),
                  if hasScratch then s.csrs.(mscratch := s.regs[sp]) else s.csrs, s.mem)
  {
    hide ExecItem, ExecAll;
    if hasScratch {
      HeadWithScratch(s, sp, tp);
    } else {
      assert PushHead(sp, tp, hasScratch) == [Def("1"), Ins(Addi(sp, sp, -124))];
      OpenFrame(sp, s);
    }
  }

  lemma PushEffect(s: State, sp: Reg, tp: Reg, hasScratch: bool)
    requires sp != 0 && sp != tp
    ensures var s' := ExecAll(PushCode(sp, tp, hasScratch), s);
            var base := FrameBase(s, sp, tp, hasScratch);
            && s'.regs == Set(s.regs, sp, base)
            && s'.csrs == (if hasScratch then s.csrs.(mscratch := s.regs[sp]) else s.csrs)
            && Holds(s'.mem, base, s'.regs, 31)
            && SameOutside(s.mem, s'.mem, base, 31)
  {
    PushHeadEffect(s, sp, tp, hasScratch);
    ExecConcat(PushHead(sp, tp, hasScratch), Stores(sp, 31), s);
    StoresFillFrame(sp, 31, ExecAll(PushHead(sp, tp, hasScratch), s));
  }

  lemma PopSwitchEffect(s: State, sp: Reg, tp: Reg, hasScratch: bool)
    requires sp != 0 && tp != 0 && sp != tp
    ensures ExecAll(PopSwitch(sp, tp, hasScratch), s) ==
            if hasScratch
            then State(Set(Set(s.regs, tp, s.regs[sp]), sp, s.csrs.mscratch), s.csrs.(mscratch := s.regs[sp]), s.mem)
            else s
  {
    if hasScratch {
      ExecTwo(Ins(Add(tp, sp, 0)), Ins(Csrrw(sp, MSCRATCH, sp)), s);
      AddZero(tp, sp, s);
      SwapScratch(sp, s.(regs := Set(s.regs, tp, s.regs[sp])));
    }
  }

  lemma PopFrameEffect(s: State, saved: Regs, sp: Reg)
    requires sp != 0
    requires Holds(s.mem, s.regs[sp], saved, 31) && saved[sp] == s.regs[sp]
    ensures ExecAll(Loads(sp, 31) + [Ins(Addi(sp, sp, 124))], s) ==
            State(Set(saved, sp, Wrap(s.regs[sp] as int + 124)), s.csrs, s.mem)
  {
    hide ExecItem, ExecAll, Slot;
    var loads, up := Loads(sp, 31), Ins(Addi(sp, sp, 124));
    ExecConcat(loads, [up], s);
    LoadsReadFrame(sp, 31, s, saved);
    var loaded := ExecAll(loads, s);
    assert loaded.regs == saved;
    ExecSingle(up, loaded);
    AddImm(sp, sp, 124, loaded);
  }

  lemma PopEffect(s: State, saved: Regs, sp: Reg, tp: Reg, hasScratch: bool)
    requires sp != 0 && tp != 0 && sp != tp
    requires Holds(s.mem, s.regs[sp], saved, 31) && saved[sp] == s.regs[sp]
    ensures var top := Wrap(s.regs[sp] as int + 124);
            ExecAll(PopCode(sp, tp, hasScratch), s) ==
            if hasScratch
            then State(Set(Set(Set(saved, sp, top), tp, top), sp, s.csrs.mscratch), s.csrs.(mscratch := top), s.mem)
            else State(Set(saved, sp, top), s.csrs, s.mem)
  {
    ExecConcat(Loads(sp, 31) + [Ins(Addi(sp, sp, 124))], PopSwitch(sp, tp, hasScratch), s);
    PopFrameEffect(s, saved, sp);
    PopSwitchEffect(ExecAll(Loads(sp, 31) + [Ins(Addi(sp, sp, 124))], s), sp, tp, hasScratch);
  }

  /** What the code between push and pop has to leave alone. */
  ghost predicate BodyKeepsFrame(s: State, s': State, sp: Reg) {
    && s'.regs[sp] == s.regs[sp]
    && s'.csrs.mscratch == s.csrs.mscratch
    && forall i :: 1 <= i < 32 ==> Slot(s'.mem, s.regs[sp], i) == Slot(s.mem, s.regs[sp], i)
  }

  /** Push, any body that leaves the stack pointer, the frame and the scratch register alone, and pop
      restore every register, including sp and tp, which pop reloads on the way. Push writes only the
      31 words below the kernel stack pointer, pop writes nothing, and the scratch register ends up
      with the kernel stack pointer. */
  lemma PushBodyPop(s: State, body: State, sp: Reg, tp: Reg, hasScratch: bool)
    requires sp != 0 && tp != 0 && sp != tp
    requires BodyKeepsFrame(ExecAll(PushCode(sp, tp, hasScratch), s), body, sp)
    ensures var pushed := ExecAll(PushCode(sp, tp, hasScratch), s);
            var s' := ExecAll(PopCode(sp, tp, hasScratch), body);
            && s'.regs == s.regs
            && s'.mem == body.mem
            && SameOutside(s.mem, pushed.mem, FrameBase(s, sp, tp, hasScratch), 31)
            && s'.csrs == (if hasScratch then body.csrs.(mscratch := s.regs[tp]) else body.csrs)
  {
    PushEffect(s, sp, tp, hasScratch);
    PopUndoesPush(s, ExecAll(PushCode(sp, tp, hasScratch), s), body, sp, tp, hasScratch);
  }

  lemma PopUndoesPush(s: State, pushed: State, body: State, sp: Reg, tp: Reg, hasScratch: bool)
    requires sp != 0 && tp != 0 && sp != tp
    requires pushed.regs == Set(s.regs, sp, FrameBase(s, sp, tp, hasScratch))
    requires pushed.csrs == if hasScratch then s.csrs.(mscratch := s.regs[sp]) else s.csrs
    requires Holds(pushed.mem, FrameBase(s, sp, tp, hasScratch), pushed.regs, 31)
    requires BodyKeepsFrame(pushed, body, sp)
    ensures ExecAll(PopCode(sp, tp, hasScratch), body) ==
            State(s.regs, if hasScratch then body.csrs.(mscratch := s.regs[tp]) else body.csrs, body.mem)
  {
    hide ExecItem, ExecAll, Slot;
    var base := FrameBase(s, sp, tp, hasScratch);
    assert Holds(body.mem, base, pushed.regs, 31) by {
      assert forall i :: 1 <= i < 32 ==> Slot(body.mem, base, i) == Slot(pushed.mem, base, i);
    }
    PopEffect(body, pushed.regs, sp, tp, hasScratch);
    FrameTop(s, sp, tp, hasScratch);
    RestoredRegs(s.regs, sp, tp, base);
  }

  lemma FrameTop(s: State, sp: Reg, tp: Reg, hasScratch: bool)
    ensures Wrap(FrameBase(s, sp, tp, hasScratch) as int + 124) == s.regs[if hasScratch then tp else sp]
  {
    WrapAdd(s.regs[if hasScratch then tp else sp] as int - 124, 124);
  }

  lemma RestoredRegs(r: Regs, sp: Reg, tp: Reg, base: Word)
    requires sp != 0 && tp != 0 && sp != tp
    ensures Set(Set(Set(Set(r, sp, base), sp, r[tp]), tp, r[tp]), sp, r[sp]) == r
    ensures Set(Set(r, sp, base), sp, r[sp]) == r
  {
  }
}
