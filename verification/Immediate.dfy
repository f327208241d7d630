/** Immediate widths and sign extension of generated instructions (pygen_src/isa/riscv_instr.py). */
module Immediate {
  import opened Bits

  const SHIFT_T := 32  // shift_t is the mask of this many bits

  datatype Format = U_FORMAT | J_FORMAT | I_FORMAT | S_FORMAT | B_FORMAT | OTHER_FORMAT
  datatype ImmType = IMM | UIMM | NZIMM | NZUIMM

  predicate IsUnsigned(format: Format, immType: ImmType) {
    format == U_FORMAT || immType == UIMM || immType == NZUIMM
  }

  /** The length that set_imm_len gives, if the format has an immediate. */
  function ImmLen(format: Format, immType: ImmType, was: nat): nat {
    match format
    case U_FORMAT | J_FORMAT => 20
    case I_FORMAT | S_FORMAT | B_FORMAT => if immType == UIMM then 5 else 12
    case OTHER_FORMAT => was
  }

  /** All bits of a word from bit n upwards. */
  function HighMask(n: nat): nat
    requires n <= 32
  {
    ShiftLeft(Pow2(32 - n) - 1, n)
  }

  /** extend_imm: the low len bits, with all higher bits set for a negative signed immediate. */
  function Extended(imm: nat, len: nat, unsigned: bool): nat
    requires len < 32
  {
    var low := LowBits(imm, len);
    if len > 0 && !unsigned && low >= Pow2(len - 1) then HighMask(len) + low else low
  }

  /** The number printed for an immediate. */
  function Printed(imm: nat, len: nat, unsigned: bool): int
    requires len < 32
  {
    Signed(Extended(imm, len, unsigned))
  }

  class InstrImm {
    var format: Format
    var immType: ImmType
    var immLen: nat
    var immMask: nat
    var imm: nat
    var immStr: int

    constructor (format: Format, immType: ImmType)
      ensures this.format == format && this.immType == immType
      ensures immLen == 0 && immMask == WORDS - 1
    {
      this.format, this.immType, immLen, immMask := format, immType, 0, WORDS - 1;
    }

    ghost predicate Ready()
      reads this
    {
      immLen < 32 && immMask == HighMask(immLen) && imm < WORDS
    }

    method SetImmLen()
      requires immMask == WORDS - 1 && immLen == 0
      modifies this`immLen, this`immMask
      ensures immLen == ImmLen(format, immType, 0)
      ensures immMask == HighMask(immLen)
    {
      hide LowBits, ShiftLeft, Pow2;
      if format == U_FORMAT || format == J_FORMAT {
        immLen := 20;
      } else if format == I_FORMAT || format == S_FORMAT || format == B_FORMAT {
        if immType == UIMM {
          immLen := 5;
        } else {
          immLen := 12;
        }
      }
      MaskShifted(32 - immLen, immLen);
      immMask := LowBits(ShiftLeft(immMask, immLen), SHIFT_T);
    }

    method ExtendImm()
      requires Ready()
      modifies this`imm
      ensures Ready() && imm == Extended(old(imm), immLen, IsUnsigned(format, immType))
    {
      hide LowBits, ShiftLeft, ShiftRight, BitOr, HighMask, Pow2;
      if immLen == 0 {
        NothingIsLeft(imm);
      } else {
        ExtensionSteps(imm, immLen);
      }
      imm := LowBits(ShiftLeft(imm, 32 - immLen), SHIFT_T);
      var sign := ShiftRight(imm, 31) % 2;  // (imm & 0x80000000) >> 31
      imm := LowBits(ShiftRight(imm, 32 - immLen), SHIFT_T);
      if sign == 1 && !IsUnsigned(format, immType) {
        imm := BitOr(immMask, imm);
      }
    }

    method UpdateImmStr()
      modifies this`immStr
      ensures immStr == Signed(imm)
    {
      immStr := Signed(imm);
    }

    method PostRandomize()
      requires Ready()
      modifies this`imm, this`immStr
      ensures Ready() && immStr == Printed(old(imm), immLen, IsUnsigned(format, immType))
    {
      ExtendImm();
      UpdateImmStr();
    }
  }

  /** From creation to print: the number printed for an instruction whose constraints drew this immediate. */
  method PrintImmediate(format: Format, immType: ImmType, drawn: nat) returns (immStr: int)
    requires drawn < 0x1_0000_0000
    ensures format.I_FORMAT? || format.S_FORMAT? || format.B_FORMAT? ==>
              match immType
              case IMM | NZIMM => -2048 <= immStr <= 2047 && (drawn - immStr) % 4096 == 0
              case UIMM => 0 <= immStr <= 31 && (drawn - immStr) % 32 == 0
              case NZUIMM => 0 <= immStr <= 4095 && (drawn - immStr) % 4096 == 0
    ensures format.U_FORMAT? ==> 0 <= immStr <= 0xF_FFFF && (drawn - immStr) % 0x10_0000 == 0
    ensures format.J_FORMAT? ==>
              match immType
              case IMM | NZIMM => -0x8_0000 <= immStr <= 0x7_FFFF && (drawn - immStr) % 0x10_0000 == 0
              case UIMM | NZUIMM => 0 <= immStr <= 0xF_FFFF && (drawn - immStr) % 0x10_0000 == 0
    ensures format.OTHER_FORMAT? ==> immStr == 0
  {
    hide Printed, HighMask;
    var instr := new InstrImm(format, immType);
    instr.SetImmLen();
    instr.imm := drawn;
    if instr.immLen > 0 {
      PrintedIsInRange(drawn, instr.immLen, IsUnsigned(format, immType));
      PrintedIsCongruent(drawn, instr.immLen, IsUnsigned(format, immType));
    } else {
      NothingIsPrinted(drawn, IsUnsigned(format, immType));
    }
    FieldPowers();
    instr.PostRandomize();
    immStr := instr.immStr;
  }

  lemma NothingIsPrinted(imm: nat, unsigned: bool)
    ensures Printed(imm, 0, unsigned) == 0
  {
  }

  lemma FieldPowers()
    ensures Pow2(5) == 32 && Pow2(11) == 2048 && Pow2(12) == 4096 && Pow2(19) == 0x8_0000 && Pow2(20) == 0x10_0000
  {
    assert Pow2(8) == 0x100;
    assert Pow2(16) == 0x1_0000;
  }

  // ---- Lemmas about the bits ----

  lemma {:induction false} LowBitsBounded(x: nat, n: nat)
    ensures LowBits(x, n) < Pow2(n) && LowBits(x, n) <= x
    ensures x < Pow2(n) ==> LowBits(x, n) == x
  {
    if n > 0 {
      LowBitsBounded(x / 2, n - 1);
    }
  }

  lemma {:induction false} AllOnes(k: nat, m: nat)
    requires m <= k
    ensures LowBits(Pow2(k) - 1, m) == Pow2(m) - 1
  {
    if m > 0 {
      var h := Pow2(k - 1) - 1;
      assert Pow2(k) - 1 == 2 * h + 1 && (2 * h + 1) / 2 == h && (2 * h + 1) % 2 == 1;
      AllOnes(k - 1, m - 1);
    }
  }

  /** Shifting by n into m + n bits keeps the lower m. */
  lemma {:induction false} PushUp(x: nat, n: nat, m: nat)
    ensures LowBits(ShiftLeft(x, n), m + n) == ShiftLeft(LowBits(x, m), n)
  {
    if n > 0 {
      PushUp(x, n - 1, m);
      var y := ShiftLeft(x, n - 1);
      assert (2 * y) / 2 == y && (2 * y) % 2 == 0;
    }
  }

  lemma MaskShifted(m: nat, n: nat)
    requires m + n == 32
    ensures LowBits(ShiftLeft(WORDS - 1, n), 32) == HighMask(n)
  {
    hide LowBits, ShiftLeft;
    WordPowers();
    PushUp(Pow2(32) - 1, n, m);
    AllOnes(32, m);
  }

  /** Without an immediate length everything is shifted out. */
  lemma NothingIsLeft(imm: nat)
    ensures LowBits(imm, 0) == 0 && LowBits(ShiftLeft(imm, 32), 32) == 0
    ensures ShiftRight(0, 31) == 0 && LowBits(ShiftRight(0, 32), 32) == 0
  {
    hide ShiftLeft, ShiftRight;
    PushUp(imm, 32, 0);
    ShiftedZero(32);
    LowBitsBounded(0, 32);
  }

  /** What the two shifts of extend_imm, its sign bit and its OR amount to. */
  lemma ExtensionSteps(imm: nat, len: nat)
    requires 0 < len < 32
    ensures var low, shifted := LowBits(imm, len), LowBits(ShiftLeft(imm, 32 - len), 32);
            && LowBits(ShiftRight(shifted, 32 - len), 32) == low
            && (ShiftRight(shifted, 31) % 2 == 1 <==> low >= Pow2(len - 1))
            && BitOr(HighMask(len), low) == HighMask(len) + low < WORDS
            && low < WORDS
  {
    hide LowBits, ShiftLeft, ShiftRight, BitOr;
    var low, shifted, n := LowBits(imm, len), LowBits(ShiftLeft(imm, 32 - len), 32), 32 - len;
    PushUp(imm, n, len);
    LowBitsBounded(imm, len);
    SplitAt(low, n, 0);
    ShiftTwice(shifted, n, len - 1);
    TopBit(low, len - 1);
    OrIntoEmptyBits(Pow2(n) - 1, len, low);
    ShiftedBound(Pow2(n) - 1, len, low, n);
    WordPowers();
    ShiftedBound(0, len, low, n);
    LowBitsBounded(low, 32);
    ShiftedZero(len);
  }

  lemma {:induction false} ShiftedZero(n: nat)
    ensures ShiftLeft(0, n) == 0
  {
    if n > 0 {
      ShiftedZero(n - 1);
    }
  }

  // ---- What the printed number is ----

  lemma {:induction false} ShiftIsProduct(x: nat, n: nat)
    ensures ShiftLeft(x, n) == x * Pow2(n)
  {
    if n > 0 {
      ShiftIsProduct(x, n - 1);
    }
  }

  lemma {:induction false} SplitsAt(x: nat, n: nat)
    ensures x == ShiftLeft(ShiftRight(x, n), n) + LowBits(x, n)
  {
    if n > 0 {
      SplitsAt(x / 2, n - 1);
    }
  }

  /** The printed number in closed form. */
  lemma PrintedValue(imm: nat, len: nat, unsigned: bool)
    requires 0 < len < 32
    ensures var low := LowBits(imm, len);
            Printed(imm, len, unsigned) == if !unsigned && low >= Pow2(len - 1) then low - Pow2(len) else low
  {
    ExtensionSteps(imm, len);
    LowBitsBounded(imm, len);
    HighMaskValue(len);
    PowerGrows(len, 31);
    WordPowers();
  }

  lemma HighMaskValue(len: nat)
    requires 0 < len < 32
    ensures HighMask(len) == WORDS - Pow2(len)
  {
    hide ShiftLeft;
    ShiftAdds(Pow2(32 - len) - 1, Pow2(0), len);
    PowerSum(32 - len, len);
    PowerSum(0, len);
    WordPowers();
  }

  lemma {:induction false} PowerSum(m: nat, n: nat)
    ensures ShiftLeft(Pow2(m), n) == Pow2(m + n)
  {
    if n > 0 {
      PowerSum(m, n - 1);
    }
  }

  lemma {:induction false} PowerGrows(m: nat, n: nat)
    requires m <= n
    ensures Pow2(m) <= Pow2(n)
  {
    if m < n {
      PowerGrows(m, n - 1);
    }
  }

  /** The range of an immediate of len bits. */
  predicate InRange(v: int, len: nat, unsigned: bool)
    requires len > 0
  {
    if unsigned then 0 <= v < Pow2(len) else -(Pow2(len - 1) as int) <= v < Pow2(len - 1)
  }

  predicate Congruent(x: int, y: int, len: nat) {
    (x - y) % Pow2(len) == 0
  }

  lemma PrintedIsInRange(imm: nat, len: nat, unsigned: bool)
    requires 0 < len < 32
    ensures InRange(Printed(imm, len, unsigned), len, unsigned)
  {
    hide Printed, LowBits;
    PrintedValue(imm, len, unsigned);
    LowBitsBounded(imm, len);
  }

  lemma PrintedIsCongruent(imm: nat, len: nat, unsigned: bool)
    requires 0 < len < 32
    ensures Congruent(imm, Printed(imm, len, unsigned), len)
  {
    hide Printed, ShiftLeft, ShiftRight, LowBits;
    var low, m, p, up := LowBits(imm, len), Pow2(len), Printed(imm, len, unsigned), ShiftRight(imm, len);
    PrintedValue(imm, len, unsigned);
    SplitsAt(imm, len);
    ShiftIsProduct(up, len);
    assert (up + 1) * m == up * m + m;
    Multiple(imm - p, if p == low then up else up + 1, m);
  }

  /** The printed number is the one number in range that is congruent to imm modulo 2^len. */
  lemma PrintedIsTheCongruentValue(imm: nat, len: nat, unsigned: bool, v: int)
    requires 0 < len < 32
    ensures v == Printed(imm, len, unsigned) <==> InRange(v, len, unsigned) && Congruent(imm, v, len)
  {
    hide Printed, Congruent;
    PrintedIsInRange(imm, len, unsigned);
    PrintedIsCongruent(imm, len, unsigned);
    if InRange(v, len, unsigned) && Congruent(imm, v, len) {
      CongruentInRange(imm, Printed(imm, len, unsigned), v, len);
    }
  }

  lemma CongruentInRange(x: int, p: int, v: int, len: nat)
    requires len > 0 && -(Pow2(len) as int) < p - v < Pow2(len)
    requires Congruent(x, p, len) && Congruent(x, v, len)
    ensures p == v
  {
    OneValuePerRange(x, p, v, Pow2(len));
  }

  lemma Multiple(x: int, q: int, m: int)
    requires m > 0 && x == q * m
    ensures x % m == 0
  {
    var d := x / m;
    assert x == d * m + x % m;
    assert (q - d) * m == q * m - d * m;
    SmallMultiple(q - d, m);
  }

  lemma OneValuePerRange(x: int, p: int, v: int, m: int)
    requires m > 0 && -m < p - v < m
    requires (x - p) % m == 0 && (x - v) % m == 0
    ensures p == v
  {
    var a, b := (x - p) / m, (x - v) / m;
    assert x - p == a * m && x - v == b * m;
    assert (b - a) * m == b * m - a * m;
    SmallMultiple(b - a, m);
  }

  /** extend_imm applied to its own result changes nothing. */
  lemma ExtendIsIdempotent(imm: nat, len: nat, unsigned: bool)
    requires 0 < len < 32
    ensures Extended(Extended(imm, len, unsigned), len, unsigned) == Extended(imm, len, unsigned)
  {
    LowBitsBounded(imm, len);
    LowBitsBounded(LowBits(imm, len), len);
    SplitAt(Pow2(32 - len) - 1, len, LowBits(imm, len));
  }
}
