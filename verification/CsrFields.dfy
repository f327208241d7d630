/** CSR values packed from named fields (pygen_src/riscv_reg.py, with mstatus of riscv_privil_reg.py). */
module CsrFields {
  import opened Common
  import opened Bits

  const XLEN := 32

  datatype Access = WARL | WLRL | WPRI

  /** The content of a field object. */
  datatype FieldView = FieldView(name: string, width: nat, access: Access, resetVal: nat, val: nat, hardWired: bool)

  // ---- Packing ----

  function TotalWidth(fs: seq<FieldView>): nat {
    if fs == [] then 0 else fs[0].width + TotalWidth(fs[1..])
  }

  /** The bit position of field i: fields stand from the least significant bit upwards. */
  function Offset(fs: seq<FieldView>, i: nat): nat
    requires i <= |fs|
  {
    TotalWidth(fs[..i])
  }

  /** The value the packing loop builds from the fields, the last one first. */
  function Pack(fs: seq<FieldView>): nat {
    if fs == [] then 0 else BitOr(ShiftLeft(Pack(fs[1..]), fs[0].width), fs[0].val)
  }

  predicate Fits(fs: seq<FieldView>) {
    forall i :: 0 <= i < |fs| ==> fs[i].val < Pow2(fs[i].width)
  }

  /** Fitting fields pack into as many bits as their widths add up to. */
  lemma {:induction false} PackIsBounded(fs: seq<FieldView>)
    requires Fits(fs)
    ensures Pack(fs) < Pow2(TotalWidth(fs))
  {
    if fs != [] {
      PackIsBounded(fs[1..]);
      OrIntoEmptyBits(Pack(fs[1..]), fs[0].width, fs[0].val);
      ShiftedBound(Pack(fs[1..]), fs[0].width, fs[0].val, TotalWidth(fs[1..]));
    }
  }

  /** Every field is read back by shifting to its offset and masking its width. */
  lemma {:induction false} FieldIsRecovered(fs: seq<FieldView>, i: nat)
    requires Fits(fs) && i < |fs|
    ensures LowBits(ShiftRight(Pack(fs), Offset(fs, i)), fs[i].width) == fs[i].val
  {
    var rest, w := Pack(fs[1..]), fs[0].width;
    OrIntoEmptyBits(rest, w, fs[0].val);
    SplitAt(rest, w, fs[0].val);
    if i > 0 {
      FieldIsRecovered(fs[1..], i - 1);
      assert fs[..i][1..] == fs[1..][..i - 1];
      ShiftTwice(Pack(fs), w, Offset(fs[1..], i - 1));
    }
  }

  /** Exchanging one field's value changes the packed value by that slice alone. */
  lemma {:induction false} SliceIsReplaced(fs: seq<FieldView>, i: nat, f: FieldView)
    requires Fits(fs) && i < |fs| && f.width == fs[i].width && f.val < Pow2(f.width)
    ensures Fits(fs[i := f])
    ensures Pack(fs[i := f]) + ShiftLeft(fs[i].val, Offset(fs, i)) == Pack(fs) + ShiftLeft(f.val, Offset(fs, i))
  {
    hide ShiftLeft, BitOr, Pow2;
    var fs' := fs[i := f];
    PackStep(fs);
    PackStep(fs');
    if i == 0 {
      assert fs'[1..] == fs[1..];
      NoShift(fs[0].val);
      NoShift(f.val);
    } else {
      var rest, off, w := fs[1..], Offset(fs[1..], i - 1), fs[0].width;
      assert fs'[1..] == rest[i - 1 := f];
      SliceIsReplaced(rest, i - 1, f);
      assert fs[..i][1..] == rest[..i - 1];
      ShiftTwice(fs[i].val, w, off);
      ShiftTwice(f.val, w, off);
      ShiftAdds(Pack(fs'[1..]), ShiftLeft(fs[i].val, off), w);
      ShiftAdds(Pack(rest), ShiftLeft(f.val, off), w);
    }
  }

  lemma NoShift(x: nat)
    ensures ShiftLeft(x, 0) == x
  {
  }

  lemma PackStep(fs: seq<FieldView>)
    requires Fits(fs) && fs != []
    ensures Pack(fs) == ShiftLeft(Pack(fs[1..]), fs[0].width) + fs[0].val
  {
    OrIntoEmptyBits(Pack(fs[1..]), fs[0].width, fs[0].val);
  }

  /** Fields of equal widths and packed values are equal: packing loses nothing. */
  lemma PackIsInjective(fs: seq<FieldView>, gs: seq<FieldView>)
    requires Fits(fs) && Fits(gs) && |fs| == |gs| && Pack(fs) == Pack(gs)
    requires forall i :: 0 <= i < |fs| ==> fs[i].width == gs[i].width
    ensures forall i :: 0 <= i < |fs| ==> fs[i].val == gs[i].val
  {
    forall i | 0 <= i < |fs|
      ensures fs[i].val == gs[i].val
    {
      FieldIsRecovered(fs, i);
      FieldIsRecovered(gs, i);
      SameOffsets(fs[..i], gs[..i]);
    }
  }

  lemma {:induction false} SameOffsets(fs: seq<FieldView>, gs: seq<FieldView>)
    requires |fs| == |gs| && forall i :: 0 <= i < |fs| ==> fs[i].width == gs[i].width
    ensures TotalWidth(fs) == TotalWidth(gs)
  {
    if fs != [] {
      SameOffsets(fs[1..], gs[1..]);
    }
  }

  /** The field a search from the end finds, |fs| if there is none. */
  function LastNamed(fs: seq<FieldView>, name: string): (i: nat)
    ensures i <= |fs|
    ensures i < |fs| ==> fs[i].name == name && forall k :: i < k < |fs| ==> fs[k].name != name
    ensures i == |fs| ==> forall k :: 0 <= k < |fs| ==> fs[k].name != name
  {
    if fs == [] then 0
    else
      var n := |fs| - 1;
      if fs[n].name == name then n
      else
        var i := LastNamed(fs[..n], name);
        if i == n then n + 1 else i
  }

  /** set_field with a fitting value, then get_val: the slice reads as the value, every other as before. */
  lemma SetReplacesItsSlice(fs: seq<FieldView>, i: nat, f: FieldView)
    requires Fits(fs) && i < |fs| && f.width == fs[i].width && f.val < Pow2(f.width)
    ensures var fs' := fs[i := f];
            && TotalWidth(fs') == TotalWidth(fs) && Pack(fs') < Pow2(TotalWidth(fs))
            && Pack(fs') + ShiftLeft(fs[i].val, Offset(fs, i)) == Pack(fs) + ShiftLeft(f.val, Offset(fs, i))
            && forall k :: 0 <= k < |fs| ==>
                 LowBits(ShiftRight(Pack(fs'), Offset(fs, k)), fs[k].width) == if k == i then f.val else fs[k].val
  {
    hide Pack, TotalWidth;
    var fs' := fs[i := f];
    SliceIsReplaced(fs, i, f);
    SameOffsets(fs, fs');
    PackIsBounded(fs');
    forall k | 0 <= k < |fs|
      ensures LowBits(ShiftRight(Pack(fs'), Offset(fs, k)), fs[k].width) == if k == i then f.val else fs[k].val
    {
      FieldIsRecovered(fs', k);
      SameOffsets(fs[..k], fs'[..k]);
    }
  }

  // ---- The fields that init_reg gives mstatus ----

  function MstatusLow(): seq<FieldView> {
    [FieldView("UIE", 1, WARL, 0, 0, false),
     FieldView("SIE", 1, WARL, 0, 0, false),
     FieldView("WPRI0", 1, WPRI, 0, 0, false),
     FieldView("MIE", 1, WARL, 0, 0, false)]
  }

  function MstatusPrevious(): seq<FieldView> {
    [FieldView("UPIE", 1, WARL, 0, 0, false),
     FieldView("SPIE", 1, WARL, 0, 0, false),
     FieldView("WPRI1", 1, WPRI, 0, 0, false),
     FieldView("MPIE", 1, WARL, 0, 0, false)]
  }

  function MstatusModes(): seq<FieldView> {
    [FieldView("SPP", 1, WLRL, 0, 0, false),
     FieldView("VS", 2, WARL, 0, 0, false),
     FieldView("MPP", 2, WLRL, 0, 0, false)]
  }

  function MstatusUnits(): seq<FieldView> {
    [FieldView("FS", 2, WARL, 0, 0, false),
     FieldView("XS", 2, WARL, 0, 0, false),
     FieldView("MPRV", 1, WARL, 0, 0, false)]
  }

  function MstatusMemory(): seq<FieldView> {
    [FieldView("SUM", 1, WARL, 0, 0, false),
     FieldView("MXR", 1, WARL, 0, 0, false),
     FieldView("TVM", 1, WARL, 0, 0, false),
     FieldView("TW", 1, WARL, 0, 0, false)]
  }

  function MstatusHigh(): seq<FieldView> {
    [FieldView("TSR", 1, WARL, 0, 0, false),
     FieldView("WPRI3", 8, WPRI, 0, 0, false),
     FieldView("SD", 1, WARL, 0, 0, false)]
  }

  function Mstatus(): seq<FieldView> {
    MstatusLow() + MstatusPrevious() + MstatusModes() + MstatusUnits() + MstatusMemory() + MstatusHigh()
  }

  lemma MstatusParts()
    ensures [] + MstatusLow() + MstatusPrevious() + MstatusModes() + MstatusUnits() + MstatusMemory()
              + MstatusHigh() == Mstatus()
  {
  }

  // ---- The register class ----

  class RegField {
    var name: string
    var bitWidth: nat
    var accessType: Access
    var resetVal: nat
    var val: nat
    var hardWired: bool

    constructor (name: string, bitWidth: nat, accessType: Access, resetVal: nat)
      ensures View() == FieldView(name, bitWidth, accessType, resetVal, 0, false)
    {
      this.name, this.bitWidth, this.accessType, this.resetVal := name, bitWidth, accessType, resetVal;
      val, hardWired := 0, false;
    }

    function View(): FieldView
      reads this
    {
      FieldView(name, bitWidth, accessType, resetVal, val, hardWired)
    }
  }

  class Reg {
    var val: nat
    var fld: seq<RegField>

    constructor ()
      ensures fld == [] && val == 0
    {
      val, fld := 0, [];
    }

    ghost predicate Valid()
      reads this
    {
      Distinct(fld)
    }

    ghost function Views(): (fs: seq<FieldView>)
      reads this, fld
      ensures |fs| == |fld| && forall i :: 0 <= i < |fs| ==> fs[i] == fld[i].View()
    {
      seq(|fld|, i requires 0 <= i < |fld| reads this, fld => fld[i].View())
    }

    /** Ok is false where the program logs a critical error and exits. */
    method GetVal() returns (ok: bool, value: nat)
      modifies this`val
      ensures ok <==> TotalWidth(Views()) == XLEN
      ensures ok ==> value == val == Pack(Views())
      ensures !ok ==> val == old(val)
      ensures fld == old(fld) && Views() == old(Views())
    {
      ghost var fs := Views();
      assert fs[0..] == fs;
      var totalLen, i := 0, |fld|;
      while i > 0
        invariant 0 <= i <= |fs| && totalLen == TotalWidth(fs[i..])
      {
        i := i - 1;
        assert fs[i..][1..] == fs[i + 1..];
        totalLen := totalLen + fld[i].bitWidth;
      }
      if totalLen != XLEN {
        return false, 0;
      }
      val := 0;
      i := |fld|;
      while i > 0
        invariant 0 <= i <= |fs| && fld == old(fld) && Views() == fs
        invariant val == Pack(fs[i..])
      {
        i := i - 1;
        assert fs[i..][1..] == fs[i + 1..];
        val := BitOr(ShiftLeft(val, fld[i].bitWidth), fld[i].val);
      }
      return true, val;
    }

    method AddField(name: string, bitWidth: nat, accessType: Access, resetVal: nat)
      requires Valid()
      modifies this`fld
      ensures Valid() && |fld| == |old(fld)| + 1 && fld[..|old(fld)|] == old(fld) && fresh(fld[|old(fld)|])
      ensures Views() == old(Views()) + [FieldView(name, bitWidth, accessType, resetVal, 0, false)]
    {
      var newFld := new RegField(name, bitWidth, accessType, resetVal);
      fld := fld + [newFld];
    }

    // init_reg for MSTATUS, in parts.

    method AddMstatusLow()
      requires Valid()
      modifies this`fld
      ensures Valid() && Views() == old(Views()) + MstatusLow()
    {
      hide Views;
      AddField("UIE", 1, WARL, 0);
      AddField("SIE", 1, WARL, 0);
      AddField("WPRI0", 1, WPRI, 0);
      AddField("MIE", 1, WARL, 0);
    }

    method AddMstatusPrevious()
      requires Valid()
      modifies this`fld
      ensures Valid() && Views() == old(Views()) + MstatusPrevious()
    {
      hide Views;
      AddField("UPIE", 1, WARL, 0);
      AddField("SPIE", 1, WARL, 0);
      AddField("WPRI1", 1, WPRI, 0);
      AddField("MPIE", 1, WARL, 0);
    }

    method AddMstatusModes()
      requires Valid()
      modifies this`fld
      ensures Valid() && Views() == old(Views()) + MstatusModes()
    {
      hide Views;
      AddField("SPP", 1, WLRL, 0);
      AddField("VS", 2, WARL, 0);
      AddField("MPP", 2, WLRL, 0);
    }

    method AddMstatusUnits()
      requires Valid()
      modifies this`fld
      ensures Valid() && Views() == old(Views()) + MstatusUnits()
    {
      hide Views;
      AddField("FS", 2, WARL, 0);
      AddField("XS", 2, WARL, 0);
      AddField("MPRV", 1, WARL, 0);
    }

    method AddMstatusMemory()
      requires Valid()
      modifies this`fld
      ensures Valid() && Views() == old(Views()) + MstatusMemory()
    {
      hide Views;
      AddField("SUM", 1, WARL, 0);
      AddField("MXR", 1, WARL, 0);
      AddField("TVM", 1, WARL, 0);
      AddField("TW", 1, WARL, 0);
    }

    method AddMstatusHigh()
      requires Valid()
      modifies this`fld
      ensures Valid() && Views() == old(Views()) + MstatusHigh()
    {
      hide Views;
      AddField("TSR", 1, WARL, 0);
      AddField("WPRI3", 8, WPRI, 0);
      AddField("SD", 1, WARL, 0);
    }

    method InitMstatus()
      requires Valid() && fld == []
      modifies this`fld
      ensures Valid() && Views() == Mstatus()
    {
      hide Views, MstatusLow, MstatusPrevious, MstatusModes, MstatusUnits, MstatusMemory, MstatusHigh;
      AddMstatusLow();
      AddMstatusPrevious();
      AddMstatusModes();
      AddMstatusUnits();
      AddMstatusMemory();
      AddMstatusHigh();
      MstatusParts();
    }

    method SetField(name: string, value: nat, hardWired: bool) returns (ok: bool)
      requires Valid()
      modifies fld
      ensures var i := LastNamed(old(Views()), name);
              && ok == (i < |fld|)
              && (!ok ==> Views() == old(Views()))
              && (ok ==>
                    var was := old(Views())[i];
                    Views() == old(Views())[i := FieldView(was.name, was.width, was.access,
                                                           if hardWired then value else was.resetVal,
                                                           value, hardWired)])
    {
      hide LastNamed;
      var i := FieldByName(name);
      if i == |fld| {
        return false;
      }
      fld[i].val := value;
      fld[i].hardWired := hardWired;
      if hardWired {
        fld[i].resetVal := value;
      }
      return true;
    }

    /** The search that set_field and get_field_by_name share. */
    method FieldByName(name: string) returns (i: nat)
      ensures i == LastNamed(Views(), name)
    {
      ghost var fs := Views();
      assert fs[..|fs|] == fs;
      i := |fld|;
      while i > 0
        invariant 0 <= i <= |fld|
        invariant LastNamed(fs, name) == if LastNamed(fs[..i], name) == i then |fld| else LastNamed(fs[..i], name)
      {
        assert fs[..i][..i - 1] == fs[..i - 1];
        i := i - 1;
        if name == fld[i].name {
          return i;
        }
      }
      return |fld|;
    }
  }

  // ---- mstatus ----

  /** The widths that init_reg gives the fields of mstatus, from UIE to SD. */
  const MSTATUS_WIDTHS: seq<nat> := [1, 1, 1, 1, 1, 1, 1, 1, 1, 2, 2, 2, 2, 1, 1, 1, 1, 1, 1, 8, 1]

  /** Where section 3.1.6 of the RISC-V Privileged Architecture 20211203 puts them on RV32: SIE at bit 1,
      MIE at 3, SPIE at 5, MPIE at 7, SPP at 8, VS at 9, MPP at 11, FS at 13, XS at 15, MPRV at 17, SUM at
      18, MXR at 19, TVM at 20, TW at 21, TSR at 22, SD at 31; the last entry is the register's end. */
  const MSTATUS_BITS: seq<nat> :=
    [0, 1, 2, 3, 4, 5, 6, 7, 8, 9, 11, 13, 15, 17, 18, 19, 20, 21, 22, 23, 31, 32]

  /** The fields of init_reg are those of mstatus, all of them zero at first. */
  lemma MstatusIsMstatus()
    ensures IsMstatus(Mstatus())
    ensures forall i :: 0 <= i < 21 ==> Mstatus()[i].val == 0
  {
    assert |MstatusLow()| == |MstatusPrevious()| == 4 && |MstatusModes()| == |MstatusUnits()| == 3;
  }

  /** The names of the fields of the architecture. */
  lemma MstatusNames()
    ensures var f := Mstatus();
            && |f| == 21
            && f[1].name == "SIE"
            && f[3].name == "MIE"
            && f[5].name == "SPIE"
            && f[7].name == "MPIE"
            && f[8].name == "SPP"
            && f[9].name == "VS"
            && f[10].name == "MPP"
            && f[11].name == "FS"
            && f[12].name == "XS"
            && f[13].name == "MPRV"
            && f[14].name == "SUM"
            && f[15].name == "MXR"
            && f[16].name == "TVM"
            && f[17].name == "TW"
            && f[18].name == "TSR"
            && f[20].name == "SD"
  {
  }

  predicate IsMstatus(fs: seq<FieldView>) {
    |fs| == 21 && forall i :: 0 <= i < 21 ==> fs[i].width == MSTATUS_WIDTHS[i]
  }

  lemma {:induction false} OffsetStep(fs: seq<FieldView>, i: nat)
    requires i < |fs|
    ensures Offset(fs, i + 1) == Offset(fs, i) + fs[i].width
  {
    assert fs[..i + 1][1..] == fs[1..][..i];
    if i > 0 {
      OffsetStep(fs[1..], i - 1);
      assert fs[..i][1..] == fs[1..][..i - 1];
    } else {
      assert TotalWidth(fs[1..][..0]) == 0;
    }
  }

  lemma {:induction false} MstatusOffsets(fs: seq<FieldView>, i: nat)
    requires IsMstatus(fs) && i <= 21
    ensures Offset(fs, i) == MSTATUS_BITS[i]
  {
    hide Offset;
    if i == 0 {
      NothingBelow(fs);
    } else {
      MstatusOffsets(fs, i - 1);
      OffsetStep(fs, i - 1);
      WidthsAreGaps(i - 1);
    }
  }

  lemma NothingBelow(fs: seq<FieldView>)
    ensures Offset(fs, 0) == 0
  {
  }

  lemma WidthsAreGaps(i: nat)
    requires i < 21
    ensures MSTATUS_BITS[i + 1] == MSTATUS_BITS[i] + MSTATUS_WIDTHS[i]
  {
  }

  /** get_val of mstatus is a 32-bit word with every field at its architectural position. */
  lemma MstatusLayout(fs: seq<FieldView>)
    requires IsMstatus(fs) && Fits(fs)
    ensures TotalWidth(fs) == XLEN && Pack(fs) < Pow2(XLEN)
    ensures forall i :: 0 <= i < 21 ==> LowBits(ShiftRight(Pack(fs), MSTATUS_BITS[i]), MSTATUS_WIDTHS[i]) == fs[i].val
  {
    hide LowBits, ShiftRight, Pack, TotalWidth, Pow2;
    MstatusOffsets(fs, 21);
    assert fs[..21] == fs;
    PackIsBounded(fs);
    forall i | 0 <= i < 21
      ensures LowBits(ShiftRight(Pack(fs), MSTATUS_BITS[i]), MSTATUS_WIDTHS[i]) == fs[i].val
    {
      MstatusOffsets(fs, i);
      FieldIsRecovered(fs, i);
    }
  }

  /** With the numbers written out, for the fields of the architecture. */
  lemma MstatusBits(fs: seq<FieldView>)
    requires IsMstatus(fs) && Fits(fs)
    ensures Pack(fs) < Pow2(32)
    ensures var v := Pack(fs);
            && LowBits(ShiftRight(v, 1), 1) == fs[1].val  // SIE
            && LowBits(ShiftRight(v, 3), 1) == fs[3].val  // MIE
            && LowBits(ShiftRight(v, 5), 1) == fs[5].val  // SPIE
            && LowBits(ShiftRight(v, 7), 1) == fs[7].val  // MPIE
            && LowBits(ShiftRight(v, 8), 1) == fs[8].val  // SPP
            && LowBits(ShiftRight(v, 9), 2) == fs[9].val  // VS
            && LowBits(ShiftRight(v, 11), 2) == fs[10].val  // MPP
            && LowBits(ShiftRight(v, 13), 2) == fs[11].val  // FS
            && LowBits(ShiftRight(v, 15), 2) == fs[12].val  // XS
            && LowBits(ShiftRight(v, 17), 1) == fs[13].val  // MPRV
            && LowBits(ShiftRight(v, 18), 1) == fs[14].val  // SUM
            && LowBits(ShiftRight(v, 19), 1) == fs[15].val  // MXR
            && LowBits(ShiftRight(v, 20), 1) == fs[16].val  // TVM
            && LowBits(ShiftRight(v, 21), 1) == fs[17].val  // TW
            && LowBits(ShiftRight(v, 22), 1) == fs[18].val  // TSR
            && LowBits(ShiftRight(v, 31), 1) == fs[20].val  // SD
  {
    hide LowBits, ShiftRight, Pack, Fits, IsMstatus;
    MstatusIsWord(fs);
    FieldStands(fs, 1, 1, 1);
    FieldStands(fs, 3, 3, 1);
    FieldStands(fs, 5, 5, 1);
    FieldStands(fs, 7, 7, 1);
    FieldStands(fs, 8, 8, 1);
    FieldStands(fs, 9, 9, 2);
    FieldStands(fs, 10, 11, 2);
    FieldStands(fs, 11, 13, 2);
    FieldStands(fs, 12, 15, 2);
    FieldStands(fs, 13, 17, 1);
    FieldStands(fs, 14, 18, 1);
    FieldStands(fs, 15, 19, 1);
    FieldStands(fs, 16, 20, 1);
    FieldStands(fs, 17, 21, 1);
    FieldStands(fs, 18, 22, 1);
    FieldStands(fs, 20, 31, 1);
  }

  lemma MstatusIsWord(fs: seq<FieldView>)
    requires IsMstatus(fs) && Fits(fs)
    ensures |fs| == 21 && Pack(fs) < Pow2(32)
  {
    hide Pack, Pow2;
    MstatusLayout(fs);
  }

  lemma FieldStands(fs: seq<FieldView>, i: nat, bit: nat, width: nat)
    requires IsMstatus(fs) && Fits(fs)
    requires i < 21 && bit == MSTATUS_BITS[i] && width == MSTATUS_WIDTHS[i]
    ensures |fs| == 21 && LowBits(ShiftRight(Pack(fs), bit), width) == fs[i].val
  {
    hide Pack, LowBits, ShiftRight, Pow2;
    MstatusLayout(fs);
  }
}
