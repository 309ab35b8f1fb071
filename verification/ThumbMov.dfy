/** Relocating a MOVW/MOVT instruction pair (the THUMB_MOV32 case of driver/memmod/memmod_windows.go). Immediates are
    sixteen-bit words here; the sums that the code forms from them are 32 bits wide, as there. */
module ThumbMov {
  import opened Wrappers

  datatype ThumbError = ExpectedMovw | ExpectedMovt | ImmediateTooLarge

  /** The bits of either instruction that are not immediate: opcode and registers. */
  function Fixed(inst: bv32): bv32 { inst & 0x8f00_fbf0 }

  predicate IsMovw(inst: bv32) { inst & 0x8000_fbf0 == 0x0000_f240 }

  predicate IsMovt(inst: bv32) { inst & 0x8000_fbf0 == 0x0000_f2c0 }

  /** The immediate, gathered from its four fields. */
  function Immediate(inst: bv32): bv16 {
    (((inst << 1) & 0x0800) + ((inst << 12) & 0xf000) + ((inst >> 20) & 0x0700) + ((inst >> 16) & 0x00ff)) as bv16
  }

  /** The instruction with an immediate scattered into its fields. */
  function WithImmediate(inst: bv32, imm: bv16): bv32 {
    (inst & 0x8f00_fbf0) + ((imm as bv32 >> 1) & 0x0400) + ((imm as bv32 >> 12) & 0x000f)
    + ((imm as bv32 << 20) & 0x7000_0000) + ((imm as bv32 << 16) & 0x00ff_0000)
  }

  // ---------------------------------------------------------------- sums

  /** The low half plus the low half of delta, in sixteen bits. */
  function LowSum(low: bv16, delta: bv32): bv16 { ((low as bv32 + (delta & 0xffff)) & 0xffff) as bv16 }

  /** What the high half grows by: the high half of delta, and the carry of the low half. */
  function HighDelta(low: bv16, delta: bv32): bv32 {
    ((delta & 0xffff_0000) >> 16) + (((low as bv32 + (delta & 0xffff)) & 0xffff_0000) >> 16)
  }

  function HighSum(low: bv16, high: bv16, delta: bv32): bv32 {
    high as bv32 + (((delta & 0xffff_0000) >> 16) + (((low as bv32 + (delta & 0xffff)) & 0xffff_0000) >> 16))
  }

  /** The same, in sixteen bits. */
  function HighHalf(low: bv16, high: bv16, delta: bv32): bv16 {
    ((high as bv32 + (((delta & 0xffff_0000) >> 16) + (((low as bv32 + (delta & 0xffff)) & 0xffff_0000) >> 16)))
     & 0xffff) as bv16
  }

  /** The two words after patching, and what went wrong, if anything did. */
  datatype Patched = Patched(movw: bv32, movt: bv32, error: Option<ThumbError>)

  function PatchPair(movw: bv32, movt: bv32, delta: bv32): Patched {
    if !IsMovw(movw) then Patched(movw, movt, Some(ExpectedMovw))
    else
      var low := Immediate(movw);
      var movw' := WithImmediate(movw, LowSum(low, delta));
      if HighDelta(low, delta) == 0 then Patched(movw', movt, None)
      else if !IsMovt(movt) then Patched(movw', movt, Some(ExpectedMovt))
      else if HighSum(low, Immediate(movt), delta) > 0xffff then Patched(movw', movt, Some(ImmediateTooLarge))
      else Patched(movw', WithImmediate(movt, HighHalf(low, Immediate(movt), delta)), None)
  }

  // ---------------------------------------------------------------- fields

  lemma GatherScattered(inst: bv32, imm: bv16)
    ensures Immediate(WithImmediate(inst, imm)) == imm
  {
  }

  /** Fields that share no bit are put together alike by adding and by setting bits. */
  lemma FieldsApart(f: bv32, a: bv32, b: bv32, c: bv32, d: bv32)
    ensures (f & 0x8f00_fbf0) + (a & 0x0400) + (b & 0x000f) + (c & 0x7000_0000) + (d & 0x00ff_0000)
         == (f & 0x8f00_fbf0) | (a & 0x0400) | (b & 0x000f) | (c & 0x7000_0000) | (d & 0x00ff_0000)
  {
  }

  lemma FixedOfFields(f: bv32, a: bv32, b: bv32, c: bv32, d: bv32)
    ensures ((f & 0x8f00_fbf0) + (a & 0x0400) + (b & 0x000f) + (c & 0x7000_0000) + (d & 0x00ff_0000)) & 0x8f00_fbf0
         == f & 0x8f00_fbf0
  {
    FieldsApart(f, a, b, c, d);
  }

  lemma FixedKept(inst: bv32, imm: bv16)
    ensures Fixed(WithImmediate(inst, imm)) == Fixed(inst)
  {
    FixedOfFields(inst, imm as bv32 >> 1, imm as bv32 >> 12, imm as bv32 << 20, imm as bv32 << 16);
  }

  lemma OpcodeKept(inst: bv32, imm: bv16)
    ensures IsMovw(WithImmediate(inst, imm)) == IsMovw(inst)
    ensures IsMovt(WithImmediate(inst, imm)) == IsMovt(inst)
  {
  }

  /** Scattering an immediate and gathering it again; nothing else changes. */
  lemma ScatterGather(inst: bv32, imm: bv16)
    ensures Immediate(WithImmediate(inst, imm)) == imm
    ensures Fixed(WithImmediate(inst, imm)) == Fixed(inst)
    ensures IsMovw(WithImmediate(inst, imm)) == IsMovw(inst)
    ensures IsMovt(WithImmediate(inst, imm)) == IsMovt(inst)
  {
    hide Immediate, WithImmediate, IsMovw, IsMovt, Fixed;
    GatherScattered(inst, imm);
    FixedKept(inst, imm);
    OpcodeKept(inst, imm);
  }

  /** An instruction is its fixed bits and its immediate. */
  lemma GatherScatter(inst: bv32)
    ensures WithImmediate(inst, Immediate(inst)) == inst
  {
  }

  // ---------------------------------------------------------------- the encodings

  /** The two halfwords of MOVW (encoding T3 of the ARM architecture), the first in the low half: 11110 i 100100 imm4 and
      0 imm3 Rd imm8. */
  function MovwWord(i: bv32, imm4: bv32, imm3: bv32, rd: bv32, imm8: bv32): bv32 {
    0xf240 | ((i & 1) << 10) | (imm4 & 0xf) | ((imm3 & 7) << 28) | ((rd & 0xf) << 24) | ((imm8 & 0xff) << 16)
  }

  /** And of MOVT (encoding T1): 11110 i 101100 imm4 and 0 imm3 Rd imm8. */
  function MovtWord(i: bv32, imm4: bv32, imm3: bv32, rd: bv32, imm8: bv32): bv32 {
    0xf2c0 | ((i & 1) << 10) | (imm4 & 0xf) | ((imm3 & 7) << 28) | ((rd & 0xf) << 24) | ((imm8 & 0xff) << 16)
  }

  /** The immediate of either is imm4:i:imm3:imm8. */
  lemma MovwIs(i: bv32, imm4: bv32, imm3: bv32, rd: bv32, imm8: bv32)
    ensures IsMovw(MovwWord(i, imm4, imm3, rd, imm8))
    ensures Immediate(MovwWord(i, imm4, imm3, rd, imm8))
         == (((imm4 & 0xf) << 12) | ((i & 1) << 11) | ((imm3 & 7) << 8) | (imm8 & 0xff)) as bv16
  {
  }

  lemma MovtIs(i: bv32, imm4: bv32, imm3: bv32, rd: bv32, imm8: bv32)
    ensures IsMovt(MovtWord(i, imm4, imm3, rd, imm8))
    ensures Immediate(MovtWord(i, imm4, imm3, rd, imm8))
         == (((imm4 & 0xf) << 12) | ((i & 1) << 11) | ((imm3 & 7) << 8) | (imm8 & 0xff)) as bv16
  {
  }

  /** Nothing else passes for one of the two. */
  lemma MovwOnly(w: bv32)
    ensures IsMovw(w) ==> w == MovwWord(w >> 10, w, w >> 28, w >> 24, w >> 16)
    ensures IsMovt(w) ==> w == MovtWord(w >> 10, w, w >> 28, w >> 24, w >> 16)
  {
  }

  // ---------------------------------------------------------------- adding by halves

  /** The halves of the 32-bit value with the given halves, after adding delta. */
  function SumLow(low: bv16, high: bv16, delta: bv32): bv16 {
    ((((high as bv32 << 16) | low as bv32) + delta) & 0xffff) as bv16
  }

  function SumHigh(low: bv16, high: bv16, delta: bv32): bv16 {
    ((((high as bv32 << 16) | low as bv32) + delta) >> 16) as bv16
  }

  /** The sum does not fit 32 bits. */
  predicate Overflows(low: bv16, high: bv16, delta: bv32) {
    ((high as bv32 << 16) | low as bv32) as bv33 + delta as bv33 > 0xffff_ffff
  }

  lemma RawLow(a: bv16, b: bv16, d: bv32)
    ensures ((((b as bv32 << 16) | a as bv32) + d) & 0xffff) as bv16 == ((a as bv32 + (d & 0xffff)) & 0xffff) as bv16
  {
  }

  lemma RawHigh(a: bv16, b: bv16, d: bv32)
    ensures ((((b as bv32 << 16) | a as bv32) + d) >> 16) as bv16
         == ((b as bv32 + (((d & 0xffff_0000) >> 16) + (((a as bv32 + (d & 0xffff)) & 0xffff_0000) >> 16)))
             & 0xffff) as bv16
  {
  }

  lemma RawOverflow(a: bv16, b: bv16, d: bv32)
    ensures b as bv32 + (((d & 0xffff_0000) >> 16) + (((a as bv32 + (d & 0xffff)) & 0xffff_0000) >> 16)) > 0xffff
       <==> ((b as bv32 << 16) | a as bv32) as bv33 + d as bv33 > 0xffff_ffff
  {
  }

  /** Adding by halves, with the carry passed on, is adding. */
  lemma LowByHalves(low: bv16, high: bv16, delta: bv32)
    ensures SumLow(low, high, delta) == LowSum(low, delta)
  {
    RawLow(low, high, delta);
  }

  lemma HighByHalves(low: bv16, high: bv16, delta: bv32)
    ensures SumHigh(low, high, delta) == HighHalf(low, high, delta)
  {
    RawHigh(low, high, delta);
  }

  lemma OverflowByHalves(low: bv16, high: bv16, delta: bv32)
    ensures Overflows(low, high, delta) <==> HighSum(low, high, delta) > 0xffff
  {
    RawOverflow(low, high, delta);
  }

  lemma NoHighDelta(low: bv16, high: bv16, delta: bv32)
    requires HighDelta(low, delta) == 0
    ensures HighHalf(low, high, delta) == high && HighSum(low, high, delta) <= 0xffff
  {
  }

  // ---------------------------------------------------------------- the pair

  /** A patched pair loads the old value plus delta, with opcodes and registers untouched. */
  lemma PatchedValue(movw: bv32, movt: bv32, delta: bv32)
    requires PatchPair(movw, movt, delta).error == None
    ensures var p := PatchPair(movw, movt, delta);
            && Immediate(p.movw) == SumLow(Immediate(movw), Immediate(movt), delta)
            && Immediate(p.movt) == SumHigh(Immediate(movw), Immediate(movt), delta)
            && Fixed(p.movw) == Fixed(movw) && Fixed(p.movt) == Fixed(movt)
            && IsMovw(p.movw) && IsMovt(p.movt) == IsMovt(movt)
  {
    hide Immediate, WithImmediate, IsMovw, IsMovt, LowSum, HighSum, HighHalf, HighDelta, SumLow, SumHigh, Fixed;
    var low, high := Immediate(movw), Immediate(movt);
    ScatterGather(movw, LowSum(low, delta));
    ScatterGather(movt, HighHalf(low, high, delta));
    LowByHalves(low, high, delta);
    HighByHalves(low, high, delta);
    if HighDelta(low, delta) == 0 {
      NoHighDelta(low, high, delta);
    }
  }

  /** Patching a well-formed pair fails exactly when the sum needs more than 32 bits. */
  lemma PatchFails(movw: bv32, movt: bv32, delta: bv32)
    requires IsMovw(movw) && IsMovt(movt)
    ensures var p := PatchPair(movw, movt, delta);
            && (p.error == None <==> !Overflows(Immediate(movw), Immediate(movt), delta))
            && (p.error != None ==> p.error == Some(ImmediateTooLarge) && p.movt == movt)
  {
    hide Immediate, WithImmediate, IsMovw, IsMovt, LowSum, HighSum, HighHalf, HighDelta, Overflows;
    var low, high := Immediate(movw), Immediate(movt);
    OverflowByHalves(low, high, delta);
    if HighDelta(low, delta) == 0 {
      NoHighDelta(low, high, delta);
    }
  }

  /** The second word is looked at only when its half has to change, and nothing is written if the first is no MOVW. */
  lemma SecondWord(movw: bv32, movt: bv32, delta: bv32)
    ensures var p := PatchPair(movw, movt, delta);
            && (p.error == Some(ExpectedMovw) <==> !IsMovw(movw))
            && (p.error == Some(ExpectedMovw) ==> p.movw == movw && p.movt == movt)
            && (p.error == Some(ExpectedMovt) <==> IsMovw(movw) && !IsMovt(movt) && HighDelta(Immediate(movw), delta) != 0)
            && (HighDelta(Immediate(movw), delta) == 0 ==> p.movt == movt)
            && (IsMovw(movw) ==> p.movw == WithImmediate(movw, LowSum(Immediate(movw), delta)))
            && (p.error.Some? ==> p.movt == movt)
  {
    hide Immediate, WithImmediate, IsMovw, IsMovt, LowSum, HighSum, HighHalf, HighDelta;
  }
}
