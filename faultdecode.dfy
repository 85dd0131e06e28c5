/**
 * The decoders of crash_screen_draw and its helpers (src/crash_screen.c): the
 * exception-cause table index, the FPCSR cause scan, the decision whether a
 * float register is printed as a number, and the fragment-relative PC label.
 */
module FaultDecode {
  import opened Wrappers

  /** gFaultCauses: the 18 exception names the crash screen prints, by remapped cause index. */
  const FaultCauses: seq<string> := [
    "Interrupt",
    "TLB modification",
    "TLB exception on load",
    "TLB exception on store",
    "Address error on load",
    "Address error on store",
    "Bus error on inst.",
    "Bus error on data",
    "System call exception",
    "Breakpoint exception",
    "Reserved instruction",
    "Coprocessor unusable",
    "Arithmetic overflow",
    "Trap exception",
    "Virtual coherency on inst.",
    "Floating point exception",
    "Watchpoint exception",
    "Virtual coherency on data"
  ]

  /** gFPCSRFaultCauses: the names of the FPCSR cause bits 17 down to 12. */
  const FpcsrCauses: seq<string> := [
    "Unimplemented operation", "Invalid operation", "Division by zero", "Overflow", "Underflow", "Inexact operation"
  ]

  // ---------------------------------------------------------------------------
  // The exception cause
  // ---------------------------------------------------------------------------

  /** The ExcCode field of the Cause register: bits 2 to 6. */
  function ExcCode(cause: bv32): (c: int)
    ensures 0 <= c < 32
  {
    ((cause >> 2) & 0x1F) as int
  }

  /**
   * causeIndex of crash_screen_draw: the ExcCode, with the watch exception (23)
   * moved to entry 16 and the data virtual-coherency exception (31) to entry 17.
   * The index lies inside gFaultCauses exactly for the codes 0 .. 17, 23 and 31;
   * the source does not guard against the others.
   */
  function CauseIndex(cause: bv32): (i: int)
    ensures 0 <= i < 32
    ensures i < |FaultCauses| <==> ExcCode(cause) < 18 || ExcCode(cause) == 23 || ExcCode(cause) == 31
    ensures ExcCode(cause) < 18 ==> i == ExcCode(cause)
    ensures ExcCode(cause) == 23 ==> i == 16
    ensures ExcCode(cause) == 31 ==> i == 17
  {
    var c := ExcCode(cause);
    if c == 23 then 16 else if c == 31 then 17 else c
  }

  /** The name crash_screen_draw prints for a cause, or None where its table read would be out of bounds. */
  function CauseName(cause: bv32): (name: Option<string>)
    ensures name.Some? <==> CauseIndex(cause) < |FaultCauses|
  {
    var i := CauseIndex(cause);
    if i < |FaultCauses| then Some(FaultCauses[i]) else None
  }

  /** The two remapped codes get the names of the exceptions they stand for. */
  lemma CauseRemapNames(cause: bv32)
    ensures ExcCode(cause) == 23 ==> CauseName(cause) == Some("Watchpoint exception")
    ensures ExcCode(cause) == 31 ==> CauseName(cause) == Some("Virtual coherency on data")
    ensures ExcCode(cause) == 14 ==> CauseName(cause) == Some("Virtual coherency on inst.")
  {
  }

  /** Only bits 2 to 6 of the Cause register decide what is printed. */
  lemma CauseIgnoresOtherBits(c1: bv32, c2: bv32)
    requires c1 & 0x7C == c2 & 0x7C
    ensures CauseIndex(c1) == CauseIndex(c2)
  {
    assert (c1 >> 2) & 0x1F == (c1 & 0x7C) >> 2;
    assert (c2 >> 2) & 0x1F == (c2 & 0x7C) >> 2;
  }

  // ---------------------------------------------------------------------------
  // The FPCSR scan of crash_screen_print_fpcsr
  // ---------------------------------------------------------------------------

  /** The masks the scan tests, in order: the FPCSR cause bits 17 down to 12, then bit 11. */
  function CauseBit(i: int): bv32
    requires 0 <= i <= 6
  {
    match i
    case 0 => 0x2_0000
    case 1 => 0x1_0000
    case 2 => 0x8000
    case 3 => 0x4000
    case 4 => 0x2000
    case 5 => 0x1000
    case _ => 0x800
  }

  /** Shifting one mask right by one gives the next. */
  lemma CauseBitNext(i: int)
    requires 0 <= i < 6
    ensures CauseBit(i) >> 1 == CauseBit(i + 1)
  {
    // One empty branch per step: a case split on i for the solver.
    if i == 0 {
    } else if i == 1 {
    } else if i == 2 {
    } else if i == 3 {
    } else if i == 4 {
    } else {
    }
  }

  /** The i-th mask is bit 17 - i, and each lies among the cause bits 12 .. 17. */
  lemma CauseBitIsShift(i: int)
    requires 0 <= i < 6
    ensures CauseBit(i) == 1 << (17 - i)
    ensures CauseBit(i) & 0x3_F000 == CauseBit(i)
  {
    // One empty branch per step: a case split on i for the solver.
    if i == 0 {
    } else if i == 1 {
    } else if i == 2 {
    } else if i == 3 {
    } else if i == 4 {
    } else {
    }
  }

  /** The test `fpcsr & bit` of the scan. */
  predicate Masked(fpcsr: bv32, bit: bv32) {
    fpcsr & bit != 0
  }

  /** Cause bit 17 - i, the one gFPCSRFaultCauses[i] names, is set in the FPCSR. */
  predicate FpcsrBit(fpcsr: bv32, i: int)
    requires 0 <= i < 6
  {
    Masked(fpcsr, CauseBit(i))
  }

  /** The first of steps i .. 5 of the scan whose cause bit is set in the FPCSR, if any. */
  function FirstCause(fpcsr: bv32, i: int): (r: Option<int>)
    requires 0 <= i <= 6
    ensures r.Some? ==> i <= r.value < 6 && FpcsrBit(fpcsr, r.value)
    ensures r.Some? ==> forall j :: i <= j < r.value ==> !FpcsrBit(fpcsr, j)
    ensures r.None? <==> forall j :: i <= j < 6 ==> !FpcsrBit(fpcsr, j)
    decreases 6 - i
  {
    if i == 6 then None
    else if FpcsrBit(fpcsr, i) then Some(i)
    else FirstCause(fpcsr, i + 1)
  }

  /**
   * The label crash_screen_print_fpcsr prints after the FPCSR value: the name in
   * gFPCSRFaultCauses of the highest cause bit set, or none when no cause bit is set.
   */
  function FpcsrLabel(fpcsr: bv32): (shown: Option<string>)
    ensures shown.None? <==> forall j :: 0 <= j < 6 ==> !FpcsrBit(fpcsr, j)
    ensures forall i :: 0 <= i < 6 && FpcsrBit(fpcsr, i) && (forall j :: 0 <= j < i ==> !FpcsrBit(fpcsr, j)) ==>
      shown == Some(FpcsrCauses[i])
  {
    var first := FirstCause(fpcsr, 0);
    if first.Some? then Some(FpcsrCauses[first.value]) else None
  }

  /**
   * The loop of crash_screen_print_fpcsr: tests bits 17 down to 12 in turn and
   * stops at the first one set. None means no cause label is printed.
   */
  method FpcsrCause(fpcsr: bv32) returns (r: Option<int>)
    ensures r.Some? ==> 0 <= r.value < 6 && FpcsrBit(fpcsr, r.value)
    ensures r.Some? ==> forall j :: 0 <= j < r.value ==> !FpcsrBit(fpcsr, j)
    ensures r.None? <==> forall j :: 0 <= j < 6 ==> !FpcsrBit(fpcsr, j)
    ensures FpcsrLabel(fpcsr) == if r.Some? then Some(FpcsrCauses[r.value]) else None
  {
    var bit: bv32 := 1 << 17;
    var i := 0;
    while i < 6
      invariant 0 <= i <= 6 && bit == CauseBit(i)
      invariant forall j :: 0 <= j < i ==> !FpcsrBit(fpcsr, j)
    {
      if Masked(fpcsr, bit) {
        assert FpcsrBit(fpcsr, i);
        return Some(i);
      }
      CauseBitNext(i);
      bit := bit >> 1;
      i := i + 1;
    }
    return None;
  }

  /** Only the six cause bits 12 .. 17 matter to the scan. */
  lemma FpcsrOnlyCauseBits(fpcsr: bv32, i: int)
    requires 0 <= i < 6
    ensures FpcsrBit(fpcsr, i) == FpcsrBit(fpcsr & 0x3_F000, i)
  {
    var m := CauseBit(i);
    CauseBitIsShift(i);
    assert (fpcsr & 0x3_F000) & m == fpcsr & (m & 0x3_F000);
  }

  // ---------------------------------------------------------------------------
  // The float-register decision of crash_screen_print_fpr
  // ---------------------------------------------------------------------------

  /** The biased exponent field of an IEEE single: bits 23 to 30. */
  function ExponentField(bits: bv32): (f: int)
    ensures 0 <= f < 256
  {
    ((bits & 0x7F80_0000) >> 0x17) as int
  }

  /**
   * `exponent` of crash_screen_print_fpr: the field minus 0x7f is computed on
   * u32 (wrapping below zero) and then stored in an s32 (undoing the wrap).
   */
  function Exponent(bits: bv32): (e: int)
    ensures e == ExponentField(bits) - 0x7F
  {
    var f := ExponentField(bits);
    WrapUndone(f - 0x7F);
    S32(U32(f - 0x7F))
  }

  /** An integer reduced to u32, as C's unsigned arithmetic does. */
  function U32(v: int): int {
    v % 0x1_0000_0000
  }

  /** A u32 value stored in an s32. */
  function S32(u: int): int {
    if u >= 0x8000_0000 then u - 0x1_0000_0000 else u
  }

  /** A value in the s32 range survives the detour through u32. */
  lemma WrapUndone(v: int)
    requires -0x8000_0000 <= v < 0x8000_0000
    ensures S32(U32(v)) == v
  {
    if v < 0 {
      assert U32(v) == v + 0x1_0000_0000;
    }
  }

  /**
   * The register is printed as a number exactly when its exponent field is in
   * 1 .. 254 (a normal number) or the whole word is zero; every other pattern
   * gets the placeholder.
   */
  function FprPrintable(bits: bv32): (p: bool)
    ensures p <==> 1 <= ExponentField(bits) <= 254 || bits == 0
  {
    var exponent := Exponent(bits);
    (exponent >= -0x7E && exponent <= 0x7F) || bits == 0
  }

  /** Negative zero, the other subnormals, infinities and NaNs all get the placeholder. */
  lemma FprPlaceholders(bits: bv32)
    ensures bits == 0x8000_0000 ==> !FprPrintable(bits)
    ensures ExponentField(bits) == 0 && bits != 0 ==> !FprPrintable(bits)
    ensures ExponentField(bits) == 255 ==> !FprPrintable(bits)
  {
  }

  /** Apart from the two zeros, the sign bit does not change the decision. */
  lemma FprSignIgnored(bits: bv32)
    requires bits != 0 && bits != 0x8000_0000
    ensures FprPrintable(bits) == FprPrintable(bits ^ 0x8000_0000)
  {
    assert (bits ^ 0x8000_0000) & 0x7F80_0000 == bits & 0x7F80_0000;
  }

  // ---------------------------------------------------------------------------
  // The fragment labels F-PC and F-RA
  // ---------------------------------------------------------------------------

  /**
   * What crash_screen_draw prints for a fragment base address returned by the
   * memory map: ret - 0x20 (u32 arithmetic) when ret is not zero, nothing otherwise.
   */
  function FragmentLabel(ret: bv32): (shown: Option<bv32>)
    ensures shown.None? <==> ret == 0
    ensures shown.Some? ==> shown.value + 0x20 == ret
  {
    if ret != 0 then Some(ret - 0x20) else None
  }
}
