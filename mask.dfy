/*
  The read-modify-write steps of `mask_pch_irq` and `unmask_pch_irq`
  (arch/mips/loongson64/loongson-3/ls7a-irq.c:29-63) as functions on
  register values: the 64-bit bridge mask register (a set bit masks the
  line) and the 32-bit LPC enable register (a set bit enables the line).
*/
module PchMask {
  import opened Bitmap

  /** `mask | (1ULL << n)`: bit `n` set, every other bit kept. */
  function Masked(mask: bv64, n: Pos): (r: bv64)
    ensures View(r) == View(mask)[n := true]
  {
    ViewSet(mask, n);
    mask | OneBit(n)
  }

  /** `mask & ~(1ULL << n)`: bit `n` clear, every other bit kept. */
  function Unmasked(mask: bv64, n: Pos): (r: bv64)
    ensures View(r) == View(mask)[n := false]
  {
    ViewClear(mask, n);
    mask & !OneBit(n)
  }

  /** `ena & ~(1 << n)` on the LPC enable register: its zero extension is unmasked at `n`. */
  function LpcDisabled(ena: bv32, n: Pos): (r: bv32)
    requires n < 32
    ensures Wide(r) == Unmasked(Wide(ena), n)
  {
    WideClear(ena, n);
    ena & !OneBit32(n)
  }

  /** `ena | (1 << n)` on the LPC enable register: its zero extension is masked at `n`. */
  function LpcEnabled(ena: bv32, n: Pos): (r: bv32)
    requires n < 32
    ensures Wide(r) == Masked(Wide(ena), n)
  {
    WideSet(ena, n);
    ena | OneBit32(n)
  }

  /** Masking a masked line changes nothing. */
  lemma MaskIdempotent(mask: bv64, n: Pos)
    ensures Masked(Masked(mask, n), n) == Masked(mask, n)
  {
    var once := Masked(mask, n);
    var twice := Masked(once, n);
    var v := View(once);
    assert v[n];
    assert v[n := true] == v;
    ViewInjective(twice, once);
  }

  /** Unmasking an unmasked line changes nothing. */
  lemma UnmaskIdempotent(mask: bv64, n: Pos)
    ensures Unmasked(Unmasked(mask, n), n) == Unmasked(mask, n)
  {
    var once := Unmasked(mask, n);
    var twice := Unmasked(once, n);
    var v := View(once);
    assert !v[n];
    assert v[n := false] == v;
    ViewInjective(twice, once);
  }

  /** Unmasking undoes masking a line that was unmasked, and the other way round. */
  lemma MaskRoundTrip(mask: bv64, n: Pos)
    ensures !Bit(mask, n) ==> Unmasked(Masked(mask, n), n) == mask
    ensures Bit(mask, n) ==> Masked(Unmasked(mask, n), n) == mask
  {
    var v := View(mask);
    assert v[n] == Bit(mask, n);
    if !Bit(mask, n) {
      assert v[n := true][n := false] == v;
      ViewInjective(Unmasked(Masked(mask, n), n), mask);
    } else {
      assert v[n := false][n := true] == v;
      ViewInjective(Masked(Unmasked(mask, n), n), mask);
    }
  }

  /** Disabling or enabling an LPC line twice is the same as once. */
  lemma LpcIdempotent(ena: bv32, n: Pos)
    requires n < 32
    ensures LpcDisabled(LpcDisabled(ena, n), n) == LpcDisabled(ena, n)
    ensures LpcEnabled(LpcEnabled(ena, n), n) == LpcEnabled(ena, n)
  {
    var d := LpcDisabled(ena, n);
    UnmaskIdempotent(Wide(ena), n);
    WideInjective(LpcDisabled(d, n), d);
    var e := LpcEnabled(ena, n);
    MaskIdempotent(Wide(ena), n);
    WideInjective(LpcEnabled(e, n), e);
  }

  /** Enabling undoes disabling a line that was enabled, and the other way round. */
  lemma LpcRoundTrip(ena: bv32, n: Pos)
    requires n < 32
    ensures Bit32(ena, n) ==> LpcEnabled(LpcDisabled(ena, n), n) == ena
    ensures !Bit32(ena, n) ==> LpcDisabled(LpcEnabled(ena, n), n) == ena
  {
    MaskRoundTrip(Wide(ena), n);
    if Bit32(ena, n) {
      WideInjective(LpcEnabled(LpcDisabled(ena, n), n), ena);
    } else {
      WideInjective(LpcDisabled(LpcEnabled(ena, n), n), ena);
    }
  }
}
