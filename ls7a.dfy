/*
  The LS7A bridge interrupt controller as seen by
  arch/mips/loongson64/loongson-3/ls7a-irq.c: its registers, the kernel
  tables the file reads and writes (`irq_cpu[]`, the IPI indirection
  table, the interrupt descriptors it allocates), and its operations.

  Register accesses are field reads and writes. The effects that leave
  the file are appended to `trace`: `do_IRQ` (Local), IPIs, spurious
  reports, the MSI messages written to devices, and the writes to the
  bridge's mask and clear registers and to the LPC clear register, whose
  order relative to the rest is what the code promises.
*/
module Ls7a {
  import opened Scan
  import opened Bitmap
  import opened BitDecode
  import opened CpuMask
  import opened Routing
  import opened PchMask
  import opened Dirq

  /** The bridge status bit of the LPC cascade. */
  const LPC_OFFSET: Pos := 19
  /** The first descriptor the MSI allocator asks for. */
  const MSI_IRQ_BASE: nat := 16
  const MSI_TARGET_ADDRESS_HI: nat := 0
  const MSI_TARGET_ADDRESS_LO: nat := 0x2FF0_0000
  const ENOMEM: int := 12
  const ENOSPC: int := 28
  /** The mask written at initialisation: every bridge line masked but the LPC cascade. */
  const INIT_MASK: bv64 := 0xffff_ffff_fff7_ffff
  /** The LPC controller's enable bit. */
  const LPC_INT_CTL_ENABLE: bv32 := 0x8000_0000
  /** The 18 LPC interrupt bits. */
  const LPC_INT_CLR_ALL: bv32 := 0x3_ffff

  /** The route-entry bank after initialisation: every line selects route 1. */
  function InitRouteEntries(): seq<bv8>
  {
    seq(64, _ => 1)
  }

  /** The HT enable words after initialisation with MSI: every vector of every group enabled. */
  function HtEnableAll(groups: nat): seq<bv32>
  {
    seq(groups, _ => 0xffff_ffff)
  }

  /** The HT MSI vector bank after initialisation: line `k` raises vector `base + k`, as one byte. */
  function HtMsiVectors(base: nat): seq<bv8>
  {
    seq(64, k requires 0 <= k < 64 => ((base + k) % 256) as bv8)
  }

  datatype IrqReturn = IrqNone | IrqHandled

  /**
    The constants the file takes from elsewhere: `LS7A_PCH_IRQ_BASE`,
    `MIPS_CPU_IRQ_BASE`, `msi_groups`, `NR_IRQS`, `NR_DIRQS`,
    `nr_cpu_ids` and `pci_msi_enabled()`.
  */
  datatype Platform = Platform(
    pchIrqBase: nat,
    cpuIrqBase: nat,
    msiGroups: nat,
    nrIrqs: nat,
    nrDirqs: nat,
    nrCpus: nat,
    msiEnabled: bool)
  {
    /**
      The 64 bridge lines follow the 16 LPC lines and fit the descriptor
      space, the MSI vectors fit it too, and the slots fit the 32-bit IPI
      action word.
    */
    predicate Valid() {
      && 16 <= pchIrqBase
      && pchIrqBase + 64 <= nrIrqs
      && 32 * msiGroups <= nrIrqs
      && nrDirqs <= 32
    }
  }

  /** `irq` is the lowest id from `from` on that `used` does not hold. */
  predicate LowestFree(used: set<nat>, from: nat, irq: nat) {
    from <= irq && irq !in used && forall j :: from <= j < irq ==> j in used
  }

  /** One `do_IRQ` per listed line, in order. */
  function Locals(lines: seq<nat>): (r: seq<Event>)
    ensures |r| == |lines|
    ensures forall k :: 0 <= k < |r| ==> r[k] == Local(lines[k])
  {
    seq(|lines|, k requires 0 <= k < |lines| => Local(lines[k]))
  }

  lemma LocalsSnoc(lines: seq<nat>, irq: nat)
    ensures Locals(lines + [irq]) == Locals(lines) + [Local(irq)]
  {
  }

  /**
    The loop of `lpc_irq_dispatch`: while `ffs` finds a set bit, hand its
    line to `do_IRQ` and clear the bit. The events are one `do_IRQ` per
    decoded position, lowest first.
  */
  method HandleLocally(x: bv64) returns (handled: seq<Event>)
    ensures handled == Locals(Decode(x))
  {
    ghost var whole := Decode(x);
    var pending := x;
    ghost var done: seq<nat> := [];
    handled := [];
    while pending != 0
      invariant whole == done + Decode(pending)
      invariant handled == Locals(done)
      decreases |Decode(pending)|
    {
      var irq := Ffs(pending);
      var bit := irq - 1;
      handled := handled + [Local(bit)];
      var next := pending & !OneBit(bit);
      FfsStep(whole, done, pending, bit, next);
      LocalsSnoc(done, bit);
      done := done + [bit];
      pending := next;
    }
    DecodeEmpty(pending);
    assert done == whole;
  }

  /**
    The LPC pass calls `do_IRQ` exactly once for each set bit of the
    pending word, lowest bit first.
  */
  lemma LpcDispatchOnce(x: bv32)
    ensures forall j: Pos :: Local(j) in Locals(Decode(Wide(x))) <==> Bit32(x, j)
    ensures forall a, b :: 0 <= a < b < |Decode(Wide(x))| ==>
      Locals(Decode(Wide(x)))[a].irq < Locals(Decode(Wide(x)))[b].irq
  {
    var bits := Decode(Wide(x));
    var events := Locals(bits);
    DecodeSpec(Wide(x));
    forall j: Pos
      ensures Local(j) in events <==> Bit32(x, j)
    {
      DecodeMember(Wide(x), j);
      if Local(j) in events {
        var k :| 0 <= k < |events| && events[k] == Local(j);
        assert bits[k] == j;
      }
      if j in bits {
        var k :| 0 <= k < |bits| && bits[k] == j;
        assert events[k] == Local(j);
      }
    }
  }

  /** A zero LPC word has nothing to hand to `do_IRQ`. */
  lemma LpcNothingPending(irqs: bv32, handled: seq<Event>)
    requires irqs == 0 && handled == Locals(Decode(Wide(irqs)))
    ensures handled == []
  {
    assert Wide(irqs) == 0;
    DecodeEmpty(Wide(irqs));
  }

  /** The initial mask leaves exactly the LPC cascade unmasked. */
  lemma InitMaskLeavesLpc()
    ensures forall j: Pos :: !Bit(INIT_MASK, j) <==> j == LPC_OFFSET
  {
    ToBvValue(LPC_OFFSET);
    assert Unmasked(!0, LPC_OFFSET) == INIT_MASK;
    forall j: Pos
      ensures !Bit(INIT_MASK, j) <==> j == LPC_OFFSET
    {
      AllOnesEffect(j);
      assert View(INIT_MASK)[j] == View(!0)[LPC_OFFSET := false][j];
    }
  }

  class Controller {
    const plat: Platform

    // LPC controller: enable, status and control registers.
    var lpcEna: bv32
    var lpcSts: bv32
    var lpcCtl: bv32

    // Bridge: 64-bit mask, status, edge and HT MSI enable registers, and
    // the route-entry and HT MSI vector byte banks (one byte per line).
    var intMask: bv64
    var intStatus: bv64
    var intEdge: bv64
    var htMsiEn: bv64
    var routeEntry: seq<bv8>
    var htMsiVec: seq<bv8>

    // HT controller: per group, the pending vector word and the enable word.
    var htVector: seq<bv32>
    var htIntEn: seq<bv32>

    /** `irq_cpu[]`: the round-robin cursor of each line. */
    const irqCpu: array<int>
    /** `loongson_ipi_irq2pos[]` and `loongson_ipi_pos2irq[]`. */
    const irq2pos: array<int>
    const pos2irq: array<int>

    /** The allocated interrupt descriptors. */
    var descs: set<nat>
    /** Whether the bridge's dispatch hook is the MSI dispatcher. */
    var msiDispatch: bool

    var trace: seq<Event>

    /**
      The controller's invariant: the platform constants are consistent,
      the arrays and register banks have their sizes, every cursor is -1 or
      a CPU, and the IPI indirection table is consistent.
    */
    ghost predicate Valid()
      reads this, irqCpu, irq2pos, pos2irq
    {
      Shape() && CursorsValid() && Dirqs().Linked()
    }

    predicate Shape()
      reads this
    {
      && plat.Valid()
      && irqCpu.Length == plat.nrIrqs
      && irq2pos.Length == plat.nrIrqs
      && pos2irq.Length == plat.nrDirqs
      && irqCpu != irq2pos && irqCpu != pos2irq && irq2pos != pos2irq
      && |routeEntry| == 64 && |htMsiVec| == 64
      && |htVector| == plat.msiGroups && |htIntEn| == plat.msiGroups
    }

    ghost predicate CursorsValid()
      reads irqCpu
    {
      Bounded(irqCpu[..], plat.nrCpus)
    }

    /** The IPI indirection table. */
    function Dirqs(): Table
      reads irq2pos, pos2irq
    {
      Table(irq2pos[..], pos2irq[..])
    }

    /** Affinity masks (one per line) and the active CPUs, as routing reads them. */
    predicate Inputs(affinity: seq<Mask>, active: Mask) {
      && |active| == plat.nrCpus
      && |affinity| == plat.nrIrqs
      && forall irq :: 0 <= irq < |affinity| ==> |affinity[irq]| == plat.nrCpus
    }

    function EnvOf(affinity: seq<Mask>, active: Mask): Env
      reads irq2pos
    {
      Env(irq2pos[..], affinity, active)
    }

    /**
      Line 25: every cursor starts at -1. `inUse` holds the interrupt
      descriptors already in use when the controller is set up, such as the
      64 bridge lines allocated at line 314; the other state starts empty.
    */
    constructor (plat: Platform, inUse: set<nat>)
      requires plat.Valid()
      ensures Valid() && this.plat == plat
      ensures fresh(irqCpu) && fresh(irq2pos) && fresh(pos2irq)
      ensures forall irq :: 0 <= irq < irqCpu.Length ==> irqCpu[irq] == -1
      ensures Dirqs() == Reset(plat.nrIrqs, plat.nrDirqs)
      ensures descs == inUse && trace == [] && !msiDispatch
    {
      this.plat := plat;
      irqCpu := new int[plat.nrIrqs](_ => -1);
      irq2pos := new int[plat.nrIrqs](_ => -1);
      pos2irq := new int[plat.nrDirqs](_ => -1);
      lpcEna, lpcSts, lpcCtl := 0, 0, 0;
      intMask, intStatus, intEdge, htMsiEn := 0, 0, 0, 0;
      routeEntry := seq(64, _ => 0);
      htMsiVec := seq(64, _ => 0);
      htVector := seq(plat.msiGroups, _ => 0);
      htIntEn := seq(plat.msiGroups, _ => 0);
      descs := inUse;
      msiDispatch := false;
      trace := [];
      new;
      assert Dirqs() == Reset(plat.nrIrqs, plat.nrDirqs);
    }

    /** `mask_pch_irq`. */
    method MaskPchIrq(irq: nat)
      requires Valid()
      requires irq < 16 || plat.pchIrqBase <= irq < plat.pchIrqBase + 64
      modifies this`lpcEna, this`intMask, this`trace
      ensures Valid()
      ensures irq < 16 ==>
        lpcEna == LpcDisabled(old(lpcEna), irq) && intMask == old(intMask) && trace == old(trace)
      ensures 16 <= irq ==>
        && lpcEna == old(lpcEna)
        && intMask == Masked(old(intMask), irq - plat.pchIrqBase)
        && trace == old(trace) + [MaskWrite(intMask)]
    {
      if irq < 16 {
        lpcEna := LpcDisabled(lpcEna, irq);
      } else {
        var irqNr := irq - plat.pchIrqBase;
        intMask := Masked(intMask, irqNr);
        trace := trace + [MaskWrite(intMask)];
      }
    }

    /** `unmask_pch_irq`: with MSI enabled the line's bit is cleared before it is unmasked. */
    method UnmaskPchIrq(irq: nat)
      requires Valid()
      requires irq < 16 || plat.pchIrqBase <= irq < plat.pchIrqBase + 64
      modifies this`lpcEna, this`intMask, this`trace
      ensures Valid()
      ensures irq < 16 ==>
        lpcEna == LpcEnabled(old(lpcEna), irq) && intMask == old(intMask) && trace == old(trace)
      ensures 16 <= irq ==>
        && lpcEna == old(lpcEna)
        && intMask == Unmasked(old(intMask), irq - plat.pchIrqBase)
        && trace == old(trace)
          + (if plat.msiEnabled then [ClearWrite(OneBit(irq - plat.pchIrqBase))] else [])
          + [MaskWrite(intMask)]
    {
      if irq < 16 {
        lpcEna := LpcEnabled(lpcEna, irq);
      } else {
        var irqNr := irq - plat.pchIrqBase;
        if plat.msiEnabled {
          trace := trace + [ClearWrite(OneBit(irqNr))];
        }
        intMask := Unmasked(intMask, irqNr);
        trace := trace + [MaskWrite(intMask)];
      }
    }

    /** `lpc_irq_dispatch`. */
    method LpcIrqDispatch() returns (r: IrqReturn)
      requires Valid()
      modifies this`trace
      ensures Valid()
      ensures r == IrqNone <==> lpcEna & lpcSts == 0
      ensures trace == old(trace) + Locals(Decode(Wide(lpcEna & lpcSts)))
    {
      var irqs := lpcEna & lpcSts;
      var handled := HandleLocally(Wide(irqs));
      if irqs == 0 {
        LpcNothingPending(irqs, handled);
        return IrqNone;
      }
      trace := trace + handled;
      return IrqHandled;
    }

    /**
      Lines 117-139 and 159-188: route one pending line, advancing its
      cursor with `cpumask_next` and wrapping to `cpumask_first`. The line's
      IPI slot and affinity are read from `env`, a snapshot of the tables,
      which routing does not change.
    */
    method Route(rule: Rule, irq: nat, env: Env, ghost cursor: int)
      requires env.Valid() && irqCpu.Length == |env.slots|
      requires irq < |env.slots| && irqCpu[irq] == cursor && -1 <= cursor < |env.active|
      modifies this`trace, irqCpu
      ensures trace == old(trace) + [Choose(rule, irq, env, cursor).event]
      ensures irqCpu[..] == old(irqCpu[..])[irq := Choose(rule, irq, env, cursor).cursor]
    {
      if InSpuriousWindow(rule, irq) {
        trace := trace + [Spurious(irq)];
        return;
      }
      if env.slots[irq] == -1 {
        trace := trace + [Local(irq)];
        return;
      }
      var affinity := And(env.affinity[irq], env.active);
      if Empty(affinity) {
        trace := trace + [Local(irq)];
        return;
      }
      var cpu := Next(irqCpu[irq], affinity);
      if cpu >= |env.active| {
        cpu := First(affinity);
      }
      irqCpu[irq] := cpu;
      if cpu == 0 {
        trace := trace + [Local(irq)];
        return;
      }
      trace := trace + [Ipi(cpu, OneBit32(env.slots[irq]))];
    }

    /**
      The find-first-set loop of both dispatchers: route line `base + bit`
      for each set bit of `x`, lowest first. `before` lists the lines
      already routed in this dispatch, all below `base`.
    */
    method RoutePending(rule: Rule, base: nat, x: bv64, env: Env, ghost c0: seq<int>, ghost before: seq<nat>)
      requires env.Valid() && irqCpu.Length == |env.slots|
      requires InRange(Lines(base, Decode(x)), env)
      requires CursorsOk(c0, env)
      requires Below(before, base)
      requires irqCpu[..] == Cursors(rule, before, env, c0)
      modifies this`trace, irqCpu
      ensures trace == old(trace) + Events(rule, Lines(base, Decode(x)), env, c0)
      ensures irqCpu[..] == Cursors(rule, before + Lines(base, Decode(x)), env, c0)
    {
      ghost var whole := Decode(x);
      ghost var t0 := trace;
      var pending := x;
      ghost var done: seq<nat> := [];
      PassNone(rule, base, env, c0, before, t0);
      while pending != 0
        invariant whole == done + Decode(pending)
        invariant Below(done, Lowest(pending))
        invariant PassDone(rule, base, env, c0, before, t0, done, trace, irqCpu[..])
        decreases |Decode(pending)|
      {
        pending, done := RouteLowest(rule, base, env, c0, before, t0, whole, done, pending);
      }
      DecodeEmpty(pending);
      assert done == whole;
    }

    /**
      One iteration of the find-first-set loop: take the lowest pending
      bit, clear it and route its line.
    */
    method RouteLowest(rule: Rule, base: nat, env: Env, ghost c0: seq<int>, ghost before: seq<nat>,
                       ghost t0: seq<Event>, ghost whole: seq<nat>, ghost done: seq<nat>, pending: bv64)
      returns (next: bv64, ghost done': seq<nat>)
      requires irqCpu.Length == |env.slots| && InRange(Lines(base, whole), env) && Below(before, base)
      requires pending != 0 && whole == done + Decode(pending) && Below(done, Lowest(pending))
      requires PassDone(rule, base, env, c0, before, t0, done, trace, irqCpu[..])
      modifies this`trace, irqCpu
      ensures next == pending & !OneBit(Ffs(pending) - 1)
      ensures |Decode(next)| < |Decode(pending)|
      ensures whole == done' + Decode(next) && Below(done', Lowest(next))
      ensures PassDone(rule, base, env, c0, before, t0, done', trace, irqCpu[..])
    {
      var bit: nat := Ffs(pending) - 1;
      next := pending & !OneBit(bit);
      FfsStep(whole, done, pending, bit, next);
      RouteBit(rule, base, env, c0, before, t0, whole, done, bit, Decode(next), Lowest(next));
      done' := done + [bit];
    }

    /**
      Route the line of the next bit `bit` of a pass that has routed the
      bits `done`: its event is appended and its cursor advanced.
    */
    method RouteBit(rule: Rule, base: nat, env: Env, ghost c0: seq<int>, ghost before: seq<nat>,
                    ghost t0: seq<Event>, ghost all: seq<nat>, ghost done: seq<nat>, bit: nat,
                    ghost rest: seq<nat>, ghost low: nat)
      requires irqCpu.Length == |env.slots| && InRange(Lines(base, all), env) && Below(before, base)
      requires all == (done + [bit]) + rest && Below(done, bit) && bit < low
      requires PassDone(rule, base, env, c0, before, t0, done, trace, irqCpu[..])
      modifies this`trace, irqCpu
      ensures Below(done + [bit], low)
      ensures PassDone(rule, base, env, c0, before, t0, done + [bit], trace, irqCpu[..])
    {
      PassNext(rule, base, all, env, c0, before, done, bit, rest);
      assert irqCpu[base + bit] == c0[base + bit] by {
        assert irqCpu[base + bit] == irqCpu[..][base + bit];
      }
      Route(rule, base + bit, env, c0[base + bit]);
      PassDoneStep(rule, base, all, env, c0, before, t0, done, bit, rest, low,
        old(trace), old(irqCpu[..]), trace, irqCpu[..]);
    }

    /**
      `ls7a_irq_dispatch`: mask the pending lines, then route each status
      bit's line, lowest first.
    */
    method Ls7aIrqDispatch(affinity: seq<Mask>, active: Mask)
      requires Valid() && Inputs(affinity, active)
      modifies this`intMask, this`trace, irqCpu
      ensures Valid()
      ensures intMask == old(intStatus | intMask)
      ensures trace == old(trace) + [MaskWrite(old(intStatus | intMask))]
        + PassEvents(Bridge, plat.pchIrqBase, intStatus, EnvOf(affinity, active), old(irqCpu[..]))
      ensures irqCpu[..] == Cursors(Bridge, Lines(plat.pchIrqBase, Decode(intStatus)), EnvOf(affinity, active), old(irqCpu[..]))
    {
      var status := MaskPending();
      var env := Env(irq2pos[..], affinity, active);
      ghost var c0 := irqCpu[..];
      PassInRange(plat.pchIrqBase, status, env);
      CursorsNone(Bridge, env, c0);
      RoutePending(Bridge, plat.pchIrqBase, status, env, c0, []);
      assert [] + Lines(plat.pchIrqBase, Decode(status)) == Lines(plat.pchIrqBase, Decode(status));
    }

    /** Lines 104-108: mask every pending line and return the status read. */
    method MaskPending() returns (status: bv64)
      requires Valid()
      modifies this`intMask, this`trace
      ensures Valid()
      ensures status == intStatus
      ensures intMask == old(intStatus | intMask)
      ensures trace == old(trace) + [MaskWrite(intMask)]
    {
      var mask := intMask;
      status := intStatus;
      intMask := status | mask;
      trace := trace + [MaskWrite(status | mask)];
    }

    /**
      `ls7a_msi_irq_dispatch`: for each group, acknowledge the vector word
      by writing back the value read, then route each of its set bits'
      vectors, lowest first.
    */
    method Ls7aMsiIrqDispatch(affinity: seq<Mask>, active: Mask)
      requires Valid() && Inputs(affinity, active)
      modifies this`trace, irqCpu
      ensures Valid()
      ensures trace == old(trace)
        + MsiEvents(Msi(plat.cpuIrqBase), htVector, plat.msiGroups, EnvOf(affinity, active), old(irqCpu[..]))
      ensures irqCpu[..] == Cursors(Msi(plat.cpuIrqBase), MsiLines(htVector, plat.msiGroups), EnvOf(affinity, active), old(irqCpu[..]))
    {
      var rule := Msi(plat.cpuIrqBase);
      var env := Env(irq2pos[..], affinity, active);
      RouteGroups(rule, env, irqCpu[..]);
      assert CursorsOk(irqCpu[..], env);
    }

    /** Lines 150-190: the groups in turn, from the cursors `c0`. */
    method RouteGroups(rule: Rule, env: Env, ghost c0: seq<int>)
      requires MsiPass(env, c0, irqCpu.Length, htVector, plat.msiGroups)
      requires irqCpu[..] == c0
      modifies this`trace, irqCpu
      ensures trace == old(trace) + MsiEvents(rule, htVector, plat.msiGroups, env, c0)
      ensures irqCpu[..] == Cursors(rule, MsiLines(htVector, plat.msiGroups), env, c0)
    {
      ghost var t0 := trace;
      GroupsNone(rule, htVector, env, c0, t0);
      for i := 0 to plat.msiGroups
        invariant GroupsDone(rule, htVector, i, env, c0, t0, trace, irqCpu[..])
      {
        RouteGroup(rule, i, env, c0, t0);
      }
    }

    /**
      Lines 151-189, one group of the MSI pass: acknowledge the vector word
      by writing back the value read, then route each of its set bits'
      vectors, lowest first. The pass then covers one more group.
    */
    method RouteGroup(rule: Rule, i: nat, env: Env, ghost c0: seq<int>, ghost t0: seq<Event>)
      requires i < |htVector| && GroupsDone(rule, htVector, i, env, c0, t0, trace, irqCpu[..])
      modifies this`trace, irqCpu
      ensures GroupsDone(rule, htVector, i + 1, env, c0, t0, trace, irqCpu[..])
    {
      var irqs := htVector[i];
      MsiStep(rule, htVector, i, env, c0);
      ghost var earlier := MsiEvents(rule, htVector, i, env, c0);
      ghost var ack := [VectorAck(i, irqs)];
      ghost var group := Events(rule, Lines(32 * i, Decode(Wide(irqs))), env, c0);
      AppendAssoc(t0, earlier, ack);
      AppendAssoc(t0, earlier + ack, group);
      trace := trace + [VectorAck(i, irqs)];
      MsiLinesBound(htVector, i);
      RoutePending(rule, 32 * i, Wide(irqs), env, c0, MsiLines(htVector, i));
    }

    /**
      `irq_alloc_desc_from(from, 0)`, whose definition is not part of this
      model: the lowest free descriptor from `from` on, or -ENOMEM.
    */
    method AllocDescFrom(from: nat) returns (irq: int)
      modifies this`descs
      ensures irq >= 0 ==>
        LowestFree(old(descs), from, irq) && irq < plat.nrIrqs && descs == old(descs) + {irq}
      ensures irq < 0 ==>
        irq == -ENOMEM && descs == old(descs) && forall j :: from <= j < plat.nrIrqs ==> j in descs
    {
      var j := from;
      while j < plat.nrIrqs && j in descs
        invariant from <= j
        invariant forall k :: from <= k < j ==> k in descs
        decreases plat.nrIrqs - j
      {
        j := j + 1;
      }
      if j >= plat.nrIrqs {
        return -ENOMEM;
      }
      descs := descs + {j};
      return j;
    }

    /** `create_ipi_dirq`, as modelled in module Dirq. */
    method CreateIpiDirq(irq: nat)
      requires Valid() && irq < plat.nrIrqs
      modifies irq2pos, pos2irq
      ensures Valid()
      ensures Dirqs() == Create(old(Dirqs()), irq)
    {
      if irq2pos[irq] != -1 {
        return;
      }
      var p := 0;
      while p < pos2irq.Length && pos2irq[p] != -1
        invariant p <= pos2irq.Length
        invariant forall q :: 0 <= q < p ==> pos2irq[q] != -1
      {
        p := p + 1;
      }
      assert p == First(Free(pos2irq[..]));
      if p == pos2irq.Length {
        return;
      }
      irq2pos[irq] := p;
      pos2irq[p] := irq;
    }

    /** `destroy_ipi_dirq`, as modelled in module Dirq. */
    method DestroyIpiDirq(irq: nat)
      requires Valid() && irq < plat.nrIrqs
      modifies irq2pos, pos2irq
      ensures Valid()
      ensures Dirqs() == Destroy(old(Dirqs()), irq)
    {
      var p := irq2pos[irq];
      if p != -1 {
        irq2pos[irq] := -1;
        pos2irq[p] := -1;
      }
    }

    /**
      `ls7a_setup_msi_irq`: allocate a descriptor from 16; one beyond the
      MSI vectors is freed again and refused; otherwise the vector gets an
      IPI slot and its device the message (0, 0x2FF00000, vector).
    */
    method SetupMsiIrq() returns (r: int)
      requires Valid()
      modifies this`descs, this`trace, irq2pos, pos2irq
      ensures Valid()
      ensures r == 0 || r == -ENOMEM || r == -ENOSPC
      ensures r != 0 ==> descs == old(descs) && trace == old(trace) && Dirqs() == old(Dirqs())
      ensures r == -ENOMEM ==> forall j :: MSI_IRQ_BASE <= j < plat.nrIrqs ==> j in old(descs)
      ensures r == -ENOSPC ==>
        exists irq: nat :: LowestFree(old(descs), MSI_IRQ_BASE, irq) && 32 * plat.msiGroups <= irq < plat.nrIrqs
      ensures r == 0 ==>
        exists irq: nat :: LowestFree(old(descs), MSI_IRQ_BASE, irq) && irq < 32 * plat.msiGroups
          && descs == old(descs) + {irq}
          && trace == old(trace) + [MsiWrite(irq, MsiMsg(MSI_TARGET_ADDRESS_HI, MSI_TARGET_ADDRESS_LO, irq))]
          && Dirqs() == Create(old(Dirqs()), irq)
    {
      var irq := AllocDescFrom(MSI_IRQ_BASE);
      if irq < 0 {
        return irq;
      }
      if irq >= 32 * plat.msiGroups {
        descs := descs - {irq};
        assert descs == old(descs);
        return -ENOSPC;
      }
      CreateIpiDirq(irq);
      var msg := MsiMsg(MSI_TARGET_ADDRESS_HI, MSI_TARGET_ADDRESS_LO, irq);
      trace := trace + [MsiWrite(irq, msg)];
      return 0;
    }

    /** `ls7a_teardown_msi_irq`: free the descriptor, then the vector's IPI slot. */
    method TeardownMsiIrq(irq: nat)
      requires Valid() && irq < plat.nrIrqs
      modifies this`descs, irq2pos, pos2irq
      ensures Valid()
      ensures descs == old(descs) - {irq}
      ensures Dirqs() == Destroy(old(Dirqs()), irq)
    {
      descs := descs - {irq};
      DestroyIpiDirq(irq);
    }

    /**
      `ls7a_init_irq`. `dirqLines` are the lines given IPI slots in
      level-triggered mode, in order.
    */
    method InitIrq(dirqLines: seq<nat>)
      requires Valid()
      requires forall k :: 0 <= k < |dirqLines| ==> dirqLines[k] < plat.nrIrqs
      modifies this`routeEntry, this`htIntEn, this`htMsiVec, this`htMsiEn
      modifies this`intEdge, this`intStatus, this`intMask, this`lpcCtl, this`msiDispatch, this`trace
      modifies irq2pos, pos2irq
      ensures Valid()
      ensures routeEntry == InitRouteEntries()
      ensures intEdge == 0 && intStatus == 0 && intMask == INIT_MASK && lpcCtl == LPC_INT_CTL_ENABLE
      ensures trace == old(trace) + [MaskWrite(INIT_MASK), ClearWrite(!0), LpcClearWrite(LPC_INT_CLR_ALL)]
      ensures plat.msiEnabled ==>
        && htIntEn == HtEnableAll(plat.msiGroups)
        && htMsiVec == HtMsiVectors(plat.pchIrqBase)
        && htMsiEn == !0
        && msiDispatch
        && Dirqs() == old(Dirqs())
      ensures !plat.msiEnabled ==>
        && htIntEn == old(htIntEn) && htMsiVec == old(htMsiVec) && htMsiEn == old(htMsiEn)
        && msiDispatch == old(msiDispatch)
        && Dirqs() == Assign(Reset(plat.nrIrqs, plat.nrDirqs), dirqLines)
    {
      InitBridge();
      SelectDispatch(dirqLines);
    }

    /**
      Lines 245-277: route every line to route 1, enable HT MSI when MSI
      is on, then reset the bridge and LPC registers.
    */
    method InitBridge()
      requires Valid()
      modifies this`routeEntry, this`htIntEn, this`htMsiVec, this`htMsiEn
      modifies this`intEdge, this`intStatus, this`intMask, this`lpcCtl, this`trace
      ensures Valid()
      ensures routeEntry == InitRouteEntries()
      ensures intEdge == 0 && intStatus == 0 && intMask == INIT_MASK && lpcCtl == LPC_INT_CTL_ENABLE
      ensures trace == old(trace) + [MaskWrite(INIT_MASK), ClearWrite(!0), LpcClearWrite(LPC_INT_CLR_ALL)]
      ensures plat.msiEnabled ==>
        htIntEn == HtEnableAll(plat.msiGroups) && htMsiVec == HtMsiVectors(plat.pchIrqBase) && htMsiEn == !0
      ensures !plat.msiEnabled ==>
        htIntEn == old(htIntEn) && htMsiVec == old(htMsiVec) && htMsiEn == old(htMsiEn)
    {
      SetRouteEntries();
      if plat.msiEnabled {
        EnableHtMsi();
      }
      ResetRegisters();
    }

    /**
      Lines 279-307: with MSI, make the MSI dispatcher the bridge's
      dispatch hook; otherwise reset the IPI indirection table and give
      the listed lines their slots.
    */
    method SelectDispatch(dirqLines: seq<nat>)
      requires Valid()
      requires forall k :: 0 <= k < |dirqLines| ==> dirqLines[k] < plat.nrIrqs
      modifies this`msiDispatch, irq2pos, pos2irq
      ensures Valid()
      ensures plat.msiEnabled ==> msiDispatch && Dirqs() == old(Dirqs())
      ensures !plat.msiEnabled ==>
        msiDispatch == old(msiDispatch) && Dirqs() == Assign(Reset(plat.nrIrqs, plat.nrDirqs), dirqLines)
    {
      if plat.msiEnabled {
        msiDispatch := true;
      } else {
        ResetDirqs();
        AssignDirqs(dirqLines);
      }
    }

    /**
      Lines 268-277: clear the edge and status registers, mask every line
      but the LPC cascade, clear every line, enable the LPC interrupt and
      clear its 18 lines.
    */
    method ResetRegisters()
      requires Valid()
      modifies this`intEdge, this`intStatus, this`intMask, this`lpcCtl, this`trace
      ensures Valid()
      ensures intEdge == 0 && intStatus == 0 && intMask == INIT_MASK && lpcCtl == LPC_INT_CTL_ENABLE
      ensures trace == old(trace) + [MaskWrite(INIT_MASK), ClearWrite(!0), LpcClearWrite(LPC_INT_CLR_ALL)]
    {
      intEdge := 0;
      intStatus := 0;
      intMask := INIT_MASK;
      trace := trace + [MaskWrite(INIT_MASK), ClearWrite(!0)];
      lpcCtl := LPC_INT_CTL_ENABLE;
      trace := trace + [LpcClearWrite(LPC_INT_CLR_ALL)];
    }

    /** Lines 246-247: every line's route entry selects route 1. */
    method SetRouteEntries()
      requires Valid()
      modifies this`routeEntry
      ensures Valid()
      ensures routeEntry == InitRouteEntries()
    {
      for i := 0 to 64
        invariant |routeEntry| == 64
        invariant forall k :: 0 <= k < i ==> routeEntry[k] == 1
      {
        routeEntry := routeEntry[i := 1];
      }
    }

    /**
      Lines 249-260: enable every HT vector group, point the bridge's HT
      MSI vector of line `k` at vector `pchIrqBase + k` (one byte) and
      enable HT MSI for all 64 lines.
    */
    method EnableHtMsi()
      requires Valid()
      modifies this`htIntEn, this`htMsiVec, this`htMsiEn
      ensures Valid()
      ensures htIntEn == HtEnableAll(plat.msiGroups)
      ensures htMsiVec == HtMsiVectors(plat.pchIrqBase)
      ensures htMsiEn == !0
    {
      for i := 0 to plat.msiGroups
        invariant Shape()
        invariant forall k :: 0 <= k < i ==> htIntEn[k] == 0xffff_ffff
      {
        htIntEn := htIntEn[i := 0xffff_ffff];
      }
      assert htIntEn == HtEnableAll(plat.msiGroups);
      for i := 0 to 64
        invariant Shape()
        invariant htIntEn == HtEnableAll(plat.msiGroups)
        invariant forall k :: 0 <= k < i ==> htMsiVec[k] == ((plat.pchIrqBase + k) % 256) as bv8
      {
        htMsiVec := htMsiVec[i := ((plat.pchIrqBase + i) % 256) as bv8];
      }
      htMsiEn := !0;
    }

    /** Lines 286-306: `create_ipi_dirq` for each listed line, in order. */
    method AssignDirqs(dirqLines: seq<nat>)
      requires Valid()
      requires forall k :: 0 <= k < |dirqLines| ==> dirqLines[k] < plat.nrIrqs
      modifies irq2pos, pos2irq
      ensures Valid()
      ensures Dirqs() == Assign(old(Dirqs()), dirqLines)
    {
      for k := 0 to |dirqLines|
        invariant Valid()
        invariant Dirqs() == Assign(old(Dirqs()), dirqLines[..k])
      {
        CreateIpiDirq(dirqLines[k]);
        assert dirqLines[..k + 1][..k] == dirqLines[..k];
      }
      assert dirqLines[..|dirqLines|] == dirqLines;
    }

    /** Lines 282-285: every entry of both indirection arrays becomes -1. */
    method ResetDirqs()
      requires Valid()
      modifies irq2pos, pos2irq
      ensures Valid()
      ensures Dirqs() == Reset(plat.nrIrqs, plat.nrDirqs)
    {
      for i := 0 to irq2pos.Length
        invariant forall k :: 0 <= k < i ==> irq2pos[k] == -1
      {
        irq2pos[i] := -1;
      }
      for i := 0 to pos2irq.Length
        invariant forall k :: 0 <= k < i ==> pos2irq[k] == -1
        invariant forall k :: 0 <= k < irq2pos.Length ==> irq2pos[k] == -1
      {
        pos2irq[i] := -1;
      }
      assert Dirqs() == Reset(plat.nrIrqs, plat.nrDirqs);
    }
  }
}
