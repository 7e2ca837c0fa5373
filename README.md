# LS7A bridge interrupt routing, modelled in Dafny

This project models the interrupt-routing core of the Loongson LS7A
bridge driver, `arch/mips/loongson64/loongson-3/ls7a-irq.c`. It covers:

- masking and unmasking one line: `mask_pch_irq` and `unmask_pch_irq`.
  Lines below 16 are LPC lines, handled in the 32-bit LPC enable register.
  The other lines use the 64-bit bridge mask register.
- the LPC cascade handler, `lpc_irq_dispatch`.
- the bridge dispatcher `ls7a_irq_dispatch` and the HT MSI dispatcher
  `ls7a_msi_irq_dispatch`. Each pending line is either:
  - handled on the dispatching CPU (`do_IRQ`);
  - handed to another CPU by IPI, chosen round-robin from the line's
    affinity restricted to the active CPUs;
  - or, for the MSI dispatcher's eight vectors from `MIPS_CPU_IRQ_BASE`,
    reported as spurious.
- MSI vector setup and teardown: `ls7a_setup_msi_irq` and
  `ls7a_teardown_msi_irq`.
- the bridge initialisation, `ls7a_init_irq`.

The modules are:

- `Scan`: ascending listing of the set entries of a boolean sequence.
- `BitVectors` and `Bitmap`: word-level bit facts, and the view of a
  register as 64 flags.
- `BitDecode`: `ffs`, and the decoding of a pending word into bit
  positions, lowest first.
- `CpuMask`: `cpumask_and`, `cpumask_next`, `cpumask_first` and the
  round-robin step.
- `PchMask`: the read-modify-write steps of mask and unmask.
- `Routing`: the routing choice for one line. Also the events and cursors
  of a whole dispatch pass, defined as functions.
- `Dirq`: the IPI indirection table (`loongson_ipi_irq2pos` /
  `loongson_ipi_pos2irq`).
- `Ls7a`: the controller class and its methods.

In the controller class:

- Registers are fields.
- The kernel arrays `irq_cpu[]`, `loongson_ipi_irq2pos[]` and
  `loongson_ipi_pos2irq[]` are arrays.
- Effects that leave the file are appended, in order, to `trace`:
  - `do_IRQ`, IPIs and spurious reports;
  - MSI messages;
  - writes to the mask, clear, LPC clear and HT vector registers.

Each dispatcher method is proved against a function of its inputs
(`Events`, `Cursors`, `MsiEvents`). The lemmas say what those functions
mean.

## Model

| member | source | states |
|---|---|---|
| PchMask.Masked | arch/mips/loongson64/loongson-3/ls7a-irq.c:41 | the new mask word has bit `irq_nr` set and every other bit as before |
| PchMask.Unmasked | arch/mips/loongson64/loongson-3/ls7a-irq.c:60 | the new mask word has bit `irq_nr` clear and every other bit as before |
| PchMask.LpcDisabled | arch/mips/loongson64/loongson-3/ls7a-irq.c:36 | the new LPC enable word has bit `irq` clear and every other bit as before |
| PchMask.LpcEnabled | arch/mips/loongson64/loongson-3/ls7a-irq.c:53 | the new LPC enable word has bit `irq` set and every other bit as before |
| PchMask.MaskIdempotent | arch/mips/loongson64/loongson-3/ls7a-irq.c:41 | masking a line twice gives the same register as masking it once |
| PchMask.UnmaskIdempotent | arch/mips/loongson64/loongson-3/ls7a-irq.c:60 | unmasking a line twice gives the same register as unmasking it once |
| PchMask.MaskRoundTrip | arch/mips/loongson64/loongson-3/ls7a-irq.c:29-63 | unmask undoes mask on an unmasked line; mask undoes unmask on a masked line |
| PchMask.LpcIdempotent | arch/mips/loongson64/loongson-3/ls7a-irq.c:36 | disabling or enabling an LPC line twice equals doing it once |
| PchMask.LpcRoundTrip | arch/mips/loongson64/loongson-3/ls7a-irq.c:29-63 | enable undoes disable on an enabled LPC line, and disable undoes enable on a disabled one |
| Ls7a.Controller.constructor | arch/mips/loongson64/loongson-3/ls7a-irq.c:25 | every round-robin cursor starts at -1 (line 25). The IPI indirection table also starts empty, which is an assumption about arrays defined elsewhere (see Left out). The allocated descriptors are exactly the set the caller passes in (see Left out), no event is recorded, and the MSI dispatcher is not yet installed |
| Ls7a.Controller.MaskPchIrq | arch/mips/loongson64/loongson-3/ls7a-irq.c:29-44 | a line below 16 clears its LPC enable bit and nothing else. Any other line sets bit `irq - LS7A_PCH_IRQ_BASE` of the mask register, records that one mask write, and leaves the LPC register alone |
| Ls7a.Controller.UnmaskPchIrq | arch/mips/loongson64/loongson-3/ls7a-irq.c:46-63 | a line below 16 sets its LPC enable bit. Any other line clears its mask bit. With MSI enabled the clear register is first written with exactly that line's bit, and the mask write comes after it |
| Ls7a.Controller.LpcIrqDispatch | arch/mips/loongson64/loongson-3/ls7a-irq.c:76-90 | returns IRQ_NONE exactly when enable & status is 0; the events are one `do_IRQ` per set bit of enable & status, lowest first |
| Ls7a.LpcNothingPending | arch/mips/loongson64/loongson-3/ls7a-irq.c:80-82 | when enable & status is 0 the dispatcher has nothing to hand to `do_IRQ` |
| Ls7a.HandleLocally | arch/mips/loongson64/loongson-3/ls7a-irq.c:84-87 | the `ffs` loop emits one `do_IRQ` per decoded position, in decoding order |
| Ls7a.Locals | arch/mips/loongson64/loongson-3/ls7a-irq.c:84-87 | the `do_IRQ` sequence of a list of lines: exactly one `Local` event per line, at the same position |
| Ls7a.LpcDispatchOnce | arch/mips/loongson64/loongson-3/ls7a-irq.c:84-87 | line `j` gets a `do_IRQ` exactly when bit `j` is pending; the lines handled are strictly ascending, so each is handled once |
| BitDecode.Decode | arch/mips/loongson64/loongson-3/ls7a-irq.c:84-87 | the order in which an `ffs` loop visits a pending word: its set positions, lowest first, at most 64 of them (what the positions are is proved in `DecodeSpec` and `DecodeMember`) |
| BitDecode.Ffs | arch/mips/loongson64/loongson-3/ls7a-irq.c:84 | `ffs` is 0 exactly for the zero word and is at most 64 |
| BitDecode.FfsLowest | arch/mips/loongson64/loongson-3/ls7a-irq.c:84-85 | `ffs(x) - 1` is a set bit of a non-zero word, and no lower bit is set |
| BitDecode.FfsStep | arch/mips/loongson64/loongson-3/ls7a-irq.c:84-87 | clearing the bit `ffs` reports removes exactly the first decoded position. The remaining bits all lie above it and are strictly fewer, so the loop ends |
| BitDecode.DecodePeel | arch/mips/loongson64/loongson-3/ls7a-irq.c:113 | clearing the lowest set bit drops exactly the head of the decoding |
| BitDecode.DecodeSpec | arch/mips/loongson64/loongson-3/ls7a-irq.c:111-113 | decoded positions are bit positions below 64, strictly ascending |
| BitDecode.DecodeMember | arch/mips/loongson64/loongson-3/ls7a-irq.c:111-113 | a position is decoded exactly when its bit is set |
| BitDecode.DecodeEmpty | arch/mips/loongson64/loongson-3/ls7a-irq.c:81-84 | nothing is decoded exactly when the word is zero |
| BitDecode.Decode32Bound | arch/mips/loongson64/loongson-3/ls7a-irq.c:154-156 | a 32-bit register decodes to positions below 32 |
| BitDecode.DecodeOneBit | arch/mips/loongson64/loongson-3/ls7a-irq.c:139 | the IPI action word `1 << pos` decodes to exactly `[pos]` |
| Ls7a.Controller.Ls7aIrqDispatch | arch/mips/loongson64/loongson-3/ls7a-irq.c:98-141 | the mask register ends as old mask \| old status, and that mask write precedes every action. The actions are the pass over the status snapshot's lines `LS7A_PCH_IRQ_BASE + bit`, in ascending order, each routed from its cursor before the pass; the cursors end as the pass leaves them |
| Ls7a.Controller.MaskPending | arch/mips/loongson64/loongson-3/ls7a-irq.c:104-108 | returns the status read; the mask register becomes status \| mask, and the write is recorded |
| Ls7a.Controller.RoutePending | arch/mips/loongson64/loongson-3/ls7a-irq.c:111-140 | the find-first-set loop appends exactly the pass events of the pending word's lines and leaves the cursors as the pass defines them |
| Ls7a.Controller.RouteLowest | arch/mips/loongson64/loongson-3/ls7a-irq.c:111-114 | one iteration clears the lowest pending bit, shrinks the pending set, and extends the pass by that bit's line |
| Ls7a.Controller.RouteBit | arch/mips/loongson64/loongson-3/ls7a-irq.c:114-139 | routing the next bit's line extends the pass by exactly that line |
| Ls7a.Controller.Route | arch/mips/loongson64/loongson-3/ls7a-irq.c:117-139 | one line's routing appends exactly the event `Choose` gives; only that line's cursor changes, to the new cursor `Choose` gives |
| Routing.Choose | arch/mips/loongson64/loongson-3/ls7a-irq.c:117-139 | the new cursor is -1 or a CPU id below `nr_cpu_ids` |
| Routing.ChooseSpec | arch/mips/loongson64/loongson-3/ls7a-irq.c:117-139 | the event is Spurious exactly in the MSI spurious window. Without a slot, or with no active affinity CPU, the line is handled locally and its cursor is unchanged. Otherwise the cursor becomes the round-robin successor, which is an eligible CPU; the event is an IPI exactly when that CPU is not 0, carrying `1 << irq2pos[irq]`; every IPI comes from this case |
| CpuMask.Empty | arch/mips/loongson64/loongson-3/ls7a-irq.c:124 | `cpumask_empty` holds exactly when the ascending listing of the mask's CPUs is empty |
| CpuMask.And | arch/mips/loongson64/loongson-3/ls7a-irq.c:123 | a CPU is in the result exactly when it is in both masks |
| CpuMask.Next | arch/mips/loongson64/loongson-3/ls7a-irq.c:129 | the least CPU of the mask above `n`, or `nr_cpu_ids` when none |
| CpuMask.First | arch/mips/loongson64/loongson-3/ls7a-irq.c:131 | the least CPU of the mask, or `nr_cpu_ids` when empty |
| CpuMask.Advance | arch/mips/loongson64/loongson-3/ls7a-irq.c:129-131 | the chosen CPU is in the mask. If it is above the cursor, no mask CPU lies between them. If it is not, the mask has no CPU above the cursor and none below the choice (the wrap) |
| CpuMask.AdvanceFromStart | arch/mips/loongson64/loongson-3/ls7a-irq.c:25-131 | from the initial cursor -1 the first choice is the least eligible CPU |
| CpuMask.AdvanceNext | arch/mips/loongson64/loongson-3/ls7a-irq.c:129 | after the i-th CPU of the mask the choice is the (i+1)-th |
| CpuMask.AdvanceWrap | arch/mips/loongson64/loongson-3/ls7a-irq.c:130-131 | after the last CPU of the mask the choice wraps to the first |
| CpuMask.RoundRobinLap | arch/mips/loongson64/loongson-3/ls7a-irq.c:129-131 | with a fixed eligible mask, the k-th dispatch of a line goes to the k-th eligible CPU in ascending order |
| CpuMask.RoundRobinWrap | arch/mips/loongson64/loongson-3/ls7a-irq.c:129-131 | after a full lap the choices start again from the first eligible CPU |
| CpuMask.RoundRobinPeriodic | arch/mips/loongson64/loongson-3/ls7a-irq.c:129-131 | with a fixed set of n eligible CPUs the choices repeat with period n: for every k >= 1 the (k+n)-th choice equals the k-th |
| Routing.Cursors | arch/mips/loongson64/loongson-3/ls7a-irq.c:129-131 | after any pass every cursor is still -1 or a CPU id |
| Routing.Events | arch/mips/loongson64/loongson-3/ls7a-irq.c:111-139 | the events of one dispatch pass over a list of lines: exactly one event per line (`EventsSpec` gives each one) |
| Routing.EventsSpec | arch/mips/loongson64/loongson-3/ls7a-irq.c:111-139 | event i of a pass is the routing of the pass's i-th line from that line's cursor before the pass |
| Routing.CursorsSpec | arch/mips/loongson64/loongson-3/ls7a-irq.c:129-131 | after a pass, each routed line's cursor is its choice, and every other cursor is unchanged |
| Routing.PassCoversBits | arch/mips/loongson64/loongson-3/ls7a-irq.c:111-114 | line `base + j` is in the pass exactly when bit `j` is pending; the lines are strictly ascending, so each is routed once |
| Routing.PassStep | arch/mips/loongson64/loongson-3/ls7a-irq.c:111-139 | routing the next, higher bit's line appends its event and changes only its cursor, which the pass had not touched before |
| Ls7a.Controller.Ls7aMsiIrqDispatch | arch/mips/loongson64/loongson-3/ls7a-irq.c:143-191 | the trace gains the MSI pass over all groups, from the cursors before the call. Each group's acknowledgement is followed by the routing of its vectors. The cursors end as the pass over all vectors leaves them |
| Ls7a.Controller.RouteGroups | arch/mips/loongson64/loongson-3/ls7a-irq.c:150-190 | the loop over groups produces exactly the MSI pass events and cursors |
| Ls7a.Controller.RouteGroup | arch/mips/loongson64/loongson-3/ls7a-irq.c:151-189 | one group acknowledges its word with the value read, then routes its set bits' vectors `32 * i + bit`, lowest first |
| Routing.MsiEvents | arch/mips/loongson64/loongson-3/ls7a-irq.c:150-190 | the events of the MSI pass over groups `0 .. n - 1`: at least one event, the acknowledgement, per group (`MsiEventsCount` gives the exact count) |
| Routing.MsiEventsCount | arch/mips/loongson64/loongson-3/ls7a-irq.c:150-190 | the MSI pass emits exactly one acknowledgement per group plus one event per routed vector, and nothing else |
| Routing.MsiAcks | arch/mips/loongson64/loongson-3/ls7a-irq.c:151-152 | a pass over n groups acknowledges exactly n times, once per group in group order, each with exactly the value read |
| Routing.AcksOfRouting | arch/mips/loongson64/loongson-3/ls7a-irq.c:159-188 | routing a vector never writes an acknowledgement |
| Routing.MsiLinesMember | arch/mips/loongson64/loongson-3/ls7a-irq.c:150-157 | vector `32 * g + j` is routed exactly when bit `j` of group `g`'s word is set |
| Routing.MsiLinesAscending | arch/mips/loongson64/loongson-3/ls7a-irq.c:150-157 | the MSI pass visits its vectors in strictly ascending order, so each is visited at most once |
| Routing.MsiLinesBound | arch/mips/loongson64/loongson-3/ls7a-irq.c:150-157 | a pass over n groups routes only vectors below `32 * n` |
| Routing.GroupLinesBound | arch/mips/loongson64/loongson-3/ls7a-irq.c:157 | group g's vectors lie in `[32 * g, 32 * g + 32)` |
| Dirq.IpiNamesLine | arch/mips/loongson64/loongson-3/ls7a-irq.c:139 | an IPI's action word has exactly the bit of the line's slot, and that slot's owner is the line |
| Ls7a.Controller.AllocDescFrom | arch/mips/loongson64/loongson-3/ls7a-irq.c:202 | on success, the lowest free descriptor from `from` is allocated; otherwise -ENOMEM, and every descriptor from `from` was in use |
| Ls7a.Controller.SetupMsiIrq | arch/mips/loongson64/loongson-3/ls7a-irq.c:200-226 | allocator failure is returned unchanged, with no other effect. An id at or above `32 * msi_groups` is freed and gives -ENOSPC, with nothing else changed. Otherwise the id gets an IPI slot if one is free (`Create`), its device gets the message (0, 0x2FF00000, id), and the result is 0. The result is 0 even when every slot is taken and the id gets none |
| Ls7a.Controller.TeardownMsiIrq | arch/mips/loongson64/loongson-3/ls7a-irq.c:228-234 | the descriptor is freed and the line's IPI slot is destroyed |
| Ls7a.Controller.CreateIpiDirq | arch/mips/loongson64/loongson-3/ls7a-irq.c:214 | the indirection table becomes `Create` of the old one and stays consistent |
| Ls7a.Controller.DestroyIpiDirq | arch/mips/loongson64/loongson-3/ls7a-irq.c:232 | the indirection table becomes `Destroy` of the old one and stays consistent |
| Dirq.Create | arch/mips/loongson64/loongson-3/ls7a-irq.c:214 | a line with a slot keeps the table as is. A line without one gets the lowest free slot, exactly when some slot is free. No other line's slot changes, and the two arrays stay inverse |
| Dirq.Destroy | arch/mips/loongson64/loongson-3/ls7a-irq.c:232 | the line loses its slot, that slot becomes free, nothing else changes, and the two arrays stay inverse |
| Dirq.DestroyUndoesCreate | arch/mips/loongson64/loongson-3/ls7a-irq.c:200-234 | tearing down a freshly set-up line's slot restores the table |
| Ls7a.Controller.InitIrq | arch/mips/loongson64/loongson-3/ls7a-irq.c:236-308 | every route entry selects route 1. Edge and status are 0 and the mask is `0xfffffffffff7ffff`. The mask write, the clear of every line and the clear of all 18 LPC bits are recorded in that order, and the LPC control register ends as `0x80000000` (LPC interrupt enabled). With MSI, every HT group is enabled, line k raises vector `LS7A_PCH_IRQ_BASE + k` as one byte, HT MSI is on, the MSI dispatcher is installed, and the table is untouched. Without MSI, the table is reset and then the listed lines get their slots in order |
| Ls7a.Controller.InitBridge | arch/mips/loongson64/loongson-3/ls7a-irq.c:245-277 | the route entries, the HT MSI registers (with MSI only) and the bridge and LPC registers end as initialisation sets them |
| Ls7a.Controller.SelectDispatch | arch/mips/loongson64/loongson-3/ls7a-irq.c:279-307 | with MSI the MSI dispatcher is installed and the table kept; otherwise the table is reset and then assigned |
| Ls7a.Controller.ResetRegisters | arch/mips/loongson64/loongson-3/ls7a-irq.c:268-277 | edge 0, status 0, mask `0xfffffffffff7ffff` and LPC control `0x80000000`. The recorded writes are the mask write, the clear of every line and the LPC clear of `0x3ffff`, in source order |
| Ls7a.Controller.SetRouteEntries | arch/mips/loongson64/loongson-3/ls7a-irq.c:246-247 | all 64 route entries select route 1 |
| Ls7a.Controller.EnableHtMsi | arch/mips/loongson64/loongson-3/ls7a-irq.c:249-260 | every group's HT enable word is all ones. HT MSI vector k is `(LS7A_PCH_IRQ_BASE + k) mod 256`, and all 64 lines are HT MSI enabled |
| Ls7a.Controller.ResetDirqs | arch/mips/loongson64/loongson-3/ls7a-irq.c:282-285 | every entry of both indirection arrays is -1 |
| Ls7a.Controller.AssignDirqs | arch/mips/loongson64/loongson-3/ls7a-irq.c:286-306 | the table is the result of `create_ipi_dirq` on each listed line, in order |
| Dirq.Reset | arch/mips/loongson64/loongson-3/ls7a-irq.c:282-285 | the reset table gives no line a slot and leaves every slot free |
| Dirq.Assign | arch/mips/loongson64/loongson-3/ls7a-irq.c:286-306 | assigning lines one by one keeps the table consistent and its sizes |
| Dirq.CreateInOrder | arch/mips/loongson64/loongson-3/ls7a-irq.c:286-306 | one more new line takes the next slot in order. The order comes from the modelled `create_ipi_dirq`, which takes the lowest free slot; it is not stated in ls7a-irq.c |
| Dirq.AssignInOrder | arch/mips/loongson64/loongson-3/ls7a-irq.c:282-306 | from the reset table, distinct listed lines get slots 0, 1, 2, … in listing order, and no other line gets a slot. The slot numbers follow from the modelled lowest-free `create_ipi_dirq`, not from ls7a-irq.c itself |
| Ls7a.InitMaskLeavesLpc | arch/mips/loongson64/loongson-3/ls7a-irq.c:270-271 | the initial mask leaves exactly bit 19 (the LPC cascade) unmasked |

## Left out

- Locking is not modelled (`pch_irq_lock`, `local_irq_save`, `bitmap_lock`). Each operation is one atomic, sequential step. A dispatcher racing with setup or teardown over the indirection table is a concurrency question and is out of scope.
- MMIO is not modelled. `readq`/`writeq`/`readl`/`writel`/`writeb` are reads and assignments of class fields.
- The interrupt-router writes in `ls7a_init_irq` are not modelled: UART routing (lines 241-242), `INTENSET` (243, 256, 265), HT1 routing (252-253) and the router entry (263-264). They target another controller and carry no property of this file.
- Ls7a.Controller.AllocDescFrom: `irq_alloc_desc_from` and `irq_free_desc` are not part of this model. They are modelled as a set of used ids: the lowest free id from `from` on, or -ENOMEM. `NR_IRQS` bounds the search.
- Dirq.Create and Dirq.Destroy: `create_ipi_dirq` and `destroy_ipi_dirq` are not part of this model. They are modelled as "keep an existing slot, else take the lowest free slot, if any" and "free the line's slot".
- `irq_set_msi_desc` and `irq_set_chip_and_handler` are left out. `pci_write_msi_msg` is recorded as one `MsiWrite` event carrying the message.
- `ls7a_irq_of_init` (lines 310-331) and the `irq_chip`/`irqaction` tables are left out. Apart from registering with the kernel's IRQ-domain framework, `ls7a_irq_of_init` allocates the 64 bridge descriptors `LS7A_PCH_IRQ_BASE .. LS7A_PCH_IRQ_BASE + 63` (line 314). The model does not perform that allocation: the caller passes the descriptors already in use to the constructor.
- Ls7a.Controller.constructor takes the set of allocated descriptors as a parameter and does not require it to contain the 64 bridge lines allocated at line 314, or the descriptors the rest of the kernel holds. Started from a set without them, `SetupMsiIrq` can hand out a bridge line id, for example `LS7A_PCH_IRQ_BASE` itself. In the running system that id is already taken.
- `pr_err` plus `spurious_interrupt` become one `Spurious` event. The handlers behind `do_IRQ` and IPI delivery are not modelled: they are `Local` and `Ipi` events.
- Platform constants from other headers are parameters (`Platform`). These are `LS7A_PCH_IRQ_BASE`, `MIPS_CPU_IRQ_BASE`, `msi_groups`, `NR_IRQS`, `NR_DIRQS`, `nr_cpu_ids` and `pci_msi_enabled()`. `Platform.Valid` constrains them with four conditions:
  - `LS7A_PCH_IRQ_BASE + 64 <= NR_IRQS`: the 64 bridge lines index `irq_cpu` and `loongson_ipi_irq2pos`.
  - `32 * msi_groups <= NR_IRQS`: every MSI vector does the same.
  - `16 <= LS7A_PCH_IRQ_BASE`: it keeps the LPC lines (`irq < 16`, lines 34 and 51) apart from the bridge lines, so `irq - LS7A_PCH_IRQ_BASE` is a bridge bit.
  - `NR_DIRQS <= 32`: it keeps every IPI action word `0x1 << pos` (lines 139 and 188) within 32 bits.
- `LS7A_PCH_LAST_IRQ` is not a parameter: the model takes it to be `LS7A_PCH_IRQ_BASE + 64`. This fixes the 64 route entries and 64 HT MSI vectors written at lines 246 and 258, the bridge range of `MaskPchIrq` and `UnmaskPchIrq`, and the range at line 323. The assumption matches the 64 descriptors and the 64-line legacy domain set up at lines 314-315, and the 64-bit mask register whose bit `irq - LS7A_PCH_IRQ_BASE` each bridge line owns.
- Ls7a.Controller.Ls7aMsiIrqDispatch: the acknowledgement is recorded as a `VectorAck` event carrying the value written back. Its hardware effect on the HT vector register is not modelled, so `htVector` is left as read. Likewise, writes to the clear and LPC clear registers are events that change no modelled field.
- Ls7a.Controller.Ls7aIrqDispatch and Ls7a.Controller.Ls7aMsiIrqDispatch take the affinity masks and the active CPUs as parameters. The IPI slots are read from `irq2pos`, which dispatch never writes. The affinity masks are the kernel's per-descriptor `affinity`, and changing them (`plat_set_irq_affinity`) is outside this file.
- Ls7a.Controller.InitIrq takes the lines that get IPI slots in level-triggered mode as the parameter `dirqLines`. The `LS7A_PCH_*_IRQ` constants are defined in another header.
- Ls7a.Controller.constructor starts `loongson_ipi_irq2pos` and `loongson_ipi_pos2irq` with every entry -1. Those arrays are defined outside ls7a-irq.c, which resets them only when MSI is off (lines 282-285). With MSI enabled, how a vector is routed before its setup depends on that outside initial value, and the model assumes it is -1.
- Routing compares the chosen CPU with the literal 0, as the code does at lines 133 and 182, not with the boot CPU.
- `1 << 31` on a signed `int` (lines 139, 156 and 86 for bit 31) is taken to produce the bit pattern `0x80000000`, as the compilers this driver is built with do. `ffs` on the 32-bit words is taken on their zero extension.
- `writeb(i, …)` at line 259 stores the low byte of `i`, modelled as `i mod 256`.
