/*
  The IPI indirection table: `loongson_ipi_irq2pos` gives each line its
  slot in the 32-bit IPI action word (-1 for none) and
  `loongson_ipi_pos2irq` gives each slot its line (-1 for a free slot).

  The dispatchers only read the table; `ls7a_setup_msi_irq`,
  `ls7a_teardown_msi_irq` and `ls7a_init_irq` change it through
  `create_ipi_dirq` and `destroy_ipi_dirq`, whose definitions are not part
  of this model. They are modelled as: a line that already has a slot
  keeps it; otherwise it takes the lowest free slot, if there is one;
  destroying a line's slot frees it.
*/
module Dirq {
  import opened Scan
  import opened Bitmap
  import opened BitDecode
  import opened CpuMask
  import opened Routing

  datatype Table = Table(slots: seq<int>, owners: seq<int>)
  {
    /** The two arrays are inverse to each other on the lines that have a slot. */
    predicate Linked() {
      && (forall irq :: 0 <= irq < |slots| ==> -1 <= slots[irq] < |owners|)
      && (forall p :: 0 <= p < |owners| ==> -1 <= owners[p] < |slots|)
      && (forall irq :: 0 <= irq < |slots| && slots[irq] != -1 ==> owners[slots[irq]] == irq)
      && (forall p :: 0 <= p < |owners| && owners[p] != -1 ==> slots[owners[p]] == p)
    }
  }

  /** The table with every entry -1, as the level-triggered initialisation leaves it. */
  function Reset(nrIrqs: nat, nrDirqs: nat): (t: Table)
    ensures |t.slots| == nrIrqs && |t.owners| == nrDirqs
    ensures t.Linked()
    ensures forall irq :: 0 <= irq < nrIrqs ==> t.slots[irq] == -1
    ensures forall p :: 0 <= p < nrDirqs ==> t.owners[p] == -1
  {
    Table(seq(nrIrqs, _ => -1), seq(nrDirqs, _ => -1))
  }

  /** The free slots, as a mask. */
  function Free(owners: seq<int>): (m: Mask)
    ensures |m| == |owners|
    ensures forall p :: 0 <= p < |m| ==> m[p] == (owners[p] == -1)
  {
    seq(|owners|, p requires 0 <= p < |owners| => owners[p] == -1)
  }

  /** `create_ipi_dirq(irq)`, as modelled. */
  function Create(t: Table, irq: nat): (r: Table)
    requires t.Linked() && irq < |t.slots|
    ensures r.Linked()
    ensures |r.slots| == |t.slots| && |r.owners| == |t.owners|
    ensures forall i :: 0 <= i < |t.slots| && i != irq ==> r.slots[i] == t.slots[i]
    ensures t.slots[irq] != -1 ==> r == t
    ensures r.slots[irq] != -1 <==> t.slots[irq] != -1 || exists p :: 0 <= p < |t.owners| && t.owners[p] == -1
    ensures t.slots[irq] == -1 && r.slots[irq] != -1 ==>
      && t.owners[r.slots[irq]] == -1
      && (forall p :: 0 <= p < r.slots[irq] ==> t.owners[p] != -1)
      && r.owners == t.owners[r.slots[irq] := irq]
  {
    if t.slots[irq] != -1 then t
    else
      var p := First(Free(t.owners));
      if p == |t.owners| then t
      else Table(t.slots[irq := p], t.owners[p := irq])
  }

  /** `destroy_ipi_dirq(irq)`, as modelled. */
  function Destroy(t: Table, irq: nat): (r: Table)
    requires t.Linked() && irq < |t.slots|
    ensures r.Linked()
    ensures |r.slots| == |t.slots| && |r.owners| == |t.owners|
    ensures r.slots[irq] == -1
    ensures forall i :: 0 <= i < |t.slots| && i != irq ==> r.slots[i] == t.slots[i]
    ensures forall p :: 0 <= p < |t.owners| ==> r.owners[p] == if p == t.slots[irq] then -1 else t.owners[p]
  {
    var p := t.slots[irq];
    if p == -1 then t else Table(t.slots[irq := -1], t.owners[p := -1])
  }

  /** Destroying a freshly created slot restores the table. */
  lemma DestroyUndoesCreate(t: Table, irq: nat)
    requires t.Linked() && irq < |t.slots| && t.slots[irq] == -1
    ensures Destroy(Create(t, irq), irq) == t
  {
    var c := Create(t, irq);
    var d := Destroy(c, irq);
    if c.slots[irq] != -1 {
      var p := c.slots[irq];
      assert d.owners == t.owners[p := irq][p := -1];
      assert t.owners[p := irq][p := -1] == t.owners;
    }
    assert d.slots == t.slots;
  }

  /** `create_ipi_dirq` for each line in turn. */
  function Assign(t: Table, lines: seq<nat>): (r: Table)
    requires t.Linked()
    requires forall k :: 0 <= k < |lines| ==> lines[k] < |t.slots|
    ensures r.Linked() && |r.slots| == |t.slots| && |r.owners| == |t.owners|
  {
    if lines == [] then t
    else Create(Assign(t, lines[..|lines| - 1]), lines[|lines| - 1])
  }

  /** No line is listed twice. */
  predicate Distinct(lines: seq<nat>) {
    forall a, b :: 0 <= a < b < |lines| ==> lines[a] != lines[b]
  }

  /** The slots are handed out in order: line `lines[k]` gets slot `k`, every other line none. */
  predicate InOrder(t: Table, lines: seq<nat>) {
    && |lines| <= |t.owners|
    && (forall p :: 0 <= p < |t.owners| ==> t.owners[p] == if p < |lines| then lines[p] else -1)
    && (forall k :: 0 <= k < |lines| ==> lines[k] < |t.slots| && t.slots[lines[k]] == k)
    && (forall irq :: 0 <= irq < |t.slots| && irq !in lines ==> t.slots[irq] == -1)
  }

  /** One more distinct line takes the next slot. */
  lemma CreateInOrder(t: Table, lines: seq<nat>, irq: nat)
    requires t.Linked() && InOrder(t, lines)
    requires irq < |t.slots| && irq !in lines && |lines| < |t.owners|
    ensures InOrder(Create(t, irq), lines + [irq])
  {
    var n := |lines|;
    var lines' := lines + [irq];
    assert t.slots[irq] == -1;
    assert Free(t.owners)[n];
    forall p | 0 <= p < n
      ensures !Free(t.owners)[p]
    {
      assert t.owners[p] == lines[p];
    }
    assert First(Free(t.owners)) == n;
    var r := Create(t, irq);
    assert r == Table(t.slots[irq := n], t.owners[n := irq]);
    forall i | 0 <= i < |r.slots| && i !in lines'
      ensures r.slots[i] == -1
    {
      assert i !in lines;
    }
    forall k | 0 <= k < |lines'|
      ensures r.slots[lines'[k]] == k
    {
      if k < n {
        assert lines'[k] == lines[k];
      }
    }
  }

  /**
    From the reset table, distinct lines that fit the slots get slots
    0, 1, 2, ... in the order they are listed.
  */
  lemma {:induction false} AssignInOrder(lines: seq<nat>, nrIrqs: nat, nrDirqs: nat)
    requires Distinct(lines) && |lines| <= nrDirqs
    requires forall k :: 0 <= k < |lines| ==> lines[k] < nrIrqs
    ensures InOrder(Assign(Reset(nrIrqs, nrDirqs), lines), lines)
  {
    if lines != [] {
      var n := |lines| - 1;
      var before := lines[..n];
      assert Distinct(before);
      assert lines == before + [lines[n]];
      AssignInOrder(before, nrIrqs, nrDirqs);
      CreateInOrder(Assign(Reset(nrIrqs, nrDirqs), before), before, lines[n]);
    }
  }

  /**
    An IPI names its line: its action word has the single bit of the
    line's slot, and that slot's owner is the line.
  */
  lemma IpiNamesLine(rule: Rule, irq: nat, env: Env, cursor: int, t: Table)
    requires t.Linked() && env.Valid() && env.slots == t.slots
    requires irq < |env.slots| && -1 <= cursor < |env.active|
    ensures var e := Choose(rule, irq, env, cursor).event;
      e.Ipi? ==>
        && 0 <= env.slots[irq] < |t.owners|
        && Decode(Wide(e.action)) == [env.slots[irq]]
        && t.owners[env.slots[irq]] == irq
  {
    var e := Choose(rule, irq, env, cursor).event;
    if e.Ipi? {
      var p := env.slots[irq];
      WideOneBit(p);
      DecodeOneBit(p);
    }
  }
}
