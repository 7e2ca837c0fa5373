/*
  CPU masks and the round-robin choice of a target CPU.

  A mask holds one flag per CPU id below `nr_cpu_ids`, so its length is
  `nr_cpu_ids`. The per-line cursor of `irq_cpu[]` is an int in
  `[-1, nr_cpu_ids)`: the C array is unsigned and starts at -1, which
  `cpumask_next` receives as the int -1.
*/
module CpuMask {
  import opened Scan

  type Mask = seq<bool>

  /** `cpumask_and`. */
  function And(a: Mask, b: Mask): (r: Mask)
    requires |a| == |b|
    ensures |r| == |a|
    ensures forall c :: 0 <= c < |r| ==> r[c] == (a[c] && b[c])
  {
    seq(|a|, c requires 0 <= c < |a| => a[c] && b[c])
  }

  /** `cpumask_empty`: the mask lists no CPU. */
  predicate Empty(m: Mask)
    ensures Empty(m) <==> Ones(m, 0) == []
  {
    OnesEmpty(m, 0);
    forall c :: 0 <= c < |m| ==> !m[c]
  }

  /**
    `cpumask_next(n, m)`: the least CPU of `m` above `n`, or `nr_cpu_ids`
    when there is none.
  */
  function Next(n: int, m: Mask): (r: nat)
    requires -1 <= n < |m|
    ensures n < r <= |m|
    ensures r < |m| ==> m[r]
    ensures forall c :: n < c < r ==> !m[c]
  {
    OnesEmpty(m, n + 1);
    var after := Ones(m, n + 1);
    if after == [] then |m|
    else
      OnesHead(m, n + 1);
      after[0]
  }

  /** `cpumask_first(m)`: the least CPU of `m`, or `nr_cpu_ids` when `m` is empty. */
  function First(m: Mask): (r: nat)
    ensures r <= |m|
    ensures r < |m| ==> m[r]
    ensures forall c :: 0 <= c < r ==> !m[c]
  {
    Next(-1, m)
  }

  /**
    The round-robin step: the least CPU of `m` above the cursor, wrapping
    round to the least CPU of `m` when the cursor is at or past the last.
    Only called with a non-empty mask.
  */
  function Advance(cursor: int, m: Mask): (r: nat)
    requires -1 <= cursor < |m|
    requires !Empty(m)
    ensures r < |m| && m[r]
    ensures cursor < r ==> forall c :: cursor < c < r ==> !m[c]
    ensures r <= cursor ==>
      (forall c :: cursor < c < |m| ==> !m[c]) && (forall c :: 0 <= c < r ==> !m[c])
  {
    var n := Next(cursor, m);
    if n >= |m| then First(m) else n
  }

  /** From the initial cursor the first choice is the least CPU of the mask. */
  lemma AdvanceFromStart(m: Mask)
    requires !Empty(m)
    ensures Ones(m, 0) != []
    ensures Advance(-1, m) == Ones(m, 0)[0]
  {
    OnesEmpty(m, 0);
  }

  /**
    With a fixed mask, the choice after the `i`-th CPU of the mask (in
    ascending order) is the next one ...
  */
  lemma AdvanceNext(m: Mask, i: nat)
    requires i + 1 < |Ones(m, 0)|
    ensures !Empty(m) && Ones(m, 0)[i] < |m|
    ensures Advance(Ones(m, 0)[i], m) == Ones(m, 0)[i + 1]
  {
    var all := Ones(m, 0);
    OnesSpec(m, 0);
    assert m[all[0]];
    OnesAfter(m, i);
    var cur := all[i];
    assert Ones(m, cur + 1) != [];
    OnesHead(m, cur + 1);
  }

  /** ... and the choice after the last CPU of the mask is the first. */
  lemma AdvanceWrap(m: Mask)
    requires Ones(m, 0) != []
    ensures !Empty(m) && Ones(m, 0)[|Ones(m, 0)| - 1] < |m|
    ensures Advance(Ones(m, 0)[|Ones(m, 0)| - 1], m) == Ones(m, 0)[0]
  {
    var all := Ones(m, 0);
    var i := |all| - 1;
    OnesSpec(m, 0);
    assert m[all[0]];
    OnesAfter(m, i);
    OnesEmpty(m, all[i] + 1);
    assert Next(all[i], m) == |m|;
    OnesHead(m, 0);
  }

  /** The cursor of a line after `k` consecutive choices, from the initial -1. */
  function Walk(m: Mask, k: nat): (r: int)
    requires !Empty(m)
    ensures -1 <= r < |m|
  {
    if k == 0 then -1 else Advance(Walk(m, k - 1), m)
  }

  /**
    Repeated dispatch of one line with a fixed eligible mask: the `k`-th
    choice is the `k`-th CPU of the mask in ascending order ...
  */
  lemma {:induction false} RoundRobinLap(m: Mask, k: nat)
    requires !Empty(m)
    ensures Ones(m, 0) != []
    ensures 1 <= k <= |Ones(m, 0)| ==> Walk(m, k) == Ones(m, 0)[k - 1]
  {
    AdvanceFromStart(m);
    if 1 < k <= |Ones(m, 0)| {
      RoundRobinLap(m, k - 1);
      AdvanceNext(m, k - 2);
    }
  }

  /**
    ... and after a full lap of `n` choices the next one is the first
    again. Each choice depends only on the cursor before it, so from there
    the choices repeat.
  */
  lemma RoundRobinWrap(m: Mask, n: nat)
    requires !Empty(m)
    requires n == |Ones(m, 0)|
    ensures Walk(m, n + 1) == Walk(m, 1)
  {
    RoundRobinLap(m, n);
    AdvanceWrap(m);
    RoundRobinLap(m, 1);
    assert Walk(m, n + 1) == Advance(Walk(m, n), m);
  }

  /** With the eligible CPUs fixed, the choices repeat with period `n` from the first one on. */
  lemma {:induction false} RoundRobinPeriodic(m: Mask, n: nat, k: nat)
    requires !Empty(m)
    requires n == |Ones(m, 0)|
    requires 1 <= k
    ensures Walk(m, k + n) == Walk(m, k)
  {
    if k == 1 {
      RoundRobinWrap(m, n);
    } else {
      RoundRobinPeriodic(m, n, k - 1);
      assert Walk(m, k + n) == Advance(Walk(m, k - 1 + n), m);
    }
  }
}
