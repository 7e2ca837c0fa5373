/*
  The routing rule that both LS7A dispatchers apply to each pending line
  (arch/mips/loongson64/loongson-3/ls7a-irq.c, `ls7a_irq_dispatch` and
  `ls7a_msi_irq_dispatch`), and what one dispatch pass does over the lines
  of a pending bitmap.

  A line is handled on the dispatching CPU (`do_IRQ`) when it has no IPI
  indirection slot or when none of its affinity CPUs is active. Otherwise
  its round-robin cursor advances to the next eligible CPU; CPU 0 handles
  the line itself and any other CPU is sent an IPI whose action word has
  the line's slot bit set. The MSI dispatcher first reports the eight
  vectors from `MIPS_CPU_IRQ_BASE` on as spurious.
*/
module Routing {
  import opened Scan
  import opened Bitmap
  import opened BitDecode
  import opened CpuMask

  /** The message written to a PCI device for an MSI vector. */
  datatype MsiMsg = MsiMsg(addressHi: nat, addressLo: nat, data: nat)

  /**
    The observable effects the model records, in order: interrupt actions
    (handled locally, sent by IPI, reported spurious) and the register
    writes whose order matters.
  */
  datatype Event =
    | Local(irq: nat)
    | Ipi(cpu: nat, action: bv32)
    | Spurious(irq: nat)
    | MaskWrite(mask: bv64)
    | ClearWrite(bits: bv64)
    | LpcClearWrite(lpcBits: bv32)
    | VectorAck(group: nat, vector: bv32)
    | MsiWrite(irq: nat, msg: MsiMsg)

  /** Which dispatcher is routing: the bridge one, or the MSI one with its spurious window. */
  datatype Rule = Bridge | Msi(cpuIrqBase: nat)

  /**
    What routing reads: the IPI slot of each line (`loongson_ipi_irq2pos`,
    -1 for none), the affinity mask of each line, and the active CPUs.
    Slots index a 32-bit IPI action word.
  */
  datatype Env = Env(slots: seq<int>, affinity: seq<Mask>, active: Mask)
  {
    predicate Valid() {
      && |affinity| == |slots|
      && (forall irq :: 0 <= irq < |slots| ==> |affinity[irq]| == |active|)
      && (forall irq :: 0 <= irq < |slots| ==> slots[irq] == -1 || 0 <= slots[irq] < 32)
    }

    /** The line's affinity restricted to active CPUs. */
    function Eligible(irq: nat): Mask
      requires Valid() && irq < |slots|
    {
      And(affinity[irq], active)
    }
  }

  /** The new cursor of a line and the one event its routing produces. */
  datatype Choice = Choice(cursor: int, event: Event)

  /** The line is in the MSI dispatcher's spurious window. */
  predicate InSpuriousWindow(rule: Rule, irq: nat) {
    rule.Msi? && rule.cpuIrqBase <= irq < rule.cpuIrqBase + 8
  }

  /** The line has a slot and an active affinity CPU, so the round robin decides. */
  predicate Balanced(irq: nat, env: Env)
    requires env.Valid() && irq < |env.slots|
  {
    env.slots[irq] != -1 && !Empty(env.Eligible(irq))
  }

  /** Routing of one pending line `irq` whose cursor is `cursor`. */
  function Choose(rule: Rule, irq: nat, env: Env, cursor: int): (c: Choice)
    requires env.Valid() && irq < |env.slots| && -1 <= cursor < |env.active|
    ensures -1 <= c.cursor < |env.active|
  {
    if InSpuriousWindow(rule, irq) then Choice(cursor, Spurious(irq))
    else if env.slots[irq] == -1 then Choice(cursor, Local(irq))
    else
      var eligible := env.Eligible(irq);
      if Empty(eligible) then Choice(cursor, Local(irq))
      else
        var cpu := Advance(cursor, eligible);
        if cpu == 0 then Choice(cpu, Local(irq))
        else Choice(cpu, Ipi(cpu, OneBit32(env.slots[irq])))
  }

  /**
    What routing one line does. The MSI spurious window is reported and
    nothing else; a line without a slot, or with no active affinity CPU,
    is handled locally and its cursor is left alone. Otherwise the cursor
    moves to the next eligible CPU after it, wrapping to the first; CPU 0
    handles the line itself and any other CPU gets an IPI whose action
    word is the line's slot bit.
  */
  lemma ChooseSpec(rule: Rule, irq: nat, env: Env, cursor: int)
    requires env.Valid() && irq < |env.slots| && -1 <= cursor < |env.active|
    ensures var c := Choose(rule, irq, env, cursor);
      && (c.event.Spurious? <==> InSpuriousWindow(rule, irq))
      && (c.event.Spurious? || c.event.Local? ==> c.event.irq == irq)
      && (c.event.Local? || c.event.Ipi? || c.event.Spurious?)
      && (!InSpuriousWindow(rule, irq) && !Balanced(irq, env) ==> c == Choice(cursor, Local(irq)))
      && (InSpuriousWindow(rule, irq) ==> c.cursor == cursor)
      && (!InSpuriousWindow(rule, irq) && Balanced(irq, env) ==>
            && c.cursor == Advance(cursor, env.Eligible(irq))
            && env.Eligible(irq)[c.cursor]
            && (c.event.Ipi? <==> c.cursor != 0))
      && (c.event.Ipi? ==>
            && !InSpuriousWindow(rule, irq) && Balanced(irq, env)
            && c.event == Ipi(c.cursor, OneBit32(env.slots[irq])))
  {
  }

  // ---- one dispatch pass over a list of lines ---------------------------------

  /** Every line is a valid line number. */
  predicate InRange(lines: seq<nat>, env: Env) {
    forall i :: 0 <= i < |lines| ==> lines[i] < |env.slots|
  }

  /** Each cursor is -1 or one of `nrCpus` CPUs. */
  predicate Bounded(cursors: seq<int>, nrCpus: nat) {
    forall irq :: 0 <= irq < |cursors| ==> -1 <= cursors[irq] < nrCpus
  }

  /** A cursor per line, each -1 or a CPU. */
  predicate CursorsOk(cursors: seq<int>, env: Env) {
    |cursors| == |env.slots| && Bounded(cursors, |env.active|)
  }

  /** Lines `base + b` for the decoded bit positions `b`. */
  function Lines(base: nat, bits: seq<nat>): (r: seq<nat>)
    ensures |r| == |bits|
    ensures forall i :: 0 <= i < |r| ==> r[i] == base + bits[i]
  {
    seq(|bits|, i requires 0 <= i < |bits| => base + bits[i])
  }

  /**
    The events of routing `lines` in order, each line from its cursor
    before the pass (a pass visits each line once).
  */
  function Events(rule: Rule, lines: seq<nat>, env: Env, cursors: seq<int>): (r: seq<Event>)
    requires env.Valid() && InRange(lines, env) && CursorsOk(cursors, env)
    ensures |r| == |lines|
  {
    if lines == [] then []
    else
      var n := |lines| - 1;
      assert InRange(lines[..n], env) by {
        forall i | 0 <= i < n
          ensures lines[..n][i] < |env.slots|
        {
          assert lines[..n][i] == lines[i];
        }
      }
      Events(rule, lines[..n], env, cursors) + [Choose(rule, lines[n], env, cursors[lines[n]]).event]
  }

  /** The cursors after routing `lines`: each routed line's cursor is its new choice. */
  function Cursors(rule: Rule, lines: seq<nat>, env: Env, cursors: seq<int>): (r: seq<int>)
    requires env.Valid() && CursorsOk(cursors, env)
    ensures CursorsOk(r, env)
  {
    if lines == [] then cursors
    else
      var n := |lines| - 1;
      var prior := Cursors(rule, lines[..n], env, cursors);
      if lines[n] < |cursors| then prior[lines[n] := Choose(rule, lines[n], env, cursors[lines[n]]).cursor]
      else prior
  }

  /** Event `i` of a pass is the routing of line `i` from its cursor before the pass. */
  lemma {:induction false} EventsSpec(rule: Rule, lines: seq<nat>, env: Env, cursors: seq<int>)
    requires env.Valid() && InRange(lines, env) && CursorsOk(cursors, env)
    ensures forall i :: 0 <= i < |lines| ==>
      Events(rule, lines, env, cursors)[i] == Choose(rule, lines[i], env, cursors[lines[i]]).event
    decreases |lines|
  {
    if lines != [] {
      var n := |lines| - 1;
      assert InRange(lines[..n], env);
      EventsSpec(rule, lines[..n], env, cursors);
      forall i | 0 <= i < n
        ensures Events(rule, lines, env, cursors)[i] == Choose(rule, lines[i], env, cursors[lines[i]]).event
      {
        assert lines[..n][i] == lines[i];
      }
    }
  }

  /**
    After a pass, a routed line's cursor is its choice from its cursor
    before the pass, and every other line's cursor is unchanged.
  */
  lemma {:induction false} CursorsSpec(rule: Rule, lines: seq<nat>, env: Env, cursors: seq<int>, irq: nat)
    requires env.Valid() && CursorsOk(cursors, env) && irq < |cursors|
    ensures Cursors(rule, lines, env, cursors)[irq]
      == if irq in lines then Choose(rule, irq, env, cursors[irq]).cursor else cursors[irq]
    decreases |lines|
  {
    if lines != [] {
      var n := |lines| - 1;
      CursorsSpec(rule, lines[..n], env, cursors, irq);
      assert lines == lines[..n] + [lines[n]];
      assert irq in lines <==> irq in lines[..n] || irq == lines[n];
    }
  }

  /** Routing one more line appends its event. */
  lemma EventsSnoc(rule: Rule, lines: seq<nat>, irq: nat, env: Env, cursors: seq<int>)
    requires env.Valid() && InRange(lines, env) && CursorsOk(cursors, env) && irq < |env.slots|
    ensures InRange(lines + [irq], env)
    ensures Events(rule, lines + [irq], env, cursors)
      == Events(rule, lines, env, cursors) + [Choose(rule, irq, env, cursors[irq]).event]
  {
    assert (lines + [irq])[..|lines|] == lines;
  }

  /** Routing one more line updates its cursor only. */
  lemma CursorsSnoc(rule: Rule, lines: seq<nat>, irq: nat, env: Env, cursors: seq<int>)
    requires env.Valid() && CursorsOk(cursors, env) && irq < |env.slots|
    ensures Cursors(rule, lines + [irq], env, cursors)
      == Cursors(rule, lines, env, cursors)[irq := Choose(rule, irq, env, cursors[irq]).cursor]
  {
    assert (lines + [irq])[..|lines|] == lines;
  }

  /** The lines of a 64-bit pending word from `base` are valid when the 64 lines from `base` are. */
  lemma PassInRange(base: nat, x: bv64, env: Env)
    requires base + 64 <= |env.slots|
    ensures InRange(Lines(base, Decode(x)), env)
  {
    DecodeSpec(x);
  }

  /** The events of one bridge or vector pass over the set bits of `x`. */
  function PassEvents(rule: Rule, base: nat, x: bv64, env: Env, cursors: seq<int>): seq<Event>
    requires env.Valid() && CursorsOk(cursors, env) && base + 64 <= |env.slots|
  {
    PassInRange(base, x, env);
    Events(rule, Lines(base, Decode(x)), env, cursors)
  }

  /** A pass over no lines changes no cursor. */
  lemma CursorsNone(rule: Rule, env: Env, cursors: seq<int>)
    requires env.Valid() && CursorsOk(cursors, env)
    ensures Cursors(rule, [], env, cursors) == cursors
  {
  }

  /** A pass visits the lines in strictly ascending order when the bits are ascending. */
  lemma LinesAscending(base: nat, bits: seq<nat>)
    requires Ascending(bits)
    ensures Ascending(Lines(base, bits))
  {
  }

  /**
    Decoding a pending word: line `base + j` is visited exactly when bit
    `j` is set, and each line once, in ascending order.
  */
  lemma PassCoversBits(base: nat, x: bv64)
    ensures Ascending(Lines(base, Decode(x)))
    ensures forall j: Pos :: base + j in Lines(base, Decode(x)) <==> Bit(x, j)
  {
    var bits := Decode(x);
    var lines := Lines(base, bits);
    DecodeSpec(x);
    LinesAscending(base, bits);
    forall j: Pos
      ensures base + j in lines <==> Bit(x, j)
    {
      DecodeMember(x, j);
      if base + j in lines {
        var k :| 0 <= k < |lines| && lines[k] == base + j;
        assert bits[k] == j;
      }
      if j in bits {
        var k :| 0 <= k < |bits| && bits[k] == j;
        assert lines[k] == base + j;
      }
    }
  }

  /** A bit above every bit already routed has a line not routed yet. */
  lemma FreshLine(base: nat, done: seq<nat>, bit: nat)
    requires Below(done, bit)
    ensures base + bit !in Lines(base, done)
  {
  }

  /**
    One step of a dispatch pass over the bit positions `all`, routing lines
    `base + b`, lowest bit first: after the bits `done`, all below the next
    bit, the next bit's line is in range and not routed yet, so its event
    is appended and only its cursor changes; and all bits routed are below
    any bit `low` above it.
  */
  lemma PassStep(rule: Rule, base: nat, all: seq<nat>, env: Env, c0: seq<int>, before: seq<nat>,
                 done: seq<nat>, bit: nat, rest: seq<nat>, low: nat)
    requires env.Valid() && CursorsOk(c0, env)
    requires InRange(Lines(base, all), env)
    requires Below(before, base) && Below(done, bit) && bit < low
    requires all == (done + [bit]) + rest
    ensures base + bit < |env.slots| && Below(done + [bit], low)
    ensures InRange(Lines(base, done), env) && InRange(Lines(base, done + [bit]), env)
    ensures Cursors(rule, before + Lines(base, done), env, c0)[base + bit] == c0[base + bit]
    ensures Events(rule, Lines(base, done + [bit]), env, c0)
      == Events(rule, Lines(base, done), env, c0) + [Choose(rule, base + bit, env, c0[base + bit]).event]
    ensures Cursors(rule, before + Lines(base, done + [bit]), env, c0)
      == Cursors(rule, before + Lines(base, done), env, c0)[base + bit := Choose(rule, base + bit, env, c0[base + bit]).cursor]
  {
    var irq := base + bit;
    var lines := Lines(base, done);
    AppendAssoc(done, [bit], rest);
    assert irq == Lines(base, all)[|done|];
    FreshLine(base, done, bit);
    assert irq !in before + lines;
    assert InRange(lines, env) by {
      forall i | 0 <= i < |lines|
        ensures lines[i] < |env.slots|
      {
        assert lines[i] == Lines(base, all)[i];
      }
    }
    EventsSnoc(rule, lines, irq, env, c0);
    CursorsSpec(rule, before + lines, env, c0, irq);
    CursorsSnoc(rule, before + lines, irq, env, c0);
    assert Lines(base, done + [bit]) == lines + [irq];
    AppendAssoc(before, lines, [irq]);
  }

  /**
    The next bit's line is in range, and a pass that has routed the bits
    `done`, after the lines `before`, has not yet moved its cursor.
  */
  lemma PassNext(rule: Rule, base: nat, all: seq<nat>, env: Env, c0: seq<int>, before: seq<nat>,
                 done: seq<nat>, bit: nat, rest: seq<nat>)
    requires env.Valid() && CursorsOk(c0, env)
    requires InRange(Lines(base, all), env)
    requires Below(before, base) && Below(done, bit)
    requires all == (done + [bit]) + rest
    ensures base + bit < |env.slots|
    ensures Cursors(rule, before + Lines(base, done), env, c0)[base + bit] == c0[base + bit]
  {
    var irq := base + bit;
    AppendAssoc(done, [bit], rest);
    assert irq == Lines(base, all)[|done|];
    FreshLine(base, done, bit);
    assert irq !in before + Lines(base, done);
    CursorsSpec(rule, before + Lines(base, done), env, c0, irq);
  }

  /**
    A dispatch pass from trace `t0` and cursors `c0` has routed the lines
    `base + b` for the bits `done`, after the lines `before`: it has
    produced `trace` and `cursors`.
  */
  predicate PassDone(rule: Rule, base: nat, env: Env, c0: seq<int>, before: seq<nat>, t0: seq<Event>,
                     done: seq<nat>, trace: seq<Event>, cursors: seq<int>)
  {
    && env.Valid() && CursorsOk(c0, env) && InRange(Lines(base, done), env)
    && trace == t0 + Events(rule, Lines(base, done), env, c0)
    && cursors == Cursors(rule, before + Lines(base, done), env, c0)
  }

  /** Before its first bit, a pass has produced nothing and moved no cursor of its own. */
  lemma PassNone(rule: Rule, base: nat, env: Env, c0: seq<int>, before: seq<nat>, t0: seq<Event>)
    requires env.Valid() && CursorsOk(c0, env)
    ensures PassDone(rule, base, env, c0, before, t0, [], t0, Cursors(rule, before, env, c0))
  {
    assert before + Lines(base, []) == before;
    assert t0 + [] == t0;
  }

  /**
    A pass that has routed the bits `done` and then routes the next bit's
    line from its cursor before the pass, appending its event and
    replacing its cursor by its choice, has routed `done + [bit]`.
  */
  lemma PassDoneStep(rule: Rule, base: nat, all: seq<nat>, env: Env, c0: seq<int>, before: seq<nat>, t0: seq<Event>,
                     done: seq<nat>, bit: nat, rest: seq<nat>, low: nat,
                     trace: seq<Event>, cursors: seq<int>, trace': seq<Event>, cursors': seq<int>)
    requires InRange(Lines(base, all), env)
    requires Below(before, base) && Below(done, bit) && bit < low
    requires all == (done + [bit]) + rest
    requires PassDone(rule, base, env, c0, before, t0, done, trace, cursors)
    requires base + bit < |env.slots|
    requires trace' == trace + [Choose(rule, base + bit, env, c0[base + bit]).event]
    requires cursors' == cursors[base + bit := Choose(rule, base + bit, env, c0[base + bit]).cursor]
    ensures Below(done + [bit], low)
    ensures PassDone(rule, base, env, c0, before, t0, done + [bit], trace', cursors')
  {
    PassStep(rule, base, all, env, c0, before, done, bit, rest, low);
    AppendAssoc(t0, Events(rule, Lines(base, done), env, c0), [Choose(rule, base + bit, env, c0[base + bit]).event]);
  }

  // ---- the MSI dispatcher's pass over the vector groups -------------------------

  /** The vectors `32 * g + bit` of group `g` whose bit is set, in ascending order. */
  function GroupLines(g: nat, vector: bv32): seq<nat> {
    Lines(32 * g, Decode(Wide(vector)))
  }

  /** Group `g` holds vectors `32 * g` to `32 * g + 31`. */
  lemma GroupLinesBound(g: nat, vector: bv32)
    ensures forall k :: 0 <= k < |GroupLines(g, vector)| ==> 32 * g <= GroupLines(g, vector)[k] < 32 * g + 32
  {
    Decode32Bound(vector);
  }

  /** The vectors of groups `0 .. n - 1`, group by group. */
  function MsiLines(vectors: seq<bv32>, n: nat): seq<nat>
    requires n <= |vectors|
  {
    if n == 0 then [] else MsiLines(vectors, n - 1) + GroupLines(n - 1, vectors[n - 1])
  }

  /** A pass over `n` groups routes only vectors below `32 * n`. */
  lemma {:induction false} MsiLinesBound(vectors: seq<bv32>, n: nat)
    requires n <= |vectors|
    ensures Below(MsiLines(vectors, n), 32 * n)
  {
    if n > 0 {
      var before := MsiLines(vectors, n - 1);
      var group := GroupLines(n - 1, vectors[n - 1]);
      MsiLinesBound(vectors, n - 1);
      GroupLinesBound(n - 1, vectors[n - 1]);
      forall k | 0 <= k < |before + group|
        ensures (before + group)[k] < 32 * n
      {
        if k < |before| {
          assert (before + group)[k] == before[k];
        } else {
          assert (before + group)[k] == group[k - |before|];
        }
      }
    }
  }

  /** The MSI pass visits its vectors in strictly ascending order, hence each at most once. */
  lemma {:induction false} MsiLinesAscending(vectors: seq<bv32>, n: nat)
    requires n <= |vectors|
    ensures Ascending(MsiLines(vectors, n))
  {
    if n > 0 {
      var before := MsiLines(vectors, n - 1);
      var group := GroupLines(n - 1, vectors[n - 1]);
      MsiLinesAscending(vectors, n - 1);
      MsiLinesBound(vectors, n - 1);
      GroupLinesBound(n - 1, vectors[n - 1]);
      DecodeSpec(Wide(vectors[n - 1]));
      LinesAscending(32 * (n - 1), Decode(Wide(vectors[n - 1])));
      var all := before + group;
      forall a, b | 0 <= a < b < |all|
        ensures all[a] < all[b]
      {
        if b < |before| {
          assert all[a] == before[a] && all[b] == before[b];
        } else if a < |before| {
          assert all[a] == before[a] && all[b] == group[b - |before|];
        } else {
          assert all[a] == group[a - |before|] && all[b] == group[b - |before|];
        }
      }
    }
  }

  /** What the MSI pass assumes of its inputs: the cursor array and the vector words fit the line table. */
  predicate MsiPass(env: Env, c0: seq<int>, nrCursors: int, vectors: seq<bv32>, groups: nat) {
    && env.Valid() && nrCursors == |env.slots| && CursorsOk(c0, env)
    && |vectors| == groups && 32 * groups <= |env.slots|
  }

  /**
    The events of routing groups `0 .. n - 1`: each group's vector word is
    acknowledged with the value read, then its vectors are routed.
  */
  function MsiEvents(rule: Rule, vectors: seq<bv32>, n: nat, env: Env, cursors: seq<int>): (r: seq<Event>)
    requires n <= |vectors| && 32 * n <= |env.slots|
    requires env.Valid() && CursorsOk(cursors, env)
    ensures |r| >= n
  {
    if n == 0 then []
    else
      GroupLinesBound(n - 1, vectors[n - 1]);
      MsiEvents(rule, vectors, n - 1, env, cursors)
      + [VectorAck(n - 1, vectors[n - 1])]
      + Events(rule, GroupLines(n - 1, vectors[n - 1]), env, cursors)
  }

  /** The MSI pass over `n` groups emits one acknowledgement per group and one event per routed vector. */
  lemma {:induction false} MsiEventsCount(rule: Rule, vectors: seq<bv32>, n: nat, env: Env, cursors: seq<int>)
    requires n <= |vectors| && 32 * n <= |env.slots|
    requires env.Valid() && CursorsOk(cursors, env)
    ensures |MsiEvents(rule, vectors, n, env, cursors)| == n + |MsiLines(vectors, n)|
  {
    if n > 0 {
      MsiEventsCount(rule, vectors, n - 1, env, cursors);
    }
  }

  /**
    The MSI pass has covered groups `0 .. i - 1`: starting from trace `t0`
    and cursors `c0`, it has produced `trace` and `cursors`.
  */
  predicate GroupsDone(rule: Rule, vectors: seq<bv32>, i: nat, env: Env, c0: seq<int>, t0: seq<Event>,
                       trace: seq<Event>, cursors: seq<int>)
  {
    && i <= |vectors| && 32 * |vectors| <= |env.slots| && env.Valid() && CursorsOk(c0, env)
    && trace == t0 + MsiEvents(rule, vectors, i, env, c0)
    && cursors == Cursors(rule, MsiLines(vectors, i), env, c0)
  }

  /** Before the first group, the MSI pass has produced nothing and moved no cursor. */
  lemma GroupsNone(rule: Rule, vectors: seq<bv32>, env: Env, c0: seq<int>, t0: seq<Event>)
    requires env.Valid() && CursorsOk(c0, env) && 32 * |vectors| <= |env.slots|
    ensures GroupsDone(rule, vectors, 0, env, c0, t0, t0, c0)
  {
    CursorsNone(rule, env, c0);
    assert t0 + [] == t0;
  }

  /**
    One group of the MSI pass: its acknowledgement and its vectors follow
    the earlier groups' events, and its vectors, all in range, follow the
    earlier groups' vectors.
  */
  lemma MsiStep(rule: Rule, vectors: seq<bv32>, i: nat, env: Env, cursors: seq<int>)
    requires i < |vectors| && 32 * (i + 1) <= |env.slots|
    requires env.Valid() && CursorsOk(cursors, env)
    ensures InRange(Lines(32 * i, Decode(Wide(vectors[i]))), env)
    ensures MsiLines(vectors, i + 1) == MsiLines(vectors, i) + Lines(32 * i, Decode(Wide(vectors[i])))
    ensures MsiEvents(rule, vectors, i + 1, env, cursors)
      == MsiEvents(rule, vectors, i, env, cursors) + [VectorAck(i, vectors[i])]
        + Events(rule, Lines(32 * i, Decode(Wide(vectors[i]))), env, cursors)
  {
    Decode32Bound(vectors[i]);
  }

  /** Vector `32 * g + j` is routed in a pass over `n` groups exactly when bit `j` of group `g` is set. */
  lemma {:induction false} MsiLinesMember(vectors: seq<bv32>, n: nat, g: nat, j: Pos)
    requires n <= |vectors| && g < n && j < 32
    ensures 32 * g + j in MsiLines(vectors, n) <==> Bit32(vectors[g], j)
  {
    if g == n - 1 {
      MsiLinesLast(vectors, n, j);
    } else {
      MsiLinesMember(vectors, n - 1, g, j);
      MsiLinesEarlier(vectors, n, 32 * g + j);
    }
  }

  /** Vector `32 * (n - 1) + j` is routed in a pass over `n` groups exactly when the last group has bit `j`. */
  lemma MsiLinesLast(vectors: seq<bv32>, n: nat, j: Pos)
    requires 0 < n <= |vectors| && j < 32
    ensures 32 * (n - 1) + j in MsiLines(vectors, n) <==> Bit32(vectors[n - 1], j)
  {
    var before := MsiLines(vectors, n - 1);
    var group := GroupLines(n - 1, vectors[n - 1]);
    var v := 32 * (n - 1) + j;
    assert MsiLines(vectors, n) == before + group;
    MsiLinesBound(vectors, n - 1);
    NotBelow(before, 32 * (n - 1), v);
    PassCoversBits(32 * (n - 1), Wide(vectors[n - 1]));
  }

  /** A vector of an earlier group is routed in a pass over `n` groups exactly when it is in the first `n - 1`. */
  lemma MsiLinesEarlier(vectors: seq<bv32>, n: nat, v: nat)
    requires 0 < n <= |vectors| && v < 32 * (n - 1)
    ensures v in MsiLines(vectors, n) <==> v in MsiLines(vectors, n - 1)
  {
    var before := MsiLines(vectors, n - 1);
    var group := GroupLines(n - 1, vectors[n - 1]);
    assert MsiLines(vectors, n) == before + group;
    GroupLinesBound(n - 1, vectors[n - 1]);
    assert v !in group;
  }

  /**
    Only the acknowledgements of a pass, in order: each group's vector
    word is written back with exactly the value read, once per group.
  */
  function Acks(events: seq<Event>): seq<Event>
  {
    if events == [] then []
    else if events[|events| - 1].VectorAck? then Acks(events[..|events| - 1]) + [events[|events| - 1]]
    else Acks(events[..|events| - 1])
  }

  lemma AcksAppend(a: seq<Event>, b: seq<Event>)
    ensures Acks(a + b) == Acks(a) + Acks(b)
    decreases |b|
  {
    if b != [] {
      var b' := b[..|b| - 1];
      assert (a + b)[..|a + b| - 1] == a + b';
      AcksAppend(a, b');
    } else {
      assert a + b == a;
    }
  }

  /** Routing emits no acknowledgement. */
  lemma {:induction false} AcksOfRouting(rule: Rule, lines: seq<nat>, env: Env, cursors: seq<int>)
    requires env.Valid() && InRange(lines, env) && CursorsOk(cursors, env)
    ensures Acks(Events(rule, lines, env, cursors)) == []
    decreases |lines|
  {
    if lines != [] {
      var lines' := lines[..|lines| - 1];
      assert lines == lines' + [lines[|lines| - 1]];
      assert InRange(lines', env);
      EventsSnoc(rule, lines', lines[|lines| - 1], env, cursors);
      AcksOfRouting(rule, lines', env, cursors);
    }
  }

  /** A group's acknowledgement is the only acknowledgement it adds. */
  lemma AcksStep(before: seq<Event>, ack: Event, routed: seq<Event>)
    requires ack.VectorAck? && Acks(routed) == []
    ensures Acks(before + [ack] + routed) == Acks(before) + [ack]
  {
    AcksAppend(before, [ack]);
    AcksAppend(before + [ack], routed);
    assert Acks([ack]) == Acks([]) + [ack];
  }

  /** A pass over one more group adds that group's acknowledgement and no other. */
  lemma MsiAcksStep(rule: Rule, vectors: seq<bv32>, n: nat, env: Env, cursors: seq<int>)
    requires 0 < n <= |vectors| && 32 * n <= |env.slots|
    requires env.Valid() && CursorsOk(cursors, env)
    ensures Acks(MsiEvents(rule, vectors, n, env, cursors))
      == Acks(MsiEvents(rule, vectors, n - 1, env, cursors)) + [VectorAck(n - 1, vectors[n - 1])]
  {
    var group := GroupLines(n - 1, vectors[n - 1]);
    GroupLinesBound(n - 1, vectors[n - 1]);
    var before := MsiEvents(rule, vectors, n - 1, env, cursors);
    var ack := VectorAck(n - 1, vectors[n - 1]);
    var routed := Events(rule, group, env, cursors);
    assert MsiEvents(rule, vectors, n, env, cursors) == before + [ack] + routed;
    AcksOfRouting(rule, group, env, cursors);
    AcksStep(before, ack, routed);
  }

  /**
    The acknowledgements of a pass over `n` groups are exactly one per
    group, in group order, each writing back the value read.
  */
  lemma {:induction false} MsiAcks(rule: Rule, vectors: seq<bv32>, n: nat, env: Env, cursors: seq<int>)
    requires n <= |vectors| && 32 * n <= |env.slots|
    requires env.Valid() && CursorsOk(cursors, env)
    ensures |Acks(MsiEvents(rule, vectors, n, env, cursors))| == n
    ensures forall g :: 0 <= g < n ==> Acks(MsiEvents(rule, vectors, n, env, cursors))[g] == VectorAck(g, vectors[g])
  {
    if n > 0 {
      MsiAcks(rule, vectors, n - 1, env, cursors);
      MsiAcksStep(rule, vectors, n, env, cursors);
      AcksSnoc(Acks(MsiEvents(rule, vectors, n - 1, env, cursors)), vectors, n);
    }
  }

  /** One acknowledgement per group for `n - 1` groups, and then group `n - 1`'s, is one per group for `n`. */
  lemma AcksSnoc(earlier: seq<Event>, vectors: seq<bv32>, n: nat)
    requires 0 < n <= |vectors| && |earlier| == n - 1
    requires forall g :: 0 <= g < n - 1 ==> earlier[g] == VectorAck(g, vectors[g])
    ensures |earlier + [VectorAck(n - 1, vectors[n - 1])]| == n
    ensures forall g :: 0 <= g < n ==> (earlier + [VectorAck(n - 1, vectors[n - 1])])[g] == VectorAck(g, vectors[g])
  {
    var all := earlier + [VectorAck(n - 1, vectors[n - 1])];
    forall g | 0 <= g < n
      ensures all[g] == VectorAck(g, vectors[g])
    {
      if g < n - 1 {
        assert all[g] == earlier[g];
      }
    }
  }
}
