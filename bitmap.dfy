/**
  Facts about raw bit-vectors, decided by the solver's bit-vector theory.
  Every lemma states an equation between words (or a bound), never an
  equivalence between two "is non-zero" tests: the former the solver settles
  quickly, the latter not. The shift lemmas take a shift amount `a < 64`.
*/
module BitVectors {

  lemma OneHotNonzero(a: bv8)
    requires a < 64
    ensures (1 as bv64) << a != 0
  {
  }

  lemma OneHotDisjoint(a: bv8, b: bv8)
    requires a < 64 && b < 64 && a != b
    ensures ((1 as bv64) << a) & ((1 as bv64) << b) == 0
  {
  }

  lemma OneHotSplit(x: bv64, a: bv8)
    requires a < 64
    ensures x & ((1 as bv64) << a) == 0 || x & ((1 as bv64) << a) == (1 as bv64) << a
  {
  }

  /** Below 32 a one-hot word survives truncation to 32 bits. */
  lemma OneHotNarrow(a: bv8)
    requires a < 32
    ensures (1 as bv64) << a < 0x1_0000_0000
    ensures (((1 as bv64) << a) as bv32) as bv64 == (1 as bv64) << a
  {
  }

  /** A zero-extended 32-bit word has nothing at or above bit 32. */
  lemma OneHotHigh(x: bv32, a: bv8)
    requires 32 <= a < 64
    ensures (x as bv64) & ((1 as bv64) << a) == 0
  {
  }

  /** The mask of the bits below `a + 1` is the mask below `a` plus bit `a`. */
  lemma LowStep(a: bv8)
    requires a < 64
    ensures (if a == 63 then !(0 as bv64) else ((1 as bv64) << (a + 1)) - 1)
         == (((1 as bv64) << a) - 1) | ((1 as bv64) << a)
  {
  }

  lemma OrSelf(x: bv64, m: bv64)
    ensures (x | m) & m == m
  {
  }

  lemma OrDisjoint(x: bv64, m: bv64, k: bv64)
    requires m & k == 0
    ensures (x | m) & k == x & k
  {
  }

  lemma AndNotSelf(x: bv64, m: bv64)
    ensures (x & !m) & m == 0
  {
  }

  lemma AndNotDisjoint(x: bv64, m: bv64, k: bv64)
    requires m & k == 0
    ensures (x & !m) & k == x & k
  {
  }

  lemma AndSelf(m: bv64)
    ensures m & m == m
  {
  }

  lemma XorZero(p: bv64, q: bv64)
    requires p ^ q == 0
    ensures p == q
  {
  }

  /** Two words that each hold either nothing or all of `m`, combined and cut down to `m`. */
  lemma XorWord(x: bv64, y: bv64, m: bv64)
    requires x & m == 0 || x & m == m
    requires y & m == 0 || y & m == m
    ensures (x ^ y) & m == if (x & m == 0) == (y & m == 0) then 0 else m
  {
    assert (x ^ y) & m == (x & m) ^ (y & m);
  }

  lemma AllOnesMask(m: bv64)
    ensures !(0 as bv64) & m == m
  {
  }

  lemma StepZero(x: bv64, a: bv64, b: bv64, c: bv64)
    requires x & a == 0 && x & b == 0 && c == a | b
    ensures x & c == 0
  {
  }

  lemma AllOnesZero(x: bv64, c: bv64)
    requires x & c == 0 && c == !0
    ensures x == 0
  {
  }

  /** Zero extension from 32 to 64 bits commutes with the bitwise operators. */
  lemma Widen(x: bv32, y: bv32)
    ensures ((x & y) as bv64) == (x as bv64) & (y as bv64)
    ensures ((x | y) as bv64) == (x as bv64) | (y as bv64)
    ensures ((x & !y) as bv64) == (x as bv64) & !(y as bv64)
  {
  }

  lemma WidenInjective(x: bv32, y: bv32)
    requires (x as bv64) == (y as bv64)
    ensures x == y
  {
  }
}

/**
  Bit-level view of the LS7A interrupt registers.

  A bit position is an integer below 64; `OneBit(i)` is the C expression
  `1ULL << i` and `Bit(x, i)` says that bit `i` of `x` is set. A 32-bit
  register is viewed through its zero extension `Wide`. `View(x)` is the
  register as 64 booleans, lowest bit first; listing its set bits (modules
  `Scan` and `BitDecode`) works on that view.
*/
module Bitmap {
  import opened BitVectors

  /** A bit position in a 64-bit register. */
  type Pos = i: int | 0 <= i < 64

  /** The shift amount for position `n`. */
  function ToBv(n: Pos): bv8 {
    if n == 0 then 0 else ToBv(n - 1) + 1
  }

  lemma {:induction false} ToBvValue(n: Pos)
    ensures ToBv(n) as int == n
  {
    if n > 0 {
      ToBvValue(n - 1);
    }
  }

  lemma ToBvSmall(n: Pos)
    ensures ToBv(n) < 64
    ensures n < 32 ==> ToBv(n) < 32
    ensures 32 <= n ==> 32 <= ToBv(n)
  {
    ToBvValue(n);
  }

  lemma ToBvInjective(n: Pos, j: Pos)
    ensures ToBv(n) == ToBv(j) <==> n == j
  {
    ToBvValue(n);
    ToBvValue(j);
  }

  /** The word with only bit `i` set: `1ULL << i`. */
  function OneBit(i: Pos): bv64 {
    ToBvSmall(i);
    (1 as bv64) << ToBv(i)
  }

  /** The 32-bit word with only bit `i` set: `1 << i` for `i < 32`. */
  function OneBit32(i: Pos): bv32
    requires i < 32
  {
    OneBitNarrow(i);
    OneBit(i) as bv32
  }

  /** Bit `i` of `x` is set. */
  predicate Bit(x: bv64, i: Pos) {
    x & OneBit(i) != 0
  }

  /** The zero extension of a 32-bit register. */
  function Wide(x: bv32): bv64 {
    x as bv64
  }

  /** Zero extension loses nothing. */
  lemma WideInjective(x: bv32, y: bv32)
    requires Wide(x) == Wide(y)
    ensures x == y
  {
    WidenInjective(x, y);
  }

  /** Bit `i` of a 32-bit register is set. */
  predicate Bit32(x: bv32, i: Pos) {
    Bit(Wide(x), i)
  }

  // ---- one-hot words ---------------------------------------------------------

  lemma OneBitNonzero(i: Pos)
    ensures OneBit(i) != 0
  {
    ToBvSmall(i);
    OneHotNonzero(ToBv(i));
  }

  lemma OneBitDisjoint(i: Pos, j: Pos)
    requires i != j
    ensures OneBit(i) & OneBit(j) == 0
  {
    ToBvSmall(i);
    ToBvSmall(j);
    ToBvInjective(i, j);
    OneHotDisjoint(ToBv(i), ToBv(j));
  }

  lemma OneBitSplit(x: bv64, i: Pos)
    ensures x & OneBit(i) == 0 || x & OneBit(i) == OneBit(i)
  {
    ToBvSmall(i);
    OneHotSplit(x, ToBv(i));
  }

  lemma OneBitNarrow(i: Pos)
    requires i < 32
    ensures OneBit(i) < 0x1_0000_0000
    ensures (OneBit(i) as bv32) as bv64 == OneBit(i)
  {
    ToBvSmall(i);
    OneHotNarrow(ToBv(i));
  }

  // ---- the effect of the register operations on single bits -----------------

  lemma SetBitSame(x: bv64, n: Pos)
    ensures Bit(x | OneBit(n), n)
  {
    OrSelf(x, OneBit(n));
    OneBitNonzero(n);
  }

  lemma SetBitOtherWord(x: bv64, n: Pos, j: Pos)
    requires n != j
    ensures (x | OneBit(n)) & OneBit(j) == x & OneBit(j)
  {
    OneBitDisjoint(n, j);
    OrDisjoint(x, OneBit(n), OneBit(j));
  }

  lemma SetBitOther(x: bv64, n: Pos, j: Pos)
    requires n != j
    ensures Bit(x | OneBit(n), j) == Bit(x, j)
  {
    SetBitOtherWord(x, n, j);
  }

  /** Setting bit `n` sets bit `n` and changes no other. */
  lemma SetBitEffect(x: bv64, n: Pos, j: Pos)
    ensures Bit(x | OneBit(n), j) == (Bit(x, j) || j == n)
  {
    if n == j {
      SetBitSame(x, n);
    } else {
      SetBitOther(x, n, j);
    }
  }

  lemma ClearBitOtherWord(x: bv64, n: Pos, j: Pos)
    requires n != j
    ensures (x & !OneBit(n)) & OneBit(j) == x & OneBit(j)
  {
    OneBitDisjoint(n, j);
    AndNotDisjoint(x, OneBit(n), OneBit(j));
  }

  lemma ClearBitOther(x: bv64, n: Pos, j: Pos)
    requires n != j
    ensures Bit(x & !OneBit(n), j) == Bit(x, j)
  {
    ClearBitOtherWord(x, n, j);
  }

  lemma ClearBitSame(x: bv64, n: Pos)
    ensures !Bit(x & !OneBit(n), n)
  {
    AndNotSelf(x, OneBit(n));
  }

  /** Clearing bit `n` clears bit `n` and changes no other. */
  lemma ClearBitEffect(x: bv64, n: Pos, j: Pos)
    ensures Bit(x & !OneBit(n), j) == (Bit(x, j) && j != n)
  {
    if n == j {
      ClearBitSame(x, n);
    } else {
      ClearBitOther(x, n, j);
    }
  }

  lemma XorEffect(x: bv64, y: bv64, j: Pos)
    ensures Bit(x ^ y, j) == (Bit(x, j) != Bit(y, j))
  {
    OneBitSplit(x, j);
    OneBitSplit(y, j);
    OneBitNonzero(j);
    XorWord(x, y, OneBit(j));
  }

  /** Every bit of the all-ones word is set. */
  lemma AllOnesEffect(j: Pos)
    ensures Bit(!0, j)
  {
    AllOnesMask(OneBit(j));
    OneBitNonzero(j);
  }

  // ---- 32-bit registers -------------------------------------------------------

  lemma WideOneBit(i: Pos)
    requires i < 32
    ensures Wide(OneBit32(i)) == OneBit(i)
  {
    OneBitNarrow(i);
  }

  lemma WideSet(x: bv32, n: Pos)
    requires n < 32
    ensures Wide(x | OneBit32(n)) == Wide(x) | OneBit(n)
  {
    Widen(x, OneBit32(n));
    WideOneBit(n);
  }

  lemma WideClear(x: bv32, n: Pos)
    requires n < 32
    ensures Wide(x & !OneBit32(n)) == Wide(x) & !OneBit(n)
  {
    Widen(x, OneBit32(n));
    WideOneBit(n);
  }

  /** A 32-bit register has no bit at or above 32. */
  lemma Bit32High(x: bv32, j: Pos)
    requires 32 <= j
    ensures !Bit32(x, j)
  {
    ToBvSmall(j);
    OneHotHigh(x, ToBv(j));
  }

  // ---- a word is determined by its bits -------------------------------------

  /** The bits below `k`. */
  function LowMask(k: nat): bv64
    requires k <= 64
  {
    if k == 64 then !0 else OneBit(k) - 1
  }

  lemma LowMaskStep(k: Pos)
    ensures LowMask(k + 1) == LowMask(k) | OneBit(k)
  {
    ToBvValue(k);
    if k < 63 {
      assert ToBv(k + 1) == ToBv(k) + 1;
      ToBvSmall(k + 1);
    }
    LowStep(ToBv(k));
  }

  lemma LowMaskZero(x: bv64)
    ensures x & LowMask(0) == 0
  {
    assert ToBv(0) == 0;
  }

  lemma NoBitsStep(x: bv64, k: Pos)
    requires x & LowMask(k) == 0
    requires !Bit(x, k)
    ensures x & LowMask(k + 1) == 0
  {
    LowMaskStep(k);
    StepZero(x, LowMask(k), OneBit(k), LowMask(k + 1));
  }

  /** A word none of whose 64 bits is set is zero. */
  lemma NoBitsZero(x: bv64)
    requires forall j: Pos :: !Bit(x, j)
    ensures x == 0
  {
    LowMaskZero(x);
    for k := 0 to 64
      invariant x & LowMask(k) == 0
    {
      NoBitsStep(x, k);
    }
    AllOnesZero(x, LowMask(64));
  }

  /** A word is zero exactly when none of its 64 bits is set. */
  lemma ZeroIffNoBits(x: bv64)
    ensures x == 0 <==> forall j: Pos :: !Bit(x, j)
  {
    if forall j: Pos :: !Bit(x, j) {
      NoBitsZero(x);
    }
  }

  // ---- the register as a sequence of bits -------------------------------------

  /** The bits of `x`, lowest first. */
  function View(x: bv64): (v: seq<bool>)
    ensures |v| == 64
    ensures forall j: Pos :: v[j] == Bit(x, j)
  {
    seq(64, j requires 0 <= j < 64 => Bit(x, j))
  }

  /** The view determines the word: two words with the same bits are equal. */
  lemma ViewInjective(a: bv64, b: bv64)
    requires View(a) == View(b)
    ensures a == b
  {
    var c := a ^ b;
    forall j: Pos
      ensures !Bit(c, j)
    {
      XorEffect(a, b, j);
      assert View(a)[j] == View(b)[j];
    }
    ZeroIffNoBits(c);
    XorZero(a, b);
  }

  /** The zero word is the word with no bit set. */
  lemma ViewZero(x: bv64)
    ensures x == 0 <==> forall j: Pos :: !View(x)[j]
  {
    ZeroIffNoBits(x);
    var v := View(x);
    assert (forall j: Pos :: !v[j]) <==> (forall j: Pos :: !Bit(x, j));
  }

  lemma ViewSet(x: bv64, n: Pos)
    ensures View(x | OneBit(n)) == View(x)[n := true]
  {
    var after := View(x | OneBit(n));
    var expected := View(x)[n := true];
    forall j: Pos
      ensures after[j] == expected[j]
    {
      SetBitEffect(x, n, j);
    }
  }

  lemma ViewClear(x: bv64, n: Pos)
    ensures View(x & !OneBit(n)) == View(x)[n := false]
  {
    var after := View(x & !OneBit(n));
    var expected := View(x)[n := false];
    forall j: Pos
      ensures after[j] == expected[j]
    {
      ClearBitEffect(x, n, j);
    }
  }

  lemma View32High(x: bv32, j: Pos)
    requires 32 <= j
    ensures !View(Wide(x))[j]
  {
    Bit32High(x, j);
  }
}
