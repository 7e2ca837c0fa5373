/*
  Decoding a pending bitmap into bit positions, lowest first.

  `Ffs` is C's `ffs`: one more than the lowest set position, or 0 for a
  zero word. A dispatch loop that repeatedly takes `Ffs(x) - 1` and
  clears that bit visits exactly the positions of `Decode(x)`, in order
  (`DecodePeel`). A 32-bit register is decoded through its zero
  extension, whose positions are all below 32 (`Decode32Bound`).
*/
module BitDecode {
  import opened Scan
  import opened BitVectors
  import opened Bitmap

  /** The set bit positions of `x`, lowest first. */
  function Decode(x: bv64): (r: seq<nat>)
    ensures |r| <= 64
  {
    Ones(View(x), 0)
  }

  /** The decoded positions are bit positions, lowest first. */
  lemma DecodeSpec(x: bv64)
    ensures forall k :: 0 <= k < |Decode(x)| ==> Decode(x)[k] < 64
    ensures Ascending(Decode(x))
  {
    OnesSpec(View(x), 0);
  }

  /** A position is decoded exactly when its bit is set. */
  lemma DecodeMember(x: bv64, j: Pos)
    ensures j in Decode(x) <==> Bit(x, j)
  {
    OnesMember(View(x), 0, j);
  }

  /** Nothing is decoded exactly from the zero word. */
  lemma DecodeEmpty(x: bv64)
    ensures Decode(x) == [] <==> x == 0
  {
    OnesEmpty(View(x), 0);
    ViewZero(x);
    var v := View(x);
    assert (forall j :: 0 <= j < |v| ==> !v[j]) <==> (forall j: Pos :: !v[j]);
  }

  /** C `ffs` on a 64-bit word: 0 for the zero word, else one more than the lowest decoded position. */
  function Ffs(x: bv64): (r: nat)
    ensures r <= 64
    ensures r == 0 <==> x == 0
  {
    DecodeEmpty(x);
    DecodeSpec(x);
    var d := Decode(x);
    if d == [] then 0 else d[0] + 1
  }

  /** The lowest set position, or 64 for the zero word. */
  function Lowest(x: bv64): (r: nat)
    ensures r <= 64
  {
    if x == 0 then 64 else Ffs(x) - 1
  }

  /** `ffs` reports the lowest set bit. */
  lemma FfsLowest(x: bv64)
    requires x != 0
    ensures Bit(x, Ffs(x) - 1) && forall j: Pos :: j < Ffs(x) - 1 ==> !Bit(x, j)
  {
    DecodeEmpty(x);
    OnesHead(View(x), 0);
  }

  /**
    One step of a find-first-set loop: with `k` the lowest set bit, as
    `ffs` reports it, and `y` the word with that bit cleared, the decoding
    of `x` is `k` followed by the decoding of `y`. A loop that has visited
    `done` and still holds `x` has visited `done + [k]` and holds `y`.
  */
  lemma FfsStep(whole: seq<nat>, done: seq<nat>, x: bv64, k: Pos, y: bv64)
    requires x != 0 && k + 1 == Ffs(x)
    requires y == x & !OneBit(k)
    requires whole == done + Decode(x)
    ensures Decode(x) == [k] + Decode(y)
    ensures whole == (done + [k]) + Decode(y)
    ensures |Decode(y)| < |Decode(x)|
    ensures k < Lowest(y)
  {
    FfsLowest(x);
    DecodePeel(x, k);
    AppendAssoc(done, [k], Decode(y));
    DecodeEmpty(y);
    if y != 0 {
      DecodeSpec(x);
      assert Decode(x)[1] == Decode(y)[0];
    }
  }

  /** A 32-bit register decodes to positions below 32. */
  lemma Decode32Bound(x: bv32)
    ensures forall k :: 0 <= k < |Decode(Wide(x))| ==> Decode(Wide(x))[k] < 32
  {
    var v := View(Wide(x));
    OnesSpec(v, 0);
    forall j: Pos | 32 <= j
      ensures !v[j]
    {
      View32High(x, j);
    }
  }

  /**
    If `y` is `x` with its lowest set bit `k` cleared, the decoding of `x`
    is `k` followed by the decoding of `y`.
  */
  lemma DecodePeelAt(x: bv64, y: bv64, k: Pos)
    requires Bit(x, k) && forall j: Pos :: j < k ==> !Bit(x, j)
    requires View(y) == View(x)[k := false]
    ensures Decode(x) == [k] + Decode(y)
  {
    var v := View(x);
    forall j | 0 <= j < k
      ensures !v[j]
    {
    }
    OnesPeel(v, k);
  }

  /** Clearing the lowest set bit `k` drops exactly the head of the decoding. */
  lemma DecodePeel(x: bv64, k: Pos)
    requires Bit(x, k) && forall j: Pos :: j < k ==> !Bit(x, j)
    ensures Decode(x) == [k] + Decode(x & !OneBit(k))
  {
    ViewClear(x, k);
    DecodePeelAt(x, x & !OneBit(k), k);
  }

  /** A one-hot word decodes to its single position. */
  lemma DecodeOneBit(k: Pos)
    ensures Decode(OneBit(k)) == [k]
  {
    var x := OneBit(k);
    forall j: Pos
      ensures Bit(x, j) == (j == k)
    {
      if j != k {
        OneBitDisjoint(k, j);
      }
      OneBitNonzero(k);
      AndSelf(OneBit(k));
    }
    var v := View(x);
    assert v[k := false] == View(0) by {
      forall j: Pos
        ensures v[k := false][j] == View(0)[j]
      {
        ZeroIffNoBits(0);
      }
    }
    DecodePeelAt(x, 0, k);
    DecodeEmpty(0);
  }
}
