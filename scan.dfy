/*
  Listing the set entries of a boolean sequence in ascending order.

  The same listing serves two purposes in the model: decoding a pending
  bitmap into interrupt lines (lowest bit first, the order `ffs` visits
  them), and walking a CPU mask in the order `cpumask_next` visits it.
*/
module Scan {
  /** Regrouping a concatenation, stated apart so that callers need not re-prove it. */
  lemma AppendAssoc<T>(a: seq<T>, b: seq<T>, c: seq<T>)
    ensures a + (b + c) == (a + b) + c
  {
  }

  /** Strictly increasing, hence also free of duplicates. */
  predicate Ascending(s: seq<nat>) {
    forall a, b :: 0 <= a < b < |s| ==> s[a] < s[b]
  }

  /** Every entry is below `b`. */
  predicate Below(s: seq<nat>, b: int) {
    forall k :: 0 <= k < |s| ==> s[k] < b
  }

  /** A value at or above the bound is not an entry. */
  lemma NotBelow(s: seq<nat>, b: int, x: int)
    requires Below(s, b) && b <= x
    ensures x !in s
  {
  }

  /** The indices `j >= i` with `v[j]` set, in ascending order. */
  function Ones(v: seq<bool>, i: nat): (r: seq<nat>)
    requires i <= |v|
    ensures |r| <= |v| - i
    decreases |v| - i
  {
    if i == |v| then []
    else if v[i] then [i] + Ones(v, i + 1)
    else Ones(v, i + 1)
  }

  /**
    The listing holds set entries from `i` on, every one of them, in
    ascending order.
  */
  lemma {:induction false} OnesSpec(v: seq<bool>, i: nat)
    requires i <= |v|
    ensures forall k :: 0 <= k < |Ones(v, i)| ==> i <= Ones(v, i)[k] < |v| && v[Ones(v, i)[k]]
    ensures forall j :: i <= j < |v| && v[j] ==> j in Ones(v, i)
    ensures Ascending(Ones(v, i))
    decreases |v| - i
  {
    if i < |v| {
      OnesSpec(v, i + 1);
      var rest := Ones(v, i + 1);
      if v[i] {
        var r := [i] + rest;
        forall a, b | 0 <= a < b < |r|
          ensures r[a] < r[b]
        {
          assert r[b] == rest[b - 1];
          if a > 0 {
            assert r[a] == rest[a - 1];
          }
        }
      }
    }
  }

  /** In an ascending sequence, order of values is order of positions. */
  lemma AscendingOrder(s: seq<nat>, a: nat, b: nat)
    requires Ascending(s) && a < |s| && b < |s|
    ensures s[a] < s[b] <==> a < b
  {
  }

  /** The head of an ascending sequence is its least element. */
  lemma AscendingHead(s: seq<nat>, x: nat)
    requires Ascending(s) && x in s
    ensures s[0] <= x
  {
    var k :| 0 <= k < |s| && s[k] == x;
    AscendingOrder(s, 0, k);
  }

  /**
    Two ascending sequences with the same elements and the same head also
    share each element of their tails.
  */
  lemma TailMember(s: seq<nat>, t: seq<nat>, x: nat)
    requires Ascending(s) && Ascending(t)
    requires forall y :: y in s <==> y in t
    requires s != [] && t != [] && s[0] == t[0]
    requires x in s[1..]
    ensures x in t[1..]
  {
    var k :| 1 <= k < |s| && s[k] == x;
    AscendingOrder(s, 0, k);
    assert x in s;
    var i :| 0 <= i < |t| && t[i] == x;
    AscendingOrder(t, 0, i);
    assert t[1..][i - 1] == x;
  }

  /** An ascending sequence is determined by its elements. */
  lemma {:induction false} AscendingUnique(s: seq<nat>, t: seq<nat>)
    requires Ascending(s) && Ascending(t)
    requires forall x :: x in s <==> x in t
    ensures s == t
    decreases |s|
  {
    if s != [] {
      assert s[0] in t;
    }
    if t != [] {
      assert t[0] in s;
    }
    if s != [] && t != [] {
      AscendingHead(t, s[0]);
      AscendingHead(s, t[0]);
      var s', t' := s[1..], t[1..];
      forall x
        ensures x in s' <==> x in t'
      {
        if x in s' {
          TailMember(s, t, x);
        }
        if x in t' {
          TailMember(t, s, x);
        }
      }
      AscendingUnique(s', t');
      assert s == [s[0]] + s' && t == [t[0]] + t';
    }
  }

  /** The listing from `i` is empty exactly when no entry from `i` on is set. */
  lemma OnesEmpty(v: seq<bool>, i: nat)
    requires i <= |v|
    ensures Ones(v, i) == [] <==> forall j :: i <= j < |v| ==> !v[j]
  {
    OnesSpec(v, i);
    var r := Ones(v, i);
    if r != [] {
      assert v[r[0]];
    }
  }

  /** The first index listed from `i` is the lowest set entry from `i` on. */
  lemma OnesHead(v: seq<bool>, i: nat)
    requires i <= |v| && Ones(v, i) != []
    ensures i <= Ones(v, i)[0] < |v| && v[Ones(v, i)[0]]
    ensures forall j :: i <= j < Ones(v, i)[0] ==> !v[j]
  {
    OnesSpec(v, i);
    var r := Ones(v, i);
    forall j | i <= j < |v| && v[j]
      ensures r[0] <= j
    {
      AscendingHead(r, j);
    }
  }

  /**
    Removing the lowest set entry `k` removes exactly the head of the
    listing: one step of a find-first-set loop.
  */
  lemma OnesPeel(v: seq<bool>, k: nat)
    requires k < |v| && v[k]
    requires forall j :: 0 <= j < k ==> !v[j]
    ensures Ones(v, 0) == [k] + Ones(v[k := false], 0)
  {
    var w := v[k := false];
    OnesSpec(v, 0);
    OnesSpec(w, 0);
    var rest := Ones(w, 0);
    var peeled := [k] + rest;
    forall a, b | 0 <= a < b < |peeled|
      ensures peeled[a] < peeled[b]
    {
      assert w[peeled[b]];
      if a == 0 {
        assert peeled[b] != k && v[peeled[b]];
      } else {
        assert peeled[a] == rest[a - 1] && peeled[b] == rest[b - 1];
      }
    }
    forall x
      ensures x in Ones(v, 0) <==> x in peeled
    {
      if x in peeled && x != k {
        var i :| 0 <= i < |rest| && rest[i] == x;
        assert w[x];
      }
      if x in Ones(v, 0) && x != k {
        assert w[x];
        assert x in rest;
      }
    }
    AscendingUnique(Ones(v, 0), peeled);
  }

  /** A suffix of an ascending sequence is ascending. */
  lemma AscendingSuffix(s: seq<nat>, n: nat)
    requires Ascending(s) && n <= |s|
    ensures Ascending(s[n..])
  {
    forall a, b | 0 <= a < b < |s| - n
      ensures s[n..][a] < s[n..][b]
    {
      assert s[n..][a] == s[n + a] && s[n..][b] == s[n + b];
    }
  }

  /** The elements after position `n` of an ascending sequence are those above `s[n]`. */
  lemma AscendingAfter(s: seq<nat>, n: nat, x: nat)
    requires Ascending(s) && n < |s|
    ensures x in s[n + 1..] <==> x in s && s[n] < x
  {
    if x in s[n + 1..] {
      var k :| 0 <= k < |s[n + 1..]| && s[n + 1..][k] == x;
      assert s[n + 1 + k] == x;
      AscendingOrder(s, n, n + 1 + k);
    }
    if x in s && s[n] < x {
      var k :| 0 <= k < |s| && s[k] == x;
      AscendingOrder(s, n, k);
      assert s[n + 1..][k - n - 1] == x;
    }
  }

  /**
    Starting the listing just after its `i`-th element gives the rest of
    the listing.
  */
  lemma OnesAfter(v: seq<bool>, i: nat)
    requires i < |Ones(v, 0)|
    ensures Ones(v, 0)[i] + 1 <= |v|
    ensures Ones(v, Ones(v, 0)[i] + 1) == Ones(v, 0)[i + 1..]
  {
    var all := Ones(v, 0);
    OnesSpec(v, 0);
    assert all[i] < |v|;
    var after := Ones(v, all[i] + 1);
    var tail := all[i + 1..];
    forall x
      ensures x in after <==> x in tail
    {
      OnesMember(v, all[i] + 1, x);
      OnesMember(v, 0, x);
      AscendingAfter(all, i, x);
    }
    OnesSpec(v, all[i] + 1);
    AscendingSuffix(all, i + 1);
    AscendingUnique(after, tail);
  }

  /** Entries listed from `i` are exactly those from `i` on. */
  lemma OnesMember(v: seq<bool>, i: nat, j: nat)
    requires i <= |v|
    ensures j in Ones(v, i) <==> i <= j < |v| && v[j]
  {
    OnesSpec(v, i);
    if j in Ones(v, i) {
      var k :| 0 <= k < |Ones(v, i)| && Ones(v, i)[k] == j;
    }
  }
}
