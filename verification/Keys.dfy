/** Keys of the tree: byte strings under the default comparison and prefix routines (bt_utils.c). */
module Keys {
  type Byte = x: int | 0 <= x < 256
  type Key = seq<Byte>

  /** The position of the suffix `k[i..]` in the byte-string order, as a real in [0,1). */
  ghost function RankFrom(k: Key, i: nat): (r: real)
    requires i <= |k|
    ensures 0.0 <= r < 1.0
    ensures i < |k| ==> 0.0 < r
    decreases |k| - i
  {
    if i == |k| then 0.0 else ((k[i] as int + 1) as real + RankFrom(k, i + 1)) / 257.0
  }

  /** An order embedding of byte strings into the reals: `a` sorts before `b` iff `Rank(a) < Rank(b)`
      (see `RankIsLexicographic`).  Ordering arguments about keys become linear arithmetic. */
  ghost function Rank(k: Key): (r: real)
    ensures 0.0 <= r < 1.0
  {
    RankFrom(k, 0)
  }

  /** Byte-wise lexicographic order, a proper prefix sorting first: the order `__bt_defcmp` documents. */
  ghost predicate LexLess(a: Key, b: Key) {
    exists i :: FirstDifference(a, b, i)
  }

  ghost predicate FirstDifference(a: Key, b: Key, i: nat) {
    && i <= |a| && i < |b| && a[..i] == b[..i]
    && (i == |a| || a[i] < b[i])
  }

  /** Strings that agree below `i` compare as their suffixes do. */
  lemma {:induction false} SuffixOrder(a: Key, b: Key, i: nat, j: nat)
    requires j <= i <= |a| && i <= |b| && a[..i] == b[..i]
    ensures RankFrom(a, i) < RankFrom(b, i) <==> RankFrom(a, j) < RankFrom(b, j)
    decreases i - j
  {
    if j < i {
      assert a[j] == a[..i][j] == b[..i][j] == b[j];
      SuffixOrder(a, b, i, j + 1);
    }
  }

  lemma {:induction false} DifferenceOrders(a: Key, b: Key, i: nat)
    requires FirstDifference(a, b, i)
    ensures Rank(a) < Rank(b)
  {
    SuffixOrder(a, b, i, 0);
  }

  /** Any two strings are equal or have a first difference one way round. */
  lemma {:induction false} FindDifference(a: Key, b: Key) returns (i: nat)
    ensures a == b || FirstDifference(a, b, i) || FirstDifference(b, a, i)
  {
    i := 0;
    while i < |a| && i < |b| && a[i] == b[i]
      invariant i <= |a| && i <= |b| && a[..i] == b[..i]
    {
      i := i + 1;
    }
    if i == |a| && i == |b| {
      assert a == a[..i] == b[..i] == b;
    }
  }

  /** `Rank` is an embedding of the lexicographic order, and injective. */
  lemma {:induction false} RankIsLexicographic(a: Key, b: Key)
    ensures LexLess(a, b) <==> Rank(a) < Rank(b)
    ensures Rank(a) == Rank(b) <==> a == b
  {
    if LexLess(a, b) {
      var i :| FirstDifference(a, b, i);
      DifferenceOrders(a, b, i);
    }
    var i := FindDifference(a, b);
    if FirstDifference(a, b, i) {
      DifferenceOrders(a, b, i);
    } else if FirstDifference(b, a, i) {
      DifferenceOrders(b, a, i);
    }
  }

  /** `__bt_defcmp`. */
  method DefCmp(a: Key, b: Key) returns (cmp: int)
    ensures cmp < 0 <==> Rank(a) < Rank(b)
    ensures cmp == 0 <==> a == b
    ensures cmp > 0 <==> Rank(a) > Rank(b)
  {
    var len := if |a| < |b| then |a| else |b|;
    var i := 0;
    while i < len
      invariant i <= len && a[..i] == b[..i]
    {
      if a[i] != b[i] {
        if a[i] < b[i] { DifferenceOrders(a, b, i); } else { DifferenceOrders(b, a, i); }
        return a[i] as int - b[i] as int;
      }
      i := i + 1;
    }
    if |a| < |b| {
      DifferenceOrders(a, b, i);
    } else if |b| < |a| {
      DifferenceOrders(b, a, i);
    } else {
      assert a == a[..i] == b[..i] == b;
    }
    return |a| - |b|;
  }

  /** Where `a` and `b`, which agree below `i`, part. */
  function Part(a: Key, b: Key, i: nat): (j: nat)
    requires i <= |a| && i <= |b| && a[..i] == b[..i]
    ensures j <= |a| && j <= |b| && a[..j] == b[..j] && (j == |a| || j == |b| || a[j] != b[j])
    decreases |a| - i
  {
    if i == |a| || i == |b| || a[i] != b[i] then i else Part(a, b, i + 1)
  }

  /** `a` does not sort after `b`. */
  predicate NotAfter(a: Key, b: Key) {
    var j := Part(a, b, 0);
    j == |a| || (j < |b| && a[j] < b[j])
  }

  lemma NotAfterRank(a: Key, b: Key)
    ensures NotAfter(a, b) <==> Rank(a) <= Rank(b)
  {
    var j := Part(a, b, 0);
    if j == |a| && j == |b| {
      assert a == a[..j] == b[..j] == b;
    } else if NotAfter(a, b) {
      DifferenceOrders(a, b, j);
    } else {
      DifferenceOrders(b, a, j);
    }
  }

  /** `__bt_defpfx`: for `a` before `b`, the least number of bytes of `b` that still sort after `a`. */
  method DefPfx(a: Key, b: Key) returns (n: nat)
    ensures Rank(a) < Rank(b) ==> 1 <= n <= |b| && Rank(a) < Rank(b[..n]) <= Rank(b)
    ensures Rank(a) < Rank(b) ==> forall m :: 0 <= m <= |b| && Rank(a) < Rank(b[..m]) ==> n <= m
  {
    var len := if |a| < |b| then |a| else |b|;
    var cnt := 1;
    while cnt <= len
      invariant 1 <= cnt <= len + 1 && a[..cnt - 1] == b[..cnt - 1]
    {
      if a[cnt - 1] != b[cnt - 1] {
        PrefixIsShortest(a, b, cnt - 1);
        return cnt;
      }
      cnt := cnt + 1;
    }
    PrefixIsShortest(a, b, len);
    return if |a| < |b| then |a| + 1 else |a|;
  }

  /** A prefix of a string never sorts after it. */
  lemma PrefixOrder(b: Key, m: nat)
    requires m <= |b|
    ensures Rank(b[..m]) <= Rank(b)
  {
    if m < |b| {
      DifferenceOrders(b[..m], b, m);
    } else {
      assert b[..m] == b;
    }
  }

  /** Where `a` and `b` first part at `i`, the prefix of length `i + 1` separates them and no shorter one does. */
  lemma PrefixIsShortest(a: Key, b: Key, i: nat)
    requires i <= |a| && i <= |b| && a[..i] == b[..i]
    requires i == |a| || i == |b| || a[i] != b[i]
    ensures Rank(a) < Rank(b) ==>
              i < |b| && Rank(a) < Rank(b[..i + 1]) <= Rank(b)
              && forall m :: 0 <= m <= |b| && Rank(a) < Rank(b[..m]) ==> i + 1 <= m
  {
    if Rank(a) < Rank(b) {
      if i == |b| {
        assert b == a[..i];
        PrefixOrder(a, i);
      } else {
        if i < |a| && b[i] < a[i] { DifferenceOrders(b, a, i); }
        var p := b[..i + 1];
        assert FirstDifference(a, p, i);
        DifferenceOrders(a, p, i);
        PrefixOrder(b, i + 1);
        forall m | 0 <= m <= |b| && Rank(a) < Rank(b[..m])
          ensures i + 1 <= m
        {
          if m <= i {
            assert b[..m] == b[..i][..m] == a[..m];
            PrefixOrder(a, m);
          }
        }
      }
    }
  }
}
