/** The cache size arithmetic of bt_open.c. */
module CacheSize {
  import opened Layout

  const WORD := 0x1_0000_0000

  /** The bits two numbers share. */
  function And(a: nat, b: nat): (r: nat)
    ensures r <= b
  {
    if a == 0 || b == 0 then 0 else 2 * And(a / 2, b / 2) + if a % 2 == 1 && b % 2 == 1 then 1 else 0
  }

  /** The cache size in 32 bits: rounded up by the bits of the page size less one, and not below five pages. */
  function Settled(cachesize: nat, psize: nat): nat
    requires psize > 0
  {
    var low := And(cachesize, psize - 1);
    var rounded := if low != 0 then (cachesize + (psize - 1 - low) + 1) % WORD else cachesize;
    if rounded < psize * MINCACHE then psize * MINCACHE else rounded
  }

  function Quotient(n: nat, d: nat): nat
    requires d > 0
  {
    n / d
  }

  function Rem(n: nat, d: nat): nat
    requires d > 0
  {
    n % d
  }

  /** The number of cached pages bt_open.c asks the pool for. */
  function CachePages(cachesize: nat, psize: nat): nat
    requires psize > 0
  {
    Quotient((Settled(cachesize, psize) + psize - 1) % WORD, psize)
  }

  lemma {:induction false} Gap(d: nat, x: nat, y: nat)
    requires x < y
    ensures d * x + d <= d * y
    decreases y
  {
    if x + 1 < y { Gap(d, x, y - 1); }
  }

  lemma {:induction false} QuotientIs(n: nat, d: nat, q: nat)
    requires d > 0
    ensures Quotient(n, d) >= q <==> n >= d * q
  {
    var x := n / d;
    assert n == d * x + n % d;
    if x < q { Gap(d, x, q); }
    if q < x { Gap(d, q, x); }
  }

  /** Five at least, exactly when the sum does not wrap. */
  lemma {:induction false} CacheHoldsFive(cachesize: nat, psize: nat)
    requires cachesize < WORD && MINPSIZE <= psize <= 0x1_0000
    ensures CachePages(cachesize, psize) >= MINCACHE <==> Settled(cachesize, psize) + psize - 1 < WORD
  {
    var s := Settled(cachesize, psize);
    assert psize * MINCACHE <= s < WORD;
    QuotientIs((s + psize - 1) % WORD, psize, MINCACHE);
  }

  lemma {:induction false} Bit(a: nat, b: nat)
    ensures And(a, b) == if a == 0 || b == 0 then 0 else 2 * And(a / 2, b / 2) + if a % 2 == 1 && b % 2 == 1 then 1 else 0
  {
  }

  /** A page size of 514 bytes and the largest cache but two: the pool is asked for no page at all. */
  lemma {:induction false} NoPages()
    ensures CachePages(0xffff_fffd, 514) == 0
  {
    hide And;
    var a, b := 0xffff_fffd, 513;
    assert And(a, b) == 513 by {
      Bit(a, b); Bit(a / 2, 256); Bit(a / 4, 128); Bit(a / 8, 64); Bit(a / 16, 32); Bit(a / 32, 16);
      Bit(a / 64, 8); Bit(a / 128, 4); Bit(a / 256, 2); Bit(a / 512, 1); Bit(a / 1024, 0);
    }
    assert Settled(0xffff_fffd, 514) == 0xffff_fffe;
  }

  function Pow2(k: nat): (p: nat)
    ensures p > 0
  {
    if k == 0 then 1 else 2 * Pow2(k - 1)
  }

  lemma {:induction false} Remainder(a: nat, d: nat, q: nat, r: nat)
    requires a == d * q + r && r < d
    ensures a % d == r && a / d == q
  {
    QuotientIs(a, d, q);
    QuotientIs(a, d, q + 1);
    assert d * (q + 1) == d * q + d;
    assert a == d * (a / d) + a % d;
  }

  lemma {:induction false} HalfRemainder(a: nat, p: nat)
    requires p > 0
    ensures Rem(a, 2 * p) == 2 * Rem(a / 2, p) + a % 2
  {
    var h := a / 2;
    var q, r := h / p, h % p;
    assert h == p * q + r;
    assert 2 * p * q == 2 * (p * q);
    Remainder(a, 2 * p, q, 2 * r + a % 2);
  }

  lemma {:induction false} AndStep(a: nat, p: nat)
    requires a > 0 && p > 0
    ensures And(a, 2 * p - 1) == 2 * And(a / 2, p - 1) + a % 2
  {
    assert (2 * p - 1) / 2 == p - 1 && (2 * p - 1) % 2 == 1;
  }

  lemma {:induction false} AndLow(a: nat, k: nat)
    ensures And(a, Pow2(k) - 1) == Rem(a, Pow2(k))
  {
    hide And, Rem;
    if k == 0 || a == 0 {
      None(a, Pow2(k));
    } else {
      AndLow(a / 2, k - 1);
      AndStep(a, Pow2(k - 1));
      HalfRemainder(a, Pow2(k - 1));
    }
  }

  lemma {:induction false} None(a: nat, p: nat)
    requires p > 0
    ensures a == 0 || p == 1 ==> And(a, p - 1) == 0 && Rem(a, p) == 0
  {
  }

  /** For page sizes that are powers of two the sum never wraps. */
  lemma {:induction false} PowersOfTwo(cachesize: nat, k: nat)
    requires cachesize < WORD && 9 <= k <= 16
    ensures CachePages(cachesize, Pow2(k)) >= MINCACHE
  {
    AndLow(cachesize, k);
    PageSizes(k);
    NoWrap(cachesize, Pow2(k), WORD / Pow2(k));
    CacheHoldsFive(cachesize, Pow2(k));
  }

  /** They are as many as the cache size takes, and five at least. */
  lemma {:induction false} PagesAre(cachesize: nat, k: nat)
    requires 9 <= k <= 16 && cachesize + Pow2(k) <= WORD
    ensures var p := Pow2(k); CachePages(cachesize, p) == if cachesize <= 5 * p then 5 else Quotient(cachesize + p - 1, p)
  {
    hide And, Settled, Quotient, Rem, CachePages;
    var p := Pow2(k);
    AndLow(cachesize, k);
    PageSizes(k);
    Wrapless(cachesize, p, WORD / p);
    var a, r := Halves(cachesize, p);
    SettledAt(cachesize, p, a, r);
    PagesOf(Settled(cachesize, p), p, if RoundUp(a, r) < 5 then 5 else RoundUp(a, r));
    Rounds(cachesize, p, a, r);
    PagesSay(cachesize, p);
  }

  function RoundUp(a: nat, r: nat): nat { if r == 0 then a else a + 1 }

  lemma {:induction false} Halves(c: nat, p: nat) returns (a: nat, r: nat)
    requires p > 0
    ensures c == p * a + r && r < p && r == Rem(c, p)
  {
    a, r := c / p, c % p;
  }

  lemma {:induction false} Wrapless(c: nat, p: nat, q: nat)
    requires c < WORD && 0 < p && p * q == WORD && q > MINCACHE && And(c, p - 1) == Rem(c, p)
    ensures Settled(c, p) + p <= WORD
  {
    NoWrap(c, p, q);
  }

  lemma {:induction false} SettledAt(c: nat, p: nat, a: nat, r: nat)
    requires 0 < p && c == p * a + r && And(c, p - 1) == r < p && c + p <= WORD
    ensures Settled(c, p) == p * (if RoundUp(a, r) < 5 then 5 else RoundUp(a, r))
  {
    SettledIs(c, p, p * a, r);
    var n := RoundUp(a, r);
    hide And, Settled;
    assert p * (a + 1) == p * a + p;
    if n < 5 { Gap(p, n, 5); } else if n > 5 { Gap(p, 5, n); }
  }

  lemma {:induction false} PagesOf(s: nat, p: nat, m: nat)
    requires p > 0 && s == p * m
    ensures Quotient(s + p - 1, p) == m
  {
    Remainder(s + p - 1, p, m, p - 1);
  }

  lemma {:induction false} Rounds(c: nat, p: nat, a: nat, r: nat)
    requires 0 < p && c == p * a + r && r < p
    ensures Quotient(c + p - 1, p) == RoundUp(a, r) && (c <= 5 * p <==> RoundUp(a, r) <= 5)
  {
    var n := RoundUp(a, r);
    assert p * (a + 1) == p * a + p;
    Remainder(c + p - 1, p, n, if r == 0 then p - 1 else r - 1);
    if n < 5 { Gap(p, n, 5); } else if n > 5 { Gap(p, 5, n); }
  }

  lemma {:induction false} PagesSay(c: nat, p: nat)
    requires 0 < p && Settled(c, p) + p <= WORD
    ensures CachePages(c, p) == Quotient(Settled(c, p) + p - 1, p)
  {
    hide And, Settled, Quotient;
  }

  lemma {:induction false} NoWrap(c: nat, p: nat, q: nat)
    requires c < WORD && 0 < p && p * q == WORD && q > MINCACHE && And(c, p - 1) == c % p
    ensures Settled(c, p) + p <= WORD
  {
    hide And;
    var a, r := c / p, c % p;
    assert c == p * a + r;
    QuotientIs(c, p, q);
    Multiple(p, MINCACHE, q);
    Multiple(p, a, q);
    if a + 1 < q { Multiple(p, a + 1, q); }
    SettledIs(c, p, p * a, r);
  }

  lemma {:induction false} Multiple(p: nat, a: nat, q: nat)
    requires a < q
    ensures p * a + p <= p * q && p * (a + 1) == p * a + p && (a + 1 == q ==> p * a + p == p * q)
  {
    Gap(p, a, q);
  }

  lemma {:induction false} SettledIs(c: nat, p: nat, m: nat, r: nat)
    requires 0 < p && c == m + r && And(c, p - 1) == r < p && m + p <= WORD
    ensures Settled(c, p) == var up := if r == 0 then m else if m + p == WORD then 0 else m + p; if up < p * MINCACHE then p * MINCACHE else up
  {
    hide And;
  }

  lemma {:induction false} PageSizes(k: nat)
    requires 9 <= k <= 16
    ensures MINPSIZE <= Pow2(k) <= 0x1_0000 && Pow2(k) * (WORD / Pow2(k)) == WORD && WORD / Pow2(k) > MINCACHE
  {
    assert Pow2(9) == 512;
    assert Pow2(12) == 4096;
    assert Pow2(15) == 32768;
  }
}
