/** Page layout: item sizes, entries and pages (btree.h), and the overflow threshold (bt_open.c). */
module Layout {
  import opened Keys

  type PgNo = nat

  const P_INVALID: PgNo := 0
  const P_ROOT: PgNo := 1

  const BTDATAOFF := 20      // page header
  const SLOT := 2            // sizeof(indx_t), one index slot
  const NOVFLSIZE := 8       // an overflow reference: page number and size
  const MINPSIZE := 512
  const MINCACHE := 5

  function LAlign(n: nat): (r: nat)
    ensures n <= r < n + 4 && r % 4 == 0
  {
    (n + 3) / 4 * 4
  }

  /** Bytes of a leaf item and of an internal item. */
  function NbLeaf(ksize: nat, dsize: nat): nat { LAlign(9 + ksize + dsize) }
  function NbInternal(ksize: nat): nat { LAlign(9 + ksize) }

  /** Stored data: on the page, or a reference to an overflow chain. */
  datatype Item = Inline(bytes: seq<Byte>) | Big(pgno: PgNo, size: nat)

  /** BLEAF and BINTERNAL entries. */
  datatype Val = Data(item: Item) | Child(pg: PgNo)
  datatype Ent = Ent(key: Key, val: Val)

  function ItemSize(i: Item): nat {
    match i
    case Inline(b) => |b|
    case Big(_, _) => NOVFLSIZE
  }

  function Nb(e: Ent): nat {
    match e.val
    case Data(i) => NbLeaf(|e.key|, ItemSize(i))
    case Child(_) => NbInternal(|e.key|)
  }

  datatype Kind = Leaf | Internal | Overflow

  /** A page as its users see it.  The index array and the item area of btree.h are the sequence
      `ents`; `lower` and `upper` are then 20 + 2n and psize minus the item bytes (module Slotted). */
  datatype Page = Page(kind: Kind, prev: PgNo, next: PgNo, ents: seq<Ent>, bytes: seq<Byte>)

  function Ins<T>(s: seq<T>, i: nat, e: T): (r: seq<T>)
    requires i <= |s|
  {
    s[..i] + [e] + s[i..]
  }

  function Del<T>(s: seq<T>, i: nat): (r: seq<T>)
    requires i < |s|
  {
    s[..i] + s[i + 1..]
  }

  /** Page bytes taken by the first `n` entries with their index slots. */
  function UpTo(s: seq<Ent>, n: nat): nat
    requires n <= |s|
  {
    if n == 0 then 0 else UpTo(s, n - 1) + Nb(s[n - 1]) + SLOT
  }

  function Used(s: seq<Ent>): nat { UpTo(s, |s|) }

  lemma {:induction false} UpToConcat(a: seq<Ent>, b: seq<Ent>, n: nat)
    requires n <= |a| + |b|
    ensures UpTo(a + b, n) == if n <= |a| then UpTo(a, n) else Used(a) + UpTo(b, n - |a|)
  {
    if n > 0 {
      UpToConcat(a, b, n - 1);
    }
  }

  lemma UsedConcat(a: seq<Ent>, b: seq<Ent>)
    ensures Used(a + b) == Used(a) + Used(b)
  {
    UpToConcat(a, b, |a| + |b|);
  }

  lemma UsedSplit(s: seq<Ent>, i: nat)
    requires i <= |s|
    ensures Used(s[..i]) == UpTo(s, i)
    ensures Used(s[..i]) + Used(s[i..]) == Used(s)
  {
    assert s == s[..i] + s[i..];
    UpToConcat(s[..i], s[i..], i);
    UsedConcat(s[..i], s[i..]);
  }

  lemma {:induction false} UsedIns(s: seq<Ent>, i: nat, e: Ent)
    requires i <= |s|
    ensures Used(Ins(s, i, e)) == Used(s) + Nb(e) + SLOT
  {
    UsedSplit(s, i);
    assert UpTo([e], 0) == 0;
    UsedConcat(s[..i], [e]);
    UsedConcat(s[..i] + [e], s[i..]);
  }

  lemma {:induction false} UsedDel(s: seq<Ent>, i: nat)
    requires i < |s|
    ensures Used(Del(s, i)) == Used(s) - Nb(s[i]) - SLOT
  {
    assert s == Ins(Del(s, i), i, s[i]);
    UsedIns(Del(s, i), i, s[i]);
  }

  /** `bt_ovflsize` as bt_open.c computes it in a 16-bit field. */
  function OvflSize(psize: nat, minkeypage: nat): nat
    requires psize >= BTDATAOFF && minkeypage > 0
  {
    var raw := ((psize - BTDATAOFF) / minkeypage - (SLOT + NbLeaf(0, 0))) % 0x1_0000;
    if raw < NbLeaf(NOVFLSIZE, NOVFLSIZE) + SLOT then NbLeaf(NOVFLSIZE, NOVFLSIZE) + SLOT else raw
  }

  /** Every pair kept inline takes at most half a page, slot included... */
  ghost predicate HalfPageRule(psize: nat, minkeypage: nat)
    requires psize >= BTDATAOFF && minkeypage > 0
  {
    forall k: nat, d: nat :: k + d <= OvflSize(psize, minkeypage) ==> NbLeaf(k, d) + SLOT <= (psize - BTDATAOFF) / 2
  }

  /** ... exactly when the threshold arithmetic does not wrap. */
  lemma ThresholdIsExact(psize: nat, minkeypage: nat)
    requires MINPSIZE <= psize <= 0xffff && minkeypage >= 2
    ensures HalfPageRule(psize, minkeypage) <==> (psize - BTDATAOFF) / minkeypage >= SLOT + NbLeaf(0, 0)
  {
    var q := (psize - BTDATAOFF) / minkeypage;
    QuotientAtMostHalf(psize - BTDATAOFF, minkeypage);
    if q < SLOT + NbLeaf(0, 0) {
      WrappedThreshold(psize, minkeypage);
      var k, d: nat := 0, 60000;
      assert k + d <= OvflSize(psize, minkeypage) && NbLeaf(k, d) + SLOT > (psize - BTDATAOFF) / 2;
    }
  }

  lemma WrappedThreshold(psize: nat, minkeypage: nat)
    requires MINPSIZE <= psize <= 0xffff && minkeypage >= 2
    requires (psize - BTDATAOFF) / minkeypage < SLOT + NbLeaf(0, 0)
    ensures OvflSize(psize, minkeypage) >= 60000
  {
  }

  /** Forty keys to a page of 512 bytes: pairs of more than half a page are kept on the page. */
  lemma TooManyKeys()
    ensures OvflSize(512, 40) == 65534 && !HalfPageRule(512, 40)
  {
    assert (512 - BTDATAOFF) / 40 == 12;
    ThresholdIsExact(512, 40);
  }

  /** What the threshold is for: as many inline pairs as the user asked for fit on a page... */
  ghost predicate KeysFit(psize: nat, minkeypage: nat)
    requires psize >= BTDATAOFF && minkeypage > 0
  {
    forall k: nat, d: nat :: k + d <= OvflSize(psize, minkeypage) ==> minkeypage * (NbLeaf(k, d) + SLOT) <= psize - BTDATAOFF
  }

  /** ... if and only if that leaves each of them 42 bytes. */
  lemma {:induction false} MinKeysFit(psize: nat, minkeypage: nat)
    requires MINPSIZE <= psize <= 0xffff && minkeypage >= 2
    ensures KeysFit(psize, minkeypage) <==> (psize - BTDATAOFF) / minkeypage >= 42
  {
    var q := (psize - BTDATAOFF) / minkeypage;
    forall x: nat
      ensures minkeypage * x <= psize - BTDATAOFF <==> x <= q
    {
      Shares(psize - BTDATAOFF, minkeypage, x);
    }
    if q < 42 {
      if q < SLOT + NbLeaf(0, 0) { WrappedThreshold(psize, minkeypage); }
      var k, d: nat := 0, 30;
      assert k + d <= OvflSize(psize, minkeypage) && NbLeaf(k, d) + SLOT == 42;
    }
  }

  lemma {:induction false} Shares(n: nat, d: nat, x: nat)
    requires d > 0
    ensures d * x <= n <==> x <= n / d
  {
    var q := n / d;
    assert n == d * q + n % d;
    if x <= q { assert d * x <= d * q; } else { assert d * x >= d * (q + 1) == d * q + d; }
  }

  lemma QuotientAtMostHalf(n: nat, d: nat)
    requires d >= 2
    ensures n / d <= n / 2
  {
    var q := n / d;
    assert n == d * q + n % d;
    assert d * q >= 2 * q;
  }
}
