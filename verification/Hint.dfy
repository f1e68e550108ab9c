/** The insertion hint of bt_put.c (`bt_fast`): appending or prepending without a search. */
module Hint {
  import opened Keys
  import opened Layout
  import opened Shape
  import opened Shrink
  import opened Records
  import opened Storage
  import opened Position
  import opened Search
  import opened Steps
  import opened Cursors

  datatype Order = NOT | BACK | FORWARD

  /** `bt_fast` takes page `h` and gives this index and answer.  `stale` is the key the first index slot
      of an emptied page still points at; an overflow page never has room. */
  ghost predicate FastHit(h: Page, order: Order, last: nat, key: Key, nb: nat, full: nat, stale: Key, index: nat, exact: bool) {
    && h.kind != Overflow && Used(h.ents) + nb + SLOT <= full
    && match order
       case NOT => false
       case FORWARD =>
         && h.next == 0 && last + 1 == |h.ents|
         && (if last == 0 && h.prev == 0 && h.kind != Leaf then !exact
             else Rank(h.ents[last].key) <= Rank(key) && (exact <==> key == h.ents[last].key))
         && index == (if exact then last else last + 1)
       case BACK =>
         var first := if h.ents == [] then stale else h.ents[0].key;
         h.prev == 0 && last == 0 && h.kind == Leaf && Rank(key) <= Rank(first) && (exact <==> key == first) && index == 0
  }

  /** The tests of `bt_fast`. */
  method FastProbe(h: Page, order: Order, last: nat, key: Key, nb: nat, full: nat, stale: Key) returns (hit: bool, index: nat, exact: bool)
    requires order != NOT
    ensures hit ==> FastHit(h, order, last, key, nb, full, stale, index, exact)
    ensures !hit ==> forall i, x :: !FastHit(h, order, last, key, nb, full, stale, i, x)
  {
    hit, index, exact := false, last, false;
    if h.kind == Overflow || Used(h.ents) + nb + SLOT > full {
      return;
    }
    var cmp;
    if order == FORWARD {
      if h.next != P_INVALID || last != |h.ents| - 1 {
        return;
      }
      cmp := BtCmp(key, h, index);
      if cmp < 0 {
        return;
      }
      index := if cmp != 0 then index + 1 else index;
    } else {
      if h.prev != P_INVALID || last != 0 {
        return;
      }
      if h.ents != [] {
        cmp := BtCmp(key, h, index);
      } else if h.kind == Leaf {
        cmp := DefCmp(key, stale);
      } else {
        cmp := 1;
      }
      if cmp > 0 {
        return;
      }
      index := 0;
    }
    hit, exact := true, cmp == 0;
  }

  /** `key` sorts from the last key of the last leaf on, or up to the first key of the first leaf. */
  ghost predicate Adjoins(h: Page, order: Order, last: nat, key: Key)
    requires h.ents != []
  {
    if order == FORWARD then h.next == 0 && last == |h.ents| - 1 && Rank(h.ents[|h.ents| - 1].key) <= Rank(key)
    else h.prev == 0 && last == 0 && Rank(key) <= Rank(h.ents[0].key)
  }

  /** Keys put in order need no search: those and no others hit, after or before the key they adjoin or on it. */
  lemma {:induction false} OrderHits(h: Page, order: Order, last: nat, key: Key, nb: nat, full: nat, stale: Key)
    requires h.kind == Leaf && h.ents != [] && order != NOT
    ensures (exists i: nat, x :: FastHit(h, order, last, key, nb, full, stale, i, x)) <==> Used(h.ents) + nb + SLOT <= full && Adjoins(h, order, last, key)
    ensures forall i: nat, x :: FastHit(h, order, last, key, nb, full, stale, i, x) ==>
      && (x <==> key == h.ents[if order == FORWARD then |h.ents| - 1 else 0].key)
      && i == if order == BACK then 0 else if x then |h.ents| - 1 else |h.ents|
  {
    var at := if order == FORWARD then |h.ents| - 1 else 0;
    var x := key == h.ents[at].key;
    var hit := FastHit(h, order, last, key, nb, full, stale, if order == FORWARD && !x then at + 1 else at, x);
  }

  /** A hit on page `p` is the place a search from the root finds if and only if `p` is a leaf of the
      tree, and if emptied has not left an equal key behind. */
  lemma {:induction false} HitIsPosition(pages: Pages, sh: Shape, ht: nat, p: PgNo, order: Order, last: nat, key: Key, nb: nat, full: nat, stale: Key, index: nat, exact: bool)
    requires TreeInv(pages, sh, ht, NoEx) && p in pages && FastHit(pages[p], order, last, key, nb, full, stale, index, exact)
    ensures IsPosition(pages, sh, key, p, index, exact) <==> p in sh && sh[p].lvl == 0 && (pages[p].ents == [] ==> stale != key)
  {
    if p in sh && sh[p].lvl == 0 && (pages[p].ents == [] ==> stale != key) {
      assert PageOk(pages, sh, ht, NoEx, p);
      if pages[p].ents != [] {
        RankIsLexicographic(key, pages[p].ents[if order == BACK then 0 else last].key);
      }
    }
  }

  /** On a page without entries only a hint to prepend can hit, and only for a key not after the stale one. */
  lemma {:induction false} HitOnEmptied(h: Page, order: Order, last: nat, key: Key, nb: nat, full: nat, stale: Key, index: nat, exact: bool)
    requires h.ents == []
    ensures FastHit(h, order, last, key, nb, full, stale, index, exact) <==>
      h.kind == Leaf && nb + SLOT <= full && order == BACK && h.prev == 0 && last == 0 && NotAfter(key, stale) && index == 0 && (exact <==> key == stale)
  {
    NotAfterRank(key, stale);
  }

  // ---------------------------------------------------------------- what becomes of the hinted page

  /** Page `p`, if there is a hint, is a leaf with records, and the first leaf if the hint is to prepend. */
  ghost predicate Live(pages: Pages, sh: Shape, order: Order, p: PgNo, last: nat) {
    order != NOT ==>
      && p in sh && p in pages && sh[p].lvl == 0 && pages[p].ents != []
      && (order == BACK ==> p != P_ROOT && last == 0 && sh[p].lo == BOTTOM)
  }

  /** Page `p` has no records left.  It is the emptied root or a freed leaf, or an overflow page by now.  Under
      a hint to prepend every record left sorts after `stale`, the last one that was on it. */
  ghost predicate Spent(pages: Pages, sh: Shape, recs: Recs, order: Order, p: PgNo, last: nat, stale: Key) {
    && p in pages && p != 0 && pages[p].ents == []
    && match pages[p].kind
       case Overflow => p !in sh
       case Leaf => if order == BACK then p !in sh && last == 0 && AllAfter(recs, stale) else p in sh ==> p == P_ROOT
       case Internal => false
  }

  /** Record `i` of leaf `h` goes, and the leaf with it if it was the only one. */
  ghost predicate Deletes(pages: Pages, sh: Shape, recs: Recs, pages': Pages, sh': Shape, recs': Recs, h: PgNo, i: nat) {
    && LeafDropped(pages, sh, pages', sh', h, i) && KeepsRest(pages, sh.Keys, pages') && KeepsFirst(sh, sh')
    && (h in sh' ==> h == P_ROOT || |pages[h].ents| > 1) && recs'.Keys == recs.Keys - {pages[h].ents[i].key}
    && h in pages' && pages'[h].kind == Leaf && pages'[h].ents == Del(pages[h].ents, i)
  }

  /** With the only record of the first leaf gone, the rest sort after it. */
  lemma {:induction false} FirstGone(pages: Pages, sh: Shape, ht: nat, recs: Recs, h: PgNo, k: Key)
    requires TreeInv(pages, sh, ht, NoEx) && Holds(pages, sh, recs) && h in sh && sh[h].lvl == 0 && |pages[h].ents| == 1
    requires sh[h].lo == BOTTOM && k in recs && k != pages[h].ents[0].key
    ensures Rank(pages[h].ents[0].key) < Rank(k)
  {
    assert PageOk(pages, sh, ht, NoEx, h);
    var i := OnLeafOrOutside(pages, sh, ht, recs, h, k);
  }

  lemma {:induction false} DeleteKeepsHint(pages: Pages, sh: Shape, ht: nat, recs: Recs, pages': Pages, sh': Shape, recs': Recs, h: PgNo, i: nat,
                                           order: Order, p: PgNo, last: nat, stale: Key, stale': Key)
    requires TreeInv(pages, sh, ht, NoEx) && Holds(pages, sh, recs) && h in sh && sh[h].lvl == 0 && i < |pages[h].ents|
    requires Deletes(pages, sh, recs, pages', sh', recs', h, i) && (Live(pages, sh, order, p, last) || Spent(pages, sh, recs, order, p, last, stale))
    requires stale' == if order != NOT && p == h && |pages[h].ents| == 1 then pages[h].ents[i].key else stale
    ensures Live(pages', sh', order, p, last) || Spent(pages', sh', recs', order, p, last, stale')
  {
    assert PageOk(pages, sh, ht, NoEx, h);
    if p in sh { assert PageOk(pages, sh, ht, NoEx, p); }
    if Live(pages, sh, order, p, last) {
      if order != NOT && p != h { assert p in sh' && sh'[p].lvl == 0; }
      if order == BACK && p == h && |pages[h].ents| == 1 {
        forall k | k in recs'
          ensures Rank(stale') < Rank(k)
        {
          FirstGone(pages, sh, ht, recs, h, k);
        }
      }
    } else if p !in sh {
      assert BodyKept(pages, pages', p);
    }
  }

  /** A file of four 512-byte pages whose two leaves have been emptied and freed, the first while a hint to
      prepend was on it: a smaller key goes to the freed page, and the root is where a search looks for it. */
  lemma {:induction false} HitOnFreedPage() returns (d: Disk, key: Key, stale: Key)
    ensures DiskOk(d, 492) && TreeOn(d, 492, LoneRoot(), 0, map[], NoEx) && d.npages == 4 && d.book.freeSeq == [2, 3]
    ensures Spent(d.pages, LoneRoot(), map[], BACK, 2, 0, stale) && FastHit(d.pages[2], BACK, 0, key, NbLeaf(1, 0), 492, stale, 0, false)
    ensures IsPosition(d.pages, LoneRoot(), key, P_ROOT, 0, false) && !IsPosition(d.pages, LoneRoot(), key, 2, 0, false)
  {
    var empty := Page(Leaf, 0, 0, [], []);
    var pages := map[0 := empty, P_ROOT := empty, 2 := empty, 3 := empty.(next := 2)];
    d := Disk(pages, 4, 3, Book(map[0 := Meta, P_ROOT := Tree, 2 := Free(0), 3 := Free(1)], [2, 3], map[]));
    key, stale := [1], [2];
    CollapseTree(pages);
    DifferenceOrders(key, stale, 0);
    assert FreeAt(d.pages, d.book.owner, d.book.freeSeq, 0) && FreeAt(d.pages, d.book.owner, d.book.freeSeq, 1);
    forall p
      ensures p in LoneRoot() <==> Owns(d, p, Tree)
    {
    }
    assert Fits(d.pages, 492, P_ROOT);
  }
}
