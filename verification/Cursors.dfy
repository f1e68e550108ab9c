/** The cursor of a tree and what operations on a leaf do to it. */
module Cursors {
  import opened Keys
  import opened Layout
  import opened Shape
  import opened Records
  import opened Storage
  import opened Steps
  import opened Split
  import opened SplitSteps
  import opened Position

  /** CURS_INIT, CURS_ACQUIRE, the record the cursor is on and the key saved when that was deleted. */
  datatype Cursor = Cursor(init: bool, acquire: bool, pg: PgNo, idx: nat, key: Key)

  /** Flags and saved key agree. */
  ghost predicate SameMark(c: Cursor, c': Cursor) {
    c'.init == c.init && c'.acquire == c.acquire && c'.key == c.key
  }

  /** The cursor is on the record with key `k`. */
  ghost predicate Names(pages: Pages, sh: Shape, c: Cursor, k: Key) {
    && c.init && !c.acquire && c.pg in sh && c.pg in pages && sh[c.pg].lvl == 0
    && c.idx < |pages[c.pg].ents| && pages[c.pg].ents[c.idx].key == k
  }

  ghost predicate SamePages(pages: Pages, pages': Pages, sh: Shape) {
    forall p {:trigger p in sh} :: p in sh ==> p in pages && p in pages' && pages'[p] == pages[p]
  }

  /** A cursor, and the place of a key, are where they were if the pages of the tree are. */
  lemma {:induction false} SamePlaces(pages: Pages, pages': Pages, sh: Shape, c: Cursor, k: Key, h: PgNo, i: nat, exact: bool)
    requires SamePages(pages, pages', sh)
    ensures Names(pages', sh, c, k) <==> Names(pages, sh, c, k)
    ensures IsPosition(pages', sh, k, h, i, exact) <==> IsPosition(pages, sh, k, h, i, exact)
    ensures IsPosition(pages, sh, k, h, i, exact) ==> h in sh
  {
  }

  /** Record `i` of leaf `h`, with key `key`, is removed (`__bt_dleaf`, `__bt_curdel`). */
  function AfterRemove(c: Cursor, h: PgNo, i: nat, key: Key): Cursor {
    if c.init && !c.acquire && c.pg == h then
      if c.idx == i then c.(acquire := true, key := key)
      else if c.idx > i then c.(idx := c.idx - 1)
      else c
    else c
  }

  /** A record is inserted at index `i` of leaf `h` (`__bt_put`). */
  function AfterInsert(c: Cursor, h: PgNo, i: nat): Cursor {
    if c.init && !c.acquire && c.pg == h && c.idx >= i then c.(idx := c.idx + 1) else c
  }

  /** Page `h` is split around a slot at `skip`, `nl` of its entries going to page `l` and the rest to `r` (`bt_psplit`). */
  function AfterSplit(c: Cursor, h: PgNo, l: PgNo, r: PgNo, skip: nat, nl: nat): (c': Cursor)
    ensures SameMark(c, c') && (c.pg != h ==> c' == c)
  {
    if c.init && c.pg == h then
      var idx := if c.idx >= skip then c.idx + 1 else c.idx;
      if idx < nl then c.(pg := l, idx := idx) else c.(pg := r, idx := idx - nl)
    else c
  }

  /** The cursor follows its record when another is removed, and saves the key when its own is. */
  lemma {:induction false} RemoveMovesCursor(pages: Pages, sh: Shape, ht: nat, pages': Pages, c: Cursor, h: PgNo, i: nat, k: Key)
    requires TreeInv(pages, sh, ht, NoEx) && Names(pages, sh, c, k) && h in sh && sh[h].lvl == 0 && i < |pages[h].ents|
    requires h in pages' && pages'[h] == pages[h].(ents := Del(pages[h].ents, i))
    requires c.pg != h ==> c.pg in pages' && pages'[c.pg] == pages[c.pg]
    ensures var key := pages[h].ents[i].key; var c' := AfterRemove(c, h, i, key);
      if k == key then c'.acquire && c'.key == key else Names(pages', sh, c', k) && (c'.pg == h ==> pages'[h].ents != [])
  {
    assert PageOk(pages, sh, ht, NoEx, h) && PageOk(pages, sh, ht, NoEx, c.pg);
    if k == pages[h].ents[i].key {
      OnePlace(pages, sh, ht, NoEx, h, i, pages[h].ents[i], c.pg, c.idx, pages[c.pg].ents[c.idx]);
    }
  }

  /** Record `i` of leaf `h` was removed, and the leaf with it if it was the only one; no other leaf changed. */
  ghost predicate LeafDropped(pages: Pages, sh: Shape, pages': Pages, sh': Shape, h: PgNo, i: nat) {
    && h in pages && i < |pages[h].ents| && KeepsLeaves(pages, sh, pages', sh', h)
    && if |pages[h].ents| > 1 then h in sh' && sh'[h].lvl == 0 && h in pages' && pages'[h].ents == Del(pages[h].ents, i)
       else h in sh' ==> h in pages' && pages'[h].ents == []
  }

  lemma {:induction false} DropMovesCursor(pages: Pages, sh: Shape, ht: nat, pages': Pages, sh': Shape, c: Cursor, h: PgNo, i: nat, k: Key)
    requires TreeInv(pages, sh, ht, NoEx) && Names(pages, sh, c, k) && h in sh && sh[h].lvl == 0 && LeafDropped(pages, sh, pages', sh', h, i)
    ensures var key := pages[h].ents[i].key; var c' := AfterRemove(c, h, i, key);
      if k == key then c'.acquire && c'.key == key else Names(pages', sh', c', k)
  {
    RemoveMovesCursor(pages, sh, ht, pages[h := pages[h].(ents := Del(pages[h].ents, i))], c, h, i, k);
    if c.pg != h { assert c.pg in sh' && pages'[c.pg].ents == pages[c.pg].ents; }
  }

  /** The cursor follows its record across an insertion. */
  lemma {:induction false} InsertKeepsNames(pages: Pages, sh: Shape, c: Cursor, h: PgNo, i: nat, e: Ent)
    requires h in pages && i <= |pages[h].ents|
    ensures var pages' := pages[h := pages[h].(ents := Ins(pages[h].ents, i, e))];
      SameMark(c, AfterInsert(c, h, i)) && forall k {:trigger Names(pages, sh, c, k)} :: Names(pages, sh, c, k) ==> Names(pages', sh, AfterInsert(c, h, i), k)
  {
  }

  /** Where the cursor goes when leaf `h` is split around a slot at `skip`: a record appended to the last
      leaf leaves it alone. */
  ghost predicate CursorSplit(c: Cursor, c': Cursor, h: PgNo, n: nat, next: PgNo, l: PgNo, r: PgNo, skip: nat, nl: nat) {
    if next == 0 && skip == n then nl == n && c' == c else c' == AfterSplit(c, h, l, r, skip, nl)
  }

  /** A cursor on a leaf is still on one. */
  lemma {:induction false} CursorStaysOnLeaf(c: Cursor, c': Cursor, h: PgNo, n: nat, next: PgNo, l: PgNo, r: PgNo, skip: nat, nl: nat, pages: Pages, sh: Shape, pages1: Pages, sh1: Shape)
    requires CursorSplit(c, c', h, n, next, l, r, skip, nl) && KeepsLeaves(pages, sh, pages1, sh1, h) && (next == 0 ==> l == h)
    requires c.pg in sh && c.pg in pages && sh[c.pg].lvl == 0 && l in sh1 && r in sh1 && sh1[l].lvl == 0 && sh1[r].lvl == 0 && (c.init || l == h)
    ensures c'.pg in sh1 && sh1[c'.pg].lvl == 0
  {
  }

  /** Where a record went: to index `i` of leaf `h`, or to index `i` of the entries of `h`, of which `nl` went
      to the left half when it was split.  `slotLeft` says which half the record is on. */
  datatype Where = InPage(h: PgNo, i: nat) | AtSplit(h: PgNo, i: nat, nl: nat, slotLeft: bool)

  /** Where a record of `nb` bytes that belongs at index `i` of leaf `h` goes, given the leaf as it is. */
  ghost function Goes(page: Page, h: PgNo, i: nat, nb: nat, full: nat): (w: Where)
    ensures w.h == h && w.i == i
  {
    if Used(page.ents) + nb + SLOT <= full then InPage(h, i)
    else
      var cut := CutOf(page.ents, i, nb, full, h != P_ROOT && page.next == 0);
      AtSplit(h, i, cut.0, cut.1)
  }

  /** The leaf without the record that is overwritten, if one is. */
  ghost function Rest(page: Page, i: nat, exact: bool): Page {
    if exact && i < |page.ents| then page.(ents := Del(page.ents, i)) else page
  }

  /** The new record goes left of the cut and before the cursor's, which is at the cut or right of it. */
  ghost predicate Loses(c: Cursor, w: Where) {
    w.AtSplit? && c.init && !c.acquire && c.pg == w.h && w.slotLeft && w.i <= c.idx && w.nl <= c.idx + 1
  }

  /** Where a split puts entry `i`. */
  lemma {:induction false} CutIndex(ents: seq<Ent>, full: nat, skip: nat, ilen: nat, nl: nat, slot: bool, e: Ent, i: nat)
    requires GoodCut(ents, full, skip, ilen, nl, slot) && i < |ents|
    ensures var left, right := LeftOf(ents, nl, skip, slot, e), RightOf(ents, nl, skip, slot, e);
      && |left| == (if slot then nl + 1 else nl) && |right| == |ents| - nl + (if slot then 0 else 1)
      && (i < nl ==> left[if slot && skip <= i then i + 1 else i] == ents[i])
      && (nl <= i ==> right[if !slot && skip <= i then i + 1 - nl else i - nl] == ents[i])
  {
  }

  /** A split takes the cursor along with its record, except where `Loses` says: then it is one too far. */
  lemma {:induction false} SplitMovesCursor(pages: Pages, sh: Shape, pages': Pages, sh': Shape, full: nat, h: PgNo, skip: nat, e: Ent, l: PgNo, r: PgNo, nl: nat, slot: bool, c: Cursor, c': Cursor, next: PgNo, k: Key)
    requires SplitLeaf(pages, sh, pages', sh', full, h, skip, e, l, r, nl, slot) && h in sh && LeafOk(pages[h].ents, sh[h])
    requires Names(pages, sh, c, k) && CursorSplit(c, c', h, |pages[h].ents|, next, l, r, skip, nl) && (next == 0 ==> l == h)
    ensures Names(pages', sh', c', k) <==> !Loses(c, AtSplit(h, skip, nl, slot))
  {
    if c.pg != h {
      assert pages'[c.pg].ents == pages[c.pg].ents;
      return;
    }
    var ents := pages[h].ents;
    CutIndex(ents, full, skip, Nb(e), nl, slot, e, c.idx);
    if Loses(c, AtSplit(h, skip, nl, slot)) && c.idx + 1 < |ents| {
      CutIndex(ents, full, skip, Nb(e), nl, slot, e, c.idx + 1);
      assert Rank(ents[c.idx].key) < Rank(ents[c.idx + 1].key);
    }
  }

  /** On 512-byte pages: four records, the cursor on the second, and a small one put before them all. */
  method CursorSlips(h: PgNo, r: PgNo) returns (ents: seq<Ent>, e: Ent, c: Cursor, c': Cursor, left: seq<Ent>, right: seq<Ent>)
    requires h != r
    ensures Sized(ents, 492) && |ents| == 4 && Used(ents) + Nb(e) + SLOT > 492 && left + right == Ins(ents, 0, e)
    ensures c.init && !c.acquire && c.pg == h && c.idx == 1 && c'.pg == r && c'.idx < |right|
    ensures right[c'.idx] == ents[2] && ents[2].key != ents[1].key
  {
    ents, e := [Filler(1, 110), Filler(2, 110), Filler(3, 110), Filler(4, 110)], Ent([], Data(Inline([])));
    assert UpTo(ents, 1) == 122 && UpTo(ents, 2) == 244 && UpTo(ents, 3) == 366 && UpTo(ents, 4) == 488;
    var slotLeft, at, nl;
    left, right, slotLeft, at, nl := PSplit(ents, 0, Nb(e), 492, e);
    assert nl == 2;
    c := Cursor(true, false, h, 1, []);
    c' := AfterSplit(c, h, h, r, 0, nl);
  }
}
