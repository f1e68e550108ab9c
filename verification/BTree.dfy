/** The B+tree over the page store: search, insertion, deletion and scans. */
module Btree {
  import opened Keys
  import opened Layout
  import opened Split
  import opened Shape
  import opened Grow
  import opened Shrink
  import opened Records
  import opened Position
  import opened Storage
  import opened PageStore
  import Calls
  import opened Steps
  import opened SplitSteps
  import opened Search
  import opened Hint
  import opened Sideways
  import opened Items
  import opened Cursors

  const RET_ERROR := -1
  const RET_SUCCESS := 0
  const RET_SPECIAL := 1

  const R_CURSOR := 1
  const R_FIRST := 3
  const R_LAST := 6
  const R_NEXT := 7
  const R_NOOVERWRITE := 8
  const R_PREV := 9

  /** What a put should answer, and leave behind. */
  function PutStatus(m: map<Key, seq<Byte>>, key: Key, flags: nat): int {
    if flags == R_NOOVERWRITE && key in m then RET_SPECIAL else RET_SUCCESS
  }

  function PutModel(m: map<Key, seq<Byte>>, key: Key, data: seq<Byte>, flags: nat): map<Key, seq<Byte>> {
    if PutStatus(m, key, flags) == RET_SUCCESS then m[key := data] else m
  }

  class BTree {
    const st: Store
    const minkeypage: nat
    const ovflsize: nat
    const rdonly: bool
    var stack: seq<Epg>         // bt_stack
    var pinned: PgNo            // bt_pinned, 0 if none
    var cur: Cursor             // bt_cursor
    // bt_order, bt_last
    var order: Order
    var lastPg: PgNo
    var lastIdx: nat
    var stale: Key              // the key the first slot of the hinted page still refers to when it is emptied
    ghost var sh: Shape
    ghost var ht: nat
    ghost var recs: Recs

    function Full(): nat { if st.psize > BTDATAOFF then st.psize - BTDATAOFF else 0 }

    /** The settings bt_open.c accepts, with a threshold that does not wrap (see `ThresholdIsExact`). */
    ghost predicate Conf() {
      && MINPSIZE <= st.psize <= 0xffff && minkeypage >= 2
      && (st.psize - BTDATAOFF) / minkeypage >= SLOT + NbLeaf(0, 0) && ovflsize == OvflSize(st.psize, minkeypage)
    }

    /** The tree is in order up to `ex`, and the store is. */
    ghost predicate Ok(ex: Ex)
      reads this, st
    {
      Conf() && st.Valid() && TreeOn(st.D(), Full(), sh, ht, recs, ex)
    }

    ghost predicate Valid()
      reads this, st
    {
      && Ok(NoEx) && ItemsOk(recs, st.book.chains)
      && st.touched == {} && st.pins == (if pinned == 0 then {} else {pinned}) && (pinned != 0 ==> pinned in sh)
    }

    /** `__bt_open` on an empty file. */
    constructor (psize: nat, minkeypage: nat, rdonly: bool, junk: Page)
      requires MINPSIZE <= psize <= 0xffff && minkeypage >= 2 && (psize - BTDATAOFF) / minkeypage >= SLOT + NbLeaf(0, 0)
      ensures Valid() && fresh(st) && this.rdonly == rdonly && recs == map[] && order == NOT && !cur.init && pinned == 0
      ensures Model() == map[] && Lost() == {} && sh == LoneRoot()
      ensures st.psize == psize && this.minkeypage == minkeypage && st.junk == junk
      ensures st.AsUser() == NewUser(junk)
    {
      st := new Store(psize, junk);
      this.minkeypage, ovflsize, this.rdonly := minkeypage, OvflSize(psize, minkeypage), rdonly;
      stack, pinned := [], 0;
      cur := Cursor(false, false, 0, 0, []);
      order, lastPg, lastIdx, stale := NOT, 0, 0, [];
      sh, ht, recs := LoneRoot(), 0, map[];
      new;
      CollapseTree(st.pages);
      EmptyTree(st.D(), Full());
    }

    lemma {:induction false} EmptyTree(d: Disk, full: nat)
      requires TreeInv(d.pages, LoneRoot(), 0, NoEx) && d.pages[P_ROOT].ents == []
      requires d.book.owner == map[0 := Meta, P_ROOT := Tree]
      ensures TreeOn(d, full, LoneRoot(), 0, map[], NoEx)
    {
    }

    /** Pinned tree pages satisfy what the store asks of pins. */
    lemma {:induction false} TreePinsOk()
      requires TreeOn(st.D(), Full(), sh, ht, recs, NoEx) && st.pins <= sh.Keys && st.touched <= st.pins && |st.pins| <= MINCACHE
      ensures st.PinsOk() && st.TreePins()
    {
      forall p | p in st.pins
        ensures Owns(st.D(), p, Tree)
      {
        assert p in sh;
      }
    }

    // ---------------------------------------------------------------- bt_search.c

    /** `__bt_search`: descends to the leaf for `key`, recording the path; the leaf stays pinned. */
    method BtSearch(key: Key) returns (h: PgNo, index: nat, exact: bool)
      requires Ok(NoEx) && st.pins == {} && st.touched == {}
      modifies `stack, st`pins, st`calls, st`touched
      ensures Ok(NoEx) && st.pins == {h} && st.touched == {}
      ensures IsPosition(st.pages, sh, key, h, index, exact) && IsPath(sh, ht, stack, h)
    {
      stack := [];
      h := P_ROOT;
      assert PageOk(st.pages, sh, ht, NoEx, P_ROOT);
      while true
        invariant st.Traced() && st.pins == {} && st.touched == {} && IsPath(sh, ht, stack, h) && sh[h].lo <= Rank(key) < sh[h].hi
        decreases sh[h].lvl
      {
        st.Get(h);
        assert PageOk(st.pages, sh, ht, NoEx, h);
        PageSorted(st.pages, sh, ht, h);
        index, exact := Probe(key, st.pages[h]);
        if st.pages[h].kind == Leaf {
          TreePinsOk();
          return;
        }
        if !exact && index > 0 {
          index := index - 1;
        }
        RouteCovers(st.pages, sh, ht, h, Rank(key), index);
        PathPush(sh, ht, stack, h, st.pages[h].ents[index].val.pg);
        stack := stack + [Epg(h, index)];
        var child := st.pages[h].ents[index].val.pg;
        st.Put(h, false);
        h := child;
      }
    }

    // ---------------------------------------------------------------- bt_get.c

    ghost function Model(): map<Key, seq<Byte>>
      reads this, st
    {
      ModelOf(recs, st.book.chains)
    }

    /** The chains no record refers to. */
    ghost function Lost(): set<PgNo>
      reads this, st
    {
      Orphans(recs, st.book.chains)
    }

    /** Every call first releases the page left pinned by the one before. */
    method Toss()
      requires Valid()
      modifies `pinned, st`pins, st`calls, st`touched
      ensures Valid() && pinned == 0 && st.pins == {}
    {
      if pinned != P_INVALID {
        st.Put(pinned, false);
        pinned := P_INVALID;
      }
    }

    /** `__bt_ret`: the data of a record, collected from its chain if it is big. */
    method BtRet(h: PgNo, index: nat) returns (data: seq<Byte>)
      requires Ok(NoEx) && ItemsOk(recs, st.book.chains) && st.pins == {h} && st.touched == {}
      requires h in sh && sh[h].lvl == 0 && index < |st.pages[h].ents|
      modifies st`pins, st`calls, st`touched
      ensures Ok(NoEx) && st.pins == {h} && st.touched == {}
      ensures var k := st.pages[h].ents[index].key; k in recs && data == Value(recs[k], st.book.chains)
    {
      OnLeaf(st.pages, sh, ht, recs, h, index);
      TreePinsOk();
      match st.pages[h].ents[index].val.item
      case Inline(bytes) => data := bytes;
      case Big(pg, size) => data := st.OvflGet(pg, size);
    }

    /** `__bt_get`. */
    method Get(key: Key, flags: nat) returns (status: int, data: seq<Byte>)
      requires Valid()
      modifies `stack, `pinned, st`pins, st`calls, st`touched
      ensures Valid()
      ensures flags != 0 ==> status == RET_ERROR
      ensures flags == 0 ==> status == (if key in Model() then RET_SUCCESS else RET_SPECIAL)
      ensures status == RET_SUCCESS ==> data == Model()[key]
    {
      hide DiskOk, ItemsOk, Orphans, Calls.Trace;
      Toss();
      data := [];
      if flags != 0 {
        return RET_ERROR, data;
      }
      var h, index, exact := BtSearch(key);
      PositionFinds(st.pages, sh, ht, recs, key, h, index, exact);
      if !exact {
        st.Put(h, false);
        return RET_SPECIAL, data;
      }
      data := BtRet(h, index);
      pinned := h;
      status := RET_SUCCESS;
    }

    /** The hinted page, if there is a hint, is a leaf with records (see `HitIsPosition`). */
    ghost predicate HintLive()
      reads this, st
    {
      Live(st.pages, sh, order, lastPg, lastIdx)
    }

    /** The hinted page has no records left. */
    ghost predicate HintSpent()
      reads this, st
    {
      Spent(st.pages, sh, recs, order, lastPg, lastIdx, stale)
    }

    /** What every operation keeps of the hint, but for a put that strays. */
    ghost predicate HintOk()
      reads this, st
    {
      HintLive() || HintSpent()
    }

    /** `bt_fast` would take the hinted page, a leaf that was emptied, for `key`. */
    predicate Strays(key: Key)
      reads this, st
    {
      order == BACK && lastPg in st.pages && st.pages[lastPg].kind == Leaf && st.pages[lastPg].ents == [] && NotAfter(key, stale)
    }

    /** The same before `data` is stored, which may turn the page into an overflow page. */
    predicate StaleHit(key: Key, data: seq<Byte>)
      reads this, st
    {
      Strays(key) && !(|key| + |data| > ovflsize && Full() > 0 && TakesPage(st.pages, Full(), st.free, |data|, lastPg))
    }

    /** Deleting `key` does not take the only record of the hinted page. */
    predicate HintSpared(key: Key)
      reads this, st
    {
      order != NOT && lastPg in st.pages && |st.pages[lastPg].ents| == 1 ==> st.pages[lastPg].ents[0].key != key
    }

    lemma {:induction false} HintOnLeaf(key: Key, h: PgNo, index: nat)
      requires Ok(NoEx) && HintLive() && h in sh && sh[h].lvl == 0 && index < |st.pages[h].ents| && st.pages[h].ents[index].key == key
      ensures HintSpared(key) <==> order == NOT || lastPg != h || |st.pages[h].ents| > 1
    {
      assert PageOk(st.pages, sh, ht, NoEx, h);
      if order != NOT && |st.pages[lastPg].ents| == 1 && st.pages[lastPg].ents[0].key == key {
        assert PageOk(st.pages, sh, ht, NoEx, lastPg);
        OnePlace(st.pages, sh, ht, NoEx, h, index, st.pages[h].ents[index], lastPg, 0, st.pages[lastPg].ents[0]);
      }
    }

    // ---------------------------------------------------------------- bt_delete.c

    /** The data of a record that is about to go leaves its chain. */
    method DropData(h: PgNo, item: Item)
      requires Ok(NoEx) && st.pins == {h} && st.touched == {} && h in sh && ItemOk(item, st.book.chains)
      modifies st`pages, st`free, st`pins, st`touched, st`book, st`calls
      ensures Ok(NoEx) && st.pins == {h} && st.touched == {} && st.book.chains == Without(old(st.book).chains, item)
      ensures KeepsRest(old(st.pages), {}, st.pages) && sh.Keys <= st.pages.Keys
      ensures forall p {:trigger st.pages[p]} :: p in sh ==> p in old(st.pages) && st.pages[p] == old(st.pages)[p]
    {
      ghost var d := st.D();
      TreePinsOk();
      if item.Big? {
        st.OvflDelete(item.pgno, item.size);
        TreeElsewhere(d, st.D(), Full(), sh, ht, recs, NoEx);
        DroppedKeepsRest(d, st.D(), Full(), item.pgno);
        forall p | p in sh
          ensures p in d.pages && st.pages[p] == d.pages[p]
        {
          assert Owns(d, p, Tree) && SameElsewhere(d, st.D(), p);
        }
      }
    }

    /** `__bt_dleaf`: removes a record and its overflow chain; the leaf may be left empty. */
    method BtDleaf(h: PgNo, index: nat)
      requires Ok(NoEx) && ItemsOk(recs, st.book.chains) && st.pins == {h} && st.touched == {}
      requires h in sh && sh[h].lvl == 0 && index < |st.pages[h].ents|
      modifies `cur, `recs, `stale, st`pages, st`free, st`pins, st`calls, st`touched, st`book
      ensures Ok(Ex(0, 0, h)) && ItemsOk(recs, st.book.chains) && st.pins == {h}
      ensures KeepsRest(old(st.pages), {h}, st.pages)
      ensures stale == if order != NOT && lastPg == h && |old(st.pages)[h].ents| == 1 then old(st.pages)[h].ents[index].key else old(stale)
      ensures var key := old(st.pages)[h].ents[index].key;
        && key in old(recs) && recs == old(recs) - {key} && Model() == old(Model()) - {key}
        && cur == AfterRemove(old(cur), h, index, key) && st.book.chains == Without(old(st.book).chains, old(recs)[key])
        && IsSlot(Del(old(st.pages)[h].ents, index), key, index, false)
      ensures st.pages[h] == old(st.pages)[h].(ents := Del(old(st.pages)[h].ents, index))
      ensures forall p {:trigger st.pages[p]} :: p in sh && p != h ==> st.pages[p] == old(st.pages)[p]
      ensures h in st.pages && sh.Keys <= st.pages.Keys && KeepsLeaves(old(st.pages), sh, st.pages, sh, h)
      ensures Lost() == old(Lost())
    {
      ghost var pages0 := st.pages;
      var e := st.pages[h].ents[index];
      OnLeaf(st.pages, sh, ht, recs, h, index);
      hide Orphans, ModelOf, ItemsOk, DiskOk, TreeOn, KeepsRest, KeepsLeaves, IsSlot, Calls.Trace;
      ItemGoes(recs, st.book.chains, e.key);
      OrphansGo(recs, st.book.chains, e.key);
      cur := AfterRemove(cur, h, index, e.key);
      DropData(h, e.val.item);
      if order != NOT && lastPg == h && |st.pages[h].ents| == 1 {
        stale := e.key;
      }
      ghost var pages1 := st.pages;
      TakeOff(h, index);
      OneChanged(pages0, pages1, h, st.pages[h]);
      KeepsLeavesSame(pages0, st.pages, sh, h);
    }

    /** A record comes off its leaf. */
    method TakeOff(h: PgNo, index: nat)
      requires Ok(NoEx) && st.pins == {h} && h in sh && sh[h].lvl == 0 && index < |st.pages[h].ents|
      modifies `recs, st`pages, st`touched, st`calls
      ensures Ok(Ex(0, 0, h)) && h in old(st.pages)
      ensures st.pages == old(st.pages)[h := old(st.pages)[h].(ents := Del(old(st.pages)[h].ents, index))]
      ensures var key := old(st.pages)[h].ents[index].key;
        key in old(recs) && recs == old(recs) - {key} && IsSlot(Del(old(st.pages)[h].ents, index), key, index, false)
    {
      StepRemove(st.D(), Full(), sh, ht, recs, h, index);
      PageOn(st.D(), Full(), sh, ht, recs, NoEx, h);
      hide DiskOk, TreeOn, PageOk, Fits, IsSlot, Calls.Trace;
      var key, page := st.pages[h].ents[index].key, st.pages[h].(ents := Del(st.pages[h].ents, index));
      TreePagesFree(st.D(), st.pages[h := page], Full());
      st.Write(h, page);
      recs := recs - {key};
    }

    lemma {:induction false} OneChanged(pages: Pages, pages1: Pages, h: PgNo, page: Page)
      requires KeepsRest(pages, {}, pages1)
      ensures KeepsRest(pages, {h}, pages1[h := page])
    {
      forall p | p in pages && p != h
        ensures BodyKept(pages, pages1[h := page], p)
      {
        assert BodyKept(pages, pages1, p);
      }
    }

    /** `__bt_relink`: links around a page. */
    method BtRelink(h: PgNo)
      requires st.Traced() && h in st.pages && |st.pins| < MINCACHE && st.touched <= st.pins
      requires var n := st.pages[h].next; n != 0 ==> n in st.pages && n !in st.pins
      requires var q := st.pages[h].prev; q != 0 ==> q in st.pages && q !in st.pins
      requires h != st.pages[h].next && h != st.pages[h].prev
      modifies st`pages, st`pins, st`calls, st`touched
      ensures st.Traced() && st.pages == RelinkPages(old(st.pages), h) && st.pins == old(st.pins) && st.touched == old(st.touched)
    {
      var n, q := st.pages[h].next, st.pages[h].prev;
      if n != P_INVALID {
        st.Get(n);
        st.Write(n, st.pages[n].(prev := q));
        st.Put(n, true);
      }
      if q != P_INVALID {
        st.Get(q);
        st.Write(q, st.pages[q].(next := n));
        st.Put(q, true);
      }
    }

    /** A page of the tree is unlinked from its level and freed. */
    method Unhook(x: PgNo, ghost pages: Pages, ghost base: Pages, ghost ex: Ex, ghost gone: set<PgNo>)
      requires Conf() && st.Valid() && x in st.pins && |st.pins| < MINCACHE && st.pins <= sh.Keys
      requires LinksOf(pages, base, sh, ht, ex) && Unhooked(base, st.D(), sh, gone) && Next(sh, gone, x)
      requires forall p :: p in st.pins && p != x ==> sh[p].lvl != sh[x].lvl
      modifies st`pages, st`free, st`pins, st`calls, st`touched, st`book
      ensures st.Valid() && Unhooked(base, st.D(), sh, gone + {x}) && st.book.chains == old(st.book).chains
      ensures st.pins == old(st.pins) - {x} && st.touched == old(st.touched) - {x}
    {
      StepUnhook(pages, base, st.D(), Full(), sh, ht, ex, gone, x);
      RelinkDisk(pages, base, st.D(), Full(), sh, ht, ex, gone, x);
      assert PageOk(pages, sh, ht, ex, x);
      BtRelink(x);
      st.BtFree(x);
    }

    /** The parent of the chain keeps its links and takes a new set of entries. */
    method TrimParent(g: PgNo, page: Page, ghost d0: Disk, ghost gone: set<PgNo>)
      requires Conf() && st.Valid() && g in st.pins && g in sh && g !in gone && Unhooked(d0.pages, st.D(), sh, gone)
      requires page.prev == d0.pages[g].prev && page.next == d0.pages[g].next && Around(d0.pages, gone, g) == d0.pages[g]
      modifies st`pages, st`pins, st`calls, st`touched
      ensures st.Valid() && Unhooked(d0.pages[g := page], st.D(), sh, gone)
      ensures st.pins == old(st.pins) - {g} && st.touched == old(st.touched) - {g}
    {
      assert Owns(st.D(), g, Tree);
      UnhookEntry(d0.pages, st.D(), sh, gone, g, page);
      TreePagesFree(st.D(), st.pages[g := page], Full());
      st.Write(g, page);
      st.Put(g, true);
    }

    /** One round of the loop of `__bt_pdelete`: a parent whose only entry leads to the emptied page is
        unlinked and freed; otherwise the entry leaves it, or the root becomes an empty leaf. */
    method DropParent(h: PgNo, pg: PgNo, index: nat, ghost d0: Disk, ghost chain: seq<PgNo>, ghost gone: set<PgNo>)
      returns (more: bool, ghost page: Page)
      requires Conf() && st.Valid() && st.pins == {h} && Pruning(d0, st.D(), Full(), sh, ht, recs, chain, gone) && chain[0] == h
      requires var x := chain[|chain| - 1]; x in sh && pg == sh[x].up && index == sh[x].at
      modifies st`pages, st`free, st`pins, st`calls, st`touched, st`book
      ensures st.Valid() && st.pins == {h} && st.book.chains == old(st.book).chains
      ensures more ==> Pruning(d0, st.D(), Full(), sh, ht, recs, chain + [pg], gone + {pg})
      ensures !more ==> Cleared(h, d0, st.D(), sh, ht, chain, gone, pg, page)
    {
      hide DiskOk, TreeOn;
      ghost var d := st.D();
      PruneParent(d0, d, Full(), sh, ht, recs, chain, gone);
      assert Owns(d, pg, Tree);
      st.Get(pg);
      page := st.pages[pg];
      if |st.pages[pg].ents| == 1 && pg != P_ROOT {
        Unhook(pg, d0.pages, d0.pages, Ex(0, 0, h), gone);
        PruneUp(d0, d, st.D(), Full(), sh, ht, recs, chain, gone, pg);
        return true, page;
      }
      var p := if |st.pages[pg].ents| == 1 then st.pages[pg].(kind := Leaf, ents := [])
               else st.pages[pg].(ents := Del(st.pages[pg].ents, index));
      TrimParent(pg, p, d0, gone);
      return false, p;
    }

    /** The loop of `__bt_pdelete` over the parents of an emptied leaf. */
    method DropAncestors(h: PgNo) returns (ghost chain: seq<PgNo>, ghost gone: set<PgNo>, ghost g: PgNo, ghost page: Page)
      requires Ok(Ex(0, 0, h)) && h in sh && h != P_ROOT && sh[h].lvl == 0 && st.pages[h].ents == []
      requires st.pins == {h} && IsPath(sh, ht, stack, h)
      modifies `stack, st`pages, st`free, st`pins, st`calls, st`touched, st`book
      ensures st.Valid() && st.pins == {h} && st.book.chains == old(st.book).chains
      ensures Cleared(h, old(st.D()), st.D(), sh, ht, chain, gone, g, page)
    {
      ghost var d0 := st.D();
      chain, gone := [h], {};
      PruneStart(d0, Full(), sh, ht, recs, h);
      while true
        invariant st.Valid() && st.pins == {h} && st.book.chains == d0.book.chains
        invariant Pruning(d0, st.D(), Full(), sh, ht, recs, chain, gone) && chain[0] == h
        invariant IsPath(sh, ht, stack, chain[|chain| - 1])
        decreases |stack|
      {
        PruneParent(d0, st.D(), Full(), sh, ht, recs, chain, gone);
        ParentOnStack(d0.pages, Ex(0, 0, h), chain[|chain| - 1]);
        var parent := stack[|stack| - 1];
        stack := stack[..|stack| - 1];
        var more;
        more, page := DropParent(h, parent.pgno, parent.index, d0, chain, gone);
        if !more {
          g := parent.pgno;
          break;
        }
        chain, gone := chain + [parent.pgno], gone + {parent.pgno};
      }
    }

    lemma {:induction false} ParentOnStack(pages: Pages, ex: Ex, x: PgNo)
      requires TreeInv(pages, sh, ht, ex) && x in sh && x != P_ROOT && IsPath(sh, ht, stack, x)
      ensures |stack| > 0
      ensures var e := stack[|stack| - 1]; e == Epg(sh[x].up, sh[x].at) && IsPath(sh, ht, stack[..|stack| - 1], e.pgno)
    {
      assert PageOk(pages, sh, ht, ex, x);
      PathPop(sh, ht, stack, x);
    }

    /** `__bt_pdelete`: takes an emptied leaf out of the tree, with every ancestor this empties. */
    method BtPdelete(h: PgNo)
      requires Ok(Ex(0, 0, h)) && h in sh && sh[h].lvl == 0 && st.pages[h].ents == [] && st.pins == {h}
      requires IsPath(sh, ht, stack, h)
      modifies `stack, `sh, `ht, st`pages, st`free, st`pins, st`calls, st`touched, st`book
      ensures Ok(NoEx) && st.pins == {} && st.touched == {} && st.book.chains == old(st.book).chains
      ensures KeepsLeaves(old(st.pages), old(sh), st.pages, sh, h)
      ensures if h == P_ROOT then st.pages == old(st.pages) && sh == old(sh) else h !in sh
      ensures KeepsRest(old(st.pages), old(sh).Keys - {h}, st.pages) && KeepsFirst(old(sh), sh)
    {
      ghost var d0 := st.D();
      if h == P_ROOT {
        NotEmpty(d0, Full(), sh, ht, recs, h);
        st.Put(h, true);
        return;
      }
      ghost var chain, gone, g, page := DropAncestors(h);
      ghost var d := st.D();
      Unhook(h, d0.pages, d0.pages[g := page], Ex(0, 0, h), gone);
      PruneShape(h, d0, d, chain, gone, g, page);
    }

    /** The shape of the tree once the leaf is out. */
    ghost method PruneShape(h: PgNo, d0: Disk, d: Disk, chain: seq<PgNo>, gone: set<PgNo>, g: PgNo, page: Page)
      requires TreeOn(d0, Full(), sh, ht, recs, Ex(0, 0, h)) && Cleared(h, d0, d, sh, ht, chain, gone, g, page)
      requires Unhooked(d0.pages[g := page], st.D(), sh, gone + {h})
      modifies `sh, `ht
      ensures TreeOn(st.D(), Full(), sh, ht, recs, NoEx) && KeepsLeaves(d0.pages, old(sh), st.pages, sh, h) && h !in sh
      ensures KeepsRest(d0.pages, old(sh).Keys - {h}, st.pages) && KeepsFirst(old(sh), sh)
    {
      PruneKeepsRest(h, d0, d, st.D(), Full(), sh, ht, recs, chain, gone, g, page);
      StepPrune(h, d0, d, st.D(), Full(), sh, ht, recs, chain, gone, g, page);
      assert !Owns(st.D(), h, Tree);
      sh, ht := PrunedShape(d0.pages, sh, chain, g), if |d0.pages[g].ents| == 1 then 0 else ht;
    }

    /** Up the stack to the first parent with a further entry, and one entry on there. */
    method ClimbRight(h: PgNo) returns (level: nat, g: PgNo, index: nat, ghost x: PgNo)
      requires Ok(NoEx) && st.pins == {} && st.touched == {} && h in sh && sh[h].lvl == 0 && sh[h].hi != TOP
      requires IsPath(sh, ht, stack, h)
      modifies `stack, st`pins, st`calls, st`touched
      ensures st.Traced() && st.pins == {g} && st.touched == {} && IsChild(st.pages, sh, g, index, x)
      ensures IsPath(sh, ht, stack, x) && sh[x].lvl == level && sh[x].lo == sh[h].hi
    {
      level, x := 0, h;
      while true
        invariant st.Traced() && st.pins == {} && st.touched == {} && IsPath(sh, ht, stack, x) && sh[x].lvl == level && sh[x].hi == sh[h].hi
        decreases |stack|
      {
        assert PageOk(st.pages, sh, ht, NoEx, x);
        UpRight(st.pages, sh, ht, x);
        PathPop(sh, ht, stack, x);
        var parent := stack[|stack| - 1];
        stack := stack[..|stack| - 1];
        g := parent.pgno;
        st.Get(g);
        if parent.index != |st.pages[g].ents| - 1 {
          index := parent.index + 1;
          x := st.pages[g].ents[index].val.pg;
          PathPush(sh, ht, stack, g, x);
          stack := stack + [Epg(g, index)];
          return;
        }
        x := g;
        st.Put(g, false);
        level := level + 1;
      }
    }

    /** Down first children, restoring the stack. */
    method DescendFirst(level: nat, g: PgNo, index: nat, ghost x: PgNo) returns (ghost leaf: PgNo)
      requires Ok(NoEx) && st.pins == {g} && st.touched == {} && IsChild(st.pages, sh, g, index, x)
      requires IsPath(sh, ht, stack, x) && sh[x].lvl == level
      modifies `stack, st`pins, st`calls, st`touched
      ensures st.Traced() && st.pins == {} && st.touched == {} && leaf in sh && sh[leaf].lvl == 0 && sh[leaf].lo == sh[x].lo
      ensures IsPath(sh, ht, stack, leaf)
    {
      var n: nat, p: PgNo, i: nat := level, g, index;
      leaf := x;
      while n > 0
        invariant st.Traced() && st.pins == {p} && st.touched == {} && IsChild(st.pages, sh, p, i, leaf)
        invariant IsPath(sh, ht, stack, leaf) && sh[leaf].lvl == n && sh[leaf].lo == sh[x].lo
        decreases n
      {
        n := n - 1;
        var pgno := st.pages[p].ents[i].val.pg;
        assert PageOk(st.pages, sh, ht, NoEx, pgno);
        ChildAt(st.pages, sh, ht, pgno, 0);
        PathPush(sh, ht, stack, pgno, st.pages[pgno].ents[0].val.pg);
        stack := stack + [Epg(pgno, 0)];
        st.Put(p, false);
        p, i := pgno, 0;
        st.Get(p);
        leaf := st.pages[p].ents[0].val.pg;
      }
      st.Put(p, false);
    }

    /** One step right in `__bt_stkacq`: the stack is again the path, now of the next leaf. */
    method MoveRight(h: PgNo) returns (next: PgNo)
      requires Ok(NoEx) && st.pins == {h} && st.touched == {} && h in sh && sh[h].lvl == 0
      requires st.pages[h].next != 0 && IsPath(sh, ht, stack, h)
      modifies `stack, st`pins, st`calls, st`touched
      ensures Ok(NoEx) && next == st.pages[h].next && st.pins == {next} && st.touched == {} && IsPath(sh, ht, stack, next)
    {
      next := st.pages[h].next;
      st.Put(h, false);
      assert PageOk(st.pages, sh, ht, NoEx, h);
      var level, g, index, x := ClimbRight(h);
      TreePinsOk();
      ghost var leaf := DescendFirst(level, g, index, x);
      NextLeaf(st.pages, sh, ht, h, leaf);
      st.Get(next);
      TreePinsOk();
    }

    method ClimbLeft(h: PgNo) returns (level: nat, g: PgNo, index: nat, ghost x: PgNo)
      requires Ok(NoEx) && st.pins == {} && st.touched == {} && h in sh && sh[h].lvl == 0 && sh[h].lo != BOTTOM
      requires IsPath(sh, ht, stack, h)
      modifies `stack, st`pins, st`calls, st`touched
      ensures st.Traced() && st.pins == {g} && st.touched == {} && IsChild(st.pages, sh, g, index, x)
      ensures IsPath(sh, ht, stack, x) && sh[x].lvl == level && sh[x].hi == sh[h].lo
    {
      level, x := 0, h;
      while true
        invariant st.Traced() && st.pins == {} && st.touched == {} && IsPath(sh, ht, stack, x) && sh[x].lvl == level && sh[x].lo == sh[h].lo
        decreases |stack|
      {
        assert PageOk(st.pages, sh, ht, NoEx, x);
        UpLeft(st.pages, sh, ht, x);
        PathPop(sh, ht, stack, x);
        var parent := stack[|stack| - 1];
        stack := stack[..|stack| - 1];
        g := parent.pgno;
        st.Get(g);
        if parent.index != 0 {
          index := parent.index - 1;
          x := st.pages[g].ents[index].val.pg;
          PathPush(sh, ht, stack, g, x);
          stack := stack + [Epg(g, index)];
          return;
        }
        x := g;
        st.Put(g, false);
        level := level + 1;
      }
    }

    /** Down last children, restoring the stack. */
    method DescendLast(level: nat, g: PgNo, index: nat, ghost x: PgNo) returns (ghost leaf: PgNo)
      requires Ok(NoEx) && st.pins == {g} && st.touched == {} && IsChild(st.pages, sh, g, index, x)
      requires IsPath(sh, ht, stack, x) && sh[x].lvl == level
      modifies `stack, st`pins, st`calls, st`touched
      ensures st.Traced() && st.pins == {} && st.touched == {} && leaf in sh && sh[leaf].lvl == 0 && sh[leaf].hi == sh[x].hi
      ensures IsPath(sh, ht, stack, leaf)
    {
      var n: nat, p: PgNo, i: nat := level, g, index;
      leaf := x;
      while n > 0
        invariant st.Traced() && st.pins == {p} && st.touched == {} && IsChild(st.pages, sh, p, i, leaf)
        invariant IsPath(sh, ht, stack, leaf) && sh[leaf].lvl == n && sh[leaf].hi == sh[x].hi
        decreases n
      {
        n := n - 1;
        var pgno := st.pages[p].ents[i].val.pg;
        assert PageOk(st.pages, sh, ht, NoEx, pgno);
        st.Put(p, false);
        p := pgno;
        st.Get(p);
        i := |st.pages[p].ents| - 1;
        ChildAt(st.pages, sh, ht, p, i);
        PathPush(sh, ht, stack, p, st.pages[p].ents[i].val.pg);
        stack := stack + [Epg(p, i)];
        leaf := st.pages[p].ents[i].val.pg;
      }
      st.Put(p, false);
    }

    /** One step left in `__bt_stkacq`. */
    method MoveLeft(h: PgNo) returns (prev: PgNo)
      requires Ok(NoEx) && st.pins == {h} && st.touched == {} && h in sh && sh[h].lvl == 0
      requires st.pages[h].prev != 0 && IsPath(sh, ht, stack, h)
      modifies `stack, st`pins, st`calls, st`touched
      ensures Ok(NoEx) && prev == st.pages[h].prev && st.pins == {prev} && st.touched == {} && IsPath(sh, ht, stack, prev)
    {
      prev := st.pages[h].prev;
      st.Put(h, false);
      assert PageOk(st.pages, sh, ht, NoEx, h);
      var level, g, index, x := ClimbLeft(h);
      TreePinsOk();
      ghost var leaf := DescendLast(level, g, index, x);
      PrevLeaf(st.pages, sh, ht, h, leaf);
      st.Get(prev);
      TreePinsOk();
    }

    /** `__bt_stkacq`: rebuilds the parent stack of the cursor's leaf `t`, which the caller has pinned. */
    method BtStkacq(t: PgNo)
      requires Ok(NoEx) && st.pins == {t} && st.touched == {} && t in sh && sh[t].lvl == 0
      modifies `stack, st`pins, st`calls, st`touched
      ensures Ok(NoEx) && st.pins == {t} && st.touched == {} && IsPath(sh, ht, stack, t)
    {
      hide DiskOk, Calls.Trace;
      st.Put(t, false);
      var h, index, exact := BtSearch(cur.key);
      ghost var h0, i0, x0 := h, index, exact;
      while h != t
        invariant Ok(NoEx) && st.pins == {h} && st.touched == {} && IsPath(sh, ht, stack, h) && sh[h].lvl == 0
        invariant if sh[h0].lo <= sh[t].lo then sh[h].lo <= sh[t].lo else sh[t].lo < sh[h].lo
        decreases PagesRight(sh, h)
      {
        TowardsRight(st.pages, sh, ht, h, t);
        if st.pages[h].next == P_INVALID {
          break;
        }
        h := MoveRight(h);
      }
      if h != t {
        st.Put(h, false);
        h, index, exact := BtSearch(cur.key);
        PositionUnique(st.pages, sh, ht, cur.key, h, index, exact, h0, i0, x0);
        while h != t
          invariant Ok(NoEx) && st.pins == {h} && st.touched == {} && IsPath(sh, ht, stack, h) && sh[h].lvl == 0
          invariant sh[t].lo <= sh[h].lo
          decreases PagesLeft(sh, h)
        {
          TowardsLeft(st.pages, sh, ht, h, t);  // so there is a page to the left
          h := MoveLeft(h);
        }
      }
      st.Put(h, false);
      st.Get(t);
      TreePinsOk();
    }

    /** The cursor, if it is set and its record not deleted, is on a record of the tree. */
    ghost predicate CursorOk()
      reads this, st
    {
      cur.init && !cur.acquire ==> cur.pg in sh && cur.pg in st.pages && sh[cur.pg].lvl == 0 && cur.idx < |st.pages[cur.pg].ents|
    }

    /** The cursor is on a record or just past the last one of its leaf, where a split may leave it. */
    ghost predicate CursorInLeaf()
      reads this, st
    {
      cur.init && !cur.acquire ==> cur.pg in sh && cur.pg in st.pages && sh[cur.pg].lvl == 0 && cur.idx <= |st.pages[cur.pg].ents|
    }

    /** What `__bt_seq` asks of the cursor. */
    ghost predicate CursorFor(flags: nat)
      reads this, st
    {
      (flags == R_NEXT ==> CursorOk()) && (flags == R_PREV ==> CursorInLeaf())
    }

    /** What a deletion of `key` does to the cursor. */
    twostate predicate CursorAfterDelete(key: Key)
      reads this, st
    {
      && cur.init == old(cur).init
      && (old(cur).acquire ==> cur == old(cur))
      && (forall k {:trigger Names(old(st.pages), old(sh), old(cur), k)} :: Names(old(st.pages), old(sh), old(cur), k) ==>
            if k == key then cur.acquire && cur.key == key else Names(st.pages, sh, cur, k))
    }

    /** A leaf that has lost a record is put, or taken out of the tree if it is empty. */
    method DropIfEmpty(h: PgNo)
      requires Ok(Ex(0, 0, h)) && ItemsOk(recs, st.book.chains) && pinned == 0
      requires st.pins == {h} && h in sh && sh[h].lvl == 0 && (st.pages[h].ents == [] ==> IsPath(sh, ht, stack, h))
      modifies `stack, `sh, `ht, st`pages, st`free, st`pins, st`calls, st`touched, st`book
      ensures Valid() && Model() == old(Model()) && Lost() == old(Lost())
      ensures KeepsLeaves(old(st.pages), old(sh), st.pages, sh, h)
      ensures if old(st.pages)[h].ents != [] then h in sh && sh[h].lvl == 0 && h in st.pages && st.pages[h] == old(st.pages)[h]
              else h in sh ==> h == P_ROOT && h in st.pages && st.pages[h].ents == []
      ensures KeepsRest(old(st.pages), old(sh).Keys - {h}, st.pages) && KeepsFirst(old(sh), sh)
    {
      hide ModelOf, Orphans, ItemsOk, UpTo, Calls.Trace;
      if |st.pages[h].ents| == 0 {
        BtPdelete(h);
      } else {
        NotEmpty(st.D(), Full(), sh, ht, recs, h);
        st.Put(h, true);
      }
    }

    /** The same, told from the leaf as it was before the record came off. */
    method DropLeaf(h: PgNo, ghost pages0: Pages, ghost index: nat)
      requires Ok(Ex(0, 0, h)) && ItemsOk(recs, st.book.chains) && pinned == 0
      requires st.pins == {h} && h in sh && sh[h].lvl == 0 && (st.pages[h].ents == [] ==> IsPath(sh, ht, stack, h))
      requires h in pages0 && index < |pages0[h].ents| && h in st.pages && st.pages[h] == pages0[h].(ents := Del(pages0[h].ents, index))
      requires KeepsLeaves(pages0, sh, st.pages, sh, h) && KeepsRest(pages0, {h}, st.pages)
      modifies `stack, `sh, `ht, st`pages, st`free, st`pins, st`calls, st`touched, st`book
      ensures Valid() && Model() == old(Model()) && Lost() == old(Lost())
      ensures LeafDropped(pages0, old(sh), st.pages, sh, h, index) && KeepsRest(pages0, old(sh).Keys, st.pages) && KeepsFirst(old(sh), sh)
      ensures h in sh ==> h == P_ROOT || |pages0[h].ents| > 1
      ensures h in st.pages && st.pages[h].kind == pages0[h].kind && st.pages[h].ents == Del(pages0[h].ents, index)
    {
      hide TreeOn, DiskOk, IsPath, KeepsLeaves, ItemsOk, ModelOf, Orphans, KeepsRest, KeepsFirst, Calls.Trace;
      ghost var pages1, sh0 := st.pages, sh;
      DropIfEmpty(h);
      KeepsLeavesAgain(pages0, pages1, sh0, st.pages, sh, h);
      RestAfter(pages0, pages1, st.pages, sh0.Keys, h);
    }

    /** What `RemoveAt` needs of `BtDleaf`. */
    method TakeRecord(h: PgNo, index: nat) returns (ghost key: Key)
      requires Ok(NoEx) && ItemsOk(recs, st.book.chains) && st.pins == {h} && st.touched == {}
      requires h in sh && sh[h].lvl == 0 && index < |st.pages[h].ents|
      modifies `cur, `recs, `stale, st`pages, st`free, st`pins, st`calls, st`touched, st`book
      ensures Ok(Ex(0, 0, h)) && ItemsOk(recs, st.book.chains) && st.pins == {h} && h in old(st.pages) && h in st.pages
      ensures st.pages[h] == old(st.pages)[h].(ents := Del(old(st.pages)[h].ents, index)) && st.pages[h].kind == Leaf
      ensures KeepsLeaves(old(st.pages), sh, st.pages, sh, h) && KeepsRest(old(st.pages), {h}, st.pages)
      ensures key == old(st.pages)[h].ents[index].key && cur == AfterRemove(old(cur), h, index, key)
      ensures stale == if order != NOT && lastPg == h && |old(st.pages)[h].ents| == 1 then key else old(stale)
      ensures key in old(recs) && recs.Keys == old(recs).Keys - {key} && Model() == old(Model()) - {key} && Lost() == old(Lost())
    {
      assert h in st.pages && PageOk(st.pages, sh, ht, NoEx, h) && st.pages[h].kind == Leaf;
      hide TreeOn, DiskOk, KeepsLeaves, ItemsOk, ModelOf, Orphans, KeepsRest, PageOk, IsSlot, Calls.Trace;
      key := st.pages[h].ents[index].key;
      BtDleaf(h, index);
    }

    /** Removes record `index` of leaf `h`, found with its path, and the leaf if this empties it. */
    method RemoveAt(h: PgNo, index: nat) returns (ghost key: Key)
      requires Ok(NoEx) && ItemsOk(recs, st.book.chains) && pinned == 0 && st.pins == {h} && st.touched == {}
      requires h in sh && sh[h].lvl == 0 && index < |st.pages[h].ents|
      requires |st.pages[h].ents| == 1 ==> IsPath(sh, ht, stack, h)
      modifies `stack, `cur, `sh, `ht, `recs, `stale, st`pages, st`free, st`pins, st`calls, st`touched, st`book
      ensures Valid() && LeafDropped(old(st.pages), old(sh), st.pages, sh, h, index) && key == old(st.pages)[h].ents[index].key
      ensures KeepsRest(old(st.pages), old(sh).Keys, st.pages) && KeepsFirst(old(sh), sh) && (h in sh ==> h == P_ROOT || |old(st.pages)[h].ents| > 1)
      ensures h in st.pages && st.pages[h].kind == Leaf && st.pages[h].ents == Del(old(st.pages)[h].ents, index)
      ensures stale == if order != NOT && lastPg == h && |old(st.pages)[h].ents| == 1 then key else old(stale)
      ensures key in old(recs) && recs.Keys == old(recs).Keys - {key} && Model() == old(Model()) - {key} && Lost() == old(Lost())
      ensures cur == AfterRemove(old(cur), h, index, key)
    {
      ghost var pages0 := st.pages;
      hide TreeOn, DiskOk, IsPath, KeepsLeaves, ItemsOk, ModelOf, Orphans, KeepsRest, KeepsFirst, LeafDropped, Calls.Trace;
      key := TakeRecord(h, index);
      DropLeaf(h, pages0, index);
    }

    lemma {:induction false} RestAfter(pages: Pages, pages1: Pages, pages2: Pages, busy: set<PgNo>, h: PgNo)
      requires KeepsRest(pages, {h}, pages1) && KeepsRest(pages1, busy - {h}, pages2) && h in busy && h in pages1
      ensures KeepsRest(pages, busy, pages2)
      ensures h in pages2 && pages2[h].kind == pages1[h].kind && pages2[h].ents == pages1[h].ents
    {
      KeepsRestThen(pages, {h}, pages1, busy - {h}, pages2);
      assert {h} + (busy - {h}) == busy;
      assert BodyKept(pages1, pages2, h);
    }

    method DeleteAt(h: PgNo, index: nat)
      requires Ok(NoEx) && ItemsOk(recs, st.book.chains) && pinned == 0 && st.pins == {h} && st.touched == {}
      requires h in sh && sh[h].lvl == 0 && index < |st.pages[h].ents|
      requires |st.pages[h].ents| == 1 ==> IsPath(sh, ht, stack, h)
      modifies `stack, `cur, `sh, `ht, `recs, `stale, st`pages, st`free, st`pins, st`calls, st`touched, st`book
      ensures Valid()
      ensures var key := old(st.pages)[h].ents[index].key; key in old(recs) && Model() == old(Model()) - {key} && CursorAfterDelete(key) && Lost() == old(Lost())
      ensures old(HintLive()) ==> (HintLive() <==> old(HintSpared(st.pages[h].ents[index].key)))
      ensures old(HintOk()) ==> HintOk() && stale == if old(HintSpared(st.pages[h].ents[index].key)) then old(stale) else old(st.pages)[h].ents[index].key
    {
      hide Orphans, ItemsOk, Calls.Trace;
      ghost var pages0, sh0, c0 := st.pages, sh, cur;
      if HintLive() { HintOnLeaf(pages0[h].ents[index].key, h, index); }
      ghost var key := RemoveAt(h, index);
      forall k | Names(pages0, sh0, c0, k)
        ensures if k == key then cur.acquire && cur.key == key else Names(st.pages, sh, cur, k)
      {
        DropMovesCursor(pages0, sh0, old(ht), st.pages, sh, c0, h, index, k);
      }
      if old(HintOk()) {
        DeleteKeepsHint(pages0, sh0, old(ht), old(recs), st.pages, sh, recs, h, index, order, lastPg, lastIdx, old(stale), stale);
      }
    }

    /** `__bt_bdelete` in a tree without duplicates. */
    method BtBdelete(key: Key) returns (status: int)
      requires Valid() && pinned == 0
      modifies `stack, `cur, `sh, `ht, `recs, `stale, st`pages, st`free, st`pins, st`calls, st`touched, st`book
      ensures Valid() && status == (if key in old(Model()) then RET_SUCCESS else RET_SPECIAL)
      ensures Model() == old(Model()) - {key} && Lost() == old(Lost())
      ensures if key in old(Model()) then CursorAfterDelete(key) else cur == old(cur) && st.pages == old(st.pages) && sh == old(sh)
      ensures old(HintLive()) ==> (HintLive() <==> key in old(Model()) ==> old(HintSpared(key)))
      ensures old(HintOk()) ==> HintOk() && stale == if key in old(Model()) && !old(HintSpared(key)) then key else old(stale)
    {
      hide Orphans, TreeOn, DiskOk, IsPath, ItemsOk, Live, Spent, Names, Calls.Trace;
      var h, index, exact := BtSearch(key);
      FindsOn(st.D(), Full(), sh, ht, recs, key, h, index, exact);
      if !exact {
        st.Put(h, false);
        return RET_SPECIAL;
      }
      DeleteAt(h, index);
      return RET_SUCCESS;
    }

    /** The key under a cursor that is on a record. */
    ghost function CursorKey(): Key
      requires CursorOk() && cur.init && !cur.acquire
      reads this, st
    {
      st.pages[cur.pg].ents[cur.idx].key
    }

    /** `__bt_delete` with R_CURSOR and a cursor on a record. */
    method DeleteCursor()
      requires Valid() && pinned == 0 && CursorOk() && cur.init && !cur.acquire
      modifies `stack, `cur, `sh, `ht, `recs, `stale, st`pages, st`free, st`pins, st`calls, st`touched, st`book
      ensures Valid() && cur.init && cur.acquire && cur.key == old(CursorKey())
      ensures old(CursorKey()) in old(Model()) && Model() == old(Model()) - {old(CursorKey())} && Lost() == old(Lost())
      ensures old(HintLive()) ==> (HintLive() <==> old(HintSpared(CursorKey())))
      ensures old(HintOk()) ==> HintOk() && stale == if old(HintSpared(CursorKey())) then old(stale) else old(CursorKey())
    {
      hide Orphans;
      st.Get(cur.pg);
      TreePinsOk();
      if |st.pages[cur.pg].ents| == 1 {
        BtStkacq(cur.pg);
      }
      assert Names(st.pages, sh, cur, CursorKey());
      DeleteAt(cur.pg, cur.idx);
    }

    /** `__bt_delete`: by key, or the record under the cursor.  The cursor must be on a record, or its
        record deleted, or not set (it is, unless a split moved it off: see `SplitMovesCursor`). */
    method Delete(key: Key, flags: nat) returns (status: int)
      requires Valid() && (flags == R_CURSOR ==> CursorOk())
      modifies `stack, `pinned, `cur, `sh, `ht, `recs, `stale, st`pages, st`free, st`pins, st`calls, st`touched, st`book
      ensures Valid() && Lost() == old(Lost()) && (status != RET_SUCCESS ==> Model() == old(Model()) && cur == old(cur))
      ensures old(HintOk()) ==> HintOk()
      ensures rdonly || (flags != 0 && flags != R_CURSOR) || (flags == R_CURSOR && !old(cur).init) ==> status == RET_ERROR
      ensures !rdonly && flags == 0 ==>
        && status == (if key in old(Model()) then RET_SUCCESS else RET_SPECIAL)
        && (status == RET_SUCCESS ==> Model() == old(Model()) - {key} && CursorAfterDelete(key))
        && (old(HintLive()) ==> (HintLive() <==> status == RET_SUCCESS ==> old(HintSpared(key))))
        && (old(HintOk()) ==> stale == if status == RET_SUCCESS && !old(HintSpared(key)) then key else old(stale))
      ensures !rdonly && flags == R_CURSOR && old(cur).init && old(cur).acquire ==> status == RET_SPECIAL
      ensures !rdonly && flags == R_CURSOR && old(cur).init && !old(cur).acquire ==>
        && status == RET_SUCCESS && old(CursorKey()) in old(Model()) && Model() == old(Model()) - {old(CursorKey())}
        && cur.init && cur.acquire && cur.key == old(CursorKey())
        && (old(HintLive()) ==> (HintLive() <==> old(HintSpared(CursorKey()))))
    {
      hide TreeOn, DiskOk, ItemsOk, ModelOf, Orphans, Live, Spent, Calls.Trace;
      Toss();
      if rdonly {
        return RET_ERROR;
      }
      if flags == 0 {
        status := BtBdelete(key);
      } else if flags == R_CURSOR && cur.init {
        if cur.acquire {
          return RET_SPECIAL;
        }
        DeleteCursor();
        status := RET_SUCCESS;
      } else {
        return RET_ERROR;
      }
    }

    // ---------------------------------------------------------------- bt_split.c

    /** Gives `h` and its new right sibling `r` their halves and links `r` in after `h`. */
    method Install(h: PgNo, r: PgNo, left: seq<Ent>, right: seq<Ent>)
      requires st.Traced() && h in st.pages && r in st.pages && h in st.pins && r in st.pins && h != r && |st.pins| < MINCACHE && st.touched <= st.pins
      requires var n := st.pages[h].next; n != h && n != r && (n != 0 ==> n in st.pages && n !in st.pins)
      modifies st`pages, st`pins, st`calls, st`touched
      ensures st.Traced() && st.pages == SplitInto(old(st.pages), h, r, left, right) && st.pins == old(st.pins) && st.touched <= st.pins
    {
      var n := st.pages[h].next;
      st.Write(r, Page(st.pages[h].kind, h, n, right, st.pages[r].bytes));
      if n != P_INVALID {
        st.Get(n);
        st.Write(n, st.pages[n].(prev := r));
        st.Put(n, true);
      }
      st.Write(h, st.pages[h].(next := r, ents := left));
    }

    /** A page for the entries of `h` that move right. */
    method NewSibling(h: PgNo, n: PgNo) returns (r: PgNo, ghost d1: Disk)
      requires Conf() && st.Valid() && Owns(st.D(), h, Tree) && |st.pins| <= 3 && (n != 0 ==> Owns(st.D(), n, Tree))
      modifies st`pages, st`npages, st`free, st`pins, st`calls, st`touched, st`book
      ensures st.Valid() && d1 == st.D() && NewPages(old(st.D()), d1, {r}) && r !in old(st.pins) && st.pins == old(st.pins) + {r}
      ensures h in st.pages && h in old(st.pages) && st.pages[h] == old(st.pages)[h] && r in st.pages && r != 0
      ensures Owns(d1, r, Tree) && Owns(d1, h, Tree) && (n != P_INVALID ==> Owns(d1, n, Tree) && n != r && n in st.pages)
    {
      AllocatedIsNew(st.D(), Full(), st.junk);
      r := st.BtNew();
      d1 := st.D();
    }

    /** `bt_page`: splits a page that is not the root around a slot, which the caller's entry `e` fills. */
    method BtPage(h: PgNo, skip: nat, e: Ent) returns (r: PgNo, nl: nat, slotLeft: bool, ghost d1: Disk)
      requires Conf() && st.Valid() && h in st.pins && Owns(st.D(), h, Tree) && |st.pins| <= 3 && Sized(st.pages[h].ents, Full())
      requires skip <= |st.pages[h].ents| && Nb(e) + SLOT <= Full() / 2 && Used(st.pages[h].ents) + Nb(e) + SLOT > Full()
      requires skip > 0 || Nb(e) + SLOT < Full() / 2
      requires var n := st.pages[h].next; n != h && (n != 0 ==> n !in st.pins && Owns(st.D(), n, Tree))
      modifies `cur, st`pages, st`npages, st`free, st`pins, st`calls, st`touched, st`book
      ensures st.Valid() && NewPages(old(st.D()), d1, {r}) && r !in old(st.pins) && st.pins == old(st.pins) + {r}
      ensures var ents := old(st.pages)[h].ents;
        && GoodCut(ents, Full(), skip, Nb(e), nl, slotLeft) && h in d1.pages && r in d1.pages
        && st.D() == d1.(pages := SplitInto(d1.pages, h, r, LeftOf(ents, nl, skip, slotLeft, e), RightOf(ents, nl, skip, slotLeft, e)))
      ensures CursorSplit(old(cur), cur, h, |old(st.pages)[h].ents|, old(st.pages)[h].next, h, r, skip, nl)
      ensures (nl, slotLeft) == CutOf(old(st.pages)[h].ents, skip, Nb(e), Full(), old(st.pages)[h].next == 0)
      ensures SameMark(old(cur), cur) && (old(cur).pg != h ==> cur == old(cur))
    {
      hide Used, UpTo, Allocated, NextPage, Calls.Trace;
      var ents, n := st.pages[h].ents, st.pages[h].next;
      r, d1 := NewSibling(h, n);
      var left, right, at;
      left, right, slotLeft, at, nl := Cut(ents, skip, Nb(e), Full(), e, n == P_INVALID);
      if !(n == P_INVALID && skip == |ents|) {
        cur := AfterSplit(cur, h, h, r, skip, nl);
      }
      SplitPagesFree(d1, Full(), h, r, left, right);
      Install(h, r, left, right);
    }

    /** Splits page `h`, not the root, around the new entry `e`: the first steps of `__bt_split` and
        those of its loop for a parent that has no room. */
    method SplitAround(h: PgNo, skip: nat, e: Ent) returns (r: PgNo, nl: nat, slot: bool)
      requires Conf() && st.Valid() && h in st.pins && h != P_ROOT && |st.pins| <= 3
      requires Ready(st.D(), Full(), sh, ht, recs, h, skip, e) && IsPath(sh, ht, stack, h)
      requires st.pages[h].next !in st.pins
      modifies `cur, `sh, st`pages, st`npages, st`free, st`pins, st`calls, st`touched, st`book
      ensures st.Valid() && TreeOn(st.D(), Full(), sh, ht, recs, Ex(h, r, 0)) && IsPath(sh, ht, stack, h)
      ensures r !in old(st.pins) && st.pins == old(st.pins) + {r} && r != 0 && r !in old(sh) && st.book.chains == old(st.book).chains
      ensures |st.pages[h].ents| > 0 && |st.pages[r].ents| > 0 && sh[r].lo == Rank(st.pages[r].ents[0].key) && sh[r].lvl == sh[h].lvl == old(sh)[h].lvl
      ensures var ents := old(st.pages)[h].ents;
        && GoodCut(ents, Full(), skip, Nb(e), nl, slot)
        && st.pages[h].ents == LeftOf(ents, nl, skip, slot, e) && st.pages[r].ents == RightOf(ents, nl, skip, slot, e)
        && CursorSplit(old(cur), cur, h, |ents|, old(st.pages)[h].next, h, r, skip, nl)
        && (nl, slot) == CutOf(ents, skip, Nb(e), Full(), old(st.pages)[h].next == 0)
      ensures KeepsLeaves(old(st.pages), old(sh), st.pages, sh, h) && SameMark(old(cur), cur) && (old(cur).pg != h ==> cur == old(cur))
    {
      ghost var d := st.D();
      SplitPre(h, skip, e);
      ghost var d1;
      r, nl, slot, d1 := BtPage(h, skip, e);
      GrowPage(d, d1, h, r, skip, e, nl, slot);
    }

    /** The shape of the tree after `BtPage`. */
    ghost method GrowPage(d: Disk, d1: Disk, h: PgNo, r: PgNo, skip: nat, e: Ent, nl: nat, slot: bool)
      requires Ready(d, Full(), sh, ht, recs, h, skip, e) && h != P_ROOT && NewPages(d, d1, {r}) && IsPath(sh, ht, stack, h)
      requires GoodCut(d.pages[h].ents, Full(), skip, Nb(e), nl, slot) && h in d1.pages && r in d1.pages
      requires d.pages[h].next != h && d.pages[h].next in sh.Keys + {0}
      requires var ents := d.pages[h].ents; st.D() == d1.(pages := SplitInto(d1.pages, h, r, LeftOf(ents, nl, skip, slot, e), RightOf(ents, nl, skip, slot, e)))
      modifies `sh
      ensures TreeOn(st.D(), Full(), sh, ht, recs, Ex(h, r, 0)) && IsPath(sh, ht, stack, h)
      ensures r != 0 && r !in old(sh) && st.book.chains == d.book.chains
      ensures |st.pages[h].ents| > 0 && |st.pages[r].ents| > 0 && sh[r].lo == Rank(st.pages[r].ents[0].key) && sh[r].lvl == sh[h].lvl == old(sh)[h].lvl
      ensures st.pages[h].ents == LeftOf(d.pages[h].ents, nl, skip, slot, e) && st.pages[r].ents == RightOf(d.pages[h].ents, nl, skip, slot, e)
      ensures KeepsLeaves(d.pages, old(sh), st.pages, sh, h)
    {
      var ents := d.pages[h].ents;
      var left, right := LeftOf(ents, nl, skip, slot, e), RightOf(ents, nl, skip, slot, e);
      SplitDone(d, d1, Full(), sh, ht, recs, h, r, skip, e, nl, slot);
      assert Owns(d, h, Tree);
      SplitFacts(d1.pages, sh, h, r, left, right, Rank(right[0].key));
      SplitKeepsLeaves(d, d1, sh, h, r, left, right, |left|, Rank(right[0].key));
      SplitKeepsPath(Overfull(d.pages, h, Ins(ents, skip, e)), sh, ht, stack, h, |left|, r, Rank(right[0].key));
      sh := SplitShape(sh, h, |left|, r, Rank(right[0].key));
    }

    /** The two pages of `bt_root`. */
    method NewPair() returns (l: PgNo, r: PgNo)
      requires Conf() && st.Valid() && |st.pins| <= 3
      modifies st`pages, st`npages, st`free, st`pins, st`calls, st`touched, st`book
      ensures st.Valid() && NewPages(old(st.D()), st.D(), {l, r}) && l != r && {l, r} <= st.pages.Keys
      ensures l !in old(st.pins) && r !in old(st.pins) && st.pins == old(st.pins) + {l, r}
    {
      ghost var d := st.D();
      AllocatedIsNew(st.D(), Full(), st.junk);
      l := st.BtNew();
      ghost var d1 := st.D();
      AllocatedIsNew(st.D(), Full(), st.junk);
      r := st.BtNew();
      NewTwice(d, d1, st.D(), l, r);
    }

    method InstallHalves(l: PgNo, r: PgNo, left: seq<Ent>, right: seq<Ent>)
      requires st.Traced() && P_ROOT in st.pages && {l, r} <= st.pages.Keys && {l, r} <= st.pins && l != r && l != P_ROOT && r != P_ROOT
      modifies st`pages, st`touched, st`calls
      ensures st.Traced() && st.pages == HalvesInto(old(st.pages), l, r, left, right) && st.touched == old(st.touched) + {l, r}
    {
      st.Write(l, Page(st.pages[P_ROOT].kind, P_INVALID, r, left, st.pages[l].bytes));
      st.Write(r, Page(st.pages[P_ROOT].kind, l, P_INVALID, right, st.pages[r].bytes));
    }

    /** `bt_root`: the root's entries and the new entry `e` go to two new pages. */
    method BtRoot(skip: nat, e: Ent) returns (l: PgNo, r: PgNo, nl: nat, slotLeft: bool, ghost d2: Disk)
      requires Conf() && st.Valid() && P_ROOT in st.pins && Owns(st.D(), P_ROOT, Tree) && |st.pins| <= 3 && Sized(st.pages[P_ROOT].ents, Full())
      requires skip <= |st.pages[P_ROOT].ents| && Nb(e) + SLOT <= Full() / 2 && Used(st.pages[P_ROOT].ents) + Nb(e) + SLOT > Full()
      requires skip > 0 || Nb(e) + SLOT < Full() / 2
      modifies `cur, st`pages, st`npages, st`free, st`pins, st`calls, st`touched, st`book
      ensures st.Valid() && NewPages(old(st.D()), d2, {l, r}) && l != r && Owns(st.D(), P_ROOT, Tree)
      ensures l !in old(st.pins) && r !in old(st.pins) && st.pins == old(st.pins) + {l, r}
      ensures var ents := old(st.pages)[P_ROOT].ents;
        && GoodCut(ents, Full(), skip, Nb(e), nl, slotLeft) && P_ROOT in d2.pages && l in d2.pages && r in d2.pages
        && st.D() == d2.(pages := HalvesInto(d2.pages, l, r, LeftOf(ents, nl, skip, slotLeft, e), RightOf(ents, nl, skip, slotLeft, e)))
      ensures cur == AfterSplit(old(cur), P_ROOT, l, r, skip, nl)
      ensures (nl, slotLeft) == CutOf(old(st.pages)[P_ROOT].ents, skip, Nb(e), Full(), false)
    {
      var ents := st.pages[P_ROOT].ents;
      l, r := NewPair();
      d2 := st.D();
      assert Owns(d2, P_ROOT, Tree) && Owns(d2, l, Tree) && Owns(d2, r, Tree);
      var left, right, at;
      left, right, slotLeft, at, nl := PSplit(ents, skip, Nb(e), Full(), e);
      cur := AfterSplit(cur, P_ROOT, l, r, skip, nl);
      HalvesPagesFree(d2, Full(), l, r, left, right);
      InstallHalves(l, r, left, right);
    }

    /** `bt_broot`: the root becomes an internal page over its halves and is put. */
    method BtBroot(l: PgNo, r: PgNo)
      requires st.Valid() && P_ROOT in st.pins && Owns(st.D(), P_ROOT, Tree) && r in st.pages && |st.pages[r].ents| > 0 && Full() == st.Plen()
      modifies st`pages, st`pins, st`calls, st`touched
      ensures st.Valid() && st.pins == old(st.pins) - {P_ROOT}
      ensures P_ROOT in old(st.pages)
      ensures st.D() == old(st.D()).(pages := old(st.pages)[P_ROOT := old(st.pages)[P_ROOT].(kind := Internal,
                ents := [Ent([], Child(l)), Ent(old(st.pages)[r].ents[0].key, Child(r))])])
    {
      var n := OwnedOk(st.book, P_ROOT);
      var page := st.pages[P_ROOT].(kind := Internal, ents := [Ent([], Child(l)), Ent(st.pages[r].ents[0].key, Child(r))]);
      TreePagesFree(st.D(), st.pages[P_ROOT := page], Full());
      st.Write(P_ROOT, page);
      st.Put(P_ROOT, true);
    }

    /** `bt_root`, the new entry, and `bt_broot`. */
    method NewRoot(skip: nat, e: Ent) returns (l: PgNo, r: PgNo, nl: nat, slot: bool, ghost d2: Disk)
      requires Conf() && st.Valid() && P_ROOT in st.pins && Owns(st.D(), P_ROOT, Tree) && |st.pins| <= 3 && Sized(st.pages[P_ROOT].ents, Full())
      requires skip <= |st.pages[P_ROOT].ents| && Nb(e) + SLOT <= Full() / 2 && Used(st.pages[P_ROOT].ents) + Nb(e) + SLOT > Full()
      requires skip > 0 || Nb(e) + SLOT < Full() / 2
      modifies `cur, st`pages, st`npages, st`free, st`pins, st`calls, st`touched, st`book
      ensures st.Valid() && NewPages(old(st.D()), d2, {l, r}) && l != r
      ensures l !in old(st.pins) && r !in old(st.pins) && st.pins == old(st.pins) - {P_ROOT} + {l, r}
      ensures var ents := old(st.pages)[P_ROOT].ents;
        && GoodCut(ents, Full(), skip, Nb(e), nl, slot) && P_ROOT in d2.pages && l in d2.pages && r in d2.pages
        && var left, right := LeftOf(ents, nl, skip, slot, e), RightOf(ents, nl, skip, slot, e);
           |right| > 0 && st.D() == d2.(pages := RootInto(d2.pages, l, r, left, right, right[0].key))
      ensures cur == AfterSplit(old(cur), P_ROOT, l, r, skip, nl)
      ensures (nl, slot) == CutOf(old(st.pages)[P_ROOT].ents, skip, Nb(e), Full(), false)
    {
      ghost var ents := st.pages[P_ROOT].ents;
      hide CutOf, DiskOk, HalvesInto, RootInto, LeftOf, RightOf, Sized, Used, UpTo, NewPages, AfterSplit, Owns;
      l, r, nl, slot, d2 := BtRoot(skip, e);
      CutNonEmpty(ents, Full(), skip, Nb(e), nl, slot, e);
      ghost var left, right := LeftOf(ents, nl, skip, slot, e), RightOf(ents, nl, skip, slot, e);
      RootFacts(d2.pages, map[], 0, l, r, left, right);
      BtBroot(l, r);
    }

    /** Splits the root around the new entry `e`: the tree is one level higher and complete. */
    method RootAround(skip: nat, e: Ent) returns (l: PgNo, r: PgNo, nl: nat, slot: bool)
      requires Conf() && st.Valid() && P_ROOT in st.pins && |st.pins| <= 3 && Ready(st.D(), Full(), sh, ht, recs, P_ROOT, skip, e)
      modifies `cur, `sh, `ht, st`pages, st`npages, st`free, st`pins, st`calls, st`touched, st`book
      ensures st.Valid() && TreeOn(st.D(), Full(), sh, ht, recs, NoEx) && ht == old(ht) + 1
      ensures st.pins == old(st.pins) - {P_ROOT} + {l, r} && l !in old(st.pins) && r !in old(st.pins) && st.book.chains == old(st.book).chains
      ensures l in sh && r in sh && l != r && sh[l].lvl == sh[r].lvl == old(ht)
      ensures var ents := old(st.pages)[P_ROOT].ents;
        && GoodCut(ents, Full(), skip, Nb(e), nl, slot)
        && st.pages[l].ents == LeftOf(ents, nl, skip, slot, e) && st.pages[r].ents == RightOf(ents, nl, skip, slot, e)
        && cur == AfterSplit(old(cur), P_ROOT, l, r, skip, nl) && (nl, slot) == CutOf(ents, skip, Nb(e), Full(), false)
      ensures KeepsLeaves(old(st.pages), old(sh), st.pages, sh, P_ROOT) && SameMark(old(cur), cur) && (old(cur).pg != P_ROOT ==> cur == old(cur))
    {
      ghost var d := st.D();
      SplitPre(P_ROOT, skip, e);
      ghost var d2;
      l, r, nl, slot, d2 := NewRoot(skip, e);
      GrowRoot(d, d2, l, r, skip, e, nl, slot);
    }

    /** The shape of the tree after `NewRoot`. */
    ghost method GrowRoot(d: Disk, d2: Disk, l: PgNo, r: PgNo, skip: nat, e: Ent, nl: nat, slot: bool)
      requires Ready(d, Full(), sh, ht, recs, P_ROOT, skip, e) && NewPages(d, d2, {l, r}) && l != r && Full() >= 28
      requires GoodCut(d.pages[P_ROOT].ents, Full(), skip, Nb(e), nl, slot) && P_ROOT in d2.pages && l in d2.pages && r in d2.pages
      requires var ents := d.pages[P_ROOT].ents; var left, right := LeftOf(ents, nl, skip, slot, e), RightOf(ents, nl, skip, slot, e);
        |right| > 0 && st.D() == d2.(pages := RootInto(d2.pages, l, r, left, right, right[0].key))
      modifies `sh, `ht
      ensures TreeOn(st.D(), Full(), sh, ht, recs, NoEx) && ht == old(ht) + 1 && st.book.chains == d.book.chains
      ensures l in sh && r in sh && sh[l].lvl == sh[r].lvl == old(ht)
      ensures st.pages[l].ents == LeftOf(d.pages[P_ROOT].ents, nl, skip, slot, e) && st.pages[r].ents == RightOf(d.pages[P_ROOT].ents, nl, skip, slot, e)
      ensures KeepsLeaves(d.pages, old(sh), st.pages, sh, P_ROOT)
    {
      var ents := d.pages[P_ROOT].ents;
      var left, right := LeftOf(ents, nl, skip, slot, e), RightOf(ents, nl, skip, slot, e);
      RootSplitDone(d, d2, Full(), sh, ht, recs, l, r, skip, e, nl, slot);
      assert Owns(d, P_ROOT, Tree);
      RootFacts(d2.pages, sh, ht, l, r, left, right);
      RootKeepsLeaves(d, d2, sh, ht, l, r, left, right, right[0].key, |left|, Rank(right[0].key));
      sh, ht := RootShape(sh, ht, |left|, l, r, Rank(right[0].key)), ht + 1;
    }

    /** `key` is the separator for index `skip` of page `g` between the halves `l` and `r`: shortened if these are
        leaves, unless it comes next to the leftmost entry of its level. */
    ghost predicate Chosen(l: PgNo, r: PgNo, g: PgNo, skip: nat, key: Key)
      reads this, st
    {
      && {l, r, g} <= st.pages.Keys && |st.pages[l].ents| > 0 && |st.pages[r].ents| > 0
      && Separates(st.pages[l].ents[|st.pages[l].ents| - 1].key, st.pages[r].ents[0].key,
                   st.pages[r].kind == Leaf && (st.pages[g].prev != 0 || skip > 1), key)
    }

    /** The separator `__bt_split` gives the parent: the first key right of the cut or, above leaves,
        the shortest prefix of it that still separates. */
    method Separator(l: PgNo, r: PgNo, g: PgNo, skip: nat) returns (key: Key)
      requires TreeOn(st.D(), Full(), sh, ht, recs, Ex(l, r, 0)) && r != 0 && IsPath(sh, ht, stack, l) && g in st.pages
      requires |st.pages[l].ents| > 0 && |st.pages[r].ents| > 0 && sh[r].lo == Rank(st.pages[r].ents[0].key)
      modifies `sh
      ensures TreeOn(st.D(), Full(), sh, ht, recs, Ex(l, r, 0)) && IsPath(sh, ht, stack, l)
      ensures Rank(key) == sh[r].lo && NbInternal(|key|) + SLOT <= Full() / 2
      ensures KeepsLeaves(st.pages, old(sh), st.pages, sh, 0) && Chosen(l, r, g, skip, key)
    {
      ghost var d := st.D();
      assert PageOk(st.pages, sh, ht, Ex(l, r, 0), l) && PageOk(st.pages, sh, ht, Ex(l, r, 0), r);
      assert Fits(st.pages, Full(), r);
      SeparatorSmaller(st.pages[r].ents[0]);
      assert KeepsLeaves(st.pages, sh, st.pages, sh, 0);
      hide TreeOn, Separates, PageOk, Fits, KeepsLeaves, IsPath;
      var last := st.pages[l].ents[|st.pages[l].ents| - 1].key;
      key := st.pages[r].ents[0].key;
      if st.pages[r].kind == Leaf && (st.pages[g].prev != P_INVALID || skip > 1) {
        LeafHalvesOrdered(st.pages, sh, ht, l, r);
        key := Shorten(last, key);
        MoveBoundOn(d, Full(), sh, ht, recs, stack, l, r, Rank(key));
        sh := sh[l := sh[l].(hi := Rank(key))][r := sh[r].(lo := Rank(key))];
      } else {
        WholeKey(last, key);
      }
    }

    /** `r` is the new right half of `l`, their parent does not know it yet, and the stack leads to it. */
    ghost predicate Waiting(l: PgNo, r: PgNo)
      reads this, st
    {
      && Conf() && st.Valid() && TreeOn(st.D(), Full(), sh, ht, recs, Ex(l, r, 0)) && r != 0 && IsPath(sh, ht, stack, l)
      && |st.pages[l].ents| > 0 && |st.pages[r].ents| > 0 && sh[r].lo == Rank(st.pages[r].ents[0].key)
    }

    /** The entries of page `g`, with the new one at `i`, are now on page `a`, or `a` and `b`. */
    twostate predicate TakesEntry(g: PgNo, i: nat, e: Ent, a: PgNo, b: PgNo)
      reads this, st
    {
      && g in old(st.pages) && i <= |old(st.pages)[g].ents| && a in st.pages && b in st.pages
      && EntsOf(st.pages, a, b) == Ins(old(st.pages)[g].ents, i, e)
    }

    /** The parent `g` has room for the new entry. */
    method ParentTakes(l: PgNo, r: PgNo, g: PgNo, j: nat, key: Key)
      requires Conf() && st.Valid() && TreeOn(st.D(), Full(), sh, ht, recs, Ex(l, r, 0)) && Pending(st.pages, sh, ht, l, r, g, j)
      requires Rank(key) == sh[r].lo && NbInternal(|key|) + SLOT <= Full() / 2 && Used(st.pages[g].ents) + NbInternal(|key|) + SLOT <= Full()
      requires g in st.pins
      modifies `sh, st`pages, st`pins, st`calls, st`touched
      ensures st.Valid() && TreeOn(st.D(), Full(), sh, ht, recs, NoEx) && st.pins == old(st.pins) - {g}
      ensures KeepsLeaves(old(st.pages), old(sh), st.pages, sh, 0) && TakesEntry(g, j + 1, Ent(key, Child(r)), g, g)
    {
      StepSep(st.D(), Full(), sh, ht, recs, l, r, g, j, key);
      SepKeepsLeaves(st.pages, sh, g, j, r, key);
      assert Owns(st.D(), g, Tree);
      var page := st.pages[g].(ents := Ins(st.pages[g].ents, j + 1, Ent(key, Child(r))));
      TreePagesFree(st.D(), st.pages[g := page], Full());
      st.Write(g, page);
      st.Put(g, true);
      sh := SepShape(sh, g, j, r);
    }

    lemma {:induction false} PendingPins(l: PgNo, r: PgNo, g: PgNo, j: nat)
      requires Pending(st.pages, sh, ht, l, r, g, j)
      ensures l != r && l != g && r != g && st.pages[g].next !in {l, r, g} && sh[r].lvl < sh[g].lvl && (g == P_ROOT <==> sh[g].lvl == ht)
    {
      assert PageOk(st.pages, sh, ht, Ex(l, r, 0), g);
      assert PageOk(st.pages, sh, ht, Ex(l, r, 0), l);
      assert PageOk(st.pages, sh, ht, Ex(l, r, 0), r);
    }

    /** The new entry as an insertion into `g` that finds no room. */
    ghost method Owed(l: PgNo, r: PgNo, g: PgNo, j: nat, key: Key)
      requires Conf() && st.Valid() && TreeOn(st.D(), Full(), sh, ht, recs, Ex(l, r, 0)) && Pending(st.pages, sh, ht, l, r, g, j)
      requires Rank(key) == sh[r].lo && NbInternal(|key|) + SLOT <= Full() / 2 && Used(st.pages[g].ents) + NbInternal(|key|) + SLOT > Full()
      requires IsPath(sh, ht, stack, g)
      modifies `sh
      ensures Ready(st.D(), Full(), sh, ht, recs, g, j + 1, Ent(key, Child(r))) && IsPath(sh, ht, stack, g)
      ensures KeepsLeaves(st.pages, old(sh), st.pages, sh, 0) && g in sh && sh[g].lvl > 0 && st.pages[g].next !in {l, r, g}
    {
      PendingPins(l, r, g, j);
      ParentReady(st.D(), Full(), sh, ht, recs, l, r, g, j, key);
      SepKeepsPath(st.pages, sh, ht, Ex(l, r, 0), stack, g, j, r);
      SepKeepsLeaves(st.pages, sh, g, j, r, key);
      sh := SepShape(sh, g, j, r);
    }

    /** Puts the two pages pinned longest. */
    method PutChildren(l: PgNo, r: PgNo, ghost rest: set<PgNo>)
      requires st.Valid() && st.pins == rest + {l, r} && rest !! {l, r} && l != r
      modifies st`pins, st`calls, st`touched
      ensures st.pins == rest && st.Valid()
    {
      st.Put(l, true);
      st.Put(r, true);
    }

    /** The parent `g`, not the root, has no room for the new entry and is split in turn. */
    method ParentSplits(l: PgNo, r: PgNo, g: PgNo, j: nat, key: Key) returns (r': PgNo)
      requires Conf() && st.Valid() && TreeOn(st.D(), Full(), sh, ht, recs, Ex(l, r, 0)) && Pending(st.pages, sh, ht, l, r, g, j)
      requires Rank(key) == sh[r].lo && NbInternal(|key|) + SLOT <= Full() / 2 && Used(st.pages[g].ents) + NbInternal(|key|) + SLOT > Full()
      requires st.pins == {l, r, g} && |st.pins| <= 3 && l != r && g !in {l, r} && IsPath(sh, ht, stack, g) && g != P_ROOT
      modifies `cur, `sh, st`pages, st`npages, st`free, st`pins, st`calls, st`touched, st`book
      ensures Waiting(g, r') && r' != g && st.pins == {g, r'} && st.book.chains == old(st.book).chains
      ensures TakesEntry(g, j + 1, Ent(key, Child(r)), g, r')
      ensures KeepsLeaves(old(st.pages), old(sh), st.pages, sh, 0) && SameMark(old(cur), cur) && (old(cur).pg != g ==> cur == old(cur))
    {
      hide DiskOk, Used, EntsOf, CutOf, Calls.Trace;
      ghost var pages0, sh0 := st.pages, sh;
      Owed(l, r, g, j, key);
      ghost var sh1 := sh;
      var nl, slot;
      r', nl, slot := SplitAround(g, j + 1, Ent(key, Child(r)));
      HalvesHold(st.pages, g, r', pages0[g].ents, nl, j + 1, slot, Ent(key, Child(r)));
      KeepsLeavesThen(pages0, sh0, pages0, sh1, st.pages, sh, 0, g);
      PutChildren(l, r, {g, r'});
    }

    /** The parent is the root and has no room for the new entry. */
    method RootSplits(l: PgNo, r: PgNo, j: nat, key: Key) returns (l': PgNo, r': PgNo)
      requires Conf() && st.Valid() && TreeOn(st.D(), Full(), sh, ht, recs, Ex(l, r, 0)) && Pending(st.pages, sh, ht, l, r, P_ROOT, j)
      requires Rank(key) == sh[r].lo && NbInternal(|key|) + SLOT <= Full() / 2 && Used(st.pages[P_ROOT].ents) + NbInternal(|key|) + SLOT > Full()
      requires st.pins == {l, r, P_ROOT} && |st.pins| <= 3 && l != r && P_ROOT !in {l, r} && IsPath(sh, ht, stack, P_ROOT)
      modifies `cur, `sh, `ht, st`pages, st`npages, st`free, st`pins, st`calls, st`touched, st`book
      ensures Ok(NoEx) && l' != r' && st.pins == {l', r'} && st.book.chains == old(st.book).chains && l' !in {l, r}
      ensures TakesEntry(P_ROOT, j + 1, Ent(key, Child(r)), l', r')
      ensures KeepsLeaves(old(st.pages), old(sh), st.pages, sh, 0) && SameMark(old(cur), cur) && (old(cur).pg != P_ROOT ==> cur == old(cur))
    {
      hide DiskOk, Used, EntsOf, CutOf, Calls.Trace;
      ghost var pages0, sh0 := st.pages, sh;
      Owed(l, r, P_ROOT, j, key);
      ghost var sh1 := sh;
      var nl, slot;
      l', r', nl, slot := RootAround(j + 1, Ent(key, Child(r)));
      HalvesHold(st.pages, l', r', pages0[P_ROOT].ents, nl, j + 1, slot, Ent(key, Child(r)));
      KeepsLeavesThen(pages0, sh0, pages0, sh1, st.pages, sh, 0, P_ROOT);
      PutChildren(l, r, {l', r'});
    }

    /** The parent of a split page is taken off the stack and pinned, and the separator chosen. */
    method PopParent(l: PgNo, r: PgNo) returns (g: PgNo, j: nat, key: Key)
      requires Waiting(l, r) && st.pins == {l, r}
      modifies `stack, `sh, st`pins, st`calls
      ensures Conf() && st.Valid() && TreeOn(st.D(), Full(), sh, ht, recs, Ex(l, r, 0)) && Pending(st.pages, sh, ht, l, r, g, j)
      ensures Rank(key) == sh[r].lo && NbInternal(|key|) + SLOT <= Full() / 2
      ensures l != r && g !in {l, r} && st.pins == {l, r, g} && |st.pins| <= 3 && IsPath(sh, ht, stack, g) && (stack == [] <==> g == P_ROOT)
      ensures |stack| < |old(stack)| && KeepsLeaves(st.pages, old(sh), st.pages, sh, 0) && g in old(sh) && old(sh)[g].lvl > 0
      ensures g in st.pages && 0 !in sh && |old(stack)| > 0 && old(stack)[|old(stack)| - 1] == Epg(g, j) && Chosen(l, r, g, j + 1, key)
    {
      hide DiskOk, Calls.Trace, Separates;
      ParentOnStack(st.pages, Ex(l, r, 0), l);
      PendingParent(st.pages, sh, ht, l, r);
      g, j := stack[|stack| - 1].pgno, stack[|stack| - 1].index;
      PendingPins(l, r, g, j);
      assert Owns(st.D(), g, Tree);
      st.Get(g);
      assert |st.pins| <= 3;
      key := Separator(l, r, g, j + 1);
      PathPop(sh, ht, stack, l);
      PendingParent(st.pages, sh, ht, l, r);
      stack := stack[..|stack| - 1];
      PendingPins(l, r, g, j);
    }

    /** One round of the loop of `__bt_split`. */
    method SplitRound(l: PgNo, r: PgNo) returns (l': PgNo, r': PgNo, more: bool, ghost key: Key)
      requires Waiting(l, r) && st.pins == {l, r}
      modifies `stack, `cur, `sh, `ht, st`pages, st`npages, st`free, st`pins, st`calls, st`touched, st`book
      ensures |stack| < |old(stack)| && st.pins == {l', r'} && l' != r' && st.book.chains == old(st.book).chains
      ensures if more then Waiting(l', r') else Ok(NoEx)
      ensures |old(stack)| > 0 && var top := old(stack)[|old(stack)| - 1];
        && old(Chosen(l, r, top.pgno, top.index + 1, key))
        && TakesEntry(top.pgno, top.index + 1, Ent(key, Child(r)), if l' == l then top.pgno else l', if l' == l then top.pgno else r')
      ensures KeepsLeaves(old(st.pages), old(sh), st.pages, sh, 0)
      ensures SameMark(old(cur), cur) && (old(cur).pg in old(sh) && old(sh)[old(cur).pg].lvl == 0 ==> cur == old(cur))
    {
      hide TreeOn, DiskOk, IsPath, KeepsLeaves, Pending, Used, Separates, EntsOf, Calls.Trace;
      ghost var pages0, sh0 := st.pages, sh;
      WaitingPair(l, r);
      var g, j, sep := PopParent(l, r);
      ghost var sh1 := sh;
      l', r', more, key := l, r, false, sep;
      if Full() - Used(st.pages[g].ents) >= NbInternal(|sep|) + SLOT {
        ParentTakes(l, r, g, j, sep);
      } else if g == P_ROOT {
        l', r' := RootSplits(l, r, j, sep);
      } else {
        l', more := g, true;
        r' := ParentSplits(l, r, g, j, sep);
      }
      KeepsLeavesThen(pages0, sh0, pages0, sh1, st.pages, sh, 0, 0);
    }

    /** The loop of `__bt_split`: the new right half gets its entry in the parent, which may split in turn. */
    method SplitUp(left: PgNo, right: PgNo)
      requires Waiting(left, right) && st.pins == {left, right}
      modifies `stack, `cur, `sh, `ht, st`pages, st`npages, st`free, st`pins, st`calls, st`touched, st`book
      ensures Ok(NoEx) && st.pins == {} && st.touched == {} && st.book.chains == old(st.book).chains
      ensures KeepsLeaves(old(st.pages), old(sh), st.pages, sh, 0)
      ensures SameMark(old(cur), cur) && (old(cur).pg in old(sh) && old(sh)[old(cur).pg].lvl == 0 ==> cur == old(cur))
    {
      var l, r, more := left, right, true;
      while more
        invariant st.pins == {l, r} && l != r && st.book.chains == old(st.book).chains
        invariant if more then Waiting(l, r) else Ok(NoEx)
        invariant KeepsLeaves(old(st.pages), old(sh), st.pages, sh, 0)
        invariant SameMark(old(cur), cur) && (old(cur).pg in old(sh) && old(sh)[old(cur).pg].lvl == 0 ==> cur == old(cur))
        decreases more, |stack|
      {
        ghost var pages0, sh0 := st.pages, sh;
        assert old(cur).pg in old(sh) && old(sh)[old(cur).pg].lvl == 0 && old(cur).pg in old(st.pages) ==> cur.pg in sh;
        ghost var key;
        l, r, more, key := SplitRound(l, r);
        KeepsLeavesThen(old(st.pages), old(sh), pages0, sh0, st.pages, sh, 0, 0);
      }
      PutChildren(l, r, {});
    }

    /** `__bt_split` on a leaf `h` that is not the root. */
    method SplitLeafPage(h: PgNo, skip: nat, e: Ent) returns (r: PgNo, nl: nat, slot: bool)
      requires Conf() && st.Valid() && st.pins == {h} && h != P_ROOT && Ready(st.D(), Full(), sh, ht, recs, h, skip, e)
      requires IsPath(sh, ht, stack, h) && sh[h].lvl == 0
      modifies `stack, `cur, `sh, `ht, st`pages, st`npages, st`free, st`pins, st`calls, st`touched, st`book
      ensures Ok(NoEx) && st.pins == {} && st.touched == {} && st.book.chains == old(st.book).chains
      ensures SplitLeaf(old(st.pages), old(sh), st.pages, sh, Full(), h, skip, e, h, r, nl, slot) && SameMark(old(cur), cur)
      ensures old(cur).pg in old(sh) && old(sh)[old(cur).pg].lvl == 0 ==>
        CursorSplit(old(cur), cur, h, |old(st.pages)[h].ents|, old(st.pages)[h].next, h, r, skip, nl)
      ensures (nl, slot) == CutOf(old(st.pages)[h].ents, skip, Nb(e), Full(), old(st.pages)[h].next == 0)
    {
      hide CutOf, TreeOn, Ready, DiskOk, IsPath, SplitLeaf, KeepsLeaves, CursorSplit, GoodCut;
      ghost var pages0, sh0 := st.pages, sh;
      SplitPre(h, skip, e);
      r, nl, slot := SplitAround(h, skip, e);
      WaitingPair(h, r);
      ghost var pages1, sh1 := st.pages, sh;
      if old(cur).pg in sh0 && old(cur).pg in pages0 && sh0[old(cur).pg].lvl == 0 {
        CursorStaysOnLeaf(old(cur), cur, h, |pages0[h].ents|, pages0[h].next, h, r, skip, nl, pages0, sh0, pages1, sh1);
      }
      SplitUp(h, r);
      SplitLeafDone(pages0, sh0, pages1, sh1, st.pages, sh, Full(), h, skip, e, h, r, nl, slot);
    }

    lemma {:induction false} WaitingPair(l: PgNo, r: PgNo)
      requires Waiting(l, r)
      ensures 0 !in sh && l in sh && r in sh && l in st.pages && r in st.pages && l != r
    {
    }

    /** `__bt_split`: leaf `h` has no room for its new record `e`. */
    method BtSplit(h: PgNo, skip: nat, e: Ent) returns (l: PgNo, r: PgNo, nl: nat, slot: bool)
      requires Conf() && st.Valid() && st.pins == {h} && Ready(st.D(), Full(), sh, ht, recs, h, skip, e)
      requires IsPath(sh, ht, stack, h) && sh[h].lvl == 0
      modifies `stack, `cur, `sh, `ht, st`pages, st`npages, st`free, st`pins, st`calls, st`touched, st`book
      ensures Ok(NoEx) && st.pins == {} && st.touched == {} && st.book.chains == old(st.book).chains
      ensures SplitLeaf(old(st.pages), old(sh), st.pages, sh, Full(), h, skip, e, l, r, nl, slot) && SameMark(old(cur), cur) && (h != P_ROOT ==> l == h)
      ensures old(cur).pg in old(sh) && old(sh)[old(cur).pg].lvl == 0 ==>
        CursorSplit(old(cur), cur, h, |old(st.pages)[h].ents|, if h == P_ROOT then h else old(st.pages)[h].next, l, r, skip, nl)
      ensures (nl, slot) == CutOf(old(st.pages)[h].ents, skip, Nb(e), Full(), h != P_ROOT && old(st.pages)[h].next == 0)
    {
      hide CutOf;
      if h == P_ROOT {
        assert PageOk(Overfull(st.pages, h, Ins(st.pages[h].ents, skip, e)), sh, ht, NoEx, h);
        l, r, nl, slot := RootAround(skip, e);
        PutChildren(l, r, {});
      } else {
        l := h;
        r, nl, slot := SplitLeafPage(h, skip, e);
      }
    }

    lemma {:induction false} SplitPre(h: PgNo, skip: nat, e: Ent)
      requires Ready(st.D(), Full(), sh, ht, recs, h, skip, e)
      ensures sh.Keys <= st.pages.Keys && h in sh && Sized(st.pages[h].ents, Full()) && Owns(st.D(), h, Tree)
      ensures var n := st.pages[h].next; n != h && (n != 0 ==> Owns(st.D(), n, Tree) && n in sh)
    {
      var pm := Overfull(st.pages, h, Ins(st.pages[h].ents, skip, e));
      assert PageOk(pm, sh, ht, NoEx, h);
      assert Fits(st.pages, Full(), h);
      assert Owns(st.D(), h, Tree);
      var n := Owns(st.D(), st.pages[h].next, Tree);
    }

    // ---------------------------------------------------------------- bt_put.c

    /** The data goes on an overflow chain if the pair is above the threshold. */
    method Stow(key: Key, data: seq<Byte>) returns (item: Item)
      requires Valid() && pinned == 0 && |key| + NOVFLSIZE <= ovflsize
      modifies st`pages, st`npages, st`free, st`pins, st`calls, st`touched, st`book
      ensures Valid() && Model() == old(Model()) && ItemOk(item, st.book.chains) && Unused(recs, item)
      ensures Value(item, st.book.chains) == data && |key| + ItemSize(item) <= ovflsize
      ensures item.Big? <==> |key| + |data| > ovflsize
      ensures Lost() == old(Lost()) + ChainOf(item) && ChainOf(item) !! old(Lost())
      ensures SamePages(old(st.pages), st.pages, sh)
      ensures old(HintOk()) ==> HintOk() && (Strays(key) <==> old(StaleHit(key, data)))
    {
      hide Orphans;
      item := Inline(data);
      if |key| + |data| > ovflsize {
        ghost var d := st.D();
        var pg;
        ghost var n;
        pg, n := st.OvflPut(data);
        TreeElsewhere(d, st.D(), Full(), sh, ht, recs, NoEx);
        ChainComes(recs, d.book.chains, pg, st.book.chains[pg]);
        OrphanComes(recs, d.book.chains, pg, st.book.chains[pg]);
        item := Big(pg, |data|);
        forall p | p in sh
          ensures p in d.pages && st.pages[p] == d.pages[p]
        {
          assert Owns(d, p, Tree) && SameElsewhere(d, st.D(), p);
        }
        if old(HintSpent()) && lastPg !in sh {
          assert !Owns(d, lastPg, Tree);
          StoringSpares(d, st.D(), Full(), pg, n, data, lastPg);
        }
      }
    }

    /** Keys are being put in order: `key` follows the last one put, or comes before it, on a page with room. */
    ghost predicate InOrder(key: Key, nb: nat)
      reads this, st
    {
      && order != NOT && lastPg in st.pages && st.pages[lastPg].ents != [] && Used(st.pages[lastPg].ents) + nb + SLOT <= Full()
      && Adjoins(st.pages[lastPg], order, lastIdx, key)
    }

    /** `bt_fast`: takes the hinted page, or drops the hint. */
    method BtFast(key: Key, nb: nat) returns (hit: bool, index: nat, exact: bool)
      requires Ok(NoEx) && st.pins == {} && st.touched == {} && order != NOT && HintOk() && nb + SLOT <= Full()
      modifies `order, `lastIdx, st`pins, st`calls, st`touched
      ensures st.Traced() && st.touched == {} && (if hit then st.pins == {lastPg} && order == old(order) else st.pins == {} && order == NOT)
      ensures if old(Strays(key)) then hit && index == 0 && lastIdx == 0 && exact == (key == stale) else
        && HintLive()
        && (hit ==> IsPosition(st.pages, sh, key, lastPg, index, exact) && Used(st.pages[lastPg].ents) + nb + SLOT <= Full())
      ensures old(HintLive()) ==> (hit <==> old(InOrder(key, nb)))
    {
      st.Get(lastPg);
      hit, index, exact := FastProbe(st.pages[lastPg], order, lastIdx, key, nb, Full(), stale);
      FastAnswer(key, nb, hit, index, exact);
      if hit {
        lastIdx := index;
      } else {
        order := NOT;
        st.Put(lastPg, false);
      }
    }

    /** What the tests of `bt_fast` come to. */
    lemma {:induction false} FastAnswer(key: Key, nb: nat, hit: bool, index: nat, exact: bool)
      requires TreeOn(st.D(), Full(), sh, ht, recs, NoEx) && DiskOk(st.D(), Full()) && order != NOT && HintOk() && nb + SLOT <= Full()
      requires hit ==> FastHit(st.pages[lastPg], order, lastIdx, key, nb, Full(), stale, index, exact)
      requires !hit ==> forall i, x :: !FastHit(st.pages[lastPg], order, lastIdx, key, nb, Full(), stale, i, x)
      ensures Strays(key) ==> hit && index == 0 && exact == (key == stale)
      ensures !Strays(key) && hit ==> HintLive() && (order == BACK ==> index == 0)
      ensures !Strays(key) && hit ==> IsPosition(st.pages, sh, key, lastPg, index, exact) && Used(st.pages[lastPg].ents) + nb + SLOT <= Full()
      ensures HintLive() ==> (hit <==> InOrder(key, nb))
    {
      var page := st.pages[lastPg];
      if HintLive() {
        assert PageOk(st.pages, sh, ht, NoEx, lastPg);
        OrderHits(page, order, lastIdx, key, nb, Full(), stale);
        if hit { HitIsPosition(st.pages, sh, ht, lastPg, order, lastIdx, key, nb, Full(), stale, index, exact); }
      } else {
        if lastPg !in sh && page.kind == Leaf {
          assert !Owns(st.D(), lastPg, Tree);
          NotInUse(st.D(), Full(), lastPg);
        }
        HitOnEmptied(page, order, lastIdx, key, nb, Full(), stale, index, exact);
        HitOnEmptied(page, order, lastIdx, key, nb, Full(), stale, 0, key == stale);
      }
    }

    /** The place of `key`, by the hint or by a search. */
    method Locate(key: Key, nb: nat) returns (h: PgNo, index: nat, exact: bool)
      requires Ok(NoEx) && st.pins == {} && st.touched == {} && HintOk() && !Strays(key) && nb + SLOT <= Full()
      modifies `stack, `order, `lastIdx, st`pins, st`calls, st`touched
      ensures Ok(NoEx) && st.pins == {h} && st.touched == {} && HintLive()
      ensures IsPosition(st.pages, sh, key, h, index, exact)
      ensures Used(st.pages[h].ents) + nb + SLOT > Full() ==> order == NOT && IsPath(sh, ht, stack, h)
      ensures old(HintLive() && InOrder(key, nb)) ==> h == lastPg && order == old(order) && stack == old(stack)
      ensures old(HintLive() && !InOrder(key, nb)) ==> order == NOT
    {
      if order != NOT {
        var hit;
        hit, index, exact := BtFast(key, nb);
        if hit {
          TreePinsOk();
          h := lastPg;
          return;
        }
      }
      h, index, exact := BtSearch(key);
    }

    /** The hint survives what happens to leaf `h`, which is about to get a record. */
    ghost predicate HintLiveBut(h: PgNo)
      reads this, st
    {
      order != NOT ==>
        && lastPg in sh && lastPg in st.pages && sh[lastPg].lvl == 0 && (lastPg != h ==> st.pages[lastPg].ents != [])
        && (order == BACK ==> lastPg != P_ROOT && lastIdx == 0 && sh[lastPg].lo == BOTTOM)
    }

    /** A new record `e` goes to index `i` of leaf `h`, which may have been emptied. */
    ghost predicate Takes(h: PgNo, i: nat, e: Ent)
      reads this, st
    {
      && h in sh && h in st.pages && sh[h].lvl == 0 && e.val.Data? && e.key !in recs && Nb(e) + SLOT < Full() / 2
      && sh[h].lo <= Rank(e.key) < sh[h].hi && IsSlot(st.pages[h].ents, e.key, i, false)
    }

    /** What an insertion at `w` does to the cursor. */
    twostate predicate CursorAfterPlace(key: Key, w: Where)
      reads this, st
    {
      && SameMark(old(cur), cur)
      && (forall k {:trigger Names(old(st.pages), old(sh), old(cur), k)} :: k != key && Names(old(st.pages), old(sh), old(cur), k) ==>
            (Names(st.pages, sh, cur, k) <==> !Loses(old(cur), w)))
    }

    /** A record at either end of the tree starts a hint. */
    method NoteHint(h: PgNo, index: nat)
      requires HintLiveBut(h) && h in sh && h in st.pages && sh[h].lvl == 0 && st.pages[h].ents != [] && PageOk(st.pages, sh, ht, NoEx, h)
      modifies `order, `lastPg, `lastIdx
      ensures HintLive()
      ensures var page := st.pages[h];
        if old(order) != NOT then order == old(order) && lastPg == old(lastPg) && lastIdx == old(lastIdx)
        else if page.next == 0 && index == |page.ents| - 1 then order == FORWARD && lastPg == h && lastIdx == index
        else if page.next != 0 && page.prev == 0 && index == 0 then order == BACK && lastPg == h && lastIdx == 0
        else order == NOT && lastPg == old(lastPg) && lastIdx == old(lastIdx)
    {
      var page := st.pages[h];
      if order == NOT {
        if page.next == P_INVALID {
          if index == |page.ents| - 1 {
            order, lastIdx, lastPg := FORWARD, index, h;
          }
        } else if page.prev == P_INVALID {
          if index == 0 {
            order, lastIdx, lastPg := BACK, 0, h;
          }
        }
      }
    }

    /** The record is written on its leaf. */
    method WriteRecord(h: PgNo, index: nat, e: Ent, ghost ex: Ex)
      requires Ok(ex) && ex in {NoEx, Ex(0, 0, h)} && st.pins == {h} && Takes(h, index, e) && Used(st.pages[h].ents) + Nb(e) + SLOT <= Full()
      modifies `cur, `recs, st`pages, st`touched, st`calls
      ensures Ok(NoEx) && recs == old(recs)[e.key := e.val.item] && h in old(st.pages) && index <= |old(st.pages)[h].ents|
      ensures st.pages == old(st.pages)[h := old(st.pages)[h].(ents := Ins(old(st.pages)[h].ents, index, e))]
      ensures CursorAfterPlace(e.key, InPage(h, index))
    {
      ghost var pages0 := st.pages;
      InsertKeepsNames(pages0, sh, cur, h, index, e);
      PageOn(st.D(), Full(), sh, ht, recs, ex, h);
      hide Names, IsSlot, TreeOn, DiskOk, Used, UpTo, PageOk, Fits, Calls.Trace;
      StepInsert(st.D(), Full(), sh, ht, recs, ex, h, index, e);
      var page := st.pages[h].(ents := Ins(st.pages[h].ents, index, e));
      TreePagesFree(st.D(), st.pages[h := page], Full());
      st.Write(h, page);
      recs := recs[e.key := e.val.item];
      cur := AfterInsert(cur, h, index);
    }

    /** The tail of `__bt_put`: the record fits on its leaf. */
    method InsertHere(h: PgNo, index: nat, e: Ent, ghost ex: Ex)
      requires Ok(ex) && ex in {NoEx, Ex(0, 0, h)} && st.pins == {h} && Takes(h, index, e) && HintLiveBut(h)
      requires Used(st.pages[h].ents) + Nb(e) + SLOT <= Full()
      modifies `cur, `recs, `order, `lastPg, `lastIdx, st`pages, st`pins, st`calls, st`touched
      ensures Ok(NoEx) && recs == old(recs)[e.key := e.val.item] && st.pins == {} && st.touched == {} && HintLive()
      ensures CursorAfterPlace(e.key, InPage(h, index))
    {
      hide Names, IsSlot, TreeOn, DiskOk, Used, UpTo, Fits, Loses, Live, PageOk, SameMark, Calls.Trace;
      WriteRecord(h, index, e, ex);
      PageOn(st.D(), Full(), sh, ht, recs, NoEx, h);
      NoteHint(h, index);
      st.Put(h, true);
    }

    /** The tail of `__bt_put`: the record does not fit and the leaf is split. */
    method InsertSplit(h: PgNo, index: nat, e: Ent, ghost ex: Ex) returns (ghost w: Where)
      requires Ok(ex) && ex in {NoEx, Ex(0, 0, h)} && st.pins == {h} && Takes(h, index, e) && order == NOT && IsPath(sh, ht, stack, h)
      requires Used(st.pages[h].ents) + Nb(e) + SLOT > Full()
      modifies `stack, `cur, `sh, `ht, `recs, st`pages, st`npages, st`free, st`pins, st`calls, st`touched, st`book
      ensures Ok(NoEx) && recs == old(recs)[e.key := e.val.item] && st.pins == {} && st.touched == {}
      ensures st.book.chains == old(st.book).chains && CursorAfterPlace(e.key, w) && w == Goes(old(st.pages)[h], h, index, Nb(e), Full())
    {
      hide CutOf;
      ghost var pages0, sh0, c0, n := st.pages, sh, cur, if h == P_ROOT then h else st.pages[h].next;
      assert PageOk(st.pages, sh, ht, ex, h);
      LeafReady(st.D(), Full(), sh, ht, recs, ex, h, index, e);
      recs := recs[e.key := e.val.item];
      var l, r, nl, slot := BtSplit(h, index, e);
      w := AtSplit(h, index, nl, slot);
      forall k | Names(pages0, sh0, c0, k)
        ensures Names(st.pages, sh, cur, k) <==> !Loses(c0, w)
      {
        SplitMovesCursor(pages0, sh0, st.pages, sh, Full(), h, index, e, l, r, nl, slot, c0, cur, n, k);
      }
    }

    method Place(h: PgNo, index: nat, e: Ent, ghost ex: Ex) returns (ghost w: Where)
      requires Ok(ex) && ex in {NoEx, Ex(0, 0, h)} && st.pins == {h} && Takes(h, index, e) && HintLiveBut(h)
      requires Used(st.pages[h].ents) + Nb(e) + SLOT > Full() ==> order == NOT && IsPath(sh, ht, stack, h)
      modifies `stack, `cur, `sh, `ht, `recs, `order, `lastPg, `lastIdx, st`pages, st`npages, st`free, st`pins, st`calls, st`touched, st`book
      ensures Ok(NoEx) && recs == old(recs)[e.key := e.val.item] && st.pins == {} && st.touched == {} && HintLive()
      ensures st.book.chains == old(st.book).chains && CursorAfterPlace(e.key, w) && w == Goes(old(st.pages)[h], h, index, Nb(e), Full())
      ensures w.InPage? ==> sh == old(sh)
    {
      hide CutOf;
      if Full() - Used(st.pages[h].ents) < Nb(e) + SLOT {
        w := InsertSplit(h, index, e, ex);
      } else {
        InsertHere(h, index, e, ex);
        w := InPage(h, index);
      }
    }

    /** `w` is where the position of `key` and the room on its leaf send a record of `nb` bytes. */
    twostate predicate PutAt(key: Key, exact: bool, nb: nat, w: Where)
      reads this, st
    {
      && IsPosition(old(st.pages), old(sh), key, w.h, w.i, exact) && w.h in old(st.pages)
      && w == Goes(Rest(old(st.pages)[w.h], w.i, exact), w.h, w.i, nb, Full()) && (w.InPage? ==> sh == old(sh))
    }

    /** What storing `key` at `w` does to a cursor that is `c` when the new record goes in. */
    twostate predicate CursorAfterPut(key: Key, c: Cursor, w: Where)
      reads this, st
    {
      && cur.init == old(cur).init && (old(cur).acquire ==> SameMark(old(cur), cur))
      && (forall k {:trigger Names(old(st.pages), old(sh), old(cur), k)} :: Names(old(st.pages), old(sh), old(cur), k) ==>
            if k == key then cur.acquire && cur.key == key else Names(st.pages, sh, cur, k) <==> !Loses(c, w))
    }

    /** The label `delete` of `__bt_put`: the old record of `key` makes room for the new one. */
    method MakeWay(h: PgNo, index: nat, key: Key, item: Item)
      requires Ok(NoEx) && ItemsOk(recs, st.book.chains) && ItemOk(item, st.book.chains) && Unused(recs, item)
      requires st.pins == {h} && st.touched == {} && HintLive()
      requires IsPosition(st.pages, sh, key, h, index, true) && NbLeaf(|key|, ItemSize(item)) + SLOT < Full() / 2
      modifies `cur, `recs, `stale, st`pages, st`free, st`pins, st`calls, st`touched, st`book
      ensures Ok(Ex(0, 0, h)) && ItemsOk(recs, st.book.chains) && ItemOk(item, st.book.chains) && Unused(recs, item)
      ensures st.pins == {h} && HintLiveBut(h) && Takes(h, index, Ent(key, Data(item))) && Used(st.pages[h].ents) <= Used(old(st.pages)[h].ents)
      ensures Value(item, st.book.chains) == Value(item, old(st.book).chains) && Model() == old(Model()) - {key}
      ensures cur == AfterRemove(old(cur), h, index, key) && key !in recs && Lost() == old(Lost())
      ensures h in old(st.pages) && h in st.pages && index < |old(st.pages)[h].ents| && st.pages[h] == Rest(old(st.pages)[h], index, true)
      ensures forall k {:trigger Names(old(st.pages), sh, old(cur), k)} :: Names(old(st.pages), sh, old(cur), k) ==>
        if k == key then cur.acquire && cur.key == key else Names(st.pages, sh, cur, k)
    {
      hide Orphans;
      PositionFinds(st.pages, sh, ht, recs, key, h, index, true);
      ItemReplaces(recs, st.book.chains, key, item);
      assert Fits(st.pages, Full(), h);
      SizedDel(st.pages[h].ents, Full(), index);
      assert PageOk(st.pages, sh, ht, NoEx, h);
      BtDleaf(h, index);
      forall k | Names(old(st.pages), sh, old(cur), k)
        ensures if k == key then cur.acquire && cur.key == key else Names(st.pages, sh, cur, k)
      {
        RemoveMovesCursor(old(st.pages), sh, ht, st.pages, old(cur), h, index, k);
      }
    }

    /** `__bt_put` over an existing record: the old one is removed, the new one put in its place. */
    method Replace(h: PgNo, index: nat, key: Key, item: Item) returns (ghost w: Where)
      requires Ok(NoEx) && ItemsOk(recs, st.book.chains) && ItemOk(item, st.book.chains) && Unused(recs, item)
      requires pinned == 0 && st.pins == {h} && st.touched == {} && HintLive()
      requires IsPosition(st.pages, sh, key, h, index, true) && NbLeaf(|key|, ItemSize(item)) + SLOT < Full() / 2
      requires Used(st.pages[h].ents) + NbLeaf(|key|, ItemSize(item)) + SLOT > Full() ==> order == NOT && IsPath(sh, ht, stack, h)
      modifies `stack, `cur, `sh, `ht, `recs, `stale, `order, `lastPg, `lastIdx, st`pages, st`npages, st`free, st`pins, st`calls, st`touched, st`book
      ensures Valid() && HintLive() && Model() == old(Model())[key := Value(item, old(st.book).chains)]
      ensures CursorAfterPut(key, AfterRemove(old(cur), h, index, key), w)
      ensures w == Goes(Rest(old(st.pages)[h], index, true), h, index, NbLeaf(|key|, ItemSize(item)), Full()) && (w.InPage? ==> sh == old(sh))
      ensures Lost() == old(Lost()) - ChainOf(item)
    {
      hide TreeOn, DiskOk, IsPath, ItemsOk, ModelOf, Names, Loses, Orphans, Goes;
      MakeWay(h, index, key, item);
      ItemComes(recs, st.book.chains, key, item);
      OrphansTaken(recs, st.book.chains, key, item);
      w := Place(h, index, Ent(key, Data(item)), Ex(0, 0, h));
    }

    /** `__bt_put` of a new key. */
    method Add(h: PgNo, index: nat, key: Key, item: Item) returns (ghost w: Where)
      requires Ok(NoEx) && ItemsOk(recs, st.book.chains) && ItemOk(item, st.book.chains) && Unused(recs, item)
      requires pinned == 0 && st.pins == {h} && st.touched == {} && HintLive()
      requires IsPosition(st.pages, sh, key, h, index, false) && NbLeaf(|key|, ItemSize(item)) + SLOT < Full() / 2
      requires Used(st.pages[h].ents) + NbLeaf(|key|, ItemSize(item)) + SLOT > Full() ==> order == NOT && IsPath(sh, ht, stack, h)
      modifies `stack, `cur, `sh, `ht, `recs, `order, `lastPg, `lastIdx, st`pages, st`npages, st`free, st`pins, st`calls, st`touched, st`book
      ensures Valid() && HintLive() && Model() == old(Model())[key := Value(item, old(st.book).chains)]
      ensures CursorAfterPut(key, old(cur), w)
      ensures w == Goes(old(st.pages)[h], h, index, NbLeaf(|key|, ItemSize(item)), Full()) && (w.InPage? ==> sh == old(sh))
      ensures Lost() == old(Lost()) - ChainOf(item)
    {
      hide Orphans, Goes;
      PositionFinds(st.pages, sh, ht, recs, key, h, index, false);
      ItemComes(recs, st.book.chains, key, item);
      OrphansTaken(recs, st.book.chains, key, item);
      forall k | Names(st.pages, sh, cur, k)
        ensures k != key
      {
        OnLeaf(st.pages, sh, ht, recs, cur.pg, cur.idx);
      }
      w := Place(h, index, Ent(key, Data(item)), NoEx);
    }

    /** What storing a pair asks for: the key stays on the page, and the stored pair takes less than half
        a page (see `PSplit`; with a threshold of half a page a pair exactly at the threshold does not). */
    predicate Storable(key: Key, data: seq<Byte>) {
      && |key| + NOVFLSIZE <= ovflsize
      && StoredSize(key, data) + SLOT < Full() / 2
    }

    /** The bytes a pair takes on its leaf. */
    function StoredSize(key: Key, data: seq<Byte>): nat {
      NbLeaf(|key|, if |key| + |data| > ovflsize then NOVFLSIZE else |data|)
    }

    /** A record is written on a free page. */
    method WriteFreed(index: nat, e: Ent)
      requires Conf() && DiskOk(st.D(), Full()) && st.Traced() && TreeOn(st.D(), Full(), sh, ht, recs, NoEx)
      requires st.pins == {lastPg} && st.touched == {} && lastPg != 0 && lastPg !in sh
      requires lastPg in st.pages && st.pages[lastPg].kind != Overflow && index <= |st.pages[lastPg].ents|
      modifies `cur, st`pages, st`pins, st`calls, st`touched
      ensures Ok(NoEx) && st.pins == {} && st.touched == {} && cur == AfterInsert(old(cur), lastPg, index)
      ensures lastPg in st.pages && st.pages[lastPg].ents == Ins(old(st.pages)[lastPg].ents, index, e)
    {
      ghost var d := st.D();
      assert !Owns(d, lastPg, Tree);
      hide TreeOn, DiskOk, Calls.Trace;
      NotInUse(d, Full(), lastPg);
      var page := st.pages[lastPg].(ents := Ins(st.pages[lastPg].ents, index, e));
      FreePageFree(d, Full(), lastPg, page);
      TreeBeside(d, Full(), sh, ht, recs, lastPg, page);
      st.Write(lastPg, page);
      cur := AfterInsert(cur, lastPg, index);
      st.Put(lastPg, true);
    }

    /** `__bt_put` under a hint to prepend to a page that has been freed: the record goes on the freed page,
        where no search leads.  If the key is the one last deleted from the page and is to be overwritten, the
        source goes on to remove that record once more, with a negative length; that has no outcome here. */
    method PutFreed(key: Key, item: Item, flags: nat) returns (status: int)
      requires Valid() && pinned == 0 && HintOk() && Strays(key) && NbLeaf(|key|, ItemSize(item)) + SLOT < Full() / 2
      requires flags in {0, R_NOOVERWRITE} && (key == stale ==> flags == R_NOOVERWRITE)
      modifies `cur, `order, `lastIdx, st`pages, st`pins, st`calls, st`touched
      ensures Valid() && key !in recs && status == if key == stale then RET_SPECIAL else RET_SUCCESS
      ensures cur == if key == stale then old(cur) else AfterInsert(old(cur), lastPg, 0)
      ensures lastPg in st.pages && st.pages[lastPg].ents == if key == stale then [] else [Ent(key, Data(item))]
    {
      hide Used, UpTo, Sized, TreeOn, DiskOk, ItemsOk, PageOk, Fits, NbLeaf, NotAfter, Calls.Trace;
      NotAfterRank(key, stale);
      PageOn(st.D(), Full(), sh, ht, recs, NoEx, lastPg);
      var hit, index, exact := BtFast(key, NbLeaf(|key|, ItemSize(item)));
      if exact {
        st.Put(lastPg, false);
        return RET_SPECIAL;
      }
      WriteFreed(index, Ent(key, Data(item)));
      status := RET_SUCCESS;
    }

    /** The part of `__bt_put` after the overflow decision. */
    method PutItem(key: Key, item: Item, flags: nat) returns (status: int, ghost w: Where)
      requires Valid() && pinned == 0 && HintOk() && !Strays(key) && ItemOk(item, st.book.chains) && Unused(recs, item)
      requires NbLeaf(|key|, ItemSize(item)) + SLOT < Full() / 2 && flags in {0, R_NOOVERWRITE}
      modifies `stack, `cur, `sh, `ht, `recs, `stale, `order, `lastPg, `lastIdx
      modifies st`pages, st`npages, st`free, st`pins, st`calls, st`touched, st`book
      ensures Valid() && HintLive()
      ensures status == PutStatus(old(Model()), key, flags)
      ensures Model() == if status == RET_SUCCESS then old(Model())[key := Value(item, old(st.book).chains)] else old(Model())
      ensures if status == RET_SUCCESS
        then CursorAfterPut(key, if key in old(Model()) then AfterRemove(old(cur), w.h, w.i, key) else old(cur), w)
        else cur == old(cur)
      ensures status == RET_SUCCESS ==> PutAt(key, key in old(Model()), NbLeaf(|key|, ItemSize(item)), w)
      ensures Lost() == if status == RET_SUCCESS then old(Lost()) - ChainOf(item) else old(Lost())
    {
      hide DiskOk, IsPath, ItemsOk, Names, Loses, TreeOn, IsPosition, Orphans, Goes, Live, Spent, PageOk, AfterRemove, SameMark, UpTo, ChainOf, Value, Calls.Trace;
      var h, index, exact := Locate(key, NbLeaf(|key|, ItemSize(item)));
      FindsOn(st.D(), Full(), sh, ht, recs, key, h, index, exact);
      status, w := RET_SUCCESS, InPage(h, index);
      if !exact {
        w := Add(h, index, key, item);
      } else if flags == R_NOOVERWRITE {
        st.Put(h, false);
        return RET_SPECIAL, w;
      } else {
        w := Replace(h, index, key, item);
      }
    }

    /** What a put that does not stray does to cursor and chains. */
    twostate predicate PutDone(key: Key, data: seq<Byte>, status: int, w: Where)
      reads this, st
    {
      && (if status == RET_SUCCESS
          then CursorAfterPut(key, if key in old(Model()) then AfterRemove(old(cur), w.h, w.i, key) else old(cur), w)
               && PutAt(key, key in old(Model()), StoredSize(key, data), w)
          else cur == old(cur))
      && (if status == RET_SPECIAL && |key| + |data| > ovflsize
          then old(Lost()) < Lost() && |Lost()| == |old(Lost())| + 1 else Lost() == old(Lost()))
    }

    /** The rest of `__bt_put` once the page left pinned by the last call is put and the flags are good. */
    method PutData(key: Key, data: seq<Byte>, flags: nat) returns (status: int, ghost w: Where)
      requires Valid() && pinned == 0 && HintOk() && Storable(key, data) && flags in {0, R_NOOVERWRITE}
      requires StaleHit(key, data) && key == stale ==> flags != 0
      modifies `stack, `cur, `sh, `ht, `recs, `stale, `order, `lastPg, `lastIdx
      modifies st`pages, st`npages, st`free, st`pins, st`calls, st`touched, st`book
      ensures Valid()
      ensures !old(StaleHit(key, data)) ==> HintLive() && PutDone(key, data, status, w)
      ensures !old(StaleHit(key, data)) ==> status == PutStatus(old(Model()), key, flags) && Model() == PutModel(old(Model()), key, data, flags)
      ensures old(StaleHit(key, data)) ==> key !in Model() && Model() == old(Model()) && status == (if key == old(stale) then RET_SPECIAL else RET_SUCCESS)
      ensures old(StaleHit(key, data)) ==> |Lost()| == |old(Lost())| + if |key| + |data| > ovflsize then 1 else 0
    {
      hide DiskOk, IsPath, ItemsOk, Loses, TreeOn, Orphans, Goes, Live, Spent, AfterRemove, SameMark, Names, IsPosition, TakesPage, Calls.Trace;
      w := InPage(0, 0);
      var item := Stow(key, data);
      if Strays(key) {
        status := PutFreed(key, item, flags);
        return status, w;
      }
      ghost var pages1, sh1, c1 := st.pages, sh, cur;
      status, w := PutItem(key, item, flags);
      if status == RET_SUCCESS {
        forall k {:trigger Names(old(st.pages), old(sh), old(cur), k)}
          ensures Names(pages1, sh1, c1, k) <==> Names(old(st.pages), old(sh), old(cur), k)
        {
          SamePlaces(old(st.pages), pages1, sh1, c1, k, 0, 0, true);
        }
        SamePlaces(old(st.pages), pages1, sh1, c1, key, w.h, w.i, key in old(Model()));
      }
    }

    /** `__bt_put` without R_CURSOR, in a tree without duplicates.  It does what it does to the map if and only
        if the hint does not lead it to a freed page. */
    method Put(key: Key, data: seq<Byte>, flags: nat) returns (status: int, ghost w: Where)
      requires Valid() && HintOk() && Storable(key, data) && flags != R_CURSOR
      requires StaleHit(key, data) && key == stale ==> flags != 0
      modifies `stack, `pinned, `cur, `sh, `ht, `recs, `stale, `order, `lastPg, `lastIdx
      modifies st`pages, st`npages, st`free, st`pins, st`calls, st`touched, st`book
      ensures Valid() && pinned == 0
      ensures rdonly || flags !in {0, R_NOOVERWRITE} ==>
        status == RET_ERROR && Model() == old(Model()) && cur == old(cur) && Lost() == old(Lost()) && HintOk()
      ensures !rdonly && flags in {0, R_NOOVERWRITE} ==>
        (status == PutStatus(old(Model()), key, flags) && Model() == PutModel(old(Model()), key, data, flags) <==> !old(StaleHit(key, data)))
      ensures !rdonly && flags in {0, R_NOOVERWRITE} && !old(StaleHit(key, data)) ==> HintLive() && PutDone(key, data, status, w)
      ensures !rdonly && flags in {0, R_NOOVERWRITE} && old(StaleHit(key, data)) ==>
        && key !in Model() && Model() == old(Model()) && status == (if key == old(stale) then RET_SPECIAL else RET_SUCCESS)
        && |Lost()| == |old(Lost())| + if |key| + |data| > ovflsize then 1 else 0
    {
      hide DiskOk, IsPath, ItemsOk, Loses, TreeOn, Orphans, Goes, Live, Spent, AfterRemove, SameMark, Names, IsPosition, ModelOf, Calls.Trace;
      w := InPage(0, 0);
      Toss();
      if rdonly {
        return RET_ERROR, w;
      }
      if flags != 0 && flags != R_NOOVERWRITE {
        return RET_ERROR, w;
      }
      status, w := PutData(key, data, flags);
    }

    // ---------------------------------------------------------------- bt_seq.c

    /** `index` of leaf `h`, which is pinned, is a record that meets the goal; or nothing is pinned and none does. */
    ghost predicate Reached(g: Goal, status: int, h: PgNo, index: nat)
      reads this, st
    {
      && Ok(NoEx) && st.touched == {} && status in {RET_SUCCESS, RET_SPECIAL}
      && if status == RET_SUCCESS then
           st.pins == {h} && h != 0 && h in sh && h in st.pages && sh[h].lvl == 0 && index < |st.pages[h].ents| && Meets(recs.Keys, g, st.pages[h].ents[index].key)
         else
           st.pins == {} && NoneMeets(recs.Keys, g)
    }

    /** The entry after `index` on leaf `h`, or the first of the next leaf. */
    method StepOn(h: PgNo, index: nat, ghost x: real, ghost strict: bool) returns (status: int, h': PgNo, index': nat)
      requires Ok(NoEx) && st.pins == {h} && st.touched == {} && h in sh && sh[h].lvl == 0 && sh[h].lo <= x < sh[h].hi
      requires index <= |st.pages[h].ents|
      requires forall i :: 0 <= i < index ==> !Past(st.pages[h].ents[i].key, x, strict)
      requires forall i :: index <= i < |st.pages[h].ents| ==> Past(st.pages[h].ents[i].key, x, strict)
      modifies st`pins, st`calls, st`touched
      ensures Reached(Up(x, strict), status, h', index')
    {
      status, h', index' := RET_SUCCESS, h, index;
      FirstFrom(st.pages, sh, ht, recs, h, index, x, strict);
      if index == |st.pages[h].ents| {
        var pg := st.pages[h].next;
        st.Put(h, false);
        if pg == P_INVALID {
          return RET_SPECIAL, h, index;
        }
        st.Get(pg);
        TreePinsOk();
        h', index' := pg, 0;
      }
    }

    /** `__bt_first` in a tree without duplicates: the first record at or after `key`. */
    method BtFirst(key: Key) returns (status: int, h: PgNo, index: nat)
      requires Ok(NoEx) && st.pins == {} && st.touched == {}
      modifies `stack, st`pins, st`calls, st`touched
      ensures Reached(Up(Rank(key), false), status, h, index)
    {
      var exact;
      h, index, exact := BtSearch(key);
      assert PageOk(st.pages, sh, ht, NoEx, h);
      if exact {
        FirstFrom(st.pages, sh, ht, recs, h, index, Rank(key), false);
        return RET_SUCCESS, h, index;
      }
      status, h, index := StepOn(h, index, Rank(key), false);
    }

    /** `__bt_seqset` to the first record: down the left edge of the tree. */
    method SeqFirst() returns (status: int, h: PgNo, index: nat)
      requires Ok(NoEx) && st.pins == {} && st.touched == {}
      modifies st`pins, st`calls, st`touched
      ensures Reached(Up(BOTTOM, false), status, h, index)
    {
      h, index := P_ROOT, 0;
      assert PageOk(st.pages, sh, ht, NoEx, P_ROOT);
      while true
        invariant st.Traced() && st.pins == {} && st.touched == {} && h in sh && sh[h].lo == BOTTOM
        decreases sh[h].lvl
      {
        st.Get(h);
        assert PageOk(st.pages, sh, ht, NoEx, h);
        if sh[h].lvl == 0 { FirstFrom(st.pages, sh, ht, recs, h, 0, BOTTOM, false); }
        if |st.pages[h].ents| == 0 {
          st.Put(h, false);
          return RET_SPECIAL, h, index;
        }
        if st.pages[h].kind == Leaf {
          TreePinsOk();
          return RET_SUCCESS, h, index;
        }
        ChildAt(st.pages, sh, ht, h, 0);
        var pg := st.pages[h].ents[0].val.pg;
        st.Put(h, false);
        h := pg;
      }
    }

    /** `__bt_seqset` to the last record: down the right edge of the tree. */
    method SeqLast() returns (status: int, h: PgNo, index: nat)
      requires Ok(NoEx) && st.pins == {} && st.touched == {}
      modifies st`pins, st`calls, st`touched
      ensures Reached(Down(TOP), status, h, index)
    {
      h, index := P_ROOT, 0;
      assert PageOk(st.pages, sh, ht, NoEx, P_ROOT);
      while true
        invariant st.Traced() && st.pins == {} && st.touched == {} && h in sh && sh[h].hi == TOP
        decreases sh[h].lvl
      {
        st.Get(h);
        assert PageOk(st.pages, sh, ht, NoEx, h);
        var n := |st.pages[h].ents|;
        if sh[h].lvl == 0 { LastBefore(st.pages, sh, ht, recs, h, n, TOP); }
        if n == 0 {
          st.Put(h, false);
          return RET_SPECIAL, h, index;
        }
        if st.pages[h].kind == Leaf {
          TreePinsOk();
          return RET_SUCCESS, h, n - 1;
        }
        ChildAt(st.pages, sh, ht, h, n - 1);
        var pg := st.pages[h].ents[n - 1].val.pg;
        st.Put(h, false);
        h := pg;
      }
    }

    /** `__bt_seqadv` from a record, forward. */
    method SeqNext() returns (status: int, h: PgNo, index: nat)
      requires Ok(NoEx) && st.pins == {} && st.touched == {} && CursorOk() && cur.init && !cur.acquire
      modifies st`pins, st`calls, st`touched
      ensures Reached(Up(Rank(CursorKey()), true), status, h, index)
    {
      st.Get(cur.pg);
      TreePinsOk();
      assert PageOk(st.pages, sh, ht, NoEx, cur.pg);
      status, h, index := StepOn(cur.pg, cur.idx + 1, Rank(CursorKey()), true);
    }

    /** `__bt_seqadv` from a record, backward. */
    method SeqPrev() returns (status: int, h: PgNo, index: nat)
      requires Ok(NoEx) && st.pins == {} && st.touched == {} && CursorInLeaf() && cur.init && !cur.acquire
      modifies st`pins, st`calls, st`touched
      ensures Reached(Down(PointAt(st.pages, sh, cur.pg, cur.idx)), status, h, index)
    {
      h, index := cur.pg, cur.idx;
      st.Get(h);
      TreePinsOk();
      PrevFrom(st.pages, sh, ht, recs, h, index);
      if index == 0 {
        var pg := st.pages[h].prev;
        st.Put(h, false);
        if pg == P_INVALID {
          return RET_SPECIAL, h, index;
        }
        st.Get(pg);
        TreePinsOk();
        return RET_SUCCESS, pg, |st.pages[pg].ents| - 1;
      }
      return RET_SUCCESS, h, index - 1;
    }

    /** What `__bt_seq` looks for.  A cursor whose record was deleted continues from the saved key, upwards
        whichever way the scan goes. */
    ghost function Sought(key: Key, flags: nat): Goal
      requires flags in {R_CURSOR, R_FIRST, R_LAST, R_NEXT, R_PREV} && CursorFor(flags)
      reads this, st
    {
      if flags == R_CURSOR then Up(Rank(key), false)
      else if flags == R_FIRST || (flags == R_NEXT && !cur.init) then Up(BOTTOM, false)
      else if flags == R_LAST || (flags == R_PREV && !cur.init) then Down(TOP)
      else if cur.acquire then Up(Rank(cur.key), false)
      else if flags == R_NEXT then Up(Rank(CursorKey()), true)
      else Down(PointAt(st.pages, sh, cur.pg, cur.idx))
    }

    /** The key the cursor is on, or was on when its record was deleted. */
    ghost function CursorAt(): Key
      requires CursorOk() && cur.init
      reads this, st
    {
      if cur.acquire then cur.key else CursorKey()
    }

    /** `__bt_seqset` and `__bt_seqadv`. */
    method SeqFind(key: Key, flags: nat) returns (status: int, h: PgNo, index: nat)
      requires Ok(NoEx) && st.pins == {} && st.touched == {} && flags in {R_CURSOR, R_FIRST, R_LAST, R_NEXT, R_PREV} && CursorFor(flags)
      modifies `stack, st`pins, st`calls, st`touched
      ensures Reached(old(Sought(key, flags)), status, h, index)
    {
      if (flags == R_NEXT || flags == R_PREV) && cur.init {
        if cur.acquire {
          status, h, index := BtFirst(cur.key);
        } else if flags == R_NEXT {
          status, h, index := SeqNext();
        } else {
          status, h, index := SeqPrev();
        }
      } else if flags == R_CURSOR {
        status, h, index := BtFirst(key);
      } else if flags == R_FIRST || flags == R_NEXT {
        status, h, index := SeqFirst();
      } else {
        status, h, index := SeqLast();
      }
    }

    /** The record sought is found, read and left pinned, and the cursor set on it. */
    method SeqRecord(key: Key, flags: nat) returns (status: int, k: Key, data: seq<Byte>)
      requires Valid() && pinned == 0 && flags in {R_CURSOR, R_FIRST, R_LAST, R_NEXT, R_PREV} && CursorFor(flags)
      modifies `stack, `pinned, `cur, st`pins, st`calls, st`touched
      ensures Valid() && status in {RET_SPECIAL, RET_SUCCESS}
      ensures status == RET_SPECIAL ==> NoneMeets(Model().Keys, old(Sought(key, flags))) && cur == old(cur)
      ensures status == RET_SUCCESS ==> Meets(Model().Keys, old(Sought(key, flags)), k) && data == Model()[k] && Names(st.pages, sh, cur, k)
    {
      hide TreeOn, DiskOk, IsPath, Meets, NoneMeets, ItemsOk, Calls.Trace;
      k, data := [], [];
      var h, index;
      status, h, index := SeqFind(key, flags);
      assert Model().Keys == recs.Keys;
      if status == RET_SUCCESS {
        cur := Cursor(true, false, h, index, []);
        data := BtRet(h, index);
        k := st.pages[h].ents[index].key;
        pinned := h;
      }
    }

    /** `__bt_seq`.  R_PREV from a deleted record does not give the record before it, unless there are none. */
    method Seq(key: Key, flags: nat) returns (status: int, k: Key, data: seq<Byte>)
      requires Valid() && CursorFor(flags)
      modifies `stack, `pinned, `cur, st`pins, st`calls, st`touched
      ensures Valid() && Model() == old(Model()) && st.pages == old(st.pages) && sh == old(sh)
      ensures status == RET_ERROR <==> flags !in {R_CURSOR, R_FIRST, R_LAST, R_NEXT, R_PREV} || (flags == R_CURSOR && key == [])
      ensures status == RET_SPECIAL ==> NoneMeets(Model().Keys, old(Sought(key, flags)))
      ensures status == RET_SUCCESS ==> Meets(Model().Keys, old(Sought(key, flags)), k) && data == Model()[k] && Names(st.pages, sh, cur, k)
      ensures status in {RET_ERROR, RET_SPECIAL, RET_SUCCESS} && (status != RET_SUCCESS ==> cur == old(cur))
      ensures flags == R_CURSOR && status != RET_ERROR ==> FirstAtOrAfter(Model().Keys, key, status == RET_SUCCESS, k)
      ensures flags == R_FIRST || (flags == R_NEXT && !old(cur).init) ==> Smallest(Model().Keys, status == RET_SUCCESS, k)
      ensures flags == R_LAST || (flags == R_PREV && !old(cur).init) ==> Largest(Model().Keys, status == RET_SUCCESS, k)
      ensures flags == R_NEXT && old(cur.init && !cur.acquire) ==> FirstAfter(Model().Keys, old(CursorKey()), status == RET_SUCCESS, k)
      ensures flags == R_PREV && old(cur.init && !cur.acquire && CursorOk()) ==> LastUnder(Model().Keys, old(CursorKey()), status == RET_SUCCESS, k)
      ensures flags in {R_NEXT, R_PREV} && old(cur.init && cur.acquire) ==> FirstAtOrAfter(Model().Keys, old(cur).key, status == RET_SUCCESS, k)
      ensures flags == R_PREV && old(cur.init && CursorOk()) ==>
        (LastUnder(Model().Keys, old(CursorAt()), status == RET_SUCCESS, k) <==> !old(cur).acquire || Model() == map[])
      ensures flags == R_NEXT && old(cur).init ==>
        (FirstAfter(Model().Keys, old(CursorAt()), status == RET_SUCCESS, k) <==> !old(cur).acquire || old(cur).key !in Model())
    {
      hide TreeOn, DiskOk, IsPath, Meets, NoneMeets, ItemsOk, Names, ModelOf, Calls.Trace;
      hide FirstAtOrAfter, FirstAfter, LastUnder, Smallest, Largest;
      Toss();
      if flags !in {R_CURSOR, R_FIRST, R_LAST, R_NEXT, R_PREV} || (flags == R_CURSOR && key == []) {
        return RET_ERROR, [], [];
      }
      status, k, data := SeqRecord(key, flags);
      ghost var keys, found := Model().Keys, status == RET_SUCCESS;
      GoalsInWords(keys, key, found, k);
      EndsInWords(keys, found, k);
      if old(cur.init && CursorOk()) { GoalsInWords(keys, old(CursorAt()), found, k); }
      if old(cur.init && cur.acquire) && flags in {R_NEXT, R_PREV} { FromDeleted(keys, old(cur).key, found, k); }
    }
  }
}
