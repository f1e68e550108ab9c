/** The page store of a tree: the pool as its users see it (module Mpool has its inside), the free list
    of bt_page.c and the overflow chains of bt_overflow.c. */
module PageStore {
  import opened Keys
  import opened Layout
  import opened Shape
  import opened Storage
  import opened Calls

  /** The pool's user once `nroot` has made the two pages of a new file. */
  ghost function NewUser(junk: Page): User {
    User(map[0 := junk, P_ROOT := Page(Leaf, P_INVALID, P_INVALID, [], junk.bytes)], 2, {}, {})
  }

  class Store {
    const psize: nat
    const junk: Page            // what an uninitialised buffer holds
    var pages: Pages
    var npages: nat
    var free: PgNo              // bt_free
    var pins: set<PgNo>
    ghost var touched: set<PgNo>  // pages changed since they were pinned
    ghost var book: Book
    var calls: seq<Op>          // the calls made of the pool, and the pool's user before them
    ghost var base: User

    /** The store as a user of the pool. */
    ghost function AsUser(): User
      reads `pages, `npages, `pins, `touched
    {
      User(pages, npages, pins, touched)
    }

    /** The calls were legal, each when it was made, and have led to where the store is. */
    ghost predicate Traced()
      reads `pages, `npages, `pins, `touched, `calls, `base
    {
      Trace(base, calls, junk, AsUser())
    }

    /** Forgets the calls made so far. */
    method Mark()
      modifies `calls, `base
      ensures Traced() && calls == [] && base == AsUser()
    {
      calls, base := [], AsUser();
      TraceNone(base, junk);
    }

    ghost function D(): Disk
      reads this
    {
      Disk(pages, npages, free, book)
    }

    ghost function Plen(): nat { if psize > BTDATAOFF then psize - BTDATAOFF else 0 }

    ghost predicate Valid()
      reads this
    {
      DiskOk(D(), Plen()) && PinsOk() && Traced()
    }

    /** At most five pages are pinned, none of them free. */
    ghost predicate PinsOk()
      reads this
    {
      && touched <= pins && |pins| <= MINCACHE
      && forall p :: p in pins ==> p in book.owner && !book.owner[p].Free?
    }

    /** `nroot` on an empty file: the metadata page and an empty root leaf. */
    constructor (psize: nat, junk: Page)
      requires psize > BTDATAOFF
      ensures Valid() && this.psize == psize && this.junk == junk && pins == {}
      ensures npages == 2 && free == P_INVALID
      ensures pages == map[0 := junk, P_ROOT := Page(Leaf, P_INVALID, P_INVALID, [], junk.bytes)]
      ensures book == Book(map[0 := Meta, P_ROOT := Tree], [], map[]) && touched == {}
    {
      this.psize, this.junk := psize, junk;
      pages := map[0 := junk, P_ROOT := Page(Leaf, P_INVALID, P_INVALID, [], junk.bytes)];
      npages, free, pins, touched := 2, P_INVALID, {}, {};
      book := Book(map[0 := Meta, P_ROOT := Tree], [], map[]);
      calls := [];
      base := User(map[0 := junk, P_ROOT := Page(Leaf, P_INVALID, P_INVALID, [], junk.bytes)], 2, {}, {});
      new;
      TraceNone(base, junk);
    }

    // ---------------------------------------------------------------- the pool's interface

    /** `mpool_get`: pins a page of the file that is not pinned. */
    method Get(pg: PgNo)
      requires Traced() && pg in pages && pg !in pins && |pins| < MINCACHE
      modifies `pins, `calls
      ensures pins == old(pins) + {pg} && Traced() && calls == old(calls) + [OpGet(pg)]
    {
      TraceMore(base, calls, junk, AsUser(), OpGet(pg));
      calls := calls + [OpGet(pg)];
      pins := pins + {pg};
    }

    /** `mpool_put`: a page changed since it was pinned must be marked dirty. */
    method Put(pg: PgNo, dirty: bool)
      requires Traced() && pg in pins && (pg in touched ==> dirty)
      modifies `pins, `calls, `touched
      ensures pins == old(pins) - {pg} && touched == old(touched) - {pg}
      ensures Traced() && calls == old(calls) + [OpPut(pg, dirty)]
    {
      TraceMore(base, calls, junk, AsUser(), OpPut(pg, dirty));
      calls := calls + [OpPut(pg, dirty)];
      pins, touched := pins - {pg}, touched - {pg};
    }

    /** Stores through a page pointer: the page must be pinned. */
    method Write(pg: PgNo, page: Page)
      requires Traced() && pg in pins
      modifies `pages, `touched, `calls
      ensures pages == old(pages)[pg := page] && touched == old(touched) + {pg}
      ensures Traced() && calls == old(calls) + [OpStore(pg, page)]
    {
      TraceMore(base, calls, junk, AsUser(), OpStore(pg, page));
      calls := calls + [OpStore(pg, page)];
      pages, touched := pages[pg := page], touched + {pg};
    }

    /** `mpool_new`: a page after the last, of unknown contents, pinned. */
    method New() returns (pg: PgNo)
      requires Traced() && |pins| < MINCACHE
      modifies `pages, `npages, `pins, `calls, `touched
      ensures pg == old(npages) && npages == old(npages) + 1 && pages == old(pages)[pg := junk]
      ensures pins == old(pins) + {pg} && touched == old(touched) + {pg} && Traced() && calls == old(calls) + [OpNew]
    {
      TraceMore(base, calls, junk, AsUser(), OpNew);
      calls := calls + [OpNew];
      pg := npages;
      pages, npages := pages[pg := junk], npages + 1;
      pins, touched := pins + {pg}, touched + {pg};
    }

    // ---------------------------------------------------------------- bt_page.c

    /** `__bt_free`: the page goes to the head of the free list and is put, dirty. */
    method BtFree(pg: PgNo)
      requires Valid() && pg in pins && Owns(D(), pg, Tree)
      modifies `pages, `free, `pins, `calls, `touched, `book
      ensures Valid() && D() == Freed(old(D()), pg)
      ensures pins == old(pins) - {pg} && touched == old(touched) - {pg}
    {
      FreedOk(D(), Plen(), pg);
      Write(pg, pages[pg].(prev := P_INVALID, next := free));
      free := pg;
      book := Book(book.owner[pg := Free(|book.freeSeq|)], book.freeSeq + [pg], book.chains);
      Put(pg, true);
    }

    /** `__bt_new`: the head of the free list, or a new page of the file. */
    method BtNew() returns (pg: PgNo)
      requires Valid() && |pins| < MINCACHE
      modifies `pages, `npages, `free, `pins, `calls, `touched, `book
      ensures Valid() && pg == NextPage(old(D())) && pg !in old(pins)
      ensures old(free) != P_INVALID ==> old(free) in old(pages) && old(book).freeSeq != []
      ensures D() == Allocated(old(D()), junk)
      ensures pins == old(pins) + {pg} && touched - {pg} == old(touched)
    {
      hide DiskOk;
      AllocatedOk(D(), Plen(), junk);
      HeadIsFree(D(), Plen());
      if free != P_INVALID {
        Get(free);
        pg := free;
        book := book.(owner := book.owner[pg := Tree], freeSeq := book.freeSeq[..|book.freeSeq| - 1]);
        free := pages[pg].next;
      } else {
        pg := New();
        book := book.(owner := book.owner[pg := Tree]);
      }
    }

    // ---------------------------------------------------------------- bt_overflow.c

    /** `__ovfl_get`: the byte string of a chain, page by page. */
    method OvflGet(pg: PgNo, size: nat) returns (buf: seq<Byte>)
      requires Valid() && |pins| < MINCACHE && TreePins()
      requires pg in book.chains && |book.chains[pg].data| == size
      modifies `pins, `calls, `touched
      ensures pins == old(pins) && touched == old(touched) && Traced()
      ensures buf == book.chains[pg].data
    {
      ghost var c, i := book.chains[pg], 0;
      var plen := psize - BTDATAOFF;
      var p, sz := pg, size;
      buf := [];
      assert ChainOk(pages, book.owner, plen, book.chains, pg);
      while true
        invariant pins == old(pins) && touched == old(touched) && Traced()
        invariant i < |c.pgs| && p == c.pgs[i] && Full(plen, i) + sz == size && (i > 0 ==> sz > 0)
        invariant buf == c.data[..Full(plen, i)]
        decreases sz, |c.pgs| - i
      {
        assert LinkOk(pages, book.owner, plen, c, i);
        Get(p);
        var nb := if sz < plen then sz else plen;
        buf := buf + pages[p].bytes[..nb];
        var next := pages[p].next;
        Put(p, false);
        sz := sz - nb;
        if sz == 0 {
          break;
        }
        assert Full(plen, i + 1) == Full(plen, i) + plen;
        p, i := next, i + 1;
      }
    }

    ghost predicate TreePins()
      reads this
    {
      forall p :: p in pins ==> Owns(D(), p, Tree)
    }

    /** One round of `__ovfl_put`: a new page takes the next stretch of the data and is linked from
        the page before it, if any, which is then put. */
    method OvflPage(f: PgNo, last: PgNo, chunk: seq<Byte>) returns (h: PgNo)
      requires Valid() && |chunk| <= Plen() && (f == 0 <==> last == 0)
      requires pins == if last == 0 then {} else {last}
      requires f != 0 ==>
        && f in book.chains && 0 < |chunk| && |book.chains[f].pgs| > 0
        && last == book.chains[f].pgs[|book.chains[f].pgs| - 1]
        && |book.chains[f].data| == Full(Plen(), |book.chains[f].pgs|)
      modifies `pages, `npages, `free, `pins, `calls, `touched, `book
      ensures Valid() && h == NextPage(old(D())) && pins == {h}
      ensures D() == Linked(old(D()), Plen(), junk, f, chunk)
    {
      hide DiskOk, Trace;
      LinkedOk(D(), Plen(), junk, f, chunk);
      HeadIsFree(D(), Plen());
      if f != 0 { LastLink(D(), Plen(), f); }
      h := BtNew();
      Write(h, Page(Overflow, P_INVALID, P_INVALID, [], Overwrite(pages[h].bytes, chunk)));
      if last != P_INVALID {
        Write(last, pages[last].(next := h));
        Put(last, true);
        book := book.(owner := book.owner[h := Link(f, |book.chains[f].pgs|)],
                      chains := book.chains[f := Chain(book.chains[f].pgs + [h], book.chains[f].data + chunk)]);
      } else {
        book := book.(owner := book.owner[h := Link(h, 0)], chains := book.chains[h := Chain([h], chunk)]);
      }
    }

    /** One round of `__ovfl_put`. */
    method OvflRound(pg: PgNo, last: PgNo, chunk: seq<Byte>, ghost d: Disk, ghost n: nat, ghost done: seq<Byte>) returns (h: PgNo)
      requires Valid() && DiskOk(d, Plen()) && Stored(d, D(), pg, n, done) && |done| == Full(Plen(), n)
      requires |chunk| <= Plen() && (n > 0 ==> 0 < |chunk|) && pins == (if n == 0 then {} else {last}) && (n == 0 <==> last == P_INVALID)
      requires n > 0 ==> last == book.chains[pg].pgs[n - 1]
      modifies `pages, `npages, `free, `pins, `calls, `touched, `book
      ensures var first := if last == P_INVALID then h else pg;
        Valid() && pins == {h} && h != P_INVALID && Stored(d, D(), first, n + 1, done + chunk) && h == book.chains[first].pgs[n]
    {
      StoredMore(d, D(), Plen(), junk, pg, n, done, chunk);
      HeadIsFree(D(), Plen());
      h := OvflPage(pg, last, chunk);
    }

    /** `__ovfl_put`: stores a byte string on a new chain. */
    method OvflPut(data: seq<Byte>) returns (pg: PgNo, ghost n: nat)
      requires Valid() && pins == {}
      modifies `pages, `npages, `free, `pins, `calls, `touched, `book
      ensures Valid() && pins == {} && n > 0 && Stored(old(D()), D(), pg, n, data)
      ensures |data| <= n * (psize - 20) && (n > 1 ==> (n - 1) * (psize - 20) < |data|)
    {
      var plen := psize - BTDATAOFF;
      assert plen > 0;
      hide DiskOk, Trace, KeepsUsed, Reuses;
      var last, off, sz := P_INVALID, 0, |data|;
      ghost var d := D();
      StoredNothing(d, plen);
      pg, n := P_INVALID, 0;
      assert data[..0] == [];
      while true
        invariant 0 <= off && 0 <= sz && off + sz == |data| && Valid() && Stored(d, D(), pg, n, data[..off])
        invariant off == Full(plen, n) && (n > 0 ==> sz > 0)
        invariant pins == (if n == 0 then {} else {last}) && (n == 0 <==> last == P_INVALID)
        invariant n > 0 ==> last == book.chains[pg].pgs[n - 1]
        decreases sz + (if n == 0 then 1 else 0)
      {
        var nb := if sz < plen then sz else plen;
        assert data[..off] + data[off..off + nb] == data[..off + nb];
        var h := OvflRound(pg, last, data[off..off + nb], d, n, data[..off]);
        if last == P_INVALID { pg := h; }
        sz, off, n, last := sz - nb, off + nb, n + 1, h;
        if sz == 0 {
          Put(h, true);
          break;
        }
      }
      assert data[..off] == data;
      StoredPages(d, D(), plen, pg, n, data);
    }

    /** One round of `__ovfl_delete`: page `i` of the chain `f` of `d` is freed. */
    method OvflFree(h: PgNo, ghost d: Disk, ghost f: PgNo, ghost i: nat) returns (next: PgNo)
      requires Valid() && DiskOk(d, Plen()) && f in d.book.chains && i < |d.book.chains[f].pgs|
      requires Drained(d, D(), f, i) && h in pins && h == d.book.chains[f].pgs[i]
      modifies `pages, `free, `pins, `calls, `touched, `book
      ensures Valid() && Drained(d, D(), f, i + 1) && pins == old(pins) - {h} && touched == old(touched) - {h}
      ensures i + 1 < |d.book.chains[f].pgs| ==>
        next == d.book.chains[f].pgs[i + 1] && next in pages && Owns(D(), next, Tree) && Owns(d, next, Link(f, i + 1))
    {
      DrainStep(d, D(), Plen(), f, i);
      ghost var pgs := d.book.chains[f].pgs;
      assert ChainOk(d.pages, d.book.owner, Plen(), d.book.chains, f);
      assert LinkOk(d.pages, d.book.owner, Plen(), d.book.chains[f], i);
      next := pages[h].next;
      BtFree(h);
      if i + 1 < |pgs| { DrainStep(d, D(), Plen(), f, i + 1); }
    }

    /** The page is freed, and the next one pinned unless it was the last. */
    method OvflNext(h: PgNo, last: bool, ghost d: Disk, ghost f: PgNo, ghost i: nat, ghost held: set<PgNo>) returns (next: PgNo)
      requires Valid() && DiskOk(d, Plen()) && f in d.book.chains && i < |d.book.chains[f].pgs|
      requires Drained(d, D(), f, i) && h == d.book.chains[f].pgs[i] && last == (i + 1 == |d.book.chains[f].pgs|)
      requires pins == held + {h} && Apart(d, f, held)
      modifies `pages, `free, `pins, `calls, `touched, `book
      ensures Valid() && Drained(d, D(), f, i + 1) && touched == old(touched) - {h}
      ensures last ==> pins == held
      ensures !last ==> next == d.book.chains[f].pgs[i + 1] && pins == held + {next}
    {
      LaterLink(d, Plen(), f, i);
      next := OvflFree(h, d, f, i);
      if !last {
        Get(next);
      }
    }

    /** The chain's pages are no longer its own, and the first is pinned. */
    method OvflStart(pg: PgNo)
      requires Valid() && |pins| < MINCACHE && TreePins() && pg in book.chains
      modifies `pins, `calls, `book
      ensures Valid() && Drained(old(D()), D(), pg, 0) && pins == old(pins) + {pg} && Apart(old(D()), pg, old(pins))
      ensures var pgs := old(book).chains[pg].pgs; |pgs| > 0 && pgs[0] == pg
    {
      ghost var d := D();
      DrainStart(d, Plen(), pg);
      HeadOfChainOwned(d, Plen(), pg);
      assert ChainOk(d.pages, d.book.owner, Plen(), d.book.chains, pg);
      forall i | 0 <= i < |d.book.chains[pg].pgs|
        ensures d.book.chains[pg].pgs[i] !in pins
      {
        assert LinkOk(d.pages, d.book.owner, Plen(), d.book.chains[pg], i);
      }
      book := Released(d, pg).book;
      Get(pg);
    }

    /** The loop of `__ovfl_delete`. */
    method OvflDrain(pg: PgNo, size: nat, ghost d: Disk, ghost held: set<PgNo>)
      requires Valid() && DiskOk(d, Plen()) && pg in d.book.chains && Drained(d, D(), pg, 0) && Apart(d, pg, held) && pins == held + {pg}
      requires var c := d.book.chains[pg]; |c.data| == size && RightLength(Plen(), size, |c.pgs|) && c.pgs[0] == pg
      modifies `pages, `free, `pins, `calls, `touched, `book
      ensures Valid() && pins == held && touched == old(touched) * held && Drained(d, D(), pg, |d.book.chains[pg].pgs|)
    {
      var plen := psize - BTDATAOFF;
      assert plen > 0;
      hide DiskOk, Trace, Drained;
      ghost var n, i := |d.book.chains[pg].pgs|, 0;
      var h, sz := pg, size;
      while true
        invariant Valid() && Drained(d, D(), pg, i) && i < n && h == d.book.chains[pg].pgs[i]
        invariant pins == held + {h} && touched * held == old(touched) * held && Full(plen, i) + sz == size
        decreases n - i
      {
        ChainLeft(plen, size, n, i);
        var next := OvflNext(h, sz <= plen, d, pg, i, held);
        if sz <= plen {
          break;
        }
        sz, h, i := sz - plen, next, i + 1;
      }
    }

    /** `__ovfl_delete`: the pages of the chain go to the free list, first page first. */
    method OvflDelete(pg: PgNo, size: nat)
      requires Valid() && |pins| < MINCACHE && TreePins() && pg in book.chains && |book.chains[pg].data| == size
      modifies `pages, `free, `pins, `calls, `touched, `book
      ensures Valid() && pins == old(pins) && touched == old(touched) && Dropped(old(D()), D(), pg)
    {
      ghost var d := D();
      assert ChainOk(d.pages, d.book.owner, Plen(), d.book.chains, pg);
      OvflStart(pg);
      OvflDrain(pg, size, d, old(pins));
      DrainEnd(d, D(), Plen(), pg);
    }
  }

  /** None of these pages belongs to the chain. */
  ghost predicate Apart(d: Disk, f: PgNo, held: set<PgNo>)
    requires f in d.book.chains
  {
    forall i {:trigger d.book.chains[f].pgs[i]} :: 0 <= i < |d.book.chains[f].pgs| ==> d.book.chains[f].pgs[i] !in held
  }

  lemma {:induction false} LastLink(d: Disk, plen: nat, f: PgNo)
    requires DiskOk(d, plen) && f in d.book.chains && |d.book.chains[f].pgs| > 0
    ensures var last := d.book.chains[f].pgs[|d.book.chains[f].pgs| - 1];
      last in d.pages && Owns(d, last, Link(f, |d.book.chains[f].pgs| - 1)) && last != NextPage(d)
  {
    assert ChainOk(d.pages, d.book.owner, plen, d.book.chains, f);
    assert LinkOk(d.pages, d.book.owner, plen, d.book.chains[f], |d.book.chains[f].pgs| - 1);
    HeadIsFree(d, plen);
  }

  /** The next page of a chain is another page of that chain. */
  lemma {:induction false} LaterLink(d: Disk, plen: nat, f: PgNo, i: nat)
    requires DiskOk(d, plen) && f in d.book.chains && i < |d.book.chains[f].pgs|
    ensures var pgs := d.book.chains[f].pgs; i + 1 < |pgs| ==> pgs[i + 1] != pgs[i] && Owns(d, pgs[i + 1], Link(f, i + 1))
  {
    var c := d.book.chains[f];
    assert ChainOk(d.pages, d.book.owner, plen, d.book.chains, f);
    assert LinkOk(d.pages, d.book.owner, plen, c, i);
    if i + 1 < |c.pgs| { assert LinkOk(d.pages, d.book.owner, plen, c, i + 1); }
  }

  /** The size left over after `i` pages says whether page `i` is the last. */
  lemma {:induction false} ChainLeft(plen: nat, size: nat, n: nat, i: nat)
    requires RightLength(plen, size, n) && i < n
    ensures size <= Full(plen, i) + plen <==> i + 1 == n
    ensures Full(plen, i + 1) == Full(plen, i) + plen
  {
    assert Full(plen, i + 1) == Full(plen, i) + plen;
    FullMono(plen, i + 1, if i + 1 < n then n - 1 else n);
  }

  /** A stored string is read back; deleting it and storing one of the same length takes no new page
      and no page from the free list that was there before. */
  method Recycle(s: Store, pg: PgNo, size: nat, data: seq<Byte>) returns (pg': PgNo, buf: seq<Byte>)
    requires s.Valid() && s.pins == {} && pg in s.book.chains && |s.book.chains[pg].data| == size == |data|
    modifies s
    ensures s.Valid() && s.pins == {} && buf == data
    ensures s.npages == old(s.npages) && s.book.freeSeq == old(s.book).freeSeq
    ensures pg' in s.book.chains && s.book.chains == (old(s.book).chains - {pg})[pg' := s.book.chains[pg']]
  {
    ghost var d, n := s.D(), 0;
    assert ChainOk(s.pages, s.book.owner, s.Plen(), s.book.chains, pg);
    s.OvflDelete(pg, size);
    pg', n := s.OvflPut(data);
    assert ChainOk(s.pages, s.book.owner, s.Plen(), s.book.chains, pg');
    LengthDecides(s.Plen(), size, |d.book.chains[pg].pgs|, n);
    ghost var free1 := d.book.freeSeq + d.book.chains[pg].pgs;
    assert free1[..|free1| - n] == d.book.freeSeq;
    buf := s.OvflGet(pg', |data|);
  }
}
