/** The pages of a tree file and what each is in use for: the tree, the free list (bt_page.c) or an
    overflow chain (bt_overflow.c).  `Disk` is a value; class Store holds one and updates it in place. */
module Storage {
  import opened Keys
  import opened Layout
  import opened Shape

  /** What a page is in use for.  A page has one owner, so the uses are disjoint. */
  datatype Owner = Meta | Tree | Free(i: nat) | Link(first: PgNo, i: nat)
  type Owners = map<PgNo, Owner>

  /** An overflow chain: its pages in order and the byte string they hold. */
  datatype Chain = Chain(pgs: seq<PgNo>, data: seq<Byte>)
  type Chains = map<PgNo, Chain>

  /** The free list, head last, the live chains by first page, and the owner of every page. */
  datatype Book = Book(owner: Owners, freeSeq: seq<PgNo>, chains: Chains)

  datatype Disk = Disk(pages: Pages, npages: nat, free: PgNo, book: Book)

  /** Bytes held by `n` full overflow pages. */
  ghost function Full(plen: nat, n: nat): nat {
    if n == 0 then 0 else Full(plen, n - 1) + plen
  }

  lemma {:induction false} FullIs(plen: nat, n: nat)
    ensures Full(plen, n) == n * plen
  {
    if n > 0 { FullIs(plen, n - 1); }
  }

  ghost function Min(a: nat, b: nat): nat { if a < b then a else b }
  ghost function Monus(a: nat, b: nat): nat { if a > b then a - b else 0 }

  // ---------------------------------------------------------------- the invariant

  /** Page `i` of a chain: linked to the next, and holding its stretch of the data. */
  ghost predicate LinkOk(pages: Pages, owner: Owners, plen: nat, c: Chain, i: nat)
    requires i < |c.pgs|
  {
    && c.pgs[i] in pages && c.pgs[i] in owner && owner[c.pgs[i]] == Link(c.pgs[0], i)
    && pages[c.pgs[i]].kind == Overflow && pages[c.pgs[i]].next == (if i + 1 < |c.pgs| then c.pgs[i + 1] else P_INVALID)
    && ChunkOk(pages, plen, c, i)
  }

  ghost predicate ChunkOk(pages: Pages, plen: nat, c: Chain, i: nat)
    requires i < |c.pgs| && c.pgs[i] in pages
  {
    && Full(plen, i) <= |c.data|
    && c.data[Full(plen, i)..Min(|c.data|, Full(plen, i) + plen)] <= pages[c.pgs[i]].bytes
  }

  /** As many pages as the data needs, and at least one. */
  ghost predicate RightLength(plen: nat, size: nat, n: nat) {
    n > 0 && size <= Full(plen, n) && (n > 1 ==> Full(plen, n - 1) < size)
  }

  ghost predicate ChainOk(pages: Pages, owner: Owners, plen: nat, chains: Chains, f: PgNo)
    requires f in chains
  {
    var c := chains[f];
    && RightLength(plen, |c.data|, |c.pgs|) && c.pgs[0] == f
    && forall i {:trigger LinkOk(pages, owner, plen, c, i)} :: 0 <= i < |c.pgs| ==> LinkOk(pages, owner, plen, c, i)
  }

  ghost predicate FreeAt(pages: Pages, owner: Owners, freeSeq: seq<PgNo>, i: nat)
    requires i < |freeSeq|
  {
    && freeSeq[i] in pages && freeSeq[i] in owner && owner[freeSeq[i]] == Free(i)
    && pages[freeSeq[i]].prev == P_INVALID && pages[freeSeq[i]].next == (if i == 0 then P_INVALID else freeSeq[i - 1])
  }

  /** The owner of each page is real: the page is where its owner says. */
  ghost predicate OwnedOk(book: Book, p: PgNo) {
    && p in book.owner
    && match book.owner[p]
       case Meta => p == 0
       case Tree => p != 0
       case Free(i) => i < |book.freeSeq| && book.freeSeq[i] == p && p != 0
       case Link(f, i) => f in book.chains && i < |book.chains[f].pgs| && book.chains[f].pgs[i] == p && p != 0
  }

  /** Every page of the file has exactly one use; the free list and every chain are properly linked. */
  ghost predicate DiskOk(d: Disk, plen: nat) {
    && plen > 0 && d.npages >= 2 && d.pages.Keys == d.book.owner.Keys
    && (forall p: PgNo {:trigger OwnedOk(d.book, p)} ::
          (p < d.npages <==> p in d.book.owner) && (p < d.npages ==> OwnedOk(d.book, p)))
    && d.free == (if d.book.freeSeq == [] then P_INVALID else d.book.freeSeq[|d.book.freeSeq| - 1])
    && (forall i {:trigger FreeAt(d.pages, d.book.owner, d.book.freeSeq, i)} ::
          0 <= i < |d.book.freeSeq| ==> FreeAt(d.pages, d.book.owner, d.book.freeSeq, i))
    && (forall f {:trigger ChainOk(d.pages, d.book.owner, plen, d.book.chains, f)} ::
          f in d.book.chains ==> ChainOk(d.pages, d.book.owner, plen, d.book.chains, f))
  }

  ghost predicate Owns(d: Disk, p: PgNo, o: Owner) { p in d.book.owner && d.book.owner[p] == o }

  /** Chains and free pages untouched: their pages and owners agree in both. */
  ghost predicate SameElsewhere(d: Disk, d': Disk, p: PgNo) {
    p in d.pages && p in d'.pages && d'.pages[p] == d.pages[p]
    && p in d.book.owner && p in d'.book.owner && d'.book.owner[p] == d.book.owner[p]
  }

  lemma {:induction false} ChainFrame(d: Disk, d': Disk, plen: nat, f: PgNo)
    requires f in d.book.chains && ChainOk(d.pages, d.book.owner, plen, d.book.chains, f)
    requires f in d'.book.chains && d'.book.chains[f] == d.book.chains[f]
    requires forall p {:trigger d.book.owner[p]} :: p in d.book.owner && d.book.owner[p].Link? && d.book.owner[p].first == f ==> SameElsewhere(d, d', p)
    ensures ChainOk(d'.pages, d'.book.owner, plen, d'.book.chains, f)
  {
    var c := d.book.chains[f];
    forall i | 0 <= i < |c.pgs|
      ensures LinkOk(d'.pages, d'.book.owner, plen, c, i)
    {
      assert LinkOk(d.pages, d.book.owner, plen, c, i);
    }
  }

  // ---------------------------------------------------------------- tree pages

  /** Tree pages may change freely. */
  lemma {:induction false} TreePagesFree(d: Disk, pages: Pages, plen: nat)
    requires DiskOk(d, plen) && pages.Keys == d.pages.Keys
    requires forall p {:trigger pages[p]} :: p in d.book.owner && d.book.owner[p] != Tree ==> pages[p] == d.pages[p]
    ensures DiskOk(d.(pages := pages), plen)
  {
    var d' := d.(pages := pages);
    forall p: PgNo
      ensures (p < d'.npages <==> p in d'.book.owner) && (p < d'.npages ==> OwnedOk(d'.book, p))
    {
      var was := OwnedOk(d.book, p);
    }
    forall i | 0 <= i < |d.book.freeSeq|
      ensures FreeAt(pages, d.book.owner, d.book.freeSeq, i)
    {
      assert FreeAt(d.pages, d.book.owner, d.book.freeSeq, i);
    }
    forall f | f in d.book.chains
      ensures ChainOk(pages, d.book.owner, plen, d.book.chains, f)
    {
      ChainFrame(d, d', plen, f);
    }
  }

  // ---------------------------------------------------------------- the free list

  /** `__bt_free`. */
  ghost function Freed(d: Disk, pg: PgNo): Disk
    requires pg in d.pages
  {
    Disk(d.pages[pg := d.pages[pg].(prev := P_INVALID, next := d.free)], d.npages, pg,
         Book(d.book.owner[pg := Free(|d.book.freeSeq|)], d.book.freeSeq + [pg], d.book.chains))
  }

  lemma {:induction false} FreedOk(d: Disk, plen: nat, pg: PgNo)
    requires DiskOk(d, plen) && Owns(d, pg, Tree)
    ensures DiskOk(Freed(d, pg), plen)
  {
    var d', n := Freed(d, pg), |d.book.freeSeq|;
    forall p: PgNo
      ensures (p < d'.npages <==> p in d'.book.owner) && (p < d'.npages ==> OwnedOk(d'.book, p))
    {
      var was := OwnedOk(d.book, p);
    }
    forall i | 0 <= i < |d'.book.freeSeq|
      ensures FreeAt(d'.pages, d'.book.owner, d'.book.freeSeq, i)
    {
      if i < n { assert FreeAt(d.pages, d.book.owner, d.book.freeSeq, i); }
      if 0 < i { assert FreeAt(d.pages, d.book.owner, d.book.freeSeq, i - 1); }
    }
    forall f | f in d'.book.chains
      ensures ChainOk(d'.pages, d'.book.owner, plen, d'.book.chains, f)
    {
      ChainFrame(d, d', plen, f);
    }
  }

  /** The page `__bt_new` hands out: the head of the free list, or a new one at the end of the file. */
  ghost function NextPage(d: Disk): PgNo { if d.free != P_INVALID then d.free else d.npages }

  /** `__bt_new`; `junk` is what the new page of the file holds. */
  ghost function Allocated(d: Disk, junk: Page): Disk
    requires d.free != P_INVALID ==> d.free in d.pages && d.book.freeSeq != []
  {
    if d.free != P_INVALID then
      Disk(d.pages, d.npages, d.pages[d.free].next,
           d.book.(owner := d.book.owner[d.free := Tree], freeSeq := d.book.freeSeq[..|d.book.freeSeq| - 1]))
    else
      Disk(d.pages[d.npages := junk], d.npages + 1, d.free, d.book.(owner := d.book.owner[d.npages := Tree]))
  }

  lemma {:induction false} HeadIsFree(d: Disk, plen: nat)
    requires DiskOk(d, plen)
    ensures d.free != P_INVALID <==> d.book.freeSeq != []
    ensures d.free != P_INVALID ==> d.free in d.pages && Owns(d, d.free, Free(|d.book.freeSeq| - 1))
    ensures d.npages !in d.book.owner && NextPage(d) != 0
  {
    var n := OwnedOk(d.book, d.npages);
    if d.book.freeSeq != [] {
      assert FreeAt(d.pages, d.book.owner, d.book.freeSeq, |d.book.freeSeq| - 1);
      assert OwnedOk(d.book, d.book.freeSeq[|d.book.freeSeq| - 1]);
    }
  }

  lemma {:induction false} AllocatedOk(d: Disk, plen: nat, junk: Page)
    requires DiskOk(d, plen)
    ensures d.free != P_INVALID ==> d.free in d.pages && d.book.freeSeq != []
    ensures DiskOk(Allocated(d, junk), plen)
  {
    HeadIsFree(d, plen);
    var d', n := Allocated(d, junk), |d.book.freeSeq|;
    if d.free != P_INVALID { assert FreeAt(d.pages, d.book.owner, d.book.freeSeq, n - 1); }
    forall p: PgNo
      ensures (p < d'.npages <==> p in d'.book.owner) && (p < d'.npages ==> OwnedOk(d'.book, p))
    {
      var was := OwnedOk(d.book, p);
    }
    forall i | 0 <= i < |d'.book.freeSeq|
      ensures FreeAt(d'.pages, d'.book.owner, d'.book.freeSeq, i)
    {
      assert FreeAt(d.pages, d.book.owner, d.book.freeSeq, i);
    }
    forall f | f in d'.book.chains
      ensures ChainOk(d'.pages, d'.book.owner, plen, d'.book.chains, f)
    {
      ChainFrame(d, d', plen, f);
    }
  }

  // ---------------------------------------------------------------- storing a chain

  /** Copying `chunk` to the start of a page's payload. */
  function Overwrite(payload: seq<Byte>, chunk: seq<Byte>): (r: seq<Byte>)
    ensures chunk <= r
  {
    if |chunk| < |payload| then chunk + payload[|chunk|..] else chunk
  }

  /** A new page holds the next stretch of a chain; `f` is its first page, 0 while there is none. */
  ghost function Linked(d: Disk, plen: nat, junk: Page, f: PgNo, chunk: seq<Byte>): Disk
    requires DiskOk(d, plen) && (f != 0 ==> f in d.book.chains)
  {
    AllocatedOk(d, plen, junk);
    HeadIsFree(d, plen);
    var h, a := NextPage(d), Allocated(d, junk);
    var page := Page(Overflow, P_INVALID, P_INVALID, [], Overwrite(a.pages[h].bytes, chunk));
    if f == 0 then
      a.(pages := a.pages[h := page],
         book := a.book.(owner := a.book.owner[h := Link(h, 0)], chains := a.book.chains[h := Chain([h], chunk)]))
    else
      assert ChainOk(d.pages, d.book.owner, plen, d.book.chains, f);
      var c := d.book.chains[f];
      var last := c.pgs[|c.pgs| - 1];
      assert LinkOk(d.pages, d.book.owner, plen, c, |c.pgs| - 1);
      a.(pages := a.pages[h := page][last := a.pages[last].(next := h)],
         book := a.book.(owner := a.book.owner[h := Link(f, |c.pgs|)],
                         chains := a.book.chains[f := Chain(c.pgs + [h], c.data + chunk)]))
  }

  lemma {:induction false} FullMono(plen: nat, m: nat, n: nat)
    requires m <= n
    ensures Full(plen, m) <= Full(plen, n)
  {
    if m < n { FullMono(plen, m, n - 1); }
  }

  lemma {:induction false} StartChain(d: Disk, plen: nat, h: PgNo, page: Page, chunk: seq<Byte>)
    requires DiskOk(d, plen) && Owns(d, h, Tree)
    requires page.kind == Overflow && page.next == P_INVALID && |chunk| <= plen && chunk <= page.bytes
    ensures h !in d.book.chains
    ensures DiskOk(d.(pages := d.pages[h := page],
                      book := d.book.(owner := d.book.owner[h := Link(h, 0)], chains := d.book.chains[h := Chain([h], chunk)])), plen)
  {
    var d' := d.(pages := d.pages[h := page],
                 book := d.book.(owner := d.book.owner[h := Link(h, 0)], chains := d.book.chains[h := Chain([h], chunk)]));
    forall f | f in d.book.chains
      ensures Owns(d, f, Link(f, 0))
    {
      assert ChainOk(d.pages, d.book.owner, plen, d.book.chains, f);
      assert LinkOk(d.pages, d.book.owner, plen, d.book.chains[f], 0);
    }
    assert Full(plen, 1) == Full(plen, 0) + plen;
    forall p: PgNo
      ensures (p < d'.npages <==> p in d'.book.owner) && (p < d'.npages ==> OwnedOk(d'.book, p))
    {
      var was := OwnedOk(d.book, p);
    }
    forall i | 0 <= i < |d'.book.freeSeq|
      ensures FreeAt(d'.pages, d'.book.owner, d'.book.freeSeq, i)
    {
      assert FreeAt(d.pages, d.book.owner, d.book.freeSeq, i);
    }
    forall f | f in d'.book.chains
      ensures ChainOk(d'.pages, d'.book.owner, plen, d'.book.chains, f)
    {
      if f == h {
        assert LinkOk(d'.pages, d'.book.owner, plen, d'.book.chains[h], 0);
      } else {
        ChainFrame(d, d', plen, f);
      }
    }
  }

  /** Chain `f` of `d` with page `h` linked after its last page. */
  ghost function Longer(d: Disk, f: PgNo, h: PgNo, page: Page, chunk: seq<Byte>): Disk
    requires f in d.book.chains && |d.book.chains[f].pgs| > 0
    requires d.book.chains[f].pgs[|d.book.chains[f].pgs| - 1] in d.pages
  {
    var c := d.book.chains[f];
    var last := c.pgs[|c.pgs| - 1];
    d.(pages := d.pages[h := page][last := d.pages[last].(next := h)],
       book := d.book.(owner := d.book.owner[h := Link(f, |c.pgs|)], chains := d.book.chains[f := Chain(c.pgs + [h], c.data + chunk)]))
  }

  ghost predicate CanGrow(d: Disk, plen: nat, f: PgNo, h: PgNo, page: Page, chunk: seq<Byte>) {
    && DiskOk(d, plen) && Owns(d, h, Tree) && f in d.book.chains && |d.book.chains[f].pgs| > 0
    && |d.book.chains[f].data| == Full(plen, |d.book.chains[f].pgs|)
    && page.kind == Overflow && page.next == P_INVALID && 0 < |chunk| <= plen && chunk <= page.bytes
    && var last := d.book.chains[f].pgs[|d.book.chains[f].pgs| - 1];
    && last in d.pages && Owns(d, last, Link(f, |d.book.chains[f].pgs| - 1))
  }

  lemma {:induction false} GrowLink(d: Disk, plen: nat, f: PgNo, h: PgNo, page: Page, chunk: seq<Byte>, i: nat)
    requires CanGrow(d, plen, f, h, page, chunk) && i <= |d.book.chains[f].pgs|
    ensures var d' := Longer(d, f, h, page, chunk);
      LinkOk(d'.pages, d'.book.owner, plen, d'.book.chains[f], i)
  {
    var c, d' := d.book.chains[f], Longer(d, f, h, page, chunk);
    var n, c' := |c.pgs|, d'.book.chains[f];
    assert ChainOk(d.pages, d.book.owner, plen, d.book.chains, f);
    hide ChainOk, DiskOk;
    if i < n {
      assert LinkOk(d.pages, d.book.owner, plen, c, i);
      FullMono(plen, i + 1, n);
      assert c'.data[Full(plen, i)..Full(plen, i) + plen] == c.data[Full(plen, i)..Full(plen, i) + plen];
    } else {
      assert LinkOk(d.pages, d.book.owner, plen, c, 0);
      assert c'.data[Full(plen, n)..] == chunk;
    }
  }

  lemma {:induction false} GrowChain(d: Disk, plen: nat, f: PgNo, h: PgNo, page: Page, chunk: seq<Byte>)
    requires CanGrow(d, plen, f, h, page, chunk)
    ensures DiskOk(Longer(d, f, h, page, chunk), plen)
  {
    var c, d' := d.book.chains[f], Longer(d, f, h, page, chunk);
    forall p: PgNo
      ensures (p < d'.npages <==> p in d'.book.owner) && (p < d'.npages ==> OwnedOk(d'.book, p))
    {
      var was := OwnedOk(d.book, p);
    }
    forall i | 0 <= i < |d'.book.freeSeq|
      ensures FreeAt(d'.pages, d'.book.owner, d'.book.freeSeq, i)
    {
      assert FreeAt(d.pages, d.book.owner, d.book.freeSeq, i);
    }
    forall e | e in d'.book.chains
      ensures ChainOk(d'.pages, d'.book.owner, plen, d'.book.chains, e)
    {
      assert ChainOk(d.pages, d.book.owner, plen, d.book.chains, e);
      if e == f {
        assert Full(plen, |c.pgs| + 1) == Full(plen, |c.pgs|) + plen;
        forall i | 0 <= i < |d'.book.chains[f].pgs|
          ensures LinkOk(d'.pages, d'.book.owner, plen, d'.book.chains[f], i)
        {
          GrowLink(d, plen, f, h, page, chunk, i);
        }
      } else {
        ChainFrame(d, d', plen, e);
      }
    }
  }

  lemma {:induction false} LinkedOk(d: Disk, plen: nat, junk: Page, f: PgNo, chunk: seq<Byte>)
    requires DiskOk(d, plen) && |chunk| <= plen
    requires f != 0 ==> f in d.book.chains && 0 < |chunk| && |d.book.chains[f].data| == Full(plen, |d.book.chains[f].pgs|)
    ensures DiskOk(Linked(d, plen, junk, f, chunk), plen)
    ensures f == 0 ==> NextPage(d) !in d.book.chains
  {
    AllocatedOk(d, plen, junk);
    HeadIsFree(d, plen);
    var h, a := NextPage(d), Allocated(d, junk);
    var page := Page(Overflow, P_INVALID, P_INVALID, [], Overwrite(a.pages[h].bytes, chunk));
    if f == 0 {
      StartChain(a, plen, h, page, chunk);
    } else {
      assert ChainOk(d.pages, d.book.owner, plen, d.book.chains, f);
      assert LinkOk(d.pages, d.book.owner, plen, d.book.chains[f], |d.book.chains[f].pgs| - 1);
      GrowChain(a, plen, f, h, page, chunk);
    }
  }

  /** What was in use stays as it was, and no page joins the tree. */
  ghost predicate KeepsUsed(d: Disk, d': Disk) {
    && (forall p {:trigger SameElsewhere(d, d', p)} :: p in d.book.owner && !d.book.owner[p].Free? ==> SameElsewhere(d, d', p))
    && (forall p {:trigger Owns(d', p, Tree)} :: Owns(d', p, Tree) ==> Owns(d, p, Tree))
  }

  /** A page that was free is an overflow page now. */
  ghost predicate Reused(d': Disk, p: PgNo) { p in d'.pages && d'.pages[p].kind == Overflow && d'.pages[p].ents == [] }

  /** Of the free pages, the `n` nearest the head were reused and the others left alone. */
  ghost predicate Reuses(d: Disk, d': Disk, n: nat) {
    forall p {:trigger SameElsewhere(d, d', p)} {:trigger Reused(d', p)} :: p in d.book.owner && d.book.owner[p].Free? ==>
      if d.book.owner[p].i + n < |d.book.freeSeq| then SameElsewhere(d, d', p) else Reused(d', p)
  }

  /** `d'` is `d` after storing `data` on a new chain of `n` pages starting at `f`.  Free pages are used up first. */
  ghost predicate Stored(d: Disk, d': Disk, f: PgNo, n: nat, data: seq<Byte>) {
    && KeepsUsed(d, d') && Reuses(d, d', n)
    && d'.book.freeSeq == d.book.freeSeq[..Monus(|d.book.freeSeq|, n)]
    && d'.npages == d.npages + Monus(n, |d.book.freeSeq|)
    && if n == 0 then f == 0 && d'.book.chains == d.book.chains && data == []
       else f != 0 && f !in d.book.chains && f in d'.book.chains && d'.book.chains == d.book.chains[f := d'.book.chains[f]]
            && |d'.book.chains[f].pgs| == n && d'.book.chains[f].data == data
  }

  /** The chain takes as few pages as its bytes allow, and one at least. */
  lemma {:induction false} StoredPages(d: Disk, d': Disk, plen: nat, f: PgNo, n: nat, data: seq<Byte>)
    requires DiskOk(d', plen) && n > 0 && Stored(d, d', f, n, data)
    ensures |data| <= n * plen && (n > 1 ==> (n - 1) * plen < |data|)
  {
    assert ChainOk(d'.pages, d'.book.owner, plen, d'.book.chains, f);
    FullIs(plen, n);
    FullIs(plen, n - 1);
  }

  lemma {:induction false} StoredNothing(d: Disk, plen: nat)
    requires DiskOk(d, plen)
    ensures Stored(d, d, 0, 0, [])
  {
    forall p | p in d.book.owner && d.book.owner[p].Free?
      ensures d.book.owner[p].i < |d.book.freeSeq| && SameElsewhere(d, d, p)
    {
      assert OwnedOk(d.book, p);
    }
  }

  lemma {:induction false} LinkedReuses(d: Disk, d1: Disk, plen: nat, junk: Page, f: PgNo, n: nat, data: seq<Byte>, chunk: seq<Byte>)
    requires DiskOk(d, plen) && DiskOk(d1, plen) && Stored(d, d1, f, n, data)
    ensures Reuses(d, Linked(d1, plen, junk, f, chunk), n + 1)
  {
    var d2 := Linked(d1, plen, junk, f, chunk);
    HeadIsFree(d1, plen);
    if n > 0 {
      assert ChainOk(d1.pages, d1.book.owner, plen, d1.book.chains, f);
      assert LinkOk(d1.pages, d1.book.owner, plen, d1.book.chains[f], n - 1);
    }
    forall p | p in d.book.owner && d.book.owner[p].Free?
      ensures if d.book.owner[p].i + n + 1 < |d.book.freeSeq| then SameElsewhere(d, d2, p) else Reused(d2, p)
    {
      var i := d.book.owner[p].i;
      assert OwnedOk(d.book, p);
      if i + n < |d.book.freeSeq| { assert SameElsewhere(d, d1, p); } else { assert Reused(d1, p); }
    }
  }

  lemma {:induction false} LinkedKeeps(d: Disk, d1: Disk, plen: nat, junk: Page, f: PgNo, n: nat, data: seq<Byte>, chunk: seq<Byte>)
    requires DiskOk(d, plen) && DiskOk(d1, plen) && Stored(d, d1, f, n, data)
    ensures KeepsUsed(d, Linked(d1, plen, junk, f, chunk))
  {
    var d2 := Linked(d1, plen, junk, f, chunk);
    HeadIsFree(d1, plen);
    if n > 0 {
      assert ChainOk(d1.pages, d1.book.owner, plen, d1.book.chains, f);
      assert LinkOk(d1.pages, d1.book.owner, plen, d1.book.chains[f], n - 1);
    }
    forall p | p in d.book.owner && !d.book.owner[p].Free?
      ensures SameElsewhere(d, d2, p)
    {
      assert SameElsewhere(d, d1, p);
      assert OwnedOk(d.book, p);
    }
    forall p | Owns(d2, p, Tree)
      ensures Owns(d, p, Tree)
    {
      assert Owns(d1, p, Tree);
    }
  }

  lemma {:induction false} StoredMore(d: Disk, d1: Disk, plen: nat, junk: Page, f: PgNo, n: nat, data: seq<Byte>, chunk: seq<Byte>)
    requires DiskOk(d, plen) && DiskOk(d1, plen) && Stored(d, d1, f, n, data)
    ensures var d2 := Linked(d1, plen, junk, f, chunk);
      Stored(d, d2, if f == 0 then NextPage(d1) else f, n + 1, data + chunk)
  {
    LinkedKeeps(d, d1, plen, junk, f, n, data, chunk);
    LinkedReuses(d, d1, plen, junk, f, n, data, chunk);
    HeadIsFree(d1, plen);
    HeadOfChainOwned(d, plen, NextPage(d1));
    HeadOfChainOwned(d1, plen, NextPage(d1));
  }

  lemma {:induction false} HeadOfChainOwned(d: Disk, plen: nat, f: PgNo)
    requires DiskOk(d, plen)
    ensures f in d.book.chains ==> Owns(d, f, Link(f, 0)) && f != 0
  {
    if f in d.book.chains {
      assert ChainOk(d.pages, d.book.owner, plen, d.book.chains, f);
      assert LinkOk(d.pages, d.book.owner, plen, d.book.chains[f], 0);
      assert OwnedOk(d.book, f);
    }
  }

  /** Two chains of equally long data have equally many pages, so a deleted chain's pages are enough
      to store as long a string again. */
  lemma {:induction false} LengthDecides(plen: nat, size: nat, m: nat, n: nat)
    requires RightLength(plen, size, m) && RightLength(plen, size, n)
    ensures m == n
  {
    if m < n {
      FullMono(plen, m, n - 1);
    } else if n < m {
      FullMono(plen, n, m - 1);
    }
  }

  // ---------------------------------------------------------------- deleting a chain

  ghost predicate OfChain(d: Disk, f: PgNo, p: PgNo) {
    p in d.book.owner && d.book.owner[p].Link? && d.book.owner[p].first == f
  }

  /** Chain `f` is given up; its pages are loose. */
  ghost function Released(d: Disk, f: PgNo): Disk {
    d.(book := d.book.(owner := map p | p in d.book.owner :: if OfChain(d, f, p) then Tree else d.book.owner[p],
                       chains := d.book.chains - {f}))
  }

  lemma {:induction false} ReleasedOk(d: Disk, plen: nat, f: PgNo)
    requires DiskOk(d, plen)
    ensures DiskOk(Released(d, f), plen)
  {
    var d' := Released(d, f);
    forall p: PgNo
      ensures (p < d'.npages <==> p in d'.book.owner) && (p < d'.npages ==> OwnedOk(d'.book, p))
    {
      var was := OwnedOk(d.book, p);
    }
    forall i | 0 <= i < |d'.book.freeSeq|
      ensures FreeAt(d'.pages, d'.book.owner, d'.book.freeSeq, i)
    {
      assert FreeAt(d.pages, d.book.owner, d.book.freeSeq, i);
    }
    forall e | e in d'.book.chains
      ensures ChainOk(d'.pages, d'.book.owner, plen, d'.book.chains, e)
    {
      assert ChainOk(d.pages, d.book.owner, plen, d.book.chains, e);
      ChainFrame(d, d', plen, e);
    }
  }

  ghost predicate SameBody(d: Disk, d': Disk, p: PgNo) {
    p in d.pages && p in d'.pages && d'.pages[p].kind == d.pages[p].kind && d'.pages[p].ents == d.pages[p].ents
  }

  /** The first `i` pages of chain `f` have gone to the free list, the rest are loose. */
  ghost predicate Drained(d: Disk, d': Disk, f: PgNo, i: nat)
    requires f in d.book.chains
  {
    var pgs := d.book.chains[f].pgs;
    && i <= |pgs| && d'.npages == d.npages && d'.book.chains == d.book.chains - {f}
    && d'.book.freeSeq == d.book.freeSeq + pgs[..i]
    && (forall p {:trigger SameElsewhere(d, d', p)} :: p in d.book.owner && !OfChain(d, f, p) ==> SameElsewhere(d, d', p))
    && (forall p {:trigger SameBody(d, d', p)} :: OfChain(d, f, p) ==> SameBody(d, d', p))
    && (forall p {:trigger Loose(d, d', p)} :: OfChain(d, f, p) && d.book.owner[p].i >= i ==> Loose(d, d', p))
    && (forall p {:trigger Owns(d', p, Tree)} :: Owns(d', p, Tree) ==> Owns(d, p, Tree) || (OfChain(d, f, p) && d.book.owner[p].i >= i))
  }

  ghost predicate Loose(d: Disk, d': Disk, p: PgNo) {
    p in d.pages && p in d'.pages && d'.pages[p] == d.pages[p] && Owns(d', p, Tree)
  }

  lemma {:induction false} DrainStart(d: Disk, plen: nat, f: PgNo)
    requires DiskOk(d, plen) && f in d.book.chains
    ensures Drained(d, Released(d, f), f, 0) && DiskOk(Released(d, f), plen)
  {
    ReleasedOk(d, plen, f);
  }

  lemma {:induction false} DrainStep(d: Disk, d1: Disk, plen: nat, f: PgNo, i: nat)
    requires DiskOk(d, plen) && DiskOk(d1, plen) && f in d.book.chains && Drained(d, d1, f, i)
    requires i < |d.book.chains[f].pgs|
    ensures var h := d.book.chains[f].pgs[i];
      Loose(d, d1, h) && Owns(d, h, Link(f, i)) && Drained(d, Freed(d1, h), f, i + 1) && DiskOk(Freed(d1, h), plen)
  {
    var pgs := d.book.chains[f].pgs;
    var h := pgs[i];
    assert ChainOk(d.pages, d.book.owner, plen, d.book.chains, f);
    assert LinkOk(d.pages, d.book.owner, plen, d.book.chains[f], i);
    assert Loose(d, d1, h);
    FreedOk(d1, plen, h);
    var d2 := Freed(d1, h);
    assert pgs[..i + 1] == pgs[..i] + [h];
    forall p | p in d.book.owner && !OfChain(d, f, p)
      ensures SameElsewhere(d, d2, p)
    {
      assert SameElsewhere(d, d1, p);
    }
    forall p | OfChain(d, f, p)
      ensures SameBody(d, d2, p)
    {
      assert SameBody(d, d1, p);
    }
    forall p | OfChain(d, f, p) && d.book.owner[p].i >= i + 1
      ensures Loose(d, d2, p)
    {
      assert Loose(d, d1, p);
    }
    forall p | Owns(d2, p, Tree)
      ensures Owns(d, p, Tree) || (OfChain(d, f, p) && d.book.owner[p].i >= i + 1)
    {
      assert Owns(d1, p, Tree);
      if OfChain(d, f, p) { assert OwnedOk(d.book, p); }
    }
  }

  /** All pages of the chain are free: nothing else changed. */
  ghost predicate Dropped(d: Disk, d': Disk, f: PgNo)
    requires f in d.book.chains
  {
    && d'.npages == d.npages && d'.book.chains == d.book.chains - {f}
    && d'.book.freeSeq == d.book.freeSeq + d.book.chains[f].pgs
    && (forall p {:trigger SameBody(d, d', p)} :: OfChain(d, f, p) ==> SameBody(d, d', p))
    && (forall p {:trigger SameElsewhere(d, d', p)} :: p in d.book.owner && !OfChain(d, f, p) ==> SameElsewhere(d, d', p))
    && (forall p {:trigger Owns(d', p, Tree)} :: Owns(d', p, Tree) ==> Owns(d, p, Tree))
  }

  lemma {:induction false} DrainEnd(d: Disk, d': Disk, plen: nat, f: PgNo)
    requires DiskOk(d, plen) && f in d.book.chains && Drained(d, d', f, |d.book.chains[f].pgs|)
    ensures Dropped(d, d', f)
  {
    var pgs := d.book.chains[f].pgs;
    assert pgs[..|pgs|] == pgs;
    forall p | Owns(d', p, Tree)
      ensures Owns(d, p, Tree)
    {
      if OfChain(d, f, p) { assert OwnedOk(d.book, p); }
    }
  }

  // ---------------------------------------------------------------- single free pages

  lemma {:induction false} LinkIsOverflow(d: Disk, plen: nat, p: PgNo)
    requires DiskOk(d, plen)
    ensures p in d.book.owner && d.book.owner[p].Link? ==> p in d.pages && d.pages[p].kind == Overflow
  {
    if p in d.book.owner && d.book.owner[p].Link? {
      var f, i := d.book.owner[p].first, d.book.owner[p].i;
      assert OwnedOk(d.book, p);
      assert ChainOk(d.pages, d.book.owner, plen, d.book.chains, f);
      assert LinkOk(d.pages, d.book.owner, plen, d.book.chains[f], i);
    }
  }

  /** A page that is neither of the tree nor an overflow page is free. */
  lemma {:induction false} NotInUse(d: Disk, plen: nat, p: PgNo)
    requires DiskOk(d, plen) && p in d.pages && p != 0 && !Owns(d, p, Tree) && d.pages[p].kind != Overflow
    ensures p in d.book.owner && d.book.owner[p].Free? && d.pages[p].prev == P_INVALID
    ensures d.book.owner[p].i < |d.book.freeSeq| && d.book.freeSeq[d.book.owner[p].i] == p
  {
    assert OwnedOk(d.book, p);
    LinkIsOverflow(d, plen, p);
    if d.book.owner[p].Free? { assert FreeAt(d.pages, d.book.owner, d.book.freeSeq, d.book.owner[p].i); }
  }

  /** What a free page holds apart from its links is no matter. */
  lemma {:induction false} FreePageFree(d: Disk, plen: nat, p: PgNo, page: Page)
    requires DiskOk(d, plen) && p in d.book.owner && d.book.owner[p].Free? && page.prev == d.pages[p].prev && page.next == d.pages[p].next
    ensures DiskOk(d.(pages := d.pages[p := page]), plen)
  {
    var d' := d.(pages := d.pages[p := page]);
    forall q: PgNo
      ensures (q < d'.npages <==> q in d'.book.owner) && (q < d'.npages ==> OwnedOk(d'.book, q))
    {
      var was := OwnedOk(d.book, q);
    }
    forall i | 0 <= i < |d.book.freeSeq|
      ensures FreeAt(d'.pages, d'.book.owner, d'.book.freeSeq, i)
    {
      assert FreeAt(d.pages, d.book.owner, d.book.freeSeq, i);
    }
    forall f | f in d.book.chains
      ensures ChainOk(d'.pages, d'.book.owner, plen, d'.book.chains, f)
    {
      ChainFrame(d, d', plen, f);
    }
  }

  /** The number of pages of a chain for `size` bytes. */
  function Chunks(plen: nat, size: nat): nat
    requires plen > 0
  {
    if size <= plen then 1 else 1 + Chunks(plen, size - plen)
  }

  lemma {:induction false} FullShift(plen: nat, n: nat)
    ensures Full(plen, n + 1) == plen + Full(plen, n)
  {
    if n > 0 { FullShift(plen, n - 1); }
  }

  lemma {:induction false} ChunksRight(plen: nat, size: nat)
    requires plen > 0
    ensures RightLength(plen, size, Chunks(plen, size))
  {
    if size > plen {
      ChunksRight(plen, size - plen);
      var n := Chunks(plen, size - plen);
      FullShift(plen, n);
      FullShift(plen, n - 1);
    } else {
      FullShift(plen, 0);
    }
  }

  /** Storing `size` bytes takes page `pg` from the free list that starts at `head`. */
  predicate TakesPage(pages: Pages, plen: nat, head: PgNo, size: nat, pg: PgNo)
    requires plen > 0
    decreases size
  {
    head != P_INVALID && (head == pg || (size > plen && head in pages && TakesPage(pages, plen, pages[head].next, size - plen, pg)))
  }

  /** It does if the page is that near the head. */
  lemma {:induction false} TakesNearest(d: Disk, plen: nat, size: nat, i: nat, m: nat)
    requires DiskOk(d, plen) && i < m <= |d.book.freeSeq|
    ensures TakesPage(d.pages, plen, d.book.freeSeq[m - 1], size, d.book.freeSeq[i]) <==> i + Chunks(plen, size) >= m
    decreases size
  {
    assert FreeAt(d.pages, d.book.owner, d.book.freeSeq, m - 1) && FreeAt(d.pages, d.book.owner, d.book.freeSeq, i);
    assert OwnedOk(d.book, d.book.freeSeq[m - 1]);
    if i != m - 1 && size > plen {
      TakesNearest(d, plen, size - plen, i, m - 1);
    }
  }

  // ---------------------------------------------------------------- the pages as a whole

  /** The free list and the chains have no page twice and none in common, and with the metadata page and
      the tree's pages they are all the pages of the file. */
  lemma {:induction false} PagesPartitioned(d: Disk, plen: nat)
    requires DiskOk(d, plen)
    ensures forall i, j :: 0 <= i < j < |d.book.freeSeq| ==> d.book.freeSeq[i] != d.book.freeSeq[j]
    ensures forall f, i, j :: f in d.book.chains && 0 <= i < j < |d.book.chains[f].pgs| ==> d.book.chains[f].pgs[i] != d.book.chains[f].pgs[j]
    ensures forall f, g, p :: f in d.book.chains && g in d.book.chains && p in d.book.chains[f].pgs && p in d.book.chains[g].pgs ==> f == g
    ensures forall f, p :: f in d.book.chains && p in d.book.chains[f].pgs ==> p !in d.book.freeSeq && p < d.npages && !Owns(d, p, Tree)
    ensures forall p :: p in d.book.freeSeq ==> p < d.npages && !Owns(d, p, Tree)
    ensures forall p :: 0 < p < d.npages ==> Owns(d, p, Tree) || p in d.book.freeSeq || exists f :: f in d.book.chains && p in d.book.chains[f].pgs
  {
    forall i | 0 <= i < |d.book.freeSeq|
      ensures Owns(d, d.book.freeSeq[i], Free(i)) && d.book.freeSeq[i] < d.npages
    {
      assert FreeAt(d.pages, d.book.owner, d.book.freeSeq, i);
      var was := OwnedOk(d.book, d.book.freeSeq[i]);
    }
    forall f, i | f in d.book.chains && 0 <= i < |d.book.chains[f].pgs|
      ensures Owns(d, d.book.chains[f].pgs[i], Link(f, i)) && d.book.chains[f].pgs[i] < d.npages
    {
      assert ChainOk(d.pages, d.book.owner, plen, d.book.chains, f);
      assert LinkOk(d.pages, d.book.owner, plen, d.book.chains[f], i);
      var was := OwnedOk(d.book, d.book.chains[f].pgs[i]);
    }
    forall p: PgNo | 0 < p < d.npages && !Owns(d, p, Tree) && p !in d.book.freeSeq
      ensures exists f :: f in d.book.chains && p in d.book.chains[f].pgs
    {
      assert OwnedOk(d.book, p);
      var f := d.book.owner[p].first;
      assert f in d.book.chains && p in d.book.chains[f].pgs;
    }
  }
}
