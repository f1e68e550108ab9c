/** The steps of tree operations over the disk: each keeps the tree, its records, the page sizes and
    the page owners in agreement. */
module Steps {
  import opened Keys
  import opened Layout
  import opened Split
  import opened Shape
  import opened Grow
  import opened Shrink
  import opened Records
  import opened Position
  import opened Storage

  ghost predicate Fits(pages: Pages, full: nat, p: PgNo) {
    p in pages && Sized(pages[p].ents, full)
  }

  /** The tree with records `recs` sits on disk `d`: its pages fit, and are those the disk lists as tree pages. */
  ghost predicate TreeOn(d: Disk, full: nat, sh: Shape, ht: nat, recs: Recs, ex: Ex) {
    && TreeInv(d.pages, sh, ht, ex) && Holds(d.pages, sh, recs)
    && (forall p {:trigger Fits(d.pages, full, p)} :: p in sh ==> Fits(d.pages, full, p))
    && (forall p {:trigger Owns(d, p, Tree)} :: p in sh <==> Owns(d, p, Tree))
  }

  /** A tree depends on its own pages only. */
  lemma {:induction false} TreeFrame(pages: Pages, pages': Pages, sh: Shape, ht: nat, recs: Recs, ex: Ex)
    requires TreeInv(pages, sh, ht, ex) && Holds(pages, sh, recs) && sh.Keys <= pages'.Keys
    requires forall p {:trigger pages'[p]} :: p in sh ==> pages'[p] == pages[p]
    ensures TreeInv(pages', sh, ht, ex) && Holds(pages', sh, recs)
  {
    forall p | p in sh
      ensures PageOk(pages', sh, ht, ex, p)
    {
      assert PageOk(pages, sh, ht, ex, p);
      if sh[p].lvl > 0 {
        forall j | 0 <= j < |pages'[p].ents|
          ensures ChildOk(pages', sh, ex, p, j)
        {
          assert ChildOk(pages, sh, ex, p, j);
        }
      }
    }
    forall e
      ensures Has(pages', sh, e) <==> Has(pages, sh, e)
    {
      if Has(pages', sh, e) { var p: PgNo, i: nat :| At(pages', sh, p, i, e); assert At(pages, sh, p, i, e); }
      if Has(pages, sh, e) { var p: PgNo, i: nat :| At(pages, sh, p, i, e); assert At(pages', sh, p, i, e); }
    }
  }

  /** The tree is still there when only other pages changed use. */
  lemma {:induction false} TreeElsewhere(d: Disk, d': Disk, full: nat, sh: Shape, ht: nat, recs: Recs, ex: Ex)
    requires TreeOn(d, full, sh, ht, recs, ex)
    requires forall p {:trigger SameElsewhere(d, d', p)} :: Owns(d, p, Tree) ==> SameElsewhere(d, d', p)
    requires forall p {:trigger Owns(d', p, Tree)} :: Owns(d', p, Tree) ==> Owns(d, p, Tree)
    ensures TreeOn(d', full, sh, ht, recs, ex)
  {
    forall p | p in sh
      ensures p in d'.pages && d'.pages[p] == d.pages[p] && Fits(d'.pages, full, p) && Owns(d', p, Tree)
    {
      assert Owns(d, p, Tree) && SameElsewhere(d, d', p) && Fits(d.pages, full, p);
    }
    forall p | Owns(d', p, Tree)
      ensures p in sh
    {
      assert Owns(d, p, Tree);
    }
    TreeFrame(d.pages, d'.pages, sh, ht, recs, ex);
  }

  /** A page outside the tree changes. */
  lemma {:induction false} TreeBeside(d: Disk, full: nat, sh: Shape, ht: nat, recs: Recs, p: PgNo, page: Page)
    requires TreeOn(d, full, sh, ht, recs, NoEx) && DiskOk(d, full) && p in d.pages && p !in sh
    ensures TreeOn(d.(pages := d.pages[p := page]), full, sh, ht, recs, NoEx)
  {
    assert !Owns(d, p, Tree);
    TreeElsewhere(d, d.(pages := d.pages[p := page]), full, sh, ht, recs, NoEx);
  }

  lemma {:induction false} FindsOn(d: Disk, full: nat, sh: Shape, ht: nat, recs: Recs, key: Key, h: PgNo, i: nat, x: bool)
    requires TreeOn(d, full, sh, ht, recs, NoEx) && IsPosition(d.pages, sh, key, h, i, x)
    ensures h in sh && h in d.pages && Owns(d, h, Tree) && (x <==> key in recs)
  {
    PositionFinds(d.pages, sh, ht, recs, key, h, i, x);
  }

  // ---------------------------------------------------------------- one leaf

  lemma {:induction false} PageOn(d: Disk, full: nat, sh: Shape, ht: nat, recs: Recs, ex: Ex, p: PgNo)
    requires TreeOn(d, full, sh, ht, recs, ex)
    ensures (p in sh <==> Owns(d, p, Tree)) && 0 !in sh
    ensures p in sh ==> p in d.pages && PageOk(d.pages, sh, ht, ex, p) && Fits(d.pages, full, p)
  {
    var own := Owns(d, p, Tree);
  }

  /** A leaf takes a new record. */
  lemma {:induction false} LeafTakes(d: Disk, full: nat, sh: Shape, ht: nat, recs: Recs, ex: Ex, h: PgNo, i: nat, e: Ent)
    requires TreeOn(d, full, sh, ht, recs, ex) && ex.pr == 0 && (ex.em == h || ex.em == 0)
    requires h in sh && sh[h].lvl == 0 && e.val.Data? && e.key !in recs
    requires sh[h].lo <= Rank(e.key) < sh[h].hi && IsSlot(d.pages[h].ents, e.key, i, false)
    ensures var pages' := d.pages[h := d.pages[h].(ents := Ins(d.pages[h].ents, i, e))];
      TreeInv(pages', sh, ht, NoEx) && Holds(pages', sh, recs[e.key := e.val.item])
  {
    assert PageOk(d.pages, sh, ht, ex, h);
    SlotIns(d.pages[h].ents, sh[h], e, i);
    SetLeaf(d.pages, sh, ht, ex, h, Ins(d.pages[h].ents, i, e), NoEx);
    InsertRecs(d.pages, sh, ht, ex, recs, h, i, e);
  }

  lemma {:induction false} StepInsert(d: Disk, full: nat, sh: Shape, ht: nat, recs: Recs, ex: Ex, h: PgNo, i: nat, e: Ent)
    requires TreeOn(d, full, sh, ht, recs, ex) && ex.pr == 0 && (ex.em == h || ex.em == 0)
    requires h in sh && sh[h].lvl == 0 && e.val.Data? && e.key !in recs
    requires sh[h].lo <= Rank(e.key) < sh[h].hi && IsSlot(d.pages[h].ents, e.key, i, false)
    requires Used(d.pages[h].ents) + Nb(e) + SLOT <= full && Nb(e) + SLOT <= full / 2
    ensures TreeOn(d.(pages := d.pages[h := d.pages[h].(ents := Ins(d.pages[h].ents, i, e))]), full, sh, ht, recs[e.key := e.val.item], NoEx)
  {
    LeafTakes(d, full, sh, ht, recs, ex, h, i, e);
    var d' := d.(pages := d.pages[h := d.pages[h].(ents := Ins(d.pages[h].ents, i, e))]);
    forall p | p in sh
      ensures Fits(d'.pages, full, p)
    {
      assert Fits(d.pages, full, p);
      if p == h { SizedIns(d.pages[h].ents, full, i, e); }
    }
    OwnersSame(d, d', sh);
  }

  lemma {:induction false} OwnersSame(d: Disk, d': Disk, sh: Shape)
    requires (forall p {:trigger Owns(d, p, Tree)} :: p in sh <==> Owns(d, p, Tree)) && d'.book == d.book
    ensures forall p {:trigger Owns(d', p, Tree)} :: p in sh <==> Owns(d', p, Tree)
  {
    forall p
      ensures p in sh <==> Owns(d', p, Tree)
    {
      var was := Owns(d, p, Tree);
    }
  }

  lemma {:induction false} SizedIns(ents: seq<Ent>, full: nat, i: nat, e: Ent)
    requires Sized(ents, full) && i <= |ents| && Used(ents) + Nb(e) + SLOT <= full && Nb(e) + SLOT <= full / 2
    ensures Sized(Ins(ents, i, e), full)
  {
    UsedIns(ents, i, e);
  }

  lemma {:induction false} SizedDel(ents: seq<Ent>, full: nat, i: nat)
    requires Sized(ents, full) && i < |ents|
    ensures Sized(Del(ents, i), full) && Used(Del(ents, i)) == Used(ents) - Nb(ents[i]) - SLOT
  {
    UsedDel(ents, i);
  }

  /** A record leaves its leaf, which may now be empty. */
  lemma {:induction false} StepRemove(d: Disk, full: nat, sh: Shape, ht: nat, recs: Recs, h: PgNo, i: nat)
    requires TreeOn(d, full, sh, ht, recs, NoEx) && h in sh && sh[h].lvl == 0 && i < |d.pages[h].ents|
    ensures var e := d.pages[h].ents[i];
      && e.val.Data? && e.key in recs && recs[e.key] == e.val.item
      && TreeOn(d.(pages := d.pages[h := d.pages[h].(ents := Del(d.pages[h].ents, i))]), full, sh, ht, recs - {e.key}, Ex(0, 0, h))
      && IsSlot(Del(d.pages[h].ents, i), e.key, i, false)
  {
    var ents := d.pages[h].ents;
    var d' := d.(pages := d.pages[h := d.pages[h].(ents := Del(ents, i))]);
    assert PageOk(d.pages, sh, ht, NoEx, h);
    SlotDel(ents, sh[h], i);
    SetLeaf(d.pages, sh, ht, NoEx, h, Del(ents, i), Ex(0, 0, h));
    RemoveRecs(d.pages, sh, ht, recs, h, i);
    forall p | p in sh
      ensures Fits(d'.pages, full, p)
    {
      assert Fits(d.pages, full, p);
      if p == h { SizedDel(ents, full, i); }
    }
    OwnersSame(d, d', sh);
  }

  /** A leaf that is not empty after all needs no exemption. */
  lemma {:induction false} NotEmpty(d: Disk, full: nat, sh: Shape, ht: nat, recs: Recs, h: PgNo)
    requires TreeOn(d, full, sh, ht, recs, Ex(0, 0, h)) && h in sh && (d.pages[h].ents != [] || h == P_ROOT)
    ensures TreeOn(d, full, sh, ht, recs, NoEx)
  {
    forall p | p in sh
      ensures PageOk(d.pages, sh, ht, NoEx, p)
    {
      assert PageOk(d.pages, sh, ht, Ex(0, 0, h), p);
      if sh[p].lvl > 0 {
        forall j | 0 <= j < |d.pages[p].ents|
          ensures ChildOk(d.pages, sh, NoEx, p, j)
        {
          assert ChildOk(d.pages, sh, Ex(0, 0, h), p, j);
        }
      }
    }
  }

  // ---------------------------------------------------------------- splitting

  /** Page `h` keeps `left` and a new right sibling `r` gets `right`. */
  ghost function SplitInto(pages: Pages, h: PgNo, r: PgNo, left: seq<Ent>, right: seq<Ent>): Pages
    requires h in pages && r in pages
  {
    var p := pages[h];
    var q := pages[h := p.(next := r, ents := left)][r := Page(p.kind, h, p.next, right, pages[r].bytes)];
    if p.next in q && p.next != P_INVALID then q[p.next := q[p.next].(prev := r)] else q
  }

  /** `h` with all entries `all` on it, as if it had room. */
  ghost function Overfull(pages: Pages, h: PgNo, all: seq<Ent>): Pages
    requires h in pages
  {
    pages[h := pages[h].(ents := all)]
  }

  /** A page `r` has been allocated for the tree and is not part of it yet. */
  ghost predicate Spare(d: Disk, sh: Shape, r: PgNo) {
    && r !in sh && r != 0 && r in d.pages
    && forall p {:trigger Owns(d, p, Tree)} :: Owns(d, p, Tree) <==> p in sh || p == r
  }

  lemma {:induction false} StepSplit(d: Disk, full: nat, sh: Shape, ht: nat, recs: Recs, h: PgNo, r: PgNo, left: seq<Ent>, right: seq<Ent>, s: real)
    requires h in sh && h != P_ROOT && Spare(d, sh, r) && sh.Keys <= d.pages.Keys
    requires var pm := Overfull(d.pages, h, left + right);
      && TreeInv(pm, sh, ht, NoEx) && Holds(pm, sh, recs)
      && |left| > 0 && |right| > 0 && SplitBound(pm, sh, h, |left|, s)
    requires forall p {:trigger Fits(d.pages, full, p)} :: p in sh && p != h ==> Fits(d.pages, full, p)
    requires Sized(left, full) && Sized(right, full)
    ensures TreeOn(d.(pages := SplitInto(d.pages, h, r, left, right)), full, SplitShape(sh, h, |left|, r, s), ht, recs, Ex(h, r, 0))
  {
    var pm, pages', k := Overfull(d.pages, h, left + right), SplitInto(d.pages, h, r, left, right), |left|;
    var d', sh' := d.(pages := pages'), SplitShape(sh, h, k, r, s);
    assert PageOk(pm, sh, ht, NoEx, h);
    assert pm[h].ents[..k] == left && pm[h].ents[k..] == right;
    assert IsSplit(pm, pages', sh, h, k, r);
    BoundInside(pm, sh, ht, h, k, s);
    SplitPage(pm, pages', sh, ht, h, k, r, s);
    SplitRecs(pm, pages', sh, ht, recs, h, k, r, s);
    forall p | p in sh'
      ensures Fits(pages', full, p)
    {
      if p != h && p != r { assert Fits(d.pages, full, p); }
    }
    forall p
      ensures p in sh' <==> Owns(d', p, Tree)
    {
      var was := Owns(d, p, Tree);
    }
  }

  /** The root hands `left` and `right` to new pages `l` and `r` and keeps two entries for them. */
  ghost function RootInto(pages: Pages, l: PgNo, r: PgNo, left: seq<Ent>, right: seq<Ent>, key: Key): Pages
    requires P_ROOT in pages && l in pages && r in pages
  {
    var p := pages[P_ROOT];
    pages[l := Page(p.kind, P_INVALID, r, left, pages[l].bytes)]
         [r := Page(p.kind, l, P_INVALID, right, pages[r].bytes)]
         [P_ROOT := p.(kind := Internal, ents := [Ent([], Child(l)), Ent(key, Child(r))])]
  }

  ghost predicate Spares(d: Disk, sh: Shape, l: PgNo, r: PgNo) {
    && l !in sh && l != 0 && l in d.pages && r !in sh && r != 0 && r in d.pages && l != r
    && forall p {:trigger Owns(d, p, Tree)} :: Owns(d, p, Tree) <==> p in sh || p == l || p == r
  }

  lemma {:induction false} TwoEntriesFit(l: PgNo, r: PgNo, key: Key, full: nat)
    requires full >= 28 && NbInternal(|key|) + SLOT <= full / 2
    ensures Sized([Ent([], Child(l)), Ent(key, Child(r))], full)
  {
    var a, b := Ent([], Child(l)), Ent(key, Child(r));
    assert UpTo([a, b], 0) == 0;
    assert UpTo([a, b], 1) == Nb(a) + SLOT;
    assert UpTo([a, b], 2) == Nb(a) + SLOT + Nb(b) + SLOT;
  }

  lemma {:induction false} StepSplitRoot(d: Disk, full: nat, sh: Shape, ht: nat, recs: Recs, l: PgNo, r: PgNo, left: seq<Ent>, right: seq<Ent>, key: Key)
    requires Spares(d, sh, l, r) && sh.Keys <= d.pages.Keys && P_ROOT in sh && d.pages[P_ROOT].prev == 0 && d.pages[P_ROOT].next == 0
    requires var pm := Overfull(d.pages, P_ROOT, left + right);
      && TreeInv(pm, sh, ht, NoEx) && Holds(pm, sh, recs)
      && |left| > 0 && |right| > 0 && SplitBound(pm, sh, P_ROOT, |left|, Rank(key))
    requires forall p {:trigger Fits(d.pages, full, p)} :: p in sh && p != P_ROOT ==> Fits(d.pages, full, p)
    requires Sized(left, full) && Sized(right, full) && full >= 28 && NbInternal(|key|) + SLOT <= full / 2
    ensures TreeOn(d.(pages := RootInto(d.pages, l, r, left, right, key)), full, RootShape(sh, ht, |left|, l, r, Rank(key)), ht + 1, recs, NoEx)
  {
    var pm, pages', k := Overfull(d.pages, P_ROOT, left + right), RootInto(d.pages, l, r, left, right, key), |left|;
    var d', sh' := d.(pages := pages'), RootShape(sh, ht, k, l, r, Rank(key));
    assert pm[P_ROOT].ents[..k] == left && pm[P_ROOT].ents[k..] == right;
    assert IsRootSplit(pm, pages', sh, k, l, r, key);
    SplitRoot(pm, pages', sh, ht, k, l, r, key);
    RootSplitRecs(pm, pages', sh, ht, recs, k, l, r, key);
    TwoEntriesFit(l, r, key, full);
    forall p | p in sh'
      ensures Fits(pages', full, p)
    {
      if p != P_ROOT && p != l && p != r { assert Fits(d.pages, full, p); }
    }
    forall p
      ensures p in sh' <==> Owns(d', p, Tree)
    {
      var was := Owns(d, p, Tree);
    }
  }

  /** The parent of a split page has room for the new entry. */
  lemma {:induction false} StepSep(d: Disk, full: nat, sh: Shape, ht: nat, recs: Recs, l: PgNo, r: PgNo, g: PgNo, j: nat, key: Key)
    requires TreeOn(d, full, sh, ht, recs, Ex(l, r, 0)) && Pending(d.pages, sh, ht, l, r, g, j) && Rank(key) == sh[r].lo
    requires Used(d.pages[g].ents) + NbInternal(|key|) + SLOT <= full && NbInternal(|key|) + SLOT <= full / 2
    ensures TreeOn(d.(pages := SepPages(d.pages, g, j, r, key)), full, SepShape(sh, g, j, r), ht, recs, NoEx)
  {
    var pages', sh' := SepPages(d.pages, g, j, r, key), SepShape(sh, g, j, r);
    var d' := d.(pages := pages');
    InsertSep(d.pages, sh, ht, l, r, g, j, key);
    SepRecs(d.pages, sh, ht, recs, l, r, g, j, key);
    forall p | p in sh'
      ensures Fits(pages', full, p)
    {
      assert Fits(d.pages, full, p);
      if p == g { SizedIns(d.pages[g].ents, full, j + 1, Ent(key, Child(r))); }
    }
    forall p
      ensures p in sh' <==> Owns(d', p, Tree)
    {
      var was := Owns(d, p, Tree);
    }
  }

  // ---------------------------------------------------------------- taking pages out

  /** A page whose links go around the pages of `gone`. */
  ghost function Around(pages: Pages, gone: set<PgNo>, p: PgNo): Page
    requires p in pages
  {
    var h := pages[p];
    h.(prev := if h.prev in gone && h.prev in pages then pages[h.prev].prev else h.prev,
       next := if h.next in gone && h.next in pages then pages[h.next].next else h.next)
  }

  /** Kind and entries of a page are as they were. */
  ghost predicate BodyKept(pages: Pages, pages': Pages, p: PgNo) {
    p in pages && p in pages' && pages'[p].kind == pages[p].kind && pages'[p].ents == pages[p].ents
  }

  /** Giving up a chain leaves every page's kind and entries alone. */
  lemma {:induction false} DroppedKeepsRest(d: Disk, d': Disk, plen: nat, f: PgNo)
    requires DiskOk(d, plen) && f in d.book.chains && Dropped(d, d', f)
    ensures KeepsRest(d.pages, {}, d'.pages)
  {
    forall p | p in d.pages
      ensures BodyKept(d.pages, d'.pages, p)
    {
      if OfChain(d, f, p) { assert SameBody(d, d', p); } else { assert SameElsewhere(d, d', p); }
    }
  }

  /** A page outside the tree and without entries stays so when data is stored; it is an overflow page
      afterwards if it was one or if the chain took it. */
  lemma {:induction false} StoringSpares(d: Disk, d': Disk, plen: nat, f: PgNo, n: nat, data: seq<Byte>, p: PgNo)
    requires DiskOk(d, plen) && DiskOk(d', plen) && n > 0 && Stored(d, d', f, n, data)
    requires p in d.pages && p != 0 && !Owns(d, p, Tree) && d.pages[p].ents == []
    ensures p in d'.pages && d'.pages[p].ents == [] && !Owns(d', p, Tree)
    ensures d.pages[p].kind == Overflow ==> d'.pages[p].kind == Overflow
    ensures d.pages[p].kind == Leaf ==> d'.pages[p].kind == if TakesPage(d.pages, plen, d.free, |data|, p) then Overflow else Leaf
  {
    assert OwnedOk(d.book, p);
    var same, reused, own := SameElsewhere(d, d', p), Reused(d', p), Owns(d', p, Tree);
    if d.pages[p].kind != Overflow {
      NotInUse(d, plen, p);
      assert Storage.ChainOk(d'.pages, d'.book.owner, plen, d'.book.chains, f);
      ChunksRight(plen, |data|);
      LengthDecides(plen, |data|, n, Chunks(plen, |data|));
      TakesNearest(d, plen, |data|, d.book.owner[p].i, |d.book.freeSeq|);
    }
  }

  lemma {:induction false} KeepsRestThen(pages: Pages, busy: set<PgNo>, pages1: Pages, busy1: set<PgNo>, pages2: Pages)
    requires KeepsRest(pages, busy, pages1) && KeepsRest(pages1, busy1, pages2)
    ensures KeepsRest(pages, busy + busy1, pages2)
  {
    forall p | p in pages && p !in busy + busy1
      ensures BodyKept(pages, pages2, p)
    {
      assert BodyKept(pages, pages1, p) && BodyKept(pages1, pages2, p);
    }
  }

  /** Those of all pages outside `busy` are. */
  ghost predicate KeepsRest(pages: Pages, busy: set<PgNo>, pages': Pages) {
    forall p {:trigger BodyKept(pages, pages', p)} :: p in pages && p !in busy ==> BodyKept(pages, pages', p)
  }

  /** The pages of `gone` are unlinked and freed; the other tree pages are those of `base`, linked around them. */
  ghost predicate Unhooked(base: Pages, d: Disk, sh: Shape, gone: set<PgNo>) {
    && sh.Keys <= base.Keys && sh.Keys <= d.pages.Keys
    && (forall p {:trigger d.pages[p]} :: p in sh && p !in gone ==> d.pages[p] == Around(base, gone, p))
    && (forall p {:trigger Owns(d, p, Tree)} :: Owns(d, p, Tree) <==> p in sh && p !in gone)
    && KeepsRest(base, sh.Keys - gone, d.pages)
  }

  /** `__bt_relink`: the neighbours of `h` link to each other. */
  ghost function RelinkPages(pages: Pages, h: PgNo): Pages
    requires h in pages
  {
    var n, q := pages[h].next, pages[h].prev;
    var p1 := if n != 0 && n in pages then pages[n := pages[n].(prev := q)] else pages;
    if q != 0 && q in p1 then p1[q := p1[q].(next := n)] else p1
  }

  /** The links of `base` are those of a tree. */
  ghost predicate LinksOf(pages: Pages, base: Pages, sh: Shape, ht: nat, ex: Ex) {
    && TreeInv(pages, sh, ht, ex) && sh.Keys <= base.Keys
    && forall p {:trigger base[p]} :: p in sh ==> base[p].prev == pages[p].prev && base[p].next == pages[p].next
  }

  /** Nothing of `x`'s level is gone yet. */
  ghost predicate Next(sh: Shape, gone: set<PgNo>, x: PgNo) {
    x in sh && x !in gone && forall q {:trigger q in gone} :: q in gone ==> q in sh && sh[q].lvl != sh[x].lvl
  }

  lemma {:induction false} UnhookAt(pages: Pages, base: Pages, d: Disk, sh: Shape, ht: nat, ex: Ex, gone: set<PgNo>, x: PgNo, p: PgNo)
    requires LinksOf(pages, base, sh, ht, ex) && Unhooked(base, d, sh, gone) && Next(sh, gone, x)
    requires p in sh && p != x && p !in gone
    ensures d.pages[x] == base[x] && RelinkPages(d.pages, x)[p] == Around(base, gone + {x}, p)
  {
    assert PageOk(pages, sh, ht, ex, x) && PageOk(pages, sh, ht, ex, p);
  }

  lemma {:induction false} RelinkDisk(pages: Pages, base: Pages, d: Disk, plen: nat, sh: Shape, ht: nat, ex: Ex, gone: set<PgNo>, x: PgNo)
    requires LinksOf(pages, base, sh, ht, ex) && Unhooked(base, d, sh, gone) && DiskOk(d, plen) && Next(sh, gone, x)
    ensures var d1 := d.(pages := RelinkPages(d.pages, x));
      DiskOk(d1, plen) && Owns(d1, x, Tree) && d1.pages.Keys == d.pages.Keys && d.pages[x] == base[x]
  {
    assert PageOk(pages, sh, ht, ex, x);
    var n, q := base[x].next, base[x].prev;
    if n != 0 { assert PageOk(pages, sh, ht, ex, n) && Owns(d, n, Tree); }
    if q != 0 { assert PageOk(pages, sh, ht, ex, q) && Owns(d, q, Tree); }
    assert Owns(d, x, Tree);
    TreePagesFree(d, RelinkPages(d.pages, x), plen);
  }

  lemma {:induction false} UnhookRest(base: Pages, d: Disk, sh: Shape, gone: set<PgNo>, x: PgNo)
    requires KeepsRest(base, sh.Keys - gone, d.pages) && x in d.pages && x in base && d.pages[x] == base[x] && x in RelinkPages(d.pages, x)
    ensures KeepsRest(base, sh.Keys - (gone + {x}), Freed(d.(pages := RelinkPages(d.pages, x)), x).pages)
  {
    forall p | p in base && p !in sh.Keys - (gone + {x})
      ensures BodyKept(base, Freed(d.(pages := RelinkPages(d.pages, x)), x).pages, p)
    {
      var was := BodyKept(base, d.pages, p);
    }
  }

  /** One more page is unlinked and freed. */
  lemma {:induction false} StepUnhook(pages: Pages, base: Pages, d: Disk, plen: nat, sh: Shape, ht: nat, ex: Ex, gone: set<PgNo>, x: PgNo)
    requires LinksOf(pages, base, sh, ht, ex) && Unhooked(base, d, sh, gone) && DiskOk(d, plen) && Next(sh, gone, x)
    ensures var d1 := d.(pages := RelinkPages(d.pages, x));
      DiskOk(d1, plen) && Owns(d1, x, Tree) && Unhooked(base, Freed(d1, x), sh, gone + {x}) && DiskOk(Freed(d1, x), plen)
  {
    RelinkDisk(pages, base, d, plen, sh, ht, ex, gone, x);
    var d1 := d.(pages := RelinkPages(d.pages, x));
    FreedOk(d1, plen, x);
    var d2 := Freed(d1, x);
    forall p
      ensures Owns(d2, p, Tree) <==> p in sh && p !in gone + {x}
    {
      var was := Owns(d, p, Tree);
    }
    forall p | p in sh && p !in gone + {x}
      ensures d2.pages[p] == Around(base, gone + {x}, p)
    {
      UnhookAt(pages, base, d, sh, ht, ex, gone, x, p);
    }
    UnhookRest(base, d, sh, gone, x);
  }

  /** The parent's entry goes from the unhooked pages as well. */
  lemma {:induction false} UnhookEntry(base: Pages, d: Disk, sh: Shape, gone: set<PgNo>, g: PgNo, page: Page)
    requires Unhooked(base, d, sh, gone) && g in sh && g !in gone
    requires page.prev == base[g].prev && page.next == base[g].next && Around(base, gone, g) == base[g]
    ensures Unhooked(base[g := page], d.(pages := d.pages[g := page]), sh, gone)
  {
    var d' := d.(pages := d.pages[g := page]);
    forall p
      ensures Owns(d', p, Tree) <==> p in sh && p !in gone
    {
      var was := Owns(d, p, Tree);
    }
    forall p | p in sh && p !in gone
      ensures d'.pages[p] == Around(base[g := page], gone, p)
    {
      assert d.pages[p] == Around(base, gone, p);
    }
    forall p | p in base[g := page] && p !in sh.Keys - gone
      ensures BodyKept(base[g := page], d'.pages, p)
    {
      assert BodyKept(base, d.pages, p);
    }
  }

  /** An emptied leaf and the ancestors emptied with it are out, and so is their entry in `g`. */
  lemma {:induction false} StepShrink(d: Disk, d': Disk, full: nat, sh: Shape, ht: nat, recs: Recs, chain: seq<PgNo>, gone: set<PgNo>, g: PgNo, j: nat)
    requires |chain| > 0 && TreeOn(d, full, sh, ht, recs, Ex(0, 0, chain[0])) && Shrink.ChainOk(d.pages, sh, chain)
    requires forall p {:trigger InChain(sh, chain, p)} {:trigger p in gone} :: p in gone <==> InChain(sh, chain, p)
    requires var x := chain[|chain| - 1];
      x in sh && g == sh[x].up && j == sh[x].at && g in sh && |d.pages[g].ents| >= 2 && j < |d.pages[g].ents|
    requires Unhooked(d.pages[g := d.pages[g].(ents := Del(d.pages[g].ents, j))], d', sh, gone)
    ensures chain[0] in sh && TreeOn(d', full, ShrinkShape(sh, chain, g, j), ht, recs, NoEx)
  {
    var base := d.pages[g := d.pages[g].(ents := Del(d.pages[g].ents, j))];
    forall p | p in sh && !InChain(sh, chain, p)
      ensures d'.pages[p] == if p == g then Bypass(d.pages, sh, chain, p).(ents := Del(d.pages[p].ents, j))
                             else Bypass(d.pages, sh, chain, p)
    {
      assert d'.pages[p] == Around(base, gone, p);
      var n, q := InChain(sh, chain, d.pages[p].next), InChain(sh, chain, d.pages[p].prev);
      assert PageOk(d.pages, sh, ht, Ex(0, 0, chain[0]), p);
    }
    assert CanShrink(d.pages, d'.pages, sh, ht, chain, g, j);
    ShrinkTree(d.pages, d'.pages, sh, ht, chain, g, j);
    ShrinkRecs(d.pages, d'.pages, sh, ht, recs, chain, g, j);
    var sh' := ShrinkShape(sh, chain, g, j);
    forall p | p in sh'
      ensures Fits(d'.pages, full, p)
    {
      assert Fits(d.pages, full, p);
      if p == g { SizedDel(d.pages[g].ents, full, j); }
    }
    forall p
      ensures p in sh' <==> Owns(d', p, Tree)
    {
      var was := Owns(d', p, Tree);
    }
  }

  /** The root has lost its last entry and is an empty leaf again. */
  lemma {:induction false} StepCollapse(d: Disk, d': Disk, full: nat, sh: Shape, ht: nat, recs: Recs, chain: seq<PgNo>, gone: set<PgNo>)
    requires WholeTree(d.pages, sh, ht, chain) && TreeOn(d, full, sh, ht, recs, Ex(0, 0, chain[0]))
    requires forall p {:trigger InChain(sh, chain, p)} {:trigger p in gone} :: p in gone <==> InChain(sh, chain, p)
    requires Unhooked(d.pages[P_ROOT := d.pages[P_ROOT].(kind := Leaf, ents := [])], d', sh, gone)
    ensures TreeOn(d', full, LoneRoot(), 0, recs, NoEx) && recs == map[]
  {
    OnlyChain(d.pages, sh, ht, chain, P_ROOT);
    assert PageOk(d.pages, sh, ht, Ex(0, 0, chain[0]), P_ROOT);
    var was := InChain(sh, chain, P_ROOT);
    CollapseTree(d'.pages);
    CollapseRecs(d.pages, d'.pages, sh, ht, recs, chain);
    forall p
      ensures p in LoneRoot() <==> Owns(d', p, Tree)
    {
      var t := Owns(d', p, Tree);
      if p in sh { OnlyChain(d.pages, sh, ht, chain, p); }
    }
    assert Fits(d'.pages, full, P_ROOT);
  }

  /** Deleting upwards: `chain` is the emptied leaf with the ancestors that go with it, all but the leaf already out. */
  ghost predicate Pruning(d0: Disk, d: Disk, full: nat, sh: Shape, ht: nat, recs: Recs, chain: seq<PgNo>, gone: set<PgNo>) {
    && |chain| > 0 && TreeOn(d0, full, sh, ht, recs, Ex(0, 0, chain[0])) && Shrink.ChainOk(d0.pages, sh, chain)
    && (forall p {:trigger InChain(sh, chain, p)} {:trigger p in gone} :: p in gone <==> InChain(sh, chain, p) && p != chain[0])
    && Unhooked(d0.pages, d, sh, gone)
  }

  lemma {:induction false} PruneStart(d: Disk, full: nat, sh: Shape, ht: nat, recs: Recs, h: PgNo)
    requires TreeOn(d, full, sh, ht, recs, Ex(0, 0, h)) && h in sh && h != P_ROOT && sh[h].lvl == 0 && d.pages[h].ents == []
    ensures Pruning(d, d, full, sh, ht, recs, [h], {})
  {
  }

  /** The parent above the chain, untouched so far. */
  lemma {:induction false} PruneParent(d0: Disk, d: Disk, full: nat, sh: Shape, ht: nat, recs: Recs, chain: seq<PgNo>, gone: set<PgNo>)
    requires Pruning(d0, d, full, sh, ht, recs, chain, gone)
    ensures var x := chain[|chain| - 1]; x in sh && x != P_ROOT && var g := sh[x].up;
      && g in sh && sh[g].lvl == |chain| && sh[x].at < |d0.pages[g].ents| && Next(sh, gone, g) && g != chain[0]
      && d.pages[g] == d0.pages[g] && Around(d0.pages, gone, g) == d0.pages[g]
      && Next(sh, gone, chain[0]) && sh[chain[0]].lvl == 0 && LinksOf(d0.pages, d0.pages, sh, ht, Ex(0, 0, chain[0]))
  {
    var ex, x := Ex(0, 0, chain[0]), chain[|chain| - 1];
    assert Shrink.Link(d0.pages, sh, chain, |chain| - 1) && Shrink.Link(d0.pages, sh, chain, 0);
    assert PageOk(d0.pages, sh, ht, ex, x);
    var g := sh[x].up;
    assert PageOk(d0.pages, sh, ht, ex, g);
    forall q | q in gone
      ensures q in sh && 0 < sh[q].lvl < |chain|
    {
      assert InChain(sh, chain, q);
    }
  }

  lemma {:induction false} ChainLonger(pages: Pages, sh: Shape, ht: nat, chain: seq<PgNo>, g: PgNo)
    requires |chain| > 0 && TreeInv(pages, sh, ht, Ex(0, 0, chain[0])) && Shrink.ChainOk(pages, sh, chain)
    requires var x := chain[|chain| - 1]; x in sh && g == sh[x].up && g in sh && |pages[g].ents| == 1 && g != P_ROOT
    ensures Shrink.ChainOk(pages, sh, chain + [g]) && sh[g].lvl == |chain| && chain[0] in sh && sh[chain[0]].lvl == 0
  {
    var ex, n, x := Ex(0, 0, chain[0]), |chain|, chain[|chain| - 1];
    var chain' := chain + [g];
    assert Shrink.Link(pages, sh, chain, n - 1) && Shrink.Link(pages, sh, chain, 0);
    assert PageOk(pages, sh, ht, ex, x) && PageOk(pages, sh, ht, ex, g);
    assert ChildOk(pages, sh, ex, g, 0);
    forall m | 0 <= m < |chain'|
      ensures Shrink.Link(pages, sh, chain', m)
    {
      if m < n { assert Shrink.Link(pages, sh, chain, m); }
    }
  }

  /** A parent with a single entry joins the chain. */
  lemma {:induction false} PruneUp(d0: Disk, d: Disk, d': Disk, full: nat, sh: Shape, ht: nat, recs: Recs, chain: seq<PgNo>, gone: set<PgNo>, g: PgNo)
    requires Pruning(d0, d, full, sh, ht, recs, chain, gone)
    requires var x := chain[|chain| - 1]; x in sh && g == sh[x].up && g in sh && |d0.pages[g].ents| == 1 && g != P_ROOT
    requires Unhooked(d0.pages, d', sh, gone + {g})
    ensures Pruning(d0, d', full, sh, ht, recs, chain + [g], gone + {g})
  {
    ChainLonger(d0.pages, sh, ht, chain, g);
    forall p
      ensures p in gone + {g} <==> InChain(sh, chain + [g], p) && p != chain[0]
    {
      InLongerChain(sh, chain, g, p);
      assert p in gone <==> InChain(sh, chain, p) && p != chain[0];
    }
  }

  /** With the leaf out as well, all of the chain is. */
  lemma {:induction false} WholeChain(pages: Pages, sh: Shape, chain: seq<PgNo>, gone: set<PgNo>)
    requires |chain| > 0 && sh.Keys <= pages.Keys && Shrink.ChainOk(pages, sh, chain)
    requires forall p {:trigger InChain(sh, chain, p)} {:trigger p in gone} :: p in gone <==> InChain(sh, chain, p) && p != chain[0]
    ensures forall p {:trigger InChain(sh, chain, p)} {:trigger p in gone + {chain[0]}} :: p in gone + {chain[0]} <==> InChain(sh, chain, p)
  {
    assert Shrink.Link(pages, sh, chain, 0);
    forall p
      ensures p in gone + {chain[0]} <==> InChain(sh, chain, p)
    {
      assert p in gone <==> InChain(sh, chain, p) && p != chain[0];
    }
  }

  lemma {:induction false} InLongerChain(sh: Shape, chain: seq<PgNo>, g: PgNo, p: PgNo)
    requires g in sh && sh[g].lvl == |chain|
    ensures InChain(sh, chain + [g], p) <==> InChain(sh, chain, p) || p == g
  {
  }

  /** The leaves that stay keep their records. */
  ghost predicate KeepsLeaves(pages: Pages, sh: Shape, pages': Pages, sh': Shape, h: PgNo) {
    forall p {:trigger p in sh'} {:trigger sh'[p]} {:trigger pages'[p]} :: p in sh && p in pages && sh[p].lvl == 0 && p != h ==>
      p in sh' && sh'[p].lvl == 0 && p in pages' && pages'[p].kind == pages[p].kind && pages'[p].ents == pages[p].ents
  }

  /** No leaf joins the tree, and the first leaf stays the first. */
  ghost predicate KeepsFirst(sh: Shape, sh': Shape) {
    && sh'.Keys <= sh.Keys
    && forall p {:trigger sh'[p]} :: p in sh' && sh[p].lo == BOTTOM ==> sh'[p].lo == BOTTOM
  }

  /** The pages of `gone` are out, and the parent `g` above them has become `page`. */
  ghost predicate Cleared(h: PgNo, d0: Disk, d: Disk, sh: Shape, ht: nat, chain: seq<PgNo>, gone: set<PgNo>, g: PgNo, page: Page) {
    && |chain| > 0 && chain[0] == h && sh.Keys <= d0.pages.Keys && Shrink.ChainOk(d0.pages, sh, chain) && Next(sh, gone, h)
    && (forall p {:trigger InChain(sh, chain, p)} {:trigger p in gone} :: p in gone <==> InChain(sh, chain, p) && p != h)
    && chain[|chain| - 1] in sh && g == sh[chain[|chain| - 1]].up && g in sh && g in d0.pages
    && Unhooked(d0.pages[g := page], d, sh, gone) && LinksOf(d0.pages, d0.pages[g := page], sh, ht, Ex(0, 0, h))
    && (if |d0.pages[g].ents| == 1 then g == P_ROOT && page == d0.pages[g].(kind := Leaf, ents := [])
        else sh[chain[|chain| - 1]].at < |d0.pages[g].ents|
             && page == d0.pages[g].(ents := Del(d0.pages[g].ents, sh[chain[|chain| - 1]].at)))
  }

  /** The shape and height once the chain is out. */
  ghost function PrunedShape(pages: Pages, sh: Shape, chain: seq<PgNo>, g: PgNo): Shape
    requires |chain| > 0 && chain[0] in sh && chain[|chain| - 1] in sh && g in pages
  {
    if |pages[g].ents| == 1 then LoneRoot() else ShrinkShape(sh, chain, g, sh[chain[|chain| - 1]].at)
  }

  lemma {:induction false} PruneKeepsLeaves(d0: Disk, d': Disk, sh: Shape, ht: nat, chain: seq<PgNo>, gone: set<PgNo>, g: PgNo, page: Page, j: nat)
    requires |chain| > 0 && sh.Keys <= d0.pages.Keys && Shrink.ChainOk(d0.pages, sh, chain) && chain[0] in sh
    requires forall p {:trigger InChain(sh, chain, p)} {:trigger p in gone} :: p in gone <==> InChain(sh, chain, p)
    requires g in sh && sh[g].lvl > 0 && Unhooked(d0.pages[g := page], d', sh, gone)
    ensures KeepsLeaves(d0.pages, sh, d'.pages, ShrinkShape(sh, chain, g, j), chain[0])
  {
  }

  /** Pages outside the tree, the leaf now among them, and the place of the first leaf are not affected. */
  lemma {:induction false} PruneKeepsRest(h: PgNo, d0: Disk, d: Disk, d': Disk, full: nat, sh: Shape, ht: nat, recs: Recs, chain: seq<PgNo>, gone: set<PgNo>, g: PgNo, page: Page)
    requires TreeOn(d0, full, sh, ht, recs, Ex(0, 0, h)) && Cleared(h, d0, d, sh, ht, chain, gone, g, page)
    requires Unhooked(d0.pages[g := page], d', sh, gone + {h})
    ensures chain[0] in sh && KeepsFirst(sh, PrunedShape(d0.pages, sh, chain, g)) && KeepsRest(d0.pages, sh.Keys - {h}, d'.pages)
  {
    assert Shrink.Link(d0.pages, sh, chain, 0) && PageOk(d0.pages, sh, ht, Ex(0, 0, h), h);
    forall p | p in d0.pages && p !in sh.Keys - {h}
      ensures BodyKept(d0.pages, d'.pages, p)
    {
      assert BodyKept(d0.pages[g := page], d'.pages, p);
    }
  }

  /** Once the leaf `h` is out too, the tree is whole again: smaller, or an empty root. */
  lemma {:induction false} StepPrune(h: PgNo, d0: Disk, d: Disk, d': Disk, full: nat, sh: Shape, ht: nat, recs: Recs, chain: seq<PgNo>, gone: set<PgNo>, g: PgNo, page: Page)
    requires TreeOn(d0, full, sh, ht, recs, Ex(0, 0, h)) && Cleared(h, d0, d, sh, ht, chain, gone, g, page)
    requires Unhooked(d0.pages[g := page], d', sh, gone + {h})
    ensures chain[0] in sh && var sh' := PrunedShape(d0.pages, sh, chain, g);
      && TreeOn(d', full, sh', if |d0.pages[g].ents| == 1 then 0 else ht, recs, NoEx)
      && KeepsLeaves(d0.pages, sh, d'.pages, sh', h)
  {
    var x := chain[|chain| - 1];
    assert Shrink.Link(d0.pages, sh, chain, 0) && Shrink.Link(d0.pages, sh, chain, |chain| - 1);
    assert PageOk(d0.pages, sh, ht, Ex(0, 0, h), x) && PageOk(d0.pages, sh, ht, Ex(0, 0, h), g);
    WholeChain(d0.pages, sh, chain, gone);
    if |d0.pages[g].ents| == 1 {
      StepCollapse(d0, d', full, sh, ht, recs, chain, gone + {h});
      forall p | p in sh && sh[p].lvl == 0
        ensures p == h
      {
        OnlyChain(d0.pages, sh, ht, chain, p);
      }
    } else {
      StepShrink(d0, d', full, sh, ht, recs, chain, gone + {h}, g, sh[x].at);
      PruneKeepsLeaves(d0, d', sh, ht, chain, gone + {h}, g, page, sh[x].at);
    }
  }
}
