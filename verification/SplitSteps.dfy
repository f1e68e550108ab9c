/** Splitting over the disk: an entry that does not fit is inserted by splitting its page. */
module SplitSteps {
  import opened Keys
  import opened Layout
  import opened Split
  import opened Shape
  import opened Grow
  import opened Records
  import opened Position
  import opened Storage
  import opened Steps

  /** With `e` inserted at `skip`, page `h` would complete the tree `sh`, `recs`, but it has no room for it. */
  ghost predicate Ready(d: Disk, full: nat, sh: Shape, ht: nat, recs: Recs, h: PgNo, skip: nat, e: Ent) {
    && h in sh && sh.Keys <= d.pages.Keys && skip <= |d.pages[h].ents|
    && TreeInv(Overfull(d.pages, h, Ins(d.pages[h].ents, skip, e)), sh, ht, NoEx)
    && Holds(Overfull(d.pages, h, Ins(d.pages[h].ents, skip, e)), sh, recs)
    && (forall p {:trigger Fits(d.pages, full, p)} :: p in sh ==> Fits(d.pages, full, p))
    && (forall p {:trigger Owns(d, p, Tree)} :: p in sh <==> Owns(d, p, Tree))
    && Nb(e) + SLOT <= full / 2 && Used(d.pages[h].ents) + Nb(e) + SLOT > full && (skip > 0 || Nb(e) + SLOT < full / 2)
  }

  lemma {:induction false} LeafReady(d: Disk, full: nat, sh: Shape, ht: nat, recs: Recs, ex: Ex, h: PgNo, i: nat, e: Ent)
    requires TreeOn(d, full, sh, ht, recs, ex) && ex.pr == 0 && (ex.em == h || ex.em == 0)
    requires h in sh && sh[h].lvl == 0 && e.val.Data? && e.key !in recs
    requires sh[h].lo <= Rank(e.key) < sh[h].hi && IsSlot(d.pages[h].ents, e.key, i, false)
    requires Used(d.pages[h].ents) + Nb(e) + SLOT > full && Nb(e) + SLOT < full / 2
    ensures Ready(d, full, sh, ht, recs[e.key := e.val.item], h, i, e)
  {
    LeafTakes(d, full, sh, ht, recs, ex, h, i, e);
  }

  lemma {:induction false} ParentReady(d: Disk, full: nat, sh: Shape, ht: nat, recs: Recs, l: PgNo, r: PgNo, g: PgNo, j: nat, key: Key)
    requires TreeOn(d, full, sh, ht, recs, Ex(l, r, 0)) && Pending(d.pages, sh, ht, l, r, g, j) && Rank(key) == sh[r].lo
    requires Used(d.pages[g].ents) + NbInternal(|key|) + SLOT > full && NbInternal(|key|) + SLOT <= full / 2
    ensures Ready(d, full, SepShape(sh, g, j, r), ht, recs, g, j + 1, Ent(key, Child(r)))
  {
    InsertSep(d.pages, sh, ht, l, r, g, j, key);
    SepRecs(d.pages, sh, ht, recs, l, r, g, j, key);
    var sh' := SepShape(sh, g, j, r);
    forall p
      ensures p in sh' <==> Owns(d, p, Tree)
    {
      var was := Owns(d, p, Tree);
    }
  }

  lemma {:induction false} HalvesFit(ents: seq<Ent>, full: nat, skip: nat, nl: nat, slot: bool, e: Ent)
    requires Sized(ents, full) && Nb(e) + SLOT <= full / 2 && GoodCut(ents, full, skip, Nb(e), nl, slot)
    ensures var l, r := LeftOf(ents, nl, skip, slot, e), RightOf(ents, nl, skip, slot, e);
      Sized(l, full) && Sized(r, full) && |l| > 0 && |r| > 0 && l + r == Ins(ents, skip, e)
  {
    SplitKeepsOrder(ents, nl, skip, slot, e);
    if slot { UsedIns(ents[..nl], skip, e); } else { UsedIns(ents[nl..], skip - nl, e); }
  }

  /** An internal item for a key is no larger than any item with that key. */
  lemma {:induction false} SeparatorSmaller(e: Ent)
    ensures NbInternal(|e.key|) <= Nb(e)
  {
  }

  /** The entries of one page, or of two in order. */
  ghost function EntsOf(pages: Pages, a: PgNo, b: PgNo): seq<Ent>
    requires a in pages && b in pages
  {
    if a == b then pages[a].ents else pages[a].ents + pages[b].ents
  }

  lemma {:induction false} HalvesHold(pages: Pages, l: PgNo, r: PgNo, ents: seq<Ent>, nl: nat, skip: nat, slot: bool, e: Ent)
    requires nl <= |ents| && skip <= |ents| && (slot ==> skip <= nl) && (!slot ==> nl <= skip) && l in pages && r in pages && l != r
    requires pages[l].ents == LeftOf(ents, nl, skip, slot, e) && pages[r].ents == RightOf(ents, nl, skip, slot, e)
    ensures EntsOf(pages, l, r) == Ins(ents, skip, e)
  {
    SplitKeepsOrder(ents, nl, skip, slot, e);
  }

  /** `key` stands in the parent for the right half, whose first key is `first`, the left half ending with `last`.
      It is `first` itself, or where that may be cut short, and it saves space, the shortest prefix after `last`. */
  ghost predicate Separates(last: Key, first: Key, short: bool, key: Key) {
    && key <= first && (key != first ==> short && NbInternal(|key|) < NbInternal(|first|) && Rank(last) < Rank(key))
    && (short ==> forall m: nat :: m <= |first| && Rank(last) < Rank(first[..m]) && NbInternal(m) < NbInternal(|first|) ==> |key| <= m)
  }

  lemma {:induction false} WholeKey(last: Key, first: Key)
    ensures Separates(last, first, false, first)
  {
  }

  /** The prefix hack of `__bt_split`. */
  method Shorten(last: Key, first: Key) returns (key: Key)
    requires Rank(last) < Rank(first)
    ensures Separates(last, first, true, key) && Rank(last) < Rank(key) <= Rank(first) && |key| <= |first|
  {
    key := first;
    var n := DefPfx(last, first);
    if NbInternal(n) < NbInternal(|first|) {
      key := first[..n];
    }
  }

  /** Between "aaaa" and twelve times "b" the parent gets "b", and 12 bytes in place of 24. */
  lemma {:induction false} OneByteSeparates(last: Key, first: Key, key: Key)
    requires last == [97, 97, 97, 97] && |first| == 12 && first[0] == 98 && Separates(last, first, true, key)
    ensures key == [98] && NbInternal(|key|) == 12 && NbInternal(|first|) == 24
  {
    DifferenceOrders(last, first[..1], 0);
    assert first[..1] == [98] && NbInternal(1) < NbInternal(12);
    assert Rank([]) == 0.0;
  }

  /** The first key of the right half bounds the halves. */
  lemma {:induction false} HalfBound(pm: Pages, sh: Shape, ht: nat, h: PgNo, k: nat)
    requires TreeInv(pm, sh, ht, NoEx) && h in sh && 0 < k < |pm[h].ents|
    ensures SplitBound(pm, sh, h, k, Rank(pm[h].ents[k].key))
  {
    assert PageOk(pm, sh, ht, NoEx, h);
  }

  /** The pages of `added` were allocated for the tree. */
  ghost predicate NewPages(d: Disk, d1: Disk, added: set<PgNo>) {
    && d1.book.chains == d.book.chains
    && (forall p {:trigger Owns(d1, p, Tree)} :: Owns(d1, p, Tree) <==> Owns(d, p, Tree) || p in added)
    && (forall p {:trigger Owns(d, p, Tree)} :: Owns(d, p, Tree) ==> p !in added && p in d.pages && p in d1.pages && d1.pages[p] == d.pages[p])
    && (forall p :: p in added ==> p != 0 && p in d1.pages)
  }

  lemma {:induction false} AllocatedIsNew(d: Disk, plen: nat, junk: Page)
    requires DiskOk(d, plen)
    ensures d.free != P_INVALID ==> d.free in d.pages && d.book.freeSeq != []
    ensures DiskOk(Allocated(d, junk), plen) && NewPages(d, Allocated(d, junk), {NextPage(d)})
  {
    AllocatedOk(d, plen, junk);
    HeadIsFree(d, plen);
    forall p | Owns(d, p, Tree)
      ensures p != NextPage(d) && p in d.pages
    {
      var was := OwnedOk(d.book, p);
    }
  }

  lemma {:induction false} NewTwice(d: Disk, d1: Disk, d2: Disk, l: PgNo, r: PgNo)
    requires NewPages(d, d1, {l}) && NewPages(d1, d2, {r})
    ensures NewPages(d, d2, {l, r}) && l != r && d2.pages.Keys >= {l, r}
  {
    assert Owns(d1, l, Tree);
    forall p
      ensures Owns(d2, p, Tree) <==> Owns(d, p, Tree) || p in {l, r}
      ensures Owns(d, p, Tree) ==> p !in {l, r} && p in d.pages && p in d2.pages && d2.pages[p] == d.pages[p]
    {
      var was := Owns(d1, p, Tree);
    }
  }

  /** A tree does not notice new pages. */
  lemma {:induction false} TreeBesideNew(d: Disk, d1: Disk, full: nat, sh: Shape, ht: nat, recs: Recs, h: PgNo, skip: nat, e: Ent, added: set<PgNo>)
    requires Ready(d, full, sh, ht, recs, h, skip, e) && NewPages(d, d1, added)
    ensures sh.Keys <= d1.pages.Keys && added !! sh.Keys && added <= d1.pages.Keys && d1.pages[h] == d.pages[h]
    ensures var pm := Overfull(d1.pages, h, Ins(d.pages[h].ents, skip, e)); TreeInv(pm, sh, ht, NoEx) && Holds(pm, sh, recs)
    ensures forall p {:trigger Fits(d1.pages, full, p)} :: p in sh ==> Fits(d1.pages, full, p)
    ensures forall p {:trigger Owns(d1, p, Tree)} :: Owns(d1, p, Tree) <==> p in sh || p in added
  {
    forall p | p in sh
      ensures p !in added && p in d1.pages && d1.pages[p] == d.pages[p] && Fits(d1.pages, full, p)
    {
      assert Owns(d, p, Tree) && Fits(d.pages, full, p);
    }
    forall p
      ensures Owns(d1, p, Tree) <==> p in sh || p in added
    {
      var was := Owns(d, p, Tree);
    }
    OverfullFrame(d.pages, d1.pages, sh, ht, recs, h, Ins(d.pages[h].ents, skip, e));
  }

  lemma {:induction false} OverfullFrame(pages: Pages, pages1: Pages, sh: Shape, ht: nat, recs: Recs, h: PgNo, all: seq<Ent>)
    requires h in sh && sh.Keys <= pages.Keys && sh.Keys <= pages1.Keys
    requires forall p {:trigger pages1[p]} :: p in sh ==> pages1[p] == pages[p]
    requires TreeInv(Overfull(pages, h, all), sh, ht, NoEx) && Holds(Overfull(pages, h, all), sh, recs)
    ensures TreeInv(Overfull(pages1, h, all), sh, ht, NoEx) && Holds(Overfull(pages1, h, all), sh, recs)
  {
    TreeFrame(Overfull(pages, h, all), Overfull(pages1, h, all), sh, ht, recs, NoEx);
  }

  lemma {:induction false} SplitPagesFree(d: Disk, plen: nat, h: PgNo, r: PgNo, left: seq<Ent>, right: seq<Ent>)
    requires DiskOk(d, plen) && h in d.pages && r in d.pages && Owns(d, h, Tree) && Owns(d, r, Tree)
    requires var n := d.pages[h].next; n != h && n != r && (n != 0 ==> Owns(d, n, Tree))
    ensures DiskOk(d.(pages := SplitInto(d.pages, h, r, left, right)), plen)
  {
    TreePagesFree(d, SplitInto(d.pages, h, r, left, right), plen);
  }

  lemma {:induction false} SplitFacts(pages: Pages, sh: Shape, h: PgNo, r: PgNo, left: seq<Ent>, right: seq<Ent>, s: real)
    requires h in pages && r in pages && h in sh && r !in sh && pages[h].next != h && pages[h].next != r
    ensures var pages', sh' := SplitInto(pages, h, r, left, right), SplitShape(sh, h, |left|, r, s);
      && h in pages' && r in pages' && r in sh' && pages'[h].ents == left && pages'[r].ents == right
      && sh'[r].lo == s && sh'[r].lvl == sh[h].lvl
  {
  }

  /** Page `h` split around `e`: its parent does not know the right half yet. */
  lemma {:induction false} SplitDone(d: Disk, d1: Disk, full: nat, sh: Shape, ht: nat, recs: Recs, h: PgNo, r: PgNo, skip: nat, e: Ent, nl: nat, slot: bool)
    requires Ready(d, full, sh, ht, recs, h, skip, e) && h != P_ROOT && NewPages(d, d1, {r})
    requires GoodCut(d.pages[h].ents, full, skip, Nb(e), nl, slot)
    ensures var ents := d.pages[h].ents; var left, right := LeftOf(ents, nl, skip, slot, e), RightOf(ents, nl, skip, slot, e);
      && h in d1.pages && r in d1.pages && r !in sh && r != 0 && |left| > 0 && |right| > 0 && d1.book.chains == d.book.chains
      && TreeOn(d1.(pages := SplitInto(d1.pages, h, r, left, right)), full,
              SplitShape(sh, h, |left|, r, Rank(right[0].key)), ht, recs, Ex(h, r, 0))
  {
    TreeBesideNew(d, d1, full, sh, ht, recs, h, skip, e, {r});
    assert Fits(d1.pages, full, h);
    HalvesFit(d.pages[h].ents, full, skip, nl, slot, e);
    var left, right := LeftOf(d.pages[h].ents, nl, skip, slot, e), RightOf(d.pages[h].ents, nl, skip, slot, e);
    HalfBound(Overfull(d1.pages, h, left + right), sh, ht, h, |left|);
    StepSplit(d1, full, sh, ht, recs, h, r, left, right, Rank(right[0].key));
  }

  /** The halves of the root on their new pages. */
  ghost function HalvesInto(pages: Pages, l: PgNo, r: PgNo, left: seq<Ent>, right: seq<Ent>): Pages
    requires P_ROOT in pages && l in pages && r in pages
  {
    var kind := pages[P_ROOT].kind;
    pages[l := Page(kind, P_INVALID, r, left, pages[l].bytes)][r := Page(kind, l, P_INVALID, right, pages[r].bytes)]
  }

  lemma {:induction false} HalvesPagesFree(d: Disk, plen: nat, l: PgNo, r: PgNo, left: seq<Ent>, right: seq<Ent>)
    requires DiskOk(d, plen) && P_ROOT in d.pages && l in d.pages && r in d.pages && Owns(d, l, Tree) && Owns(d, r, Tree)
    ensures DiskOk(d.(pages := HalvesInto(d.pages, l, r, left, right)), plen)
  {
    TreePagesFree(d, HalvesInto(d.pages, l, r, left, right), plen);
  }

  lemma {:induction false} RootFacts(pages: Pages, sh: Shape, ht: nat, l: PgNo, r: PgNo, left: seq<Ent>, right: seq<Ent>)
    requires P_ROOT in pages && l in pages && r in pages && l != P_ROOT && r != P_ROOT && l != r && |right| > 0
    ensures var pages', sh' := RootInto(pages, l, r, left, right, right[0].key), RootShape(sh, ht, |left|, l, r, Rank(right[0].key));
      var half := HalvesInto(pages, l, r, left, right);
      && l in pages' && r in pages' && l in sh' && r in sh' && sh'[l].lvl == sh'[r].lvl == ht
      && pages'[l].ents == left && pages'[r].ents == right
      && P_ROOT in half && r in half && half[r].ents == right
      && half[P_ROOT := half[P_ROOT].(kind := Internal, ents := [Ent([], Child(l)), Ent(right[0].key, Child(r))])] == pages'
  {
  }

  /** The root split around `e`, and the root on top of its halves. */
  lemma {:induction false} RootSplitDone(d: Disk, d2: Disk, full: nat, sh: Shape, ht: nat, recs: Recs, l: PgNo, r: PgNo, skip: nat, e: Ent, nl: nat, slot: bool)
    requires Ready(d, full, sh, ht, recs, P_ROOT, skip, e) && full >= 28 && NewPages(d, d2, {l, r}) && l != r
    requires GoodCut(d.pages[P_ROOT].ents, full, skip, Nb(e), nl, slot)
    ensures var ents := d.pages[P_ROOT].ents; var left, right := LeftOf(ents, nl, skip, slot, e), RightOf(ents, nl, skip, slot, e);
      && P_ROOT in d2.pages && l in d2.pages && r in d2.pages && |left| > 0 && |right| > 0 && d2.book.chains == d.book.chains
      && TreeOn(d2.(pages := RootInto(d2.pages, l, r, left, right, right[0].key)), full,
              RootShape(sh, ht, |left|, l, r, Rank(right[0].key)), ht + 1, recs, NoEx)
  {
    TreeBesideNew(d, d2, full, sh, ht, recs, P_ROOT, skip, e, {l, r});
    assert l in {l, r} && r in {l, r};
    assert Fits(d2.pages, full, P_ROOT);
    HalvesFit(d.pages[P_ROOT].ents, full, skip, nl, slot, e);
    var left, right := LeftOf(d.pages[P_ROOT].ents, nl, skip, slot, e), RightOf(d.pages[P_ROOT].ents, nl, skip, slot, e);
    HalfBound(Overfull(d2.pages, P_ROOT, left + right), sh, ht, P_ROOT, |left|);
    assert PageOk(Overfull(d2.pages, P_ROOT, left + right), sh, ht, NoEx, P_ROOT);
    SeparatorSmaller(right[0]);
    StepSplitRoot(d2, full, sh, ht, recs, l, r, left, right, right[0].key);
  }

  /** A split leaves the path to its page alone. */
  lemma {:induction false} SplitKeepsPath(pages: Pages, sh: Shape, ht: nat, s: seq<Epg>, h: PgNo, k: nat, r: PgNo, x: real)
    requires TreeInv(pages, sh, ht, NoEx) && IsPath(sh, ht, s, h) && r !in sh
    ensures IsPath(SplitShape(sh, h, k, r, x), ht, s, h)
  {
    var sh' := SplitShape(sh, h, k, r, x);
    forall p | p in sh && sh[p].lvl >= sh[h].lvl
      ensures p in sh' && sh'[p].lvl == sh[p].lvl && sh'[p].up == sh[p].up && sh'[p].at == sh[p].at
    {
      assert PageOk(pages, sh, ht, NoEx, p);
    }
    PathFrame(sh, sh', ht, s, h);
  }

  /** So does a new entry in a page below the path. */
  lemma {:induction false} SepKeepsPath(pages: Pages, sh: Shape, ht: nat, ex: Ex, s: seq<Epg>, g: PgNo, j: nat, r: PgNo)
    requires TreeInv(pages, sh, ht, ex) && IsPath(sh, ht, s, g) && r in sh && sh[r].lvl < sh[g].lvl
    ensures IsPath(SepShape(sh, g, j, r), ht, s, g)
  {
    var sh' := SepShape(sh, g, j, r);
    forall p | p in sh && sh[p].lvl >= sh[g].lvl
      ensures p in sh' && sh'[p].lvl == sh[p].lvl && sh'[p].up == sh[p].up && sh'[p].at == sh[p].at
    {
      assert PageOk(pages, sh, ht, ex, p);
    }
    PathFrame(sh, sh', ht, s, g);
  }

  /** The halves of a leaf are in order around their bound. */
  lemma {:induction false} LeafHalvesOrdered(pages: Pages, sh: Shape, ht: nat, l: PgNo, r: PgNo)
    requires TreeInv(pages, sh, ht, Ex(l, r, 0)) && r != 0 && pages[r].kind == Leaf && |pages[l].ents| > 0 && |pages[r].ents| > 0
    ensures sh[l].lvl == 0 && sh[r].lvl == 0 && sh[l].hi == sh[r].lo
    ensures Rank(pages[l].ents[|pages[l].ents| - 1].key) < sh[r].lo <= Rank(pages[r].ents[0].key)
  {
    assert PageOk(pages, sh, ht, Ex(l, r, 0), l) && PageOk(pages, sh, ht, Ex(l, r, 0), r);
  }

  /** The bound between two leaf halves can move down to any point right of the left half. */
  lemma {:induction false} MoveBoundOn(d: Disk, full: nat, sh: Shape, ht: nat, recs: Recs, s: seq<Epg>, l: PgNo, r: PgNo, x: real)
    requires TreeOn(d, full, sh, ht, recs, Ex(l, r, 0)) && r != 0 && sh[l].lvl == 0 && sh[r].lvl == 0 && IsPath(sh, ht, s, l)
    requires var a, b := d.pages[l].ents, d.pages[r].ents;
      |a| > 0 && |b| > 0 && Rank(a[|a| - 1].key) < x <= Rank(b[0].key)
    ensures var sh' := sh[l := sh[l].(hi := x)][r := sh[r].(lo := x)];
      && TreeOn(d, full, sh', ht, recs, Ex(l, r, 0)) && IsPath(sh', ht, s, l) && KeepsLeaves(d.pages, sh, d.pages, sh', 0)
  {
    var sh' := sh[l := sh[l].(hi := x)][r := sh[r].(lo := x)];
    MoveBound(d.pages, sh, ht, l, r, x);
    forall e
      ensures Has(d.pages, sh', e) <==> Has(d.pages, sh, e)
    {
      if Has(d.pages, sh', e) { var p: PgNo, i: nat :| At(d.pages, sh', p, i, e); assert At(d.pages, sh, p, i, e); }
      if Has(d.pages, sh, e) { var p: PgNo, i: nat :| At(d.pages, sh, p, i, e); assert At(d.pages, sh', p, i, e); }
    }
    PathFrame(sh, sh', ht, s, l);
  }

  // ---------------------------------------------------------------- the leaves meanwhile

  lemma {:induction false} KeepsLeavesThen(pages: Pages, sh: Shape, pages1: Pages, sh1: Shape, pages2: Pages, sh2: Shape, h: PgNo, g: PgNo)
    requires KeepsLeaves(pages, sh, pages1, sh1, h) && KeepsLeaves(pages1, sh1, pages2, sh2, g)
    requires g in sh1 ==> sh1[g].lvl > 0
    ensures KeepsLeaves(pages, sh, pages2, sh2, h)
  {
  }

  lemma {:induction false} KeepsLeavesSame(pages: Pages, pages1: Pages, sh: Shape, h: PgNo)
    requires sh.Keys <= pages.Keys && sh.Keys <= pages1.Keys
    requires forall p {:trigger pages1[p]} :: p in sh && p != h ==> pages1[p] == pages[p]
    ensures KeepsLeaves(pages, sh, pages1, sh, h)
  {
  }

  lemma {:induction false} KeepsLeavesAgain(pages: Pages, pages1: Pages, sh: Shape, pages2: Pages, sh2: Shape, h: PgNo)
    requires KeepsLeaves(pages, sh, pages1, sh, h) && KeepsLeaves(pages1, sh, pages2, sh2, h)
    ensures KeepsLeaves(pages, sh, pages2, sh2, h)
  {
  }

  lemma {:induction false} SplitKeepsLeaves(d: Disk, d1: Disk, sh: Shape, h: PgNo, r: PgNo, left: seq<Ent>, right: seq<Ent>, k: nat, s: real)
    requires NewPages(d, d1, {r}) && (forall p {:trigger Owns(d, p, Tree)} :: p in sh <==> Owns(d, p, Tree))
    requires h in sh && h in d1.pages && r in d1.pages
    ensures KeepsLeaves(d.pages, sh, SplitInto(d1.pages, h, r, left, right), SplitShape(sh, h, k, r, s), h)
  {
    forall p | p in sh && p != h
      ensures p != r && p in d1.pages && p in d.pages && d1.pages[p] == d.pages[p]
    {
      assert Owns(d, p, Tree);
    }
  }

  lemma {:induction false} RootKeepsLeaves(d: Disk, d2: Disk, sh: Shape, ht: nat, l: PgNo, r: PgNo, left: seq<Ent>, right: seq<Ent>, key: Key, k: nat, s: real)
    requires NewPages(d, d2, {l, r}) && (forall p {:trigger Owns(d, p, Tree)} :: p in sh <==> Owns(d, p, Tree))
    requires P_ROOT in d2.pages && l in d2.pages && r in d2.pages
    ensures KeepsLeaves(d.pages, sh, RootInto(d2.pages, l, r, left, right, key), RootShape(sh, ht, k, l, r, s), P_ROOT)
  {
    forall p | p in sh
      ensures p != l && p != r && p in d2.pages && p in d.pages && d2.pages[p] == d.pages[p]
    {
      assert Owns(d, p, Tree);
    }
  }

  lemma {:induction false} SepKeepsLeaves(pages: Pages, sh: Shape, g: PgNo, j: nat, r: PgNo, key: Key)
    requires g in pages && j < |pages[g].ents| && r in sh && g in sh && sh[g].lvl > 0
    ensures KeepsLeaves(pages, sh, SepPages(pages, g, j, r, key), SepShape(sh, g, j, r), 0)
    ensures KeepsLeaves(pages, sh, pages, SepShape(sh, g, j, r), 0)
  {
  }

  /** Leaf `h` was split around the record `e` at `skip`: `l` and `r` hold its records and `e`, and no
      other leaf changed. */
  ghost predicate SplitLeaf(pages: Pages, sh: Shape, pages': Pages, sh': Shape, full: nat, h: PgNo, skip: nat, e: Ent, l: PgNo, r: PgNo, nl: nat, slot: bool) {
    && h in pages && KeepsLeaves(pages, sh, pages', sh', h) && GoodCut(pages[h].ents, full, skip, Nb(e), nl, slot)
    && l in sh' && l in pages' && sh'[l].lvl == 0 && pages'[l].ents == LeftOf(pages[h].ents, nl, skip, slot, e)
    && r in sh' && r in pages' && sh'[r].lvl == 0 && pages'[r].ents == RightOf(pages[h].ents, nl, skip, slot, e)
  }

  /** The halves stay while the split goes on above them. */
  lemma {:induction false} SplitLeafDone(pages: Pages, sh: Shape, pages1: Pages, sh1: Shape, pages2: Pages, sh2: Shape, full: nat, h: PgNo, skip: nat, e: Ent, l: PgNo, r: PgNo, nl: nat, slot: bool)
    requires h in pages && KeepsLeaves(pages, sh, pages1, sh1, h) && KeepsLeaves(pages1, sh1, pages2, sh2, 0) && 0 !in sh1
    requires GoodCut(pages[h].ents, full, skip, Nb(e), nl, slot) && l in sh1 && r in sh1 && l in pages1 && r in pages1
    requires sh1[l].lvl == 0 && sh1[r].lvl == 0
    requires pages1[l].ents == LeftOf(pages[h].ents, nl, skip, slot, e) && pages1[r].ents == RightOf(pages[h].ents, nl, skip, slot, e)
    ensures SplitLeaf(pages, sh, pages2, sh2, full, h, skip, e, l, r, nl, slot)
  {
  }
}
