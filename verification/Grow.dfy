/** Growth: what the split and parent-insertion steps of bt_split.c do to the shape of the tree. */
module Grow {
  import opened Keys
  import opened Layout
  import opened Shape

  // ---------------------------------------------------------------- a new separator in the parent

  ghost function SepShape(sh: Shape, g: PgNo, j: nat, r: PgNo): Shape
    requires r in sh
  {
    map p | p in sh ::
      if p == r then sh[r].(up := g, at := j + 1)
      else if sh[p].up == g && sh[p].at > j then sh[p].(at := sh[p].at + 1)
      else sh[p]
  }

  ghost function SepPages(pages: Pages, g: PgNo, j: nat, r: PgNo, key: Key): Pages
    requires g in pages && j < |pages[g].ents|
  {
    pages[g := pages[g].(ents := Ins(pages[g].ents, j + 1, Ent(key, Child(r))))]
  }

  /** The left half `l` of a pending split is entry `j` of `g`; `key` separates it from `r`. */
  ghost predicate Pending(pages: Pages, sh: Shape, ht: nat, l: PgNo, r: PgNo, g: PgNo, j: nat) {
    && TreeInv(pages, sh, ht, Ex(l, r, 0)) && r != 0
    && g == sh[l].up && j == sh[l].at && g in sh && j < |pages[g].ents| && pages[g].ents[j].val == Child(l)
    && sh[g].lvl == sh[l].lvl + 1
  }

  lemma {:induction false} PendingParent(pages: Pages, sh: Shape, ht: nat, l: PgNo, r: PgNo)
    requires TreeInv(pages, sh, ht, Ex(l, r, 0)) && r != 0
    ensures Pending(pages, sh, ht, l, r, sh[l].up, sh[l].at)
  {
    assert PageOk(pages, sh, ht, Ex(l, r, 0), l);
  }

  lemma {:induction false} SepChildOfParent(pages: Pages, sh: Shape, ht: nat, l: PgNo, r: PgNo, g: PgNo, j: nat, key: Key, i: nat)
    requires Pending(pages, sh, ht, l, r, g, j) && Rank(key) == sh[r].lo && i <= |pages[g].ents|
    ensures ChildOk(SepPages(pages, g, j, r, key), SepShape(sh, g, j, r), NoEx, g, i)
  {
    var ex := Ex(l, r, 0);
    assert PageOk(pages, sh, ht, ex, l) && PageOk(pages, sh, ht, ex, r) && PageOk(pages, sh, ht, ex, g);
    assert ChildOk(pages, sh, ex, g, j);
    if i < j {
      assert ChildOk(pages, sh, ex, g, i);
    } else if i > j + 1 {
      assert ChildOk(pages, sh, ex, g, i - 1);
    }
  }

  lemma {:induction false} SepChildElsewhere(pages: Pages, sh: Shape, ht: nat, l: PgNo, r: PgNo, g: PgNo, j: nat, key: Key, p: PgNo, i: nat)
    requires Pending(pages, sh, ht, l, r, g, j) && p in sh && p != g && sh[p].lvl > 0 && i < |pages[p].ents|
    ensures ChildOk(SepPages(pages, g, j, r, key), SepShape(sh, g, j, r), NoEx, p, i)
  {
    assert PageOk(pages, sh, ht, Ex(l, r, 0), p);
    assert ChildOk(pages, sh, Ex(l, r, 0), p, i);
  }

  /** The parent of the left half takes an entry for the right half, one after the left one's. */
  lemma {:induction false} InsertSep(pages: Pages, sh: Shape, ht: nat, l: PgNo, r: PgNo, g: PgNo, j: nat, key: Key)
    requires Pending(pages, sh, ht, l, r, g, j) && Rank(key) == sh[r].lo
    ensures TreeInv(SepPages(pages, g, j, r, key), SepShape(sh, g, j, r), ht, NoEx)
  {
    var pages', sh' := SepPages(pages, g, j, r, key), SepShape(sh, g, j, r);
    forall p | p in sh'
      ensures PageOk(pages', sh', ht, NoEx, p)
    {
      assert PageOk(pages, sh, ht, Ex(l, r, 0), p);
      if sh[p].lvl > 0 {
        forall i | 0 <= i < |pages'[p].ents|
          ensures ChildOk(pages', sh', NoEx, p, i)
        {
          if p == g {
            SepChildOfParent(pages, sh, ht, l, r, g, j, key, i);
          } else {
            SepChildElsewhere(pages, sh, ht, l, r, g, j, key, p, i);
          }
        }
      }
    }
  }

  // ---------------------------------------------------------------- splitting a page

  ghost function SplitShape(sh: Shape, h: PgNo, k: nat, r: PgNo, s: real): Shape
    requires h in sh
  {
    map p | p in sh.Keys + {r} ::
      if p == r then sh[h].(lo := s)
      else if p == h then sh[h].(hi := s)
      else if sh[p].up == h && sh[p].at >= k then sh[p].(up := r, at := sh[p].at - k)
      else sh[p]
  }

  /** `pages'` is `pages` with the entries of `h` from `k` on moved to a new right sibling `r`. */
  ghost predicate IsSplit(pages: Pages, pages': Pages, sh: Shape, h: PgNo, k: nat, r: PgNo)
    requires sh.Keys <= pages.Keys && h in sh && k <= |pages[h].ents|
  {
    && sh.Keys + {r} <= pages'.Keys
    && pages'[h] == pages[h].(next := r, ents := pages[h].ents[..k])
    && pages'[r].kind == pages[h].kind && pages'[r].ents == pages[h].ents[k..]
    && pages'[r].prev == h && pages'[r].next == pages[h].next
    && (forall p :: p in sh && p != h ==>
          pages'[p] == if p == pages[h].next then pages[p].(prev := r) else pages[p])
  }

  ghost predicate SplitBound(pages: Pages, sh: Shape, h: PgNo, k: nat, s: real)
    requires h in pages && h in sh && 0 < k < |pages[h].ents|
  {
    if sh[h].lvl == 0 then Rank(pages[h].ents[k - 1].key) < s <= Rank(pages[h].ents[k].key)
    else s == Rank(pages[h].ents[k].key)
  }

  ghost predicate CanSplit(pages: Pages, pages': Pages, sh: Shape, ht: nat, h: PgNo, k: nat, r: PgNo, s: real) {
    && TreeInv(pages, sh, ht, NoEx) && h in sh && h != P_ROOT && 0 < k < |pages[h].ents|
    && r !in sh && r != 0 && IsSplit(pages, pages', sh, h, k, r) && SplitBound(pages, sh, h, k, s)
    && sh[h].lo < s < sh[h].hi
  }

  /** The bound falls strictly inside the page's interval. */
  lemma {:induction false} BoundInside(pages: Pages, sh: Shape, ht: nat, h: PgNo, k: nat, s: real)
    requires TreeInv(pages, sh, ht, NoEx) && h in sh && 0 < k < |pages[h].ents| && SplitBound(pages, sh, h, k, s)
    ensures sh[h].lo < s < sh[h].hi
  {
    assert PageOk(pages, sh, ht, NoEx, h);
    if sh[h].lvl > 0 {
      assert ChildOk(pages, sh, NoEx, h, k) && ChildOk(pages, sh, NoEx, h, k - 1);
      var c, d := pages[h].ents[k].val.pg, pages[h].ents[k - 1].val.pg;
      assert PageOk(pages, sh, ht, NoEx, c) && PageOk(pages, sh, ht, NoEx, d);
      SepMono(pages, sh, ht, NoEx, h, 0, k - 1);
      SepMono(pages, sh, ht, NoEx, h, k, |pages[h].ents| - 1);
    }
  }

  lemma {:induction false} SplitNext(pages: Pages, pages': Pages, sh: Shape, ht: nat, h: PgNo, k: nat, r: PgNo, s: real, p: PgNo)
    requires CanSplit(pages, pages', sh, ht, h, k, r, s) && (p in sh || p == r)
    ensures NextOk(pages', SplitShape(sh, h, k, r, s), p)
  {
    assert PageOk(pages, sh, ht, NoEx, h);
    if p != r { assert PageOk(pages, sh, ht, NoEx, p); }
  }

  lemma {:induction false} SplitPrev(pages: Pages, pages': Pages, sh: Shape, ht: nat, h: PgNo, k: nat, r: PgNo, s: real, p: PgNo)
    requires CanSplit(pages, pages', sh, ht, h, k, r, s) && (p in sh || p == r)
    ensures PrevOk(pages', SplitShape(sh, h, k, r, s), p)
  {
    assert PageOk(pages, sh, ht, NoEx, h);
    if p != r { assert PageOk(pages, sh, ht, NoEx, p); }
  }

  lemma {:induction false} SplitChildRight(pages: Pages, pages': Pages, sh: Shape, ht: nat, h: PgNo, k: nat, r: PgNo, s: real, i: nat)
    requires CanSplit(pages, pages', sh, ht, h, k, r, s) && sh[h].lvl > 0 && i < |pages'[r].ents|
    ensures ChildOk(pages', SplitShape(sh, h, k, r, s), Ex(h, r, 0), r, i)
  {
    assert PageOk(pages, sh, ht, NoEx, h);
    assert ChildOk(pages, sh, NoEx, h, i + k);
  }

  lemma {:induction false} SplitChild(pages: Pages, pages': Pages, sh: Shape, ht: nat, h: PgNo, k: nat, r: PgNo, s: real, p: PgNo, i: nat)
    requires CanSplit(pages, pages', sh, ht, h, k, r, s) && p in sh && sh[p].lvl > 0 && i < |pages'[p].ents|
    ensures ChildOk(pages', SplitShape(sh, h, k, r, s), Ex(h, r, 0), p, i)
  {
    assert PageOk(pages, sh, ht, NoEx, p);
    assert ChildOk(pages, sh, NoEx, p, i);
  }

  lemma {:induction false} SplitUp(pages: Pages, pages': Pages, sh: Shape, ht: nat, h: PgNo, k: nat, r: PgNo, s: real, p: PgNo)
    requires CanSplit(pages, pages', sh, ht, h, k, r, s) && (p in sh || p == r) && p != P_ROOT
    ensures UpOk(pages', SplitShape(sh, h, k, r, s), Ex(h, r, 0), p)
  {
    assert PageOk(pages, sh, ht, NoEx, h);
    if p != r { assert PageOk(pages, sh, ht, NoEx, p); }
  }

  lemma {:induction false} LeafHalves(ents: seq<Ent>, i: Info, k: nat, s: real)
    requires LeafOk(ents, i) && 0 < k < |ents| && Rank(ents[k - 1].key) < s <= Rank(ents[k].key)
    ensures LeafOk(ents[..k], i.(hi := s)) && LeafOk(ents[k..], i.(lo := s))
  {
  }

  lemma {:induction false} SplitBody(pages: Pages, pages': Pages, sh: Shape, ht: nat, h: PgNo, k: nat, r: PgNo, s: real, p: PgNo)
    requires CanSplit(pages, pages', sh, ht, h, k, r, s) && (p in sh || p == r)
    ensures BodyOk(pages', SplitShape(sh, h, k, r, s), Ex(h, r, 0), p)
  {
    var ex', sh' := Ex(h, r, 0), SplitShape(sh, h, k, r, s);
    assert PageOk(pages, sh, ht, NoEx, h);
    if p != r { assert PageOk(pages, sh, ht, NoEx, p); }
    if sh[h].lvl == 0 {
      LeafHalves(pages[h].ents, sh[h], k, s);
    }
    if sh'[p].lvl > 0 {
      forall i | 0 <= i < |pages'[p].ents|
        ensures ChildOk(pages', sh', ex', p, i)
      {
        if p == r {
          SplitChildRight(pages, pages', sh, ht, h, k, r, s, i);
        } else {
          SplitChild(pages, pages', sh, ht, h, k, r, s, p, i);
        }
      }
    }
  }

  lemma {:induction false} SplitPageAt(pages: Pages, pages': Pages, sh: Shape, ht: nat, h: PgNo, k: nat, r: PgNo, s: real, p: PgNo)
    requires CanSplit(pages, pages', sh, ht, h, k, r, s) && (p in sh || p == r)
    ensures PageOk(pages', SplitShape(sh, h, k, r, s), ht, Ex(h, r, 0), p)
  {
    assert PageOk(pages, sh, ht, NoEx, h);
    if p != r { assert PageOk(pages, sh, ht, NoEx, p); }
    SplitNext(pages, pages', sh, ht, h, k, r, s, p);
    SplitPrev(pages, pages', sh, ht, h, k, r, s, p);
    SplitBody(pages, pages', sh, ht, h, k, r, s, p);
    if p != P_ROOT { SplitUp(pages, pages', sh, ht, h, k, r, s, p); }
  }

  /** The upper entries of a page move to a new right sibling; the parent learns of it later. */
  lemma {:induction false} SplitPage(pages: Pages, pages': Pages, sh: Shape, ht: nat, h: PgNo, k: nat, r: PgNo, s: real)
    requires CanSplit(pages, pages', sh, ht, h, k, r, s)
    ensures TreeInv(pages', SplitShape(sh, h, k, r, s), ht, Ex(h, r, 0))
  {
    var ex', sh' := Ex(h, r, 0), SplitShape(sh, h, k, r, s);
    forall p | p in sh'
      ensures PageOk(pages', sh', ht, ex', p)
    {
      SplitPageAt(pages, pages', sh, ht, h, k, r, s, p);
    }
  }

  ghost predicate CanMove(pages: Pages, sh: Shape, ht: nat, l: PgNo, r: PgNo, s: real) {
    && TreeInv(pages, sh, ht, Ex(l, r, 0)) && r != 0 && sh[l].lvl == 0
    && |pages[l].ents| > 0 && |pages[r].ents| > 0
    && Rank(pages[l].ents[|pages[l].ents| - 1].key) < s <= Rank(pages[r].ents[0].key)
  }

  lemma {:induction false} MoveChild(pages: Pages, sh: Shape, ht: nat, l: PgNo, r: PgNo, s: real, p: PgNo, i: nat)
    requires CanMove(pages, sh, ht, l, r, s) && p in sh && sh[p].lvl > 0 && i < |pages[p].ents|
    ensures ChildOk(pages, sh[l := sh[l].(hi := s)][r := sh[r].(lo := s)], Ex(l, r, 0), p, i)
  {
    var ex := Ex(l, r, 0);
    assert PageOk(pages, sh, ht, ex, p) && PageOk(pages, sh, ht, ex, l) && PageOk(pages, sh, ht, ex, r);
    assert ChildOk(pages, sh, ex, p, i);
  }

  lemma {:induction false} MoveLinks(pages: Pages, sh: Shape, ht: nat, l: PgNo, r: PgNo, s: real, p: PgNo)
    requires CanMove(pages, sh, ht, l, r, s) && p in sh
    ensures var sh' := sh[l := sh[l].(hi := s)][r := sh[r].(lo := s)]; NextOk(pages, sh', p) && PrevOk(pages, sh', p)
  {
    var ex := Ex(l, r, 0);
    assert PageOk(pages, sh, ht, ex, p) && PageOk(pages, sh, ht, ex, l) && PageOk(pages, sh, ht, ex, r);
  }

  lemma {:induction false} MoveBody(pages: Pages, sh: Shape, ht: nat, l: PgNo, r: PgNo, s: real, p: PgNo)
    requires CanMove(pages, sh, ht, l, r, s) && p in sh
    ensures BodyOk(pages, sh[l := sh[l].(hi := s)][r := sh[r].(lo := s)], Ex(l, r, 0), p)
  {
    var ex, sh' := Ex(l, r, 0), sh[l := sh[l].(hi := s)][r := sh[r].(lo := s)];
    assert PageOk(pages, sh, ht, ex, p) && PageOk(pages, sh, ht, ex, l) && PageOk(pages, sh, ht, ex, r);
    if sh[p].lvl > 0 {
      forall i | 0 <= i < |pages[p].ents|
        ensures ChildOk(pages, sh', ex, p, i)
      {
        MoveChild(pages, sh, ht, l, r, s, p, i);
      }
    }
  }

  lemma {:induction false} MovePage(pages: Pages, sh: Shape, ht: nat, l: PgNo, r: PgNo, s: real, p: PgNo)
    requires CanMove(pages, sh, ht, l, r, s) && p in sh
    ensures PageOk(pages, sh[l := sh[l].(hi := s)][r := sh[r].(lo := s)], ht, Ex(l, r, 0), p)
  {
    hide BodyOk, NextOk, PrevOk;
    MoveLinks(pages, sh, ht, l, r, s, p);
    MoveBody(pages, sh, ht, l, r, s, p);
    MoveInside(pages, sh, ht, l, r, s);
    assert PageOk(pages, sh, ht, Ex(l, r, 0), p) && PageOk(pages, sh, ht, Ex(l, r, 0), l) && PageOk(pages, sh, ht, Ex(l, r, 0), r);
  }

  lemma {:induction false} MoveInside(pages: Pages, sh: Shape, ht: nat, l: PgNo, r: PgNo, s: real)
    requires CanMove(pages, sh, ht, l, r, s)
    ensures sh[l].lo < s < sh[r].hi
  {
    assert PageOk(pages, sh, ht, Ex(l, r, 0), l) && PageOk(pages, sh, ht, Ex(l, r, 0), r);
  }

  /** While the parent waits, the bound between two leaves may be any rank that separates them. */
  lemma {:induction false} MoveBound(pages: Pages, sh: Shape, ht: nat, l: PgNo, r: PgNo, s: real)
    requires CanMove(pages, sh, ht, l, r, s)
    ensures TreeInv(pages, sh[l := sh[l].(hi := s)][r := sh[r].(lo := s)], ht, Ex(l, r, 0))
  {
    hide PageOk;
    forall p | p in sh
      ensures PageOk(pages, sh[l := sh[l].(hi := s)][r := sh[r].(lo := s)], ht, Ex(l, r, 0), p)
    {
      MovePage(pages, sh, ht, l, r, s, p);
    }
  }

  // ---------------------------------------------------------------- splitting the root

  /** `pages'` is `pages` with the entries of the root moved to `l` and `r` and the root on top of them. */
  ghost predicate IsRootSplit(pages: Pages, pages': Pages, sh: Shape, k: nat, l: PgNo, r: PgNo, key: Key)
    requires sh.Keys <= pages.Keys && P_ROOT in sh && k <= |pages[P_ROOT].ents|
  {
    && sh.Keys + {l, r} <= pages'.Keys
    && pages'[P_ROOT].kind == Internal && pages'[P_ROOT].prev == 0 && pages'[P_ROOT].next == 0
    && pages'[P_ROOT].ents == [Ent([], Child(l)), Ent(key, Child(r))]
    && pages'[l].kind == pages[P_ROOT].kind && pages'[l].ents == pages[P_ROOT].ents[..k]
    && pages'[l].prev == 0 && pages'[l].next == r
    && pages'[r].kind == pages[P_ROOT].kind && pages'[r].ents == pages[P_ROOT].ents[k..]
    && pages'[r].prev == l && pages'[r].next == 0
    && (forall p :: p in sh && p != P_ROOT ==> pages'[p] == pages[p])
  }

  ghost function RootShape(sh: Shape, ht: nat, k: nat, l: PgNo, r: PgNo, s: real): Shape {
    map p | p in sh.Keys + {l, r} ::
      if p == l then Info(BOTTOM, s, ht, P_ROOT, 0)
      else if p == r then Info(s, TOP, ht, P_ROOT, 1)
      else if p == P_ROOT then sh[p].(lvl := ht + 1)
      else if sh[p].up == P_ROOT then
        if sh[p].at < k then sh[p].(up := l) else sh[p].(up := r, at := sh[p].at - k)
      else sh[p]
  }

  ghost predicate CanSplitRoot(pages: Pages, pages': Pages, sh: Shape, ht: nat, k: nat, l: PgNo, r: PgNo, key: Key) {
    && TreeInv(pages, sh, ht, NoEx) && 0 < k < |pages[P_ROOT].ents|
    && l !in sh && r !in sh && l != 0 && r != 0 && l != r
    && IsRootSplit(pages, pages', sh, k, l, r, key) && SplitBound(pages, sh, P_ROOT, k, Rank(key))
    && BOTTOM < Rank(key) < TOP
  }

  lemma {:induction false} RootSplitChild(pages: Pages, pages': Pages, sh: Shape, ht: nat, k: nat, l: PgNo, r: PgNo, key: Key, p: PgNo, i: nat)
    requires CanSplitRoot(pages, pages', sh, ht, k, l, r, key) && (p in sh || p == l || p == r)
    requires RootShape(sh, ht, k, l, r, Rank(key))[p].lvl > 0 && i < |pages'[p].ents|
    ensures ChildOk(pages', RootShape(sh, ht, k, l, r, Rank(key)), NoEx, p, i)
  {
    assert PageOk(pages, sh, ht, NoEx, P_ROOT);
    if p == l {
      assert ChildOk(pages, sh, NoEx, P_ROOT, i);
    } else if p == r {
      assert ChildOk(pages, sh, NoEx, P_ROOT, i + k);
    } else if p != P_ROOT {
      assert PageOk(pages, sh, ht, NoEx, p);
      assert ChildOk(pages, sh, NoEx, p, i);
    }
  }

  lemma {:induction false} RootSplitBody(pages: Pages, pages': Pages, sh: Shape, ht: nat, k: nat, l: PgNo, r: PgNo, key: Key, p: PgNo)
    requires CanSplitRoot(pages, pages', sh, ht, k, l, r, key) && (p in sh || p == l || p == r)
    ensures BodyOk(pages', RootShape(sh, ht, k, l, r, Rank(key)), NoEx, p)
  {
    var sh' := RootShape(sh, ht, k, l, r, Rank(key));
    assert PageOk(pages, sh, ht, NoEx, P_ROOT);
    if p in sh { assert PageOk(pages, sh, ht, NoEx, p); }
    if ht == 0 {
      LeafHalves(pages[P_ROOT].ents, sh[P_ROOT], k, Rank(key));
    }
    if sh'[p].lvl > 0 {
      forall i | 0 <= i < |pages'[p].ents|
        ensures ChildOk(pages', sh', NoEx, p, i)
      {
        RootSplitChild(pages, pages', sh, ht, k, l, r, key, p, i);
      }
    }
  }

  lemma {:induction false} RootSplitAt(pages: Pages, pages': Pages, sh: Shape, ht: nat, k: nat, l: PgNo, r: PgNo, key: Key, p: PgNo)
    requires CanSplitRoot(pages, pages', sh, ht, k, l, r, key) && (p in sh || p == l || p == r)
    ensures PageOk(pages', RootShape(sh, ht, k, l, r, Rank(key)), ht + 1, NoEx, p)
  {
    assert PageOk(pages, sh, ht, NoEx, P_ROOT);
    if p in sh { assert PageOk(pages, sh, ht, NoEx, p); }
    RootSplitBody(pages, pages', sh, ht, k, l, r, key, p);
  }

  /** The root's entries move to two new pages and the root becomes their parent: one more level. */
  lemma {:induction false} SplitRoot(pages: Pages, pages': Pages, sh: Shape, ht: nat, k: nat, l: PgNo, r: PgNo, key: Key)
    requires CanSplitRoot(pages, pages', sh, ht, k, l, r, key)
    ensures TreeInv(pages', RootShape(sh, ht, k, l, r, Rank(key)), ht + 1, NoEx)
  {
    hide PageOk;
    var sh' := RootShape(sh, ht, k, l, r, Rank(key));
    forall p | p in sh'
      ensures PageOk(pages', sh', ht + 1, NoEx, p)
    {
      RootSplitAt(pages, pages', sh, ht, k, l, r, key, p);
    }
  }
}
