/** Shrinking: what the page deletion of bt_delete.c does to the shape of the tree. */
module Shrink {
  import opened Keys
  import opened Layout
  import opened Shape

  /** An emptied leaf and the single-entry ancestors that go with it, from the leaf upwards. */
  ghost predicate ChainOk(pages: Pages, sh: Shape, chain: seq<PgNo>)
    requires sh.Keys <= pages.Keys
  {
    && |chain| > 0
    && (forall m {:trigger Link(pages, sh, chain, m)} :: 0 <= m < |chain| ==> Link(pages, sh, chain, m))
  }

  ghost predicate Link(pages: Pages, sh: Shape, chain: seq<PgNo>, m: nat)
    requires sh.Keys <= pages.Keys && m < |chain|
  {
    && chain[m] in sh && chain[m] != P_ROOT && sh[chain[m]].lvl == m
    && chain[0] in sh && sh[chain[m]].lo == sh[chain[0]].lo && sh[chain[m]].hi == sh[chain[0]].hi
    && (m == 0 ==> pages[chain[0]].ents == [])
    && (m > 0 ==> |pages[chain[m]].ents| == 1 && pages[chain[m]].ents[0].val == Child(chain[m - 1]))
    && (m + 1 < |chain| ==> sh[chain[m]].up == chain[m + 1] && sh[chain[m]].at == 0)
  }

  ghost predicate InChain(sh: Shape, chain: seq<PgNo>, p: PgNo) {
    p in sh && sh[p].lvl < |chain| && chain[sh[p].lvl] == p
  }

  /** A page whose links go around the pages of the chain. */
  ghost function Bypass(pages: Pages, sh: Shape, chain: seq<PgNo>, p: PgNo): Page
    requires sh.Keys <= pages.Keys && p in sh
  {
    var h := pages[p];
    h.(prev := if InChain(sh, chain, h.prev) then pages[h.prev].prev else h.prev,
       next := if InChain(sh, chain, h.next) then pages[h.next].next else h.next)
  }

  /** The neighbour inside the same parent takes over the interval of the pages that go: the left
      one, or the right one when the entry removed is the first. */
  ghost function ShrinkInfo(sh: Shape, chain: seq<PgNo>, g: PgNo, j: nat, p: PgNo): Info
    requires p in sh && |chain| > 0 && chain[0] in sh
  {
    var a, b, i := sh[chain[0]].lo, sh[chain[0]].hi, sh[p];
    Info(if i.lvl < |chain| && j == 0 && i.lo == b then a else i.lo,
         if i.lvl < |chain| && j > 0 && i.hi == a then b else i.hi,
         i.lvl, i.up,
         if i.up == g && i.at > j then i.at - 1 else i.at)
  }

  ghost function ShrinkShape(sh: Shape, chain: seq<PgNo>, g: PgNo, j: nat): Shape
    requires |chain| > 0 && chain[0] in sh
  {
    map p | p in sh && !InChain(sh, chain, p) :: ShrinkInfo(sh, chain, g, j, p)
  }

  ghost predicate CanShrink(pages: Pages, pages': Pages, sh: Shape, ht: nat, chain: seq<PgNo>, g: PgNo, j: nat) {
    && |chain| > 0 && TreeInv(pages, sh, ht, Ex(0, 0, chain[0])) && ChainOk(pages, sh, chain)
    && var x := chain[|chain| - 1];
    && x in sh && g == sh[x].up && j == sh[x].at && g in sh && |pages[g].ents| >= 2 && j < |pages[g].ents|
    && sh.Keys <= pages'.Keys
    && (forall p {:trigger pages'[p]} :: p in sh && !InChain(sh, chain, p) ==>
          pages'[p] == if p == g then Bypass(pages, sh, chain, p).(ents := Del(pages[p].ents, j))
                       else Bypass(pages, sh, chain, p))
  }

  lemma {:induction false} SameLo(pages: Pages, sh: Shape, ht: nat, ex: Ex, p: PgNo, q: PgNo)
    requires TreeInv(pages, sh, ht, ex) && ex.pr == 0 && p in sh && q in sh && sh[p].lvl == sh[q].lvl && sh[p].lo == sh[q].lo
    ensures p == q
  {
    assert PageOk(pages, sh, ht, ex, p) && PageOk(pages, sh, ht, ex, q);
    LevelDisjoint(pages, sh, ht, ex, p, q, sh[p].lo);
  }

  lemma {:induction false} SameHi(pages: Pages, sh: Shape, ht: nat, ex: Ex, p: PgNo, q: PgNo)
    requires TreeInv(pages, sh, ht, ex) && ex.pr == 0 && p in sh && q in sh && sh[p].lvl == sh[q].lvl && sh[p].hi == sh[q].hi
    ensures p == q
  {
    assert PageOk(pages, sh, ht, ex, p) && PageOk(pages, sh, ht, ex, q);
    LevelDisjoint(pages, sh, ht, ex, p, q, if sh[p].lo < sh[q].lo then sh[q].lo else sh[p].lo);
  }

  /** A page sharing an end with the page of the chain on its level is that page. */
  lemma {:induction false} EndsUnique(pages: Pages, sh: Shape, ht: nat, chain: seq<PgNo>, p: PgNo)
    requires |chain| > 0 && TreeInv(pages, sh, ht, Ex(0, 0, chain[0])) && ChainOk(pages, sh, chain)
    requires p in sh && sh[p].lvl < |chain| && chain[0] in sh
    ensures sh[p].lo == sh[chain[0]].lo || sh[p].hi == sh[chain[0]].hi ==> InChain(sh, chain, p)
    ensures InChain(sh, chain, p) ==> sh[p].lo == sh[chain[0]].lo && sh[p].hi == sh[chain[0]].hi
  {
    var m := sh[p].lvl;
    assert Link(pages, sh, chain, m);
    if sh[p].lo == sh[chain[0]].lo {
      SameLo(pages, sh, ht, Ex(0, 0, chain[0]), p, chain[m]);
    } else if sh[p].hi == sh[chain[0]].hi {
      SameHi(pages, sh, ht, Ex(0, 0, chain[0]), p, chain[m]);
    }
  }

  /** The interval of the chain as the parent `g` of its top page sees it. */
  lemma {:induction false} ChainBounds(pages: Pages, pages': Pages, sh: Shape, ht: nat, chain: seq<PgNo>, g: PgNo, j: nat)
    requires CanShrink(pages, pages', sh, ht, chain, g, j)
    ensures chain[0] in sh && var a, b := sh[chain[0]].lo, sh[chain[0]].hi;
      && BOTTOM <= a < b <= TOP && (j == 0 ==> b < TOP) && (j > 0 ==> BOTTOM < a)
      && a == SepLo(pages, sh, g, j) && b == SepHi(pages, sh, g, j)
      && ChildOk(pages, sh, Ex(0, 0, chain[0]), g, j) && pages[g].ents[j].val.pg == chain[|chain| - 1]
      && sh[g].lvl == |chain|
  {
    var ex, x := Ex(0, 0, chain[0]), chain[|chain| - 1];
    assert Link(pages, sh, chain, |chain| - 1) && Link(pages, sh, chain, 0);
    assert PageOk(pages, sh, ht, ex, x) && PageOk(pages, sh, ht, ex, g) && PageOk(pages, sh, ht, ex, chain[0]);
    assert ChildOk(pages, sh, ex, g, j);
  }

  lemma {:induction false} ShrinkNext(pages: Pages, pages': Pages, sh: Shape, ht: nat, chain: seq<PgNo>, g: PgNo, j: nat, p: PgNo)
    requires CanShrink(pages, pages', sh, ht, chain, g, j) && p in sh && !InChain(sh, chain, p) && chain[0] in sh
    ensures NextOk(pages', ShrinkShape(sh, chain, g, j), p)
  {
    var ex := Ex(0, 0, chain[0]);
    ChainBounds(pages, pages', sh, ht, chain, g, j);
    assert PageOk(pages, sh, ht, ex, p);
    var q := pages[p].next;
    if q != 0 {
      assert PageOk(pages, sh, ht, ex, q);
      if sh[p].lvl < |chain| {
        EndsUnique(pages, sh, ht, chain, p);
        EndsUnique(pages, sh, ht, chain, q);
        if InChain(sh, chain, q) && pages[q].next != 0 {
          assert PageOk(pages, sh, ht, ex, pages[q].next);
          EndsUnique(pages, sh, ht, chain, pages[q].next);
        }
      }
    }
  }

  lemma {:induction false} ShrinkPrev(pages: Pages, pages': Pages, sh: Shape, ht: nat, chain: seq<PgNo>, g: PgNo, j: nat, p: PgNo)
    requires CanShrink(pages, pages', sh, ht, chain, g, j) && p in sh && !InChain(sh, chain, p) && chain[0] in sh
    ensures PrevOk(pages', ShrinkShape(sh, chain, g, j), p)
  {
    var ex := Ex(0, 0, chain[0]);
    ChainBounds(pages, pages', sh, ht, chain, g, j);
    assert PageOk(pages, sh, ht, ex, p);
    var q := pages[p].prev;
    if q != 0 {
      assert PageOk(pages, sh, ht, ex, q);
      if sh[p].lvl < |chain| {
        EndsUnique(pages, sh, ht, chain, p);
        EndsUnique(pages, sh, ht, chain, q);
        if InChain(sh, chain, q) && pages[q].prev != 0 {
          assert PageOk(pages, sh, ht, ex, pages[q].prev);
          EndsUnique(pages, sh, ht, chain, pages[q].prev);
        }
      }
    }
  }

  /** Only the chain hangs below the chain; `g` and the chain hold every parent of the chain. */
  lemma {:induction false} ChainFamily(pages: Pages, pages': Pages, sh: Shape, ht: nat, chain: seq<PgNo>, g: PgNo, j: nat, p: PgNo)
    requires CanShrink(pages, pages', sh, ht, chain, g, j) && p in sh && p != P_ROOT
    ensures InChain(sh, chain, sh[p].up) ==> InChain(sh, chain, p)
    ensures InChain(sh, chain, p) ==> InChain(sh, chain, sh[p].up) || (sh[p].up == g && sh[p].at == j)
    ensures sh[p].up == g && sh[p].at == j ==> InChain(sh, chain, p)
  {
    var ex, m := Ex(0, 0, chain[0]), sh[p].lvl;
    ChainBounds(pages, pages', sh, ht, chain, g, j);
    assert PageOk(pages, sh, ht, ex, p);
    if m + 1 < |chain| {
      assert Link(pages, sh, chain, m + 1);
    }
    if m < |chain| {
      assert Link(pages, sh, chain, m);
    }
  }

  lemma {:induction false} ShrinkUp(pages: Pages, pages': Pages, sh: Shape, ht: nat, chain: seq<PgNo>, g: PgNo, j: nat, p: PgNo)
    requires CanShrink(pages, pages', sh, ht, chain, g, j) && p in sh && !InChain(sh, chain, p) && chain[0] in sh && p != P_ROOT
    ensures UpOk(pages', ShrinkShape(sh, chain, g, j), NoEx, p)
  {
    assert PageOk(pages, sh, ht, Ex(0, 0, chain[0]), p);
    ChainFamily(pages, pages', sh, ht, chain, g, j, p);
  }

  /** A child that starts where the chain ends is a first child, or follows the chain in `g`. */
  lemma {:induction false} AfterChain(pages: Pages, pages': Pages, sh: Shape, ht: nat, chain: seq<PgNo>, g: PgNo, p: PgNo, k: nat)
    requires CanShrink(pages, pages', sh, ht, chain, g, 0) && p in sh && !InChain(sh, chain, p) && chain[0] in sh
    requires sh[p].lvl > 0 && k < |pages[p].ents| && ChildOk(pages, sh, Ex(0, 0, chain[0]), p, k)
    requires var c := pages[p].ents[k].val.pg; sh[c].lvl < |chain| && sh[c].lo == sh[chain[0]].hi
    ensures if p == g then k == 1 else k == 0 && sh[p].lvl < |chain|
  {
    var ex := Ex(0, 0, chain[0]);
    ChainBounds(pages, pages', sh, ht, chain, g, 0);
    assert PageOk(pages, sh, ht, ex, p) && PageOk(pages, sh, ht, ex, g);
    if k > 0 {
      assert ChildOk(pages, sh, ex, p, k - 1);
      var d := pages[p].ents[k - 1].val.pg;
      assert PageOk(pages, sh, ht, ex, d);
      EndsUnique(pages, sh, ht, chain, d);
      ChainFamily(pages, pages', sh, ht, chain, g, 0, d);
    } else if sh[p].lvl == |chain| {
      assert ChildOk(pages, sh, ex, g, 1);
      SameLo(pages, sh, ht, ex, pages[p].ents[k].val.pg, pages[g].ents[1].val.pg);
    }
  }

  /** A child that ends where the chain starts is a last child, or precedes the chain in `g`. */
  lemma {:induction false} BeforeChain(pages: Pages, pages': Pages, sh: Shape, ht: nat, chain: seq<PgNo>, g: PgNo, j: nat, p: PgNo, k: nat)
    requires CanShrink(pages, pages', sh, ht, chain, g, j) && j > 0 && p in sh && !InChain(sh, chain, p) && chain[0] in sh
    requires sh[p].lvl > 0 && k < |pages[p].ents| && ChildOk(pages, sh, Ex(0, 0, chain[0]), p, k)
    requires var c := pages[p].ents[k].val.pg; sh[c].lvl < |chain| && sh[c].hi == sh[chain[0]].lo
    ensures if p == g then k == j - 1 else k + 1 == |pages[p].ents| && sh[p].lvl < |chain|
  {
    var ex := Ex(0, 0, chain[0]);
    ChainBounds(pages, pages', sh, ht, chain, g, j);
    assert PageOk(pages, sh, ht, ex, p) && PageOk(pages, sh, ht, ex, g);
    if k + 1 < |pages[p].ents| {
      assert ChildOk(pages, sh, ex, p, k + 1);
      var d := pages[p].ents[k + 1].val.pg;
      assert PageOk(pages, sh, ht, ex, d);
      EndsUnique(pages, sh, ht, chain, d);
      ChainFamily(pages, pages', sh, ht, chain, g, j, d);
    } else if sh[p].lvl == |chain| {
      assert ChildOk(pages, sh, ex, g, j - 1);
      SameHi(pages, sh, ht, ex, pages[p].ents[k].val.pg, pages[g].ents[j - 1].val.pg);
    }
  }

  lemma {:induction false} ShrinkChildElsewhere(pages: Pages, pages': Pages, sh: Shape, ht: nat, chain: seq<PgNo>, g: PgNo, j: nat, p: PgNo, k: nat)
    requires CanShrink(pages, pages', sh, ht, chain, g, j) && p in sh && !InChain(sh, chain, p) && chain[0] in sh
    requires sh[p].lvl > 0 && p != g && k < |pages[p].ents|
    ensures ChildOk(pages', ShrinkShape(sh, chain, g, j), NoEx, p, k)
  {
    var ex := Ex(0, 0, chain[0]);
    ChainBounds(pages, pages', sh, ht, chain, g, j);
    assert PageOk(pages, sh, ht, ex, p);
    assert ChildOk(pages, sh, ex, p, k);
    var c := pages[p].ents[k].val.pg;
    assert PageOk(pages, sh, ht, ex, c);
    ChainFamily(pages, pages', sh, ht, chain, g, j, c);
    if sh[c].lvl < |chain| {
      if j == 0 && sh[c].lo == sh[chain[0]].hi {
        AfterChain(pages, pages', sh, ht, chain, g, p, k);
      } else if j > 0 && sh[c].hi == sh[chain[0]].lo {
        BeforeChain(pages, pages', sh, ht, chain, g, j, p, k);
      }
    }
  }

  lemma {:induction false} ShrinkChildOfParent(pages: Pages, pages': Pages, sh: Shape, ht: nat, chain: seq<PgNo>, g: PgNo, j: nat, k: nat)
    requires CanShrink(pages, pages', sh, ht, chain, g, j) && !InChain(sh, chain, g) && chain[0] in sh
    requires k < |pages[g].ents| && k != j
    ensures ChildOk(pages', ShrinkShape(sh, chain, g, j), NoEx, g, if k < j then k else k - 1)
  {
    var ex := Ex(0, 0, chain[0]);
    ChainBounds(pages, pages', sh, ht, chain, g, j);
    assert PageOk(pages, sh, ht, ex, g);
    assert ChildOk(pages, sh, ex, g, k);
    var c := pages[g].ents[k].val.pg;
    assert PageOk(pages, sh, ht, ex, c);
    ChainFamily(pages, pages', sh, ht, chain, g, j, c);
    if j == 0 && sh[c].lo == sh[chain[0]].hi {
      AfterChain(pages, pages', sh, ht, chain, g, g, k);
    } else if j > 0 && sh[c].hi == sh[chain[0]].lo {
      BeforeChain(pages, pages', sh, ht, chain, g, j, g, k);
    }
  }

  lemma {:induction false} ShrinkBody(pages: Pages, pages': Pages, sh: Shape, ht: nat, chain: seq<PgNo>, g: PgNo, j: nat, p: PgNo)
    requires CanShrink(pages, pages', sh, ht, chain, g, j) && p in sh && !InChain(sh, chain, p) && chain[0] in sh
    ensures BodyOk(pages', ShrinkShape(sh, chain, g, j), NoEx, p)
  {
    var sh' := ShrinkShape(sh, chain, g, j);
    ChainBounds(pages, pages', sh, ht, chain, g, j);
    assert Link(pages, sh, chain, 0);
    assert PageOk(pages, sh, ht, Ex(0, 0, chain[0]), p);
    if sh[p].lvl > 0 {
      forall i | 0 <= i < |pages'[p].ents|
        ensures ChildOk(pages', sh', NoEx, p, i)
      {
        if p == g {
          ShrinkChildOfParent(pages, pages', sh, ht, chain, g, j, if i < j then i else i + 1);
        } else {
          ShrinkChildElsewhere(pages, pages', sh, ht, chain, g, j, p, i);
        }
      }
    }
  }

  lemma {:induction false} ShrinkAt(pages: Pages, pages': Pages, sh: Shape, ht: nat, chain: seq<PgNo>, g: PgNo, j: nat, p: PgNo)
    requires CanShrink(pages, pages', sh, ht, chain, g, j) && p in sh && !InChain(sh, chain, p) && chain[0] in sh
    ensures PageOk(pages', ShrinkShape(sh, chain, g, j), ht, NoEx, p)
  {
    ChainBounds(pages, pages', sh, ht, chain, g, j);
    assert PageOk(pages, sh, ht, Ex(0, 0, chain[0]), p) && PageOk(pages, sh, ht, Ex(0, 0, chain[0]), g);
    ShrinkNext(pages, pages', sh, ht, chain, g, j, p);
    ShrinkPrev(pages, pages', sh, ht, chain, g, j, p);
    ShrinkBody(pages, pages', sh, ht, chain, g, j, p);
    if p != P_ROOT {
      ShrinkUp(pages, pages', sh, ht, chain, g, j, p);
    }
    if sh[p].lvl < |chain| {
      EndsUnique(pages, sh, ht, chain, p);
    }
  }

  /** Removing an emptied leaf, the ancestors emptied with it and the entry above them leaves a tree. */
  lemma {:induction false} ShrinkTree(pages: Pages, pages': Pages, sh: Shape, ht: nat, chain: seq<PgNo>, g: PgNo, j: nat)
    requires CanShrink(pages, pages', sh, ht, chain, g, j)
    ensures chain[0] in sh && TreeInv(pages', ShrinkShape(sh, chain, g, j), ht, NoEx)
  {
    assert Link(pages, sh, chain, 0);
    var sh' := ShrinkShape(sh, chain, g, j);
    ChainBounds(pages, pages', sh, ht, chain, g, j);
    assert PageOk(pages, sh, ht, Ex(0, 0, chain[0]), g);
    assert PageOk(pages, sh, ht, Ex(0, 0, chain[0]), P_ROOT);
    forall p | p in sh'
      ensures PageOk(pages', sh', ht, NoEx, p)
    {
      ShrinkAt(pages, pages', sh, ht, chain, g, j, p);
    }
  }

  // ---------------------------------------------------------------- the root loses its last entry

  /** The chain reaches up to a root with a single entry: then root and chain are the whole tree. */
  ghost predicate WholeTree(pages: Pages, sh: Shape, ht: nat, chain: seq<PgNo>) {
    && |chain| > 0 && TreeInv(pages, sh, ht, Ex(0, 0, chain[0])) && ChainOk(pages, sh, chain)
    && var x := chain[|chain| - 1];
    && x in sh && sh[x].up == P_ROOT && |pages[P_ROOT].ents| == 1
  }

  lemma {:induction false} OnlyChain(pages: Pages, sh: Shape, ht: nat, chain: seq<PgNo>, p: PgNo)
    requires WholeTree(pages, sh, ht, chain) && p in sh
    ensures p == P_ROOT || InChain(sh, chain, p)
    ensures !InChain(sh, chain, P_ROOT) && |chain| == ht
  {
    var ex, n := Ex(0, 0, chain[0]), |chain|;
    assert Link(pages, sh, chain, n - 1) && Link(pages, sh, chain, 0);
    assert PageOk(pages, sh, ht, ex, p) && PageOk(pages, sh, ht, ex, chain[n - 1]) && PageOk(pages, sh, ht, ex, P_ROOT);
    assert ChildOk(pages, sh, ex, P_ROOT, 0);
    if p != P_ROOT {
      assert Link(pages, sh, chain, sh[p].lvl);
      LevelDisjoint(pages, sh, ht, ex, p, chain[sh[p].lvl], sh[p].lo);
    }
  }

  /** The root as an empty leaf. */
  ghost function LoneRoot(): Shape { map[P_ROOT := Info(BOTTOM, TOP, 0, 0, 0)] }

  lemma {:induction false} CollapseTree(pages': Pages)
    requires P_ROOT in pages' && pages'[P_ROOT].kind == Leaf && pages'[P_ROOT].ents == []
    requires pages'[P_ROOT].prev == 0 && pages'[P_ROOT].next == 0
    ensures TreeInv(pages', LoneRoot(), 0, NoEx)
  {
  }
}
