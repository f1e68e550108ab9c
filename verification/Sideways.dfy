/** Moving from a leaf to its neighbour with the parent stack (`__bt_stkacq` of bt_delete.c). */
module Sideways {
  import opened Keys
  import opened Layout
  import opened Shape
  import opened Shrink
  import opened Position

  /** Page `y` is child `j` of `g`. */
  ghost predicate IsChild(pages: Pages, sh: Shape, g: PgNo, j: nat, y: PgNo) {
    && g in sh && g in pages && j < |pages[g].ents| && pages[g].ents[j].val == Child(y)
    && y in sh && sh[y].up == g && sh[y].at == j && sh[y].lvl + 1 == sh[g].lvl
  }

  lemma {:induction false} ChildAt(pages: Pages, sh: Shape, ht: nat, g: PgNo, j: nat)
    requires TreeInv(pages, sh, ht, NoEx) && g in sh && sh[g].lvl > 0 && j < |pages[g].ents|
    ensures pages[g].ents[j].val.Child? && var y := pages[g].ents[j].val.pg;
      IsChild(pages, sh, g, j, y) && sh[y].lo == SepLo(pages, sh, g, j) && sh[y].hi == SepHi(pages, sh, g, j)
  {
    assert PageOk(pages, sh, ht, NoEx, g);
    assert ChildOk(pages, sh, NoEx, g, j);
  }

  /** A last child ends where its parent does; another is followed by its right sibling. */
  lemma {:induction false} UpRight(pages: Pages, sh: Shape, ht: nat, x: PgNo)
    requires TreeInv(pages, sh, ht, NoEx) && x in sh && x != P_ROOT
    ensures IsChild(pages, sh, sh[x].up, sh[x].at, x)
    ensures var g, j := sh[x].up, sh[x].at;
      if j + 1 == |pages[g].ents| then sh[g].hi == sh[x].hi
      else pages[g].ents[j + 1].val.Child? && var y := pages[g].ents[j + 1].val.pg;
           IsChild(pages, sh, g, j + 1, y) && sh[y].lo == sh[x].hi
  {
    assert PageOk(pages, sh, ht, NoEx, x);
    var g, j := sh[x].up, sh[x].at;
    ChildAt(pages, sh, ht, g, j);
    if j + 1 < |pages[g].ents| { ChildAt(pages, sh, ht, g, j + 1); }
  }

  lemma {:induction false} UpLeft(pages: Pages, sh: Shape, ht: nat, x: PgNo)
    requires TreeInv(pages, sh, ht, NoEx) && x in sh && x != P_ROOT
    ensures IsChild(pages, sh, sh[x].up, sh[x].at, x)
    ensures var g, j := sh[x].up, sh[x].at;
      if j == 0 then sh[g].lo == sh[x].lo
      else pages[g].ents[j - 1].val.Child? && var y := pages[g].ents[j - 1].val.pg;
           IsChild(pages, sh, g, j - 1, y) && sh[y].hi == sh[x].lo
  {
    assert PageOk(pages, sh, ht, NoEx, x);
    var g, j := sh[x].up, sh[x].at;
    ChildAt(pages, sh, ht, g, j);
    if j > 0 { ChildAt(pages, sh, ht, g, j - 1); }
  }

  /** The next leaf is the one that starts where this one ends. */
  lemma {:induction false} NextLeaf(pages: Pages, sh: Shape, ht: nat, h: PgNo, c: PgNo)
    requires TreeInv(pages, sh, ht, NoEx) && h in sh && c in sh && sh[h].lvl == sh[c].lvl && sh[c].lo == sh[h].hi
    ensures pages[h].next == c
  {
    assert PageOk(pages, sh, ht, NoEx, h) && PageOk(pages, sh, ht, NoEx, c);
    SameLo(pages, sh, ht, NoEx, pages[h].next, c);
  }

  lemma {:induction false} PrevLeaf(pages: Pages, sh: Shape, ht: nat, h: PgNo, c: PgNo)
    requires TreeInv(pages, sh, ht, NoEx) && h in sh && c in sh && sh[h].lvl == sh[c].lvl && sh[c].hi == sh[h].lo
    ensures pages[h].prev == c
  {
    assert PageOk(pages, sh, ht, NoEx, h) && PageOk(pages, sh, ht, NoEx, c);
    SameHi(pages, sh, ht, NoEx, pages[h].prev, c);
  }

  /** Pages right of `h`, and left of it. */
  ghost function PagesRight(sh: Shape, h: PgNo): set<PgNo>
    requires h in sh
  {
    set q | q in sh && sh[q].lo > sh[h].lo
  }

  ghost function PagesLeft(sh: Shape, h: PgNo): set<PgNo>
    requires h in sh
  {
    set q | q in sh && sh[q].lo < sh[h].lo
  }

  /** Short of `t`, a step right comes closer to it and does not pass it. */
  lemma {:induction false} TowardsRight(pages: Pages, sh: Shape, ht: nat, h: PgNo, t: PgNo)
    requires TreeInv(pages, sh, ht, NoEx) && h in sh && t in sh && sh[h].lvl == sh[t].lvl && h != t
    ensures pages[h].next != 0 ==> pages[h].next in sh && sh[pages[h].next].lvl == sh[h].lvl && PagesRight(sh, pages[h].next) < PagesRight(sh, h)
    ensures sh[h].lo <= sh[t].lo ==> pages[h].next != 0 && sh[pages[h].next].lo <= sh[t].lo
    ensures sh[t].lo < sh[h].lo && pages[h].next != 0 ==> sh[t].lo < sh[pages[h].next].lo
  {
    assert PageOk(pages, sh, ht, NoEx, h) && PageOk(pages, sh, ht, NoEx, t);
    var n := pages[h].next;
    if n != 0 {
      assert n in PagesRight(sh, h);
    }
    if sh[h].lo <= sh[t].lo < sh[h].hi {
      LevelDisjoint(pages, sh, ht, NoEx, h, t, sh[t].lo);
    }
  }

  lemma {:induction false} TowardsLeft(pages: Pages, sh: Shape, ht: nat, h: PgNo, t: PgNo)
    requires TreeInv(pages, sh, ht, NoEx) && h in sh && t in sh && sh[h].lvl == sh[t].lvl && h != t && sh[t].lo <= sh[h].lo
    ensures var q := pages[h].prev; q != 0 && q in sh && sh[q].lvl == sh[h].lvl && PagesLeft(sh, q) < PagesLeft(sh, h) && sh[t].lo <= sh[q].lo
  {
    assert PageOk(pages, sh, ht, NoEx, h) && PageOk(pages, sh, ht, NoEx, t);
    var q := pages[h].prev;
    if sh[t].lo == sh[h].lo { SameLo(pages, sh, ht, NoEx, h, t); }
    assert PageOk(pages, sh, ht, NoEx, q);
    assert q in PagesLeft(sh, h);
    if sh[q].lo < sh[t].lo {
      LevelDisjoint(pages, sh, ht, NoEx, q, t, sh[t].lo);
    }
  }
}
