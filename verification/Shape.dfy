/** The shape of a tree over a flat page map: what every operation keeps.

    A ghost `Info` gives each tree page its half-open interval of key ranks, its level above the
    leaves, and its place in its parent.  The invariant is local: it relates a page to its parent,
    its children and its two siblings.  Rank -1.0 stands below every key and 2.0 above. */
module Shape {
  import opened Keys
  import opened Layout

  datatype Info = Info(lo: real, hi: real, lvl: nat, up: PgNo, at: nat)
  type Shape = map<PgNo, Info>
  type Pages = map<PgNo, Page>

  /** States between the steps of an operation: `pr` is the new right half of `pl` and its parent
      does not know it yet; `em` is a leaf that may be empty.  0 where there is none. */
  datatype Ex = Ex(pl: PgNo, pr: PgNo, em: PgNo)
  const NoEx := Ex(0, 0, 0)

  const BOTTOM := -1.0
  const TOP := 2.0

  /** The interval the entries of an internal page give to child `j`.  The key at index 0 is not used. */
  ghost function SepLo(pages: Pages, sh: Shape, p: PgNo, j: nat): real
    requires p in pages && p in sh && j < |pages[p].ents|
  {
    if j == 0 then sh[p].lo else Rank(pages[p].ents[j].key)
  }

  ghost function SepHi(pages: Pages, sh: Shape, p: PgNo, j: nat): real
    requires p in pages && p in sh && j < |pages[p].ents|
  {
    if j + 1 == |pages[p].ents| then sh[p].hi else Rank(pages[p].ents[j + 1].key)
  }

  /** The upper end of `c`, counting a right half its parent does not know yet. */
  ghost function EffHi(sh: Shape, ex: Ex, c: PgNo): real
    requires c in sh
  {
    if c == ex.pl && ex.pr in sh then sh[ex.pr].hi else sh[c].hi
  }

  ghost predicate ChildOk(pages: Pages, sh: Shape, ex: Ex, p: PgNo, j: nat)
    requires p in pages && p in sh && j < |pages[p].ents|
  {
    var e := pages[p].ents[j];
    && e.val.Child? && e.val.pg in sh
    && sh[e.val.pg].up == p && sh[e.val.pg].at == j && sh[e.val.pg].lvl + 1 == sh[p].lvl
    && sh[e.val.pg].lo == SepLo(pages, sh, p, j)
    && EffHi(sh, ex, e.val.pg) == SepHi(pages, sh, p, j)
  }

  ghost predicate LeafOk(ents: seq<Ent>, i: Info) {
    && (forall j :: 0 <= j < |ents| ==> ents[j].val.Data? && i.lo <= Rank(ents[j].key) < i.hi)
    && (forall j, k :: 0 <= j < k < |ents| ==> Rank(ents[j].key) < Rank(ents[k].key))
  }

  ghost predicate InternalOk(pages: Pages, sh: Shape, ex: Ex, p: PgNo)
    requires p in pages && p in sh
  {
    && |pages[p].ents| > 0
    && forall j {:trigger ChildOk(pages, sh, ex, p, j)} :: 0 <= j < |pages[p].ents| ==> ChildOk(pages, sh, ex, p, j)
  }

  ghost predicate NextOk(pages: Pages, sh: Shape, p: PgNo)
    requires p in pages && p in sh
  {
    var q := pages[p].next;
    && (q == 0 <==> sh[p].hi == TOP)
    && (q != 0 ==> q in sh && q in pages && sh[q].lo == sh[p].hi && sh[q].lvl == sh[p].lvl && pages[q].prev == p)
  }

  ghost predicate PrevOk(pages: Pages, sh: Shape, p: PgNo)
    requires p in pages && p in sh
  {
    var q := pages[p].prev;
    && (q == 0 <==> sh[p].lo == BOTTOM)
    && (q != 0 ==> q in sh && q in pages && sh[q].hi == sh[p].lo && sh[q].lvl == sh[p].lvl && pages[q].next == p)
  }

  ghost predicate UpOk(pages: Pages, sh: Shape, ex: Ex, p: PgNo)
    requires p in sh
  {
    var g, j := sh[p].up, sh[p].at;
    && g in sh && g in pages && sh[g].lvl == sh[p].lvl + 1
    && j < |pages[g].ents| && pages[g].ents[j].val == Child(if p == ex.pr then ex.pl else p)
  }

  ghost predicate BodyOk(pages: Pages, sh: Shape, ex: Ex, p: PgNo)
    requires p in pages && p in sh
  {
    if sh[p].lvl == 0 then
      pages[p].kind == Leaf && LeafOk(pages[p].ents, sh[p]) && (pages[p].ents == [] ==> p == P_ROOT || p == ex.em)
    else
      pages[p].kind == Internal && InternalOk(pages, sh, ex, p)
  }

  ghost predicate PageOk(pages: Pages, sh: Shape, ht: nat, ex: Ex, p: PgNo)
    requires p in pages && p in sh
  {
    && BOTTOM <= sh[p].lo < sh[p].hi <= TOP && sh[p].lvl <= ht
    && (p == P_ROOT <==> sh[p].lvl == ht)
    && (p == P_ROOT ==> sh[p].lo == BOTTOM && sh[p].hi == TOP && sh[p].up == 0)
    && (p != P_ROOT ==> UpOk(pages, sh, ex, p))
    && NextOk(pages, sh, p) && PrevOk(pages, sh, p)
    && BodyOk(pages, sh, ex, p)
  }

  ghost predicate TreeInv(pages: Pages, sh: Shape, ht: nat, ex: Ex) {
    && sh.Keys <= pages.Keys && P_ROOT in sh && 0 !in sh
    && (ex.pr != 0 ==> ex.pl in sh && ex.pr in sh && ex.pl != ex.pr && ex.pl != P_ROOT
                       && pages[ex.pl].next == ex.pr
                       && sh[ex.pr].up == sh[ex.pl].up && sh[ex.pr].at == sh[ex.pl].at)
    && (ex.pr == 0 ==> ex.pl == 0)
    && forall p {:trigger PageOk(pages, sh, ht, ex, p)} :: p in sh ==> PageOk(pages, sh, ht, ex, p)
  }

  // ---------------------------------------------------------------- levels are partitioned

  /** The intervals of the children tile the page's interval in order. */
  lemma {:induction false} SepMono(pages: Pages, sh: Shape, ht: nat, ex: Ex, p: PgNo, j: nat, k: nat)
    requires TreeInv(pages, sh, ht, ex) && ex.pr == 0 && p in sh && sh[p].lvl > 0
    requires j <= k < |pages[p].ents|
    ensures SepLo(pages, sh, p, j) <= SepLo(pages, sh, p, k)
    ensures SepHi(pages, sh, p, j) <= SepHi(pages, sh, p, k)
    ensures j < k ==> SepHi(pages, sh, p, j) <= SepLo(pages, sh, p, k)
    decreases k - j
  {
    assert PageOk(pages, sh, ht, ex, p);
    if j < k {
      SepMono(pages, sh, ht, ex, p, j + 1, k);
      assert ChildOk(pages, sh, ex, p, j) && ChildOk(pages, sh, ex, p, j + 1);
      assert PageOk(pages, sh, ht, ex, pages[p].ents[j].val.pg);
      assert PageOk(pages, sh, ht, ex, pages[p].ents[j + 1].val.pg);
    }
  }

  lemma {:induction false} ParentContains(pages: Pages, sh: Shape, ht: nat, ex: Ex, p: PgNo)
    requires TreeInv(pages, sh, ht, ex) && ex.pr == 0 && p in sh && p != P_ROOT
    ensures var g := sh[p].up; g in sh && sh[g].lo <= sh[p].lo && sh[p].hi <= sh[g].hi
    ensures sh[p].at < |pages[sh[p].up].ents| && ChildOk(pages, sh, ex, sh[p].up, sh[p].at)
  {
    assert PageOk(pages, sh, ht, ex, p);
    var g, j := sh[p].up, sh[p].at;
    assert PageOk(pages, sh, ht, ex, g);
    assert ChildOk(pages, sh, ex, g, j);
    SepMono(pages, sh, ht, ex, g, 0, j);
    SepMono(pages, sh, ht, ex, g, j, |pages[g].ents| - 1);
  }

  /** Two pages of one level whose intervals meet are the same page. */
  lemma {:induction false} LevelDisjoint(pages: Pages, sh: Shape, ht: nat, ex: Ex, p: PgNo, q: PgNo, x: real)
    requires TreeInv(pages, sh, ht, ex) && ex.pr == 0 && p in sh && q in sh && sh[p].lvl == sh[q].lvl
    requires sh[p].lo <= x < sh[p].hi && sh[q].lo <= x < sh[q].hi
    ensures p == q
    decreases ht - sh[p].lvl
  {
    assert PageOk(pages, sh, ht, ex, p) && PageOk(pages, sh, ht, ex, q);
    if p != P_ROOT {
      ParentContains(pages, sh, ht, ex, p);
      ParentContains(pages, sh, ht, ex, q);
      LevelDisjoint(pages, sh, ht, ex, sh[p].up, sh[q].up, x);
      if sh[p].at < sh[q].at {
        SepMono(pages, sh, ht, ex, sh[p].up, sh[p].at, sh[q].at);
      } else if sh[q].at < sh[p].at {
        SepMono(pages, sh, ht, ex, sh[p].up, sh[q].at, sh[p].at);
      }
    }
  }

  // ---------------------------------------------------------------- records

  ghost predicate At(pages: Pages, sh: Shape, p: PgNo, i: nat, e: Ent) {
    p in sh && p in pages && pages[p].kind == Leaf && i < |pages[p].ents| && pages[p].ents[i] == e
  }

  /** Record `e` is on some leaf of the tree. */
  ghost predicate Has(pages: Pages, sh: Shape, e: Ent) {
    exists p, i :: At(pages, sh, p, i, e)
  }

  /** A leaf gets new entries; nothing else moves. */
  lemma {:induction false} SetLeaf(pages: Pages, sh: Shape, ht: nat, ex: Ex, h: PgNo, ents: seq<Ent>, ex': Ex)
    requires TreeInv(pages, sh, ht, ex) && h in sh && sh[h].lvl == 0
    requires ex.pr == 0 && ex'.pr == 0 && ex'.pl == 0 && (ex.em == ex'.em || ex.em == h || ex.em == 0)
    requires LeafOk(ents, sh[h]) && (ents == [] ==> h == P_ROOT || h == ex'.em)
    ensures TreeInv(pages[h := pages[h].(ents := ents)], sh, ht, ex')
  {
    var pages' := pages[h := pages[h].(ents := ents)];
    forall p | p in sh
      ensures PageOk(pages', sh, ht, ex', p)
    {
      assert PageOk(pages, sh, ht, ex, p);
      if sh[p].lvl > 0 {
        forall j | 0 <= j < |pages'[p].ents|
          ensures ChildOk(pages', sh, ex', p, j)
        {
          assert ChildOk(pages, sh, ex, p, j);
        }
      }
    }
  }
}
