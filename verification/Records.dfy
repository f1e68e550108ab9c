/** The records of a tree, seen as a map from keys to stored items, and positions in it. */
module Records {
  import opened Keys
  import opened Layout
  import opened Shape
  import opened Grow
  import opened Shrink

  type Recs = map<Key, Item>

  /** The leaves of the tree hold exactly the records of `recs`. */
  ghost predicate Holds(pages: Pages, sh: Shape, recs: Recs) {
    forall e {:trigger Has(pages, sh, e)} ::
      Has(pages, sh, e) <==> e.val.Data? && e.key in recs && recs[e.key] == e.val.item
  }

  /** Every record sorts after `k`. */
  ghost predicate AllAfter(recs: Recs, k: Key) { forall k' {:trigger k' in recs} :: k' in recs ==> Rank(k) < Rank(k') }

  /** A key is at one place. */
  lemma {:induction false} OnePlace(pages: Pages, sh: Shape, ht: nat, ex: Ex, p: PgNo, i: nat, e: Ent, q: PgNo, k: nat, f: Ent)
    requires TreeInv(pages, sh, ht, ex) && ex.pr == 0
    requires At(pages, sh, p, i, e) && At(pages, sh, q, k, f) && e.key == f.key
    ensures p == q && i == k
  {
    assert PageOk(pages, sh, ht, ex, p) && PageOk(pages, sh, ht, ex, q);
    LevelDisjoint(pages, sh, ht, ex, p, q, Rank(e.key));
  }

  lemma {:induction false} InsertRecs(pages: Pages, sh: Shape, ht: nat, ex: Ex, recs: Recs, h: PgNo, i: nat, e: Ent)
    requires TreeInv(pages, sh, ht, ex) && Holds(pages, sh, recs)
    requires h in sh && sh[h].lvl == 0 && i <= |pages[h].ents| && e.val.Data? && e.key !in recs
    ensures Holds(pages[h := pages[h].(ents := Ins(pages[h].ents, i, e))], sh, recs[e.key := e.val.item])
  {
    var ents := pages[h].ents;
    var pages' := pages[h := pages[h].(ents := Ins(ents, i, e))];
    assert PageOk(pages, sh, ht, ex, h);
    forall f
      ensures Has(pages', sh, f) <==> Has(pages, sh, f) || f == e
    {
      if Has(pages', sh, f) {
        var p: PgNo, k: nat :| At(pages', sh, p, k, f);
        if f != e { assert At(pages, sh, p, if p == h && k > i then k - 1 else k, f); }
      }
      if Has(pages, sh, f) {
        var p: PgNo, k: nat :| At(pages, sh, p, k, f);
        assert At(pages', sh, p, if p == h && k >= i then k + 1 else k, f);
      }
      assert At(pages', sh, h, i, e);
    }
  }

  lemma {:induction false} RemoveRecs(pages: Pages, sh: Shape, ht: nat, recs: Recs, h: PgNo, i: nat)
    requires TreeInv(pages, sh, ht, NoEx) && Holds(pages, sh, recs)
    requires h in sh && sh[h].lvl == 0 && i < |pages[h].ents|
    ensures Holds(pages[h := pages[h].(ents := Del(pages[h].ents, i))], sh, recs - {pages[h].ents[i].key})
    ensures pages[h].ents[i].val.Data? && pages[h].ents[i].key in recs
    ensures recs[pages[h].ents[i].key] == pages[h].ents[i].val.item
  {
    var ents := pages[h].ents;
    var e := ents[i];
    var pages' := pages[h := pages[h].(ents := Del(ents, i))];
    assert PageOk(pages, sh, ht, NoEx, h);
    assert At(pages, sh, h, i, e);
    assert Has(pages, sh, e);
    forall f
      ensures Has(pages', sh, f) <==> Has(pages, sh, f) && f.key != e.key
    {
      if Has(pages', sh, f) {
        var p: PgNo, k: nat :| At(pages', sh, p, k, f);
        var k' := if p == h && k >= i then k + 1 else k;
        assert At(pages, sh, p, k', f);
        if f.key == e.key { OnePlace(pages, sh, ht, NoEx, p, k', f, h, i, e); }
      }
      if Has(pages, sh, f) && f.key != e.key {
        var p: PgNo, k: nat :| At(pages, sh, p, k, f);
        assert At(pages', sh, p, if p == h && k > i then k - 1 else k, f);
      }
    }
  }

  lemma {:induction false} SepRecs(pages: Pages, sh: Shape, ht: nat, recs: Recs, l: PgNo, r: PgNo, g: PgNo, j: nat, key: Key)
    requires Pending(pages, sh, ht, l, r, g, j) && Holds(pages, sh, recs)
    ensures Holds(SepPages(pages, g, j, r, key), SepShape(sh, g, j, r), recs)
  {
    var pages', sh' := SepPages(pages, g, j, r, key), SepShape(sh, g, j, r);
    assert PageOk(pages, sh, ht, Ex(l, r, 0), g);
    forall f
      ensures Has(pages', sh', f) <==> Has(pages, sh, f)
    {
      if Has(pages', sh', f) {
        var p: PgNo, k: nat :| At(pages', sh', p, k, f);
        assert At(pages, sh, p, k, f);
      }
      if Has(pages, sh, f) {
        var p: PgNo, k: nat :| At(pages, sh, p, k, f);
        assert At(pages', sh', p, k, f);
      }
    }
  }

  lemma {:induction false} SplitRecs(pages: Pages, pages': Pages, sh: Shape, ht: nat, recs: Recs, h: PgNo, k: nat, r: PgNo, s: real)
    requires CanSplit(pages, pages', sh, ht, h, k, r, s) && Holds(pages, sh, recs)
    ensures Holds(pages', SplitShape(sh, h, k, r, s), recs)
  {
    var sh' := SplitShape(sh, h, k, r, s);
    forall f
      ensures Has(pages', sh', f) <==> Has(pages, sh, f)
    {
      if Has(pages', sh', f) {
        var p: PgNo, i: nat :| At(pages', sh', p, i, f);
        if p == r { assert At(pages, sh, h, i + k, f); } else { assert At(pages, sh, p, i, f); }
      }
      if Has(pages, sh, f) {
        var p: PgNo, i: nat :| At(pages, sh, p, i, f);
        if p == h && i >= k { assert At(pages', sh', r, i - k, f); } else { assert At(pages', sh', p, i, f); }
      }
    }
  }

  lemma {:induction false} RootSplitRecs(pages: Pages, pages': Pages, sh: Shape, ht: nat, recs: Recs, k: nat, l: PgNo, r: PgNo, key: Key)
    requires CanSplitRoot(pages, pages', sh, ht, k, l, r, key) && Holds(pages, sh, recs)
    ensures Holds(pages', RootShape(sh, ht, k, l, r, Rank(key)), recs)
  {
    var sh' := RootShape(sh, ht, k, l, r, Rank(key));
    forall f
      ensures Has(pages', sh', f) <==> Has(pages, sh, f)
    {
      if Has(pages', sh', f) {
        var p: PgNo, i: nat :| At(pages', sh', p, i, f);
        if p == l { assert At(pages, sh, P_ROOT, i, f); }
        else if p == r { assert At(pages, sh, P_ROOT, i + k, f); }
        else { assert At(pages, sh, p, i, f); }
      }
      if Has(pages, sh, f) {
        var p: PgNo, i: nat :| At(pages, sh, p, i, f);
        if p != P_ROOT { assert At(pages', sh', p, i, f); }
        else if i < k { assert At(pages', sh', l, i, f); }
        else { assert At(pages', sh', r, i - k, f); }
      }
    }
  }

  lemma {:induction false} ShrinkRecs(pages: Pages, pages': Pages, sh: Shape, ht: nat, recs: Recs, chain: seq<PgNo>, g: PgNo, j: nat)
    requires CanShrink(pages, pages', sh, ht, chain, g, j) && Holds(pages, sh, recs) && chain[0] in sh
    ensures Holds(pages', ShrinkShape(sh, chain, g, j), recs)
  {
    var sh' := ShrinkShape(sh, chain, g, j);
    assert Link(pages, sh, chain, 0);
    ChainBounds(pages, pages', sh, ht, chain, g, j);
    assert PageOk(pages, sh, ht, Ex(0, 0, chain[0]), g);
    forall f
      ensures Has(pages', sh', f) <==> Has(pages, sh, f)
    {
      if Has(pages', sh', f) {
        var p: PgNo, i: nat :| At(pages', sh', p, i, f);
        assert At(pages, sh, p, i, f);
      }
      if Has(pages, sh, f) {
        var p: PgNo, i: nat :| At(pages, sh, p, i, f);
        assert PageOk(pages, sh, ht, Ex(0, 0, chain[0]), p);
        assert At(pages', sh', p, i, f);
      }
    }
  }

  lemma {:induction false} CollapseRecs(pages: Pages, pages': Pages, sh: Shape, ht: nat, recs: Recs, chain: seq<PgNo>)
    requires WholeTree(pages, sh, ht, chain) && Holds(pages, sh, recs)
    requires P_ROOT in pages' && pages'[P_ROOT].ents == []
    ensures Holds(pages', LoneRoot(), recs) && recs == map[]
  {
    assert Link(pages, sh, chain, 0);
    forall p | p in sh
      ensures pages[p].kind == Leaf ==> pages[p].ents == []
    {
      OnlyChain(pages, sh, ht, chain, p);
      assert PageOk(pages, sh, ht, Ex(0, 0, chain[0]), p);
      if p != P_ROOT { assert Link(pages, sh, chain, sh[p].lvl); }
    }
    forall k | k in recs
      ensures Has(pages, sh, Ent(k, Data(recs[k])))
    {
    }
  }
}
