/** The search within one page (`__bt_cmp` of bt_utils.c and the loop of `__bt_search`). */
module Search {
  import opened Keys
  import opened Layout
  import opened Shape
  import opened Position

  /** `__bt_cmp`: the first key of the first page of an internal level is below every key. */
  method BtCmp(key: Key, h: Page, index: nat) returns (cmp: int)
    requires index < |h.ents|
    ensures index == 0 && h.prev == P_INVALID && h.kind != Leaf ==> cmp == 1
    ensures !(index == 0 && h.prev == P_INVALID && h.kind != Leaf) ==>
      var k := h.ents[index].key;
      (cmp < 0 <==> Rank(key) < Rank(k)) && (cmp == 0 <==> key == k) && (cmp > 0 <==> Rank(key) > Rank(k))
  {
    if index == 0 && h.prev == P_INVALID && h.kind != Leaf {
      return 1;
    }
    cmp := DefCmp(key, h.ents[index].key);
  }

  /** The entries are in order as far as a search relies on it: all of a leaf, an internal page from index 1 on. */
  ghost predicate Sorted(h: Page) {
    forall i, j :: (if h.kind == Leaf then 0 else 1) <= i < j < |h.ents| ==> Rank(h.ents[i].key) < Rank(h.ents[j].key)
  }

  lemma {:induction false} PageSorted(pages: Pages, sh: Shape, ht: nat, p: PgNo)
    requires TreeInv(pages, sh, ht, NoEx) && p in sh
    ensures Sorted(pages[p])
  {
    assert PageOk(pages, sh, ht, NoEx, p);
    if sh[p].lvl > 0 {
      forall i, j | 1 <= i < j < |pages[p].ents|
        ensures Rank(pages[p].ents[i].key) < Rank(pages[p].ents[j].key)
      {
        SeparatorsSorted(pages, sh, ht, p, i, j);
      }
    }
  }

  /** The binary search of `__bt_search` on one page.  On an internal page index 0 is probed only
      when the key is already known to be below entry 1, so what the key there says does not matter:
      the result is the child that the separators from index 1 on give, `index` itself if an equal
      key was met and else the entry before `index`. */
  method Probe(key: Key, h: Page) returns (index: nat, found: bool)
    requires Sorted(h) && (h.kind == Leaf || |h.ents| > 0)
    ensures h.kind == Leaf ==> IsSlot(h.ents, key, index, found)
    ensures h.kind != Leaf ==> Routes(h.ents, Rank(key), if found || index == 0 then index else index - 1)
  {
    ghost var from := if h.kind == Leaf then 0 else 1;
    var base, lim := 0, |h.ents|;
    while lim != 0
      invariant 0 <= base && 0 <= lim && base + lim <= |h.ents|
      invariant forall i :: from <= i < base ==> Rank(h.ents[i].key) < Rank(key)
      invariant forall i :: from <= i < |h.ents| && base + lim <= i ==> Rank(key) < Rank(h.ents[i].key)
      decreases lim
    {
      index := base + lim / 2;
      var cmp := BtCmp(key, h, index);
      if cmp == 0 {
        return index, true;
      }
      if cmp > 0 {
        base := index + 1;
        lim := lim - 1;
      }
      lim := lim / 2;
    }
    return base, false;
  }

  /** The search of an internal page follows the same child whatever is stored as its first key. */
  method ProbeIgnoresFirstKey(key: Key, h: Page, first: Ent) returns (child: nat, child': nat)
    requires Sorted(h) && h.kind != Leaf && |h.ents| > 0
    ensures child == child' && Routes(h.ents, Rank(key), child)
  {
    var h' := h.(ents := h.ents[0 := first]);
    var index, found := Probe(key, h);
    var index', found' := Probe(key, h');
    child := if found || index == 0 then index else index - 1;
    child' := if found' || index' == 0 then index' else index' - 1;
    RoutingIgnoresFirstKey(h.ents, first, Rank(key), child, child');
  }
}
