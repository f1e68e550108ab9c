/** Positions in the tree: where a key belongs, the path to a page, and neighbouring records. */
module Position {
  import opened Keys
  import opened Layout
  import opened Shape
  import opened Records

  // ---------------------------------------------------------------- where a key belongs

  /** `idx` is where `key` is (`exact`) or would go in the sorted entries. */
  ghost predicate IsSlot(ents: seq<Ent>, key: Key, idx: nat, exact: bool) {
    && idx <= |ents|
    && (forall i :: 0 <= i < idx ==> Rank(ents[i].key) < Rank(key))
    && (exact ==> idx < |ents| && ents[idx].key == key)
    && (!exact ==> forall i :: idx <= i < |ents| ==> Rank(key) < Rank(ents[i].key))
  }

  lemma {:induction false} SlotUnique(ents: seq<Ent>, key: Key, i: nat, x: bool, i': nat, x': bool)
    requires IsSlot(ents, key, i, x) && IsSlot(ents, key, i', x')
    ensures i == i' && x == x'
  {
    if i < |ents| { assert Rank(ents[i].key) >= Rank(key); }
    if i' < |ents| { assert Rank(ents[i'].key) >= Rank(key); }
  }

  /** Leaf `h`, index `idx` is where `key` is (`exact`) or would go. */
  ghost predicate IsPosition(pages: Pages, sh: Shape, key: Key, h: PgNo, idx: nat, exact: bool) {
    && h in sh && h in pages && sh[h].lvl == 0 && sh[h].lo <= Rank(key) < sh[h].hi
    && IsSlot(pages[h].ents, key, idx, exact)
  }

  /** There is one such place: whatever finds it finds what a search from the root finds. */
  lemma {:induction false} PositionUnique(pages: Pages, sh: Shape, ht: nat, key: Key, h: PgNo, i: nat, x: bool, h': PgNo, i': nat, x': bool)
    requires TreeInv(pages, sh, ht, NoEx)
    requires IsPosition(pages, sh, key, h, i, x) && IsPosition(pages, sh, key, h', i', x')
    ensures h == h' && i == i' && x == x'
  {
    LevelDisjoint(pages, sh, ht, NoEx, h, h', Rank(key));
    SlotUnique(pages[h].ents, key, i, x, i', x');
  }

  /** The position is exact if and only if the key is in the tree, and then holds its record. */
  lemma {:induction false} PositionFinds(pages: Pages, sh: Shape, ht: nat, recs: Recs, key: Key, h: PgNo, i: nat, x: bool)
    requires TreeInv(pages, sh, ht, NoEx) && Holds(pages, sh, recs) && IsPosition(pages, sh, key, h, i, x)
    ensures x <==> key in recs
    ensures x ==> pages[h].ents[i] == Ent(key, Data(recs[key]))
  {
    assert PageOk(pages, sh, ht, NoEx, h);
    if x {
      assert At(pages, sh, h, i, pages[h].ents[i]);
      assert Has(pages, sh, pages[h].ents[i]);
    }
    if key in recs {
      assert Has(pages, sh, Ent(key, Data(recs[key])));
      var q: PgNo, k: nat :| At(pages, sh, q, k, Ent(key, Data(recs[key])));
      assert PageOk(pages, sh, ht, NoEx, q);
      LevelDisjoint(pages, sh, ht, NoEx, h, q, Rank(key));
    }
  }

  lemma {:induction false} SlotIns(ents: seq<Ent>, i: Info, e: Ent, idx: nat)
    requires LeafOk(ents, i) && IsSlot(ents, e.key, idx, false) && e.val.Data? && i.lo <= Rank(e.key) < i.hi
    ensures LeafOk(Ins(ents, idx, e), i)
  {
  }

  lemma {:induction false} SlotDel(ents: seq<Ent>, i: Info, idx: nat)
    requires LeafOk(ents, i) && idx < |ents|
    ensures LeafOk(Del(ents, idx), i) && IsSlot(Del(ents, idx), ents[idx].key, idx, false)
  {
  }

  // ---------------------------------------------------------------- routing inside a page

  /** Child `j` of an internal page is the one whose interval holds rank `x`, judged by the
      separators at index 1 and up.  The key at index 0 plays no part. */
  ghost predicate Routes(ents: seq<Ent>, x: real, j: nat) {
    && j < |ents|
    && (forall i :: 1 <= i <= j ==> Rank(ents[i].key) <= x)
    && (forall i :: j < i < |ents| ==> x < Rank(ents[i].key))
  }

  /** Routing survives any change of the first key, and names one child. */
  lemma {:induction false} RoutingIgnoresFirstKey(ents: seq<Ent>, first: Ent, x: real, j: nat, j': nat)
    requires |ents| > 0 && Routes(ents, x, j)
    ensures Routes(ents[0 := first], x, j') <==> j' == j
  {
    if j < j' < |ents| {
      assert ents[0 := first][j'] == ents[j'];
    } else if j' < j {
      assert ents[0 := first][j] == ents[j];
    }
  }

  /** The routed child covers `x`. */
  lemma {:induction false} RouteCovers(pages: Pages, sh: Shape, ht: nat, p: PgNo, x: real, j: nat)
    requires TreeInv(pages, sh, ht, NoEx) && p in sh && sh[p].lvl > 0 && sh[p].lo <= x < sh[p].hi
    requires Routes(pages[p].ents, x, j)
    ensures pages[p].ents[j].val.Child? && var c := pages[p].ents[j].val.pg;
      c in sh && sh[c].lo <= x < sh[c].hi && sh[c].up == p && sh[c].at == j && sh[c].lvl + 1 == sh[p].lvl
  {
    assert PageOk(pages, sh, ht, NoEx, p);
    assert ChildOk(pages, sh, NoEx, p, j);
  }

  /** Separators from index 1 on are strictly increasing. */
  lemma {:induction false} SeparatorsSorted(pages: Pages, sh: Shape, ht: nat, p: PgNo, i: nat, k: nat)
    requires TreeInv(pages, sh, ht, NoEx) && p in sh && sh[p].lvl > 0 && 1 <= i < k < |pages[p].ents|
    ensures Rank(pages[p].ents[i].key) < Rank(pages[p].ents[k].key)
  {
    assert PageOk(pages, sh, ht, NoEx, p);
    assert ChildOk(pages, sh, NoEx, p, i);
    assert PageOk(pages, sh, ht, NoEx, pages[p].ents[i].val.pg);
    SepMono(pages, sh, ht, NoEx, p, i, k);
  }

  // ---------------------------------------------------------------- the parent stack

  datatype Epg = Epg(pgno: PgNo, index: nat)

  /** Entry `d` of the stack is the parent of the next page down, at that page's index. */
  ghost predicate Step(sh: Shape, ht: nat, s: seq<Epg>, h: PgNo, d: nat)
    requires d < |s|
  {
    var c := if d + 1 < |s| then s[d + 1].pgno else h;
    && s[d].pgno in sh && sh[s[d].pgno].lvl + d == ht
    && c in sh && sh[c].up == s[d].pgno && sh[c].at == s[d].index
  }

  /** `s` is exactly the path from the root to the parent of `h`, with child indices. */
  ghost predicate IsPath(sh: Shape, ht: nat, s: seq<Epg>, h: PgNo) {
    && h in sh && |s| + sh[h].lvl == ht
    && forall d {:trigger Step(sh, ht, s, h, d)} :: 0 <= d < |s| ==> Step(sh, ht, s, h, d)
  }

  lemma {:induction false} PathPop(sh: Shape, ht: nat, s: seq<Epg>, h: PgNo)
    requires IsPath(sh, ht, s, h) && |s| > 0
    ensures var e := s[|s| - 1]; e == Epg(sh[h].up, sh[h].at) && IsPath(sh, ht, s[..|s| - 1], e.pgno)
  {
    var e, s' := s[|s| - 1], s[..|s| - 1];
    assert Step(sh, ht, s, h, |s| - 1);
    forall d | 0 <= d < |s'|
      ensures Step(sh, ht, s', e.pgno, d)
    {
      assert Step(sh, ht, s, h, d);
    }
  }

  lemma {:induction false} PathPush(sh: Shape, ht: nat, s: seq<Epg>, h: PgNo, c: PgNo)
    requires IsPath(sh, ht, s, h) && c in sh && sh[c].up == h && sh[c].lvl + 1 == sh[h].lvl
    ensures IsPath(sh, ht, s + [Epg(h, sh[c].at)], c)
  {
    var s' := s + [Epg(h, sh[c].at)];
    forall d | 0 <= d < |s'|
      ensures Step(sh, ht, s', c, d)
    {
      if d < |s| { assert Step(sh, ht, s, h, d); }
    }
  }

  /** The path depends only on what lies at or above `h`. */
  lemma {:induction false} PathFrame(sh: Shape, sh': Shape, ht: nat, s: seq<Epg>, h: PgNo)
    requires IsPath(sh, ht, s, h)
    requires forall p :: p in sh && sh[p].lvl >= sh[h].lvl ==>
      p in sh' && sh'[p].lvl == sh[p].lvl && sh'[p].up == sh[p].up && sh'[p].at == sh[p].at
    ensures IsPath(sh', ht, s, h)
  {
    forall d | 0 <= d < |s|
      ensures Step(sh', ht, s, h, d)
    {
      assert Step(sh, ht, s, h, d);
      if d + 1 < |s| { assert Step(sh, ht, s, h, d + 1); }
    }
  }

  // ---------------------------------------------------------------- neighbouring records

  /** `k` counts from rank `x` on; strictly after it if `strict`. */
  ghost predicate Past(k: Key, x: real, strict: bool) { if strict then Rank(k) > x else Rank(k) >= x }

  /** `k` is the first key of `keys` from rank `x` on. */
  ghost predicate IsFirst(keys: set<Key>, x: real, strict: bool, k: Key) {
    && k in keys && Past(k, x, strict)
    && forall k' :: k' in keys && Past(k', x, strict) ==> Rank(k) <= Rank(k')
  }

  ghost predicate IsLast(keys: set<Key>, x: real, k: Key) {
    && k in keys && Rank(k) < x
    && forall k' :: k' in keys && Rank(k') < x ==> Rank(k') <= Rank(k)
  }

  /** What a scan step looks for: the first key from a rank on, or the last before one. */
  datatype Goal = Up(x: real, strict: bool) | Down(x: real)

  ghost predicate Meets(keys: set<Key>, g: Goal, k: Key) {
    match g
    case Up(x, strict) => IsFirst(keys, x, strict, k)
    case Down(x) => IsLast(keys, x, k)
  }

  ghost predicate NoneMeets(keys: set<Key>, g: Goal) {
    match g
    case Up(x, strict) => forall k :: k in keys ==> !Past(k, x, strict)
    case Down(x) => forall k :: k in keys ==> Rank(k) >= x
  }

  /** An answer, a key or none, to the goal. */
  ghost predicate Answers(keys: set<Key>, g: Goal, found: bool, k: Key) {
    if found then Meets(keys, g, k) else NoneMeets(keys, g)
  }

  // The same in plain words: `k` if found, otherwise there is none.

  ghost predicate FirstAtOrAfter(keys: set<Key>, key: Key, found: bool, k: Key) {
    if found then k in keys && Rank(key) <= Rank(k) && forall j :: j in keys ==> Rank(k) <= Rank(j) || Rank(j) < Rank(key)
    else forall j :: j in keys ==> Rank(j) < Rank(key)
  }

  ghost predicate FirstAfter(keys: set<Key>, key: Key, found: bool, k: Key) {
    if found then k in keys && Rank(key) < Rank(k) && forall j :: j in keys ==> Rank(k) <= Rank(j) || Rank(j) <= Rank(key)
    else forall j :: j in keys ==> Rank(j) <= Rank(key)
  }

  ghost predicate LastUnder(keys: set<Key>, key: Key, found: bool, k: Key) {
    if found then k in keys && Rank(k) < Rank(key) && forall j :: j in keys ==> Rank(j) <= Rank(k) || Rank(key) <= Rank(j)
    else forall j :: j in keys ==> Rank(key) <= Rank(j)
  }

  ghost predicate Smallest(keys: set<Key>, found: bool, k: Key) {
    if found then k in keys && forall j :: j in keys ==> Rank(k) <= Rank(j) else keys == {}
  }

  ghost predicate Largest(keys: set<Key>, found: bool, k: Key) {
    if found then k in keys && forall j :: j in keys ==> Rank(j) <= Rank(k) else keys == {}
  }

  lemma {:induction false} GoalsInWords(keys: set<Key>, key: Key, found: bool, k: Key)
    ensures Answers(keys, Up(Rank(key), false), found, k) <==> FirstAtOrAfter(keys, key, found, k)
    ensures Answers(keys, Up(Rank(key), true), found, k) <==> FirstAfter(keys, key, found, k)
    ensures Answers(keys, Down(Rank(key)), found, k) <==> LastUnder(keys, key, found, k)
  {
    forall j
      ensures Past(j, Rank(key), false) <==> Rank(key) <= Rank(j)
      ensures Past(j, Rank(key), true) <==> Rank(key) < Rank(j)
    {
    }
  }

  lemma {:induction false} EndsInWords(keys: set<Key>, found: bool, k: Key)
    ensures Answers(keys, Up(BOTTOM, false), found, k) <==> Smallest(keys, found, k)
    ensures Answers(keys, Down(TOP), found, k) <==> Largest(keys, found, k)
  {
    forall j
      ensures Past(j, BOTTOM, false) && Rank(j) < TOP
    {
    }
  }

  /** The first key at or after a deleted one answers for the last before it only if there are no keys, and
      for the first after it only if the deleted key has not come back. */
  lemma {:induction false} FromDeleted(keys: set<Key>, saved: Key, found: bool, k: Key)
    requires Answers(keys, Up(Rank(saved), false), found, k)
    ensures Answers(keys, Down(Rank(saved)), found, k) <==> keys == {}
    ensures Answers(keys, Up(Rank(saved), true), found, k) <==> saved !in keys
  {
    if keys != {} && !found {
      var k0 :| k0 in keys;
      assert !Past(k0, Rank(saved), false);
    }
    if found { RankIsLexicographic(k, saved); }
    forall k' | k' in keys && saved !in keys
      ensures Past(k', Rank(saved), true) <==> Past(k', Rank(saved), false)
    {
      RankIsLexicographic(k', saved);
    }
  }

  /** Every key lies before leaf `p`, on it, or after it. */
  lemma {:induction false} OnLeafOrOutside(pages: Pages, sh: Shape, ht: nat, recs: Recs, p: PgNo, k: Key) returns (i: nat)
    requires TreeInv(pages, sh, ht, NoEx) && Holds(pages, sh, recs) && p in sh && sh[p].lvl == 0 && k in recs
    ensures Rank(k) < sh[p].lo || Rank(k) >= sh[p].hi || (i < |pages[p].ents| && pages[p].ents[i].key == k)
  {
    assert Has(pages, sh, Ent(k, Data(recs[k])));
    var q: PgNo, j: nat :| At(pages, sh, q, j, Ent(k, Data(recs[k])));
    assert PageOk(pages, sh, ht, NoEx, q);
    if sh[p].lo <= Rank(k) < sh[p].hi {
      LevelDisjoint(pages, sh, ht, NoEx, p, q, Rank(k));
    }
    i := j;
  }

  lemma {:induction false} OnLeaf(pages: Pages, sh: Shape, ht: nat, recs: Recs, p: PgNo, i: nat)
    requires TreeInv(pages, sh, ht, NoEx) && Holds(pages, sh, recs) && p in sh && sh[p].lvl == 0 && i < |pages[p].ents|
    ensures var k := pages[p].ents[i].key; k in recs && pages[p].ents[i].val == Data(recs[k]) && sh[p].lo <= Rank(k) < sh[p].hi
  {
    assert PageOk(pages, sh, ht, NoEx, p);
    assert At(pages, sh, p, i, pages[p].ents[i]);
    assert Has(pages, sh, pages[p].ents[i]);
  }

  /** A place on leaf `p` that splits its entries at rank `x` leads to the first key from `x` on:
      the entry there, or the first of the next leaf. */
  lemma {:induction false} FirstFrom(pages: Pages, sh: Shape, ht: nat, recs: Recs, p: PgNo, idx: nat, x: real, strict: bool)
    requires TreeInv(pages, sh, ht, NoEx) && Holds(pages, sh, recs) && p in sh && sh[p].lvl == 0
    requires idx <= |pages[p].ents| && sh[p].lo <= x < sh[p].hi
    requires forall i :: 0 <= i < idx ==> !Past(pages[p].ents[i].key, x, strict)
    requires forall i :: idx <= i < |pages[p].ents| ==> Past(pages[p].ents[i].key, x, strict)
    ensures var n := pages[p].next;
      && (idx < |pages[p].ents| ==> IsFirst(recs.Keys, x, strict, pages[p].ents[idx].key))
      && (idx == |pages[p].ents| && n == 0 ==> forall k :: k in recs ==> !Past(k, x, strict))
      && (idx == |pages[p].ents| && n != 0 ==> n in sh && sh[n].lvl == 0 && |pages[n].ents| > 0
                                               && IsFirst(recs.Keys, x, strict, pages[n].ents[0].key))
  {
    assert PageOk(pages, sh, ht, NoEx, p);
    var n := pages[p].next;
    if idx < |pages[p].ents| {
      OnLeaf(pages, sh, ht, recs, p, idx);
    } else if n != 0 {
      assert PageOk(pages, sh, ht, NoEx, n) && PageOk(pages, sh, ht, NoEx, P_ROOT);
      OnLeaf(pages, sh, ht, recs, n, 0);
    }
    forall k | k in recs && Past(k, x, strict)
      ensures idx < |pages[p].ents| ==> Rank(pages[p].ents[idx].key) <= Rank(k)
      ensures idx == |pages[p].ents| ==> n != 0 && Rank(pages[n].ents[0].key) <= Rank(k)
    {
      var i := OnLeafOrOutside(pages, sh, ht, recs, p, k);
      if n != 0 {
        var i' := OnLeafOrOutside(pages, sh, ht, recs, n, k);
      }
    }
  }

  /** The mirror image: the last key before rank `x`. */
  lemma {:induction false} LastBefore(pages: Pages, sh: Shape, ht: nat, recs: Recs, p: PgNo, idx: nat, x: real)
    requires TreeInv(pages, sh, ht, NoEx) && Holds(pages, sh, recs) && p in sh && sh[p].lvl == 0
    requires idx <= |pages[p].ents| && sh[p].lo <= x <= sh[p].hi
    requires forall i :: 0 <= i < idx ==> Rank(pages[p].ents[i].key) < x
    requires forall i :: idx <= i < |pages[p].ents| ==> Rank(pages[p].ents[i].key) >= x
    ensures var q := pages[p].prev;
      && (idx > 0 ==> IsLast(recs.Keys, x, pages[p].ents[idx - 1].key))
      && (idx == 0 && q == 0 ==> forall k :: k in recs ==> Rank(k) >= x)
      && (idx == 0 && q != 0 ==> q in sh && sh[q].lvl == 0 && |pages[q].ents| > 0
                                 && IsLast(recs.Keys, x, pages[q].ents[|pages[q].ents| - 1].key))
  {
    assert PageOk(pages, sh, ht, NoEx, p);
    var q := pages[p].prev;
    if idx > 0 {
      OnLeaf(pages, sh, ht, recs, p, idx - 1);
    } else if q != 0 {
      assert PageOk(pages, sh, ht, NoEx, q) && PageOk(pages, sh, ht, NoEx, P_ROOT);
      OnLeaf(pages, sh, ht, recs, q, |pages[q].ents| - 1);
    }
    forall k | k in recs && Rank(k) < x
      ensures idx > 0 ==> Rank(k) <= Rank(pages[p].ents[idx - 1].key)
      ensures idx == 0 ==> q != 0 && Rank(k) <= Rank(pages[q].ents[|pages[q].ents| - 1].key)
    {
      var i := OnLeafOrOutside(pages, sh, ht, recs, p, k);
      if q != 0 {
        var i' := OnLeafOrOutside(pages, sh, ht, recs, q, k);
      }
    }
  }

  /** Where index `i` of leaf `p` is among the keys: at its record, or after them all at the end of the page. */
  ghost function PointAt(pages: Pages, sh: Shape, p: PgNo, i: nat): real
    requires p in pages && p in sh
  {
    if i < |pages[p].ents| then Rank(pages[p].ents[i].key) else sh[p].hi
  }

  /** The last key before index `idx` of leaf `p`. */
  lemma {:induction false} PrevFrom(pages: Pages, sh: Shape, ht: nat, recs: Recs, p: PgNo, idx: nat)
    requires TreeInv(pages, sh, ht, NoEx) && Holds(pages, sh, recs) && p in sh && p in pages && sh[p].lvl == 0 && idx <= |pages[p].ents|
    ensures var q, x := pages[p].prev, PointAt(pages, sh, p, idx);
      && (idx > 0 ==> IsLast(recs.Keys, x, pages[p].ents[idx - 1].key))
      && (idx == 0 && q == 0 ==> forall k :: k in recs ==> Rank(k) >= x)
      && (idx == 0 && q != 0 ==> q in sh && sh[q].lvl == 0 && |pages[q].ents| > 0
                                 && IsLast(recs.Keys, x, pages[q].ents[|pages[q].ents| - 1].key))
  {
    assert PageOk(pages, sh, ht, NoEx, p);
    LastBefore(pages, sh, ht, recs, p, idx, PointAt(pages, sh, p, idx));
  }
}
