/** Short runs on 512-byte pages that show where the code departs from what its callers expect, and where it
    does not. */
module Instances {
  import opened Keys
  import opened Layout
  import opened Shape
  import opened Shrink
  import opened Position
  import opened Cursors
  import opened Items
  import opened Steps
  import opened Storage
  import opened Hint
  import opened Btree

  method NewTree() returns (t: BTree)
    ensures t.Valid() && fresh(t) && fresh(t.st) && t.Model() == map[] && t.Lost() == {} && t.HintLive() && !t.rdonly && !t.cur.init
    ensures t.ovflsize == 232 && t.Full() == 492 && t.sh == LoneRoot() && P_ROOT in t.st.pages && t.st.pages[P_ROOT].ents == []
  {
    t := new BTree(512, 2, false, Page(Leaf, 0, 0, [], []));
    assert (512 - BTDATAOFF) / 2 == 246;
  }

  /** A new tree with records under [1] and [2], and the cursor on the second. */
  method TwoRecords() returns (t: BTree)
    ensures t.Valid() && fresh(t) && fresh(t.st) && t.Model() == map[[1] := [], [2] := []] && !t.rdonly && Names(t.st.pages, t.sh, t.cur, [2])
  {
    hide TreeOn, DiskOk, ItemsOk, ModelOf, Orphans, Goes, Loses, IsPosition, Spent, Calls.Trace;
    t := NewTree();
    DifferenceOrders([1], [2], 0);
    RankIsLexicographic([1], [2]);
    var s, w := t.Put([1], [], 0);
    s, w := t.Put([2], [], 0);
    var k, d;
    s, k, d := t.Seq([], R_LAST);
    assert t.Model().Keys == {[1], [2]};
  }

  /** R_PREV from a deleted record: the second of two is deleted under the cursor, and nothing is found. */
  method PrevMisses() returns (t: BTree, status: int)
    ensures t.Valid() && t.Model() == map[[1] := []] && t.cur.init && t.cur.acquire && t.cur.key == [2] && status == RET_SPECIAL
  {
    hide TreeOn, DiskOk, ItemsOk, ModelOf, Orphans, Live, Spent, Calls.Trace;
    t := TwoRecords();
    DifferenceOrders([1], [2], 0);
    var s := t.Delete([], R_CURSOR);
    assert t.Model().Keys == {[1]};
    var k, d;
    status, k, d := t.Seq([], R_PREV);
  }

  /** A chain lost: data too big for its page is put twice, the second time not to overwrite. */
  method ChainLost(data: seq<Byte>) returns (t: BTree, status: int)
    requires |data| > 232
    ensures t.Valid() && t.Model() == map[[1] := data] && status == RET_SPECIAL && |t.Lost()| == 1
  {
    hide TreeOn, DiskOk, ItemsOk, ModelOf, Orphans, Goes, Loses, IsPosition, Spent, Calls.Trace;
    t := NewTree();
    var s, w := t.Put([1], data, 0);
    status, w := t.Put([1], data, R_NOOVERWRITE);
  }

  /** The hinted page may be emptied: under a hint to append, the next put still finds its place. */
  method PutDeletePut(a: Key, b: Key) returns (t: BTree, status: int)
    requires |a| < 100 && |b| < 100
    ensures t.Valid() && t.HintLive() && t.Model() == map[b := []] && status == RET_SUCCESS
  {
    hide TreeOn, DiskOk, ItemsOk, ModelOf, Orphans, Loses, Spent, Calls.Trace;
    t := NewTree();
    var s, w := t.Put(a, [], 0);
    assert t.order != BACK;
    s := t.Delete(a, 0);
    status, w := t.Put(b, [], 0);
  }

  /** A put does not move the cursor off its record if the cursor's page has room for it. */
  method RoomyPut(t: BTree, key: Key, data: seq<Byte>, ghost k: Key) returns (status: int)
    requires t.Valid() && t.HintLive() && t.Storable(key, data) && !t.rdonly && Names(t.st.pages, t.sh, t.cur, k) && k != key
    requires Used(t.st.pages[t.cur.pg].ents) + t.StoredSize(key, data) + SLOT <= t.Full()
    modifies t, t.st
    ensures t.Valid() && status == RET_SUCCESS && Names(t.st.pages, t.sh, t.cur, k)
  {
    hide TreeOn, DiskOk, ItemsOk, ModelOf, Orphans, Spent, Calls.Trace;
    ghost var page, c := t.st.pages[t.cur.pg], t.cur;
    forall i: nat | i < |page.ents|
      ensures Used(Del(page.ents, i)) <= Used(page.ents)
    {
      UsedDel(page.ents, i);
    }
    ghost var w;
    status, w := t.Put(key, data, 0);
  }
}
