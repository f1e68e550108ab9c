/** The tree on the page cache: the calls a tree operation makes are calls the pool of mpool.c allows, and a
    pool that makes them presents the tree's pages and stays within its limit. */
module Backing {
  import opened Keys
  import opened Layout
  import opened Mpool
  import opened Calls
  import opened PoolRuns
  import opened Storage
  import opened PageStore
  import opened Position
  import opened Hint
  import opened Btree
  import Runs

  /** The pool presents the pages, pins and changes of the store and is within its limit. */
  ghost predicate Backs(pool: Pool, s: Store)
    reads pool, s
  {
    Shows(pool, s.AsUser()) && MINCACHE <= pool.maxcache && pool.curcache <= pool.maxcache
  }

  /** One call of the store; a new page holds whatever its buffer held until the store's `junk` is written. */
  method Make(pool: Pool, ghost u: User, op: Op, junk: Page) returns (page: Page)
    requires Shows(pool, u) && Legal(u, op) && MINCACHE <= pool.maxcache && pool.curcache <= pool.maxcache
    modifies pool
    ensures Shows(pool, After(u, op, junk)) && pool.curcache <= pool.maxcache
    ensures op.OpGet? ==> op.n in u.pages && page == u.pages[op.n]
  {
    hide Queues, Contents, Pins, View, Oldest;
    page := PoolRuns.Step(pool, u, op);
    if op.OpNew? {
      ghost var n := u.npages;
      ghost var v := After(u, op, page);
      var written := PoolRuns.Step(pool, v, OpStore(pool.npages - 1, junk));
      assert u.pages[n := page][n := junk] == u.pages[n := junk];
    }
  }

  /** What each get of a run reads is what the user holds at that point. */
  ghost predicate ReadRight(us: seq<User>, ops: seq<Op>, rs: seq<Page>, i: nat) {
    i < |us| && i < |ops| && i < |rs| && (ops[i].OpGet? ==> ops[i].n in us[i].pages && rs[i] == us[i].pages[ops[i].n])
  }

  /** The pool makes the calls one by one. */
  method Drive(pool: Pool, ghost u: User, ops: seq<Op>, junk: Page, ghost v: User) returns (rs: seq<Page>, ghost us: seq<User>)
    requires Shows(pool, u) && Trace(u, ops, junk, v) && MINCACHE <= pool.maxcache && pool.curcache <= pool.maxcache
    modifies pool
    ensures Shows(pool, v) && pool.curcache <= pool.maxcache && Path(us, ops, junk, u, v)
    ensures |rs| == |ops| && forall i {:trigger ReadRight(us, ops, rs, i)} :: 0 <= i < |ops| ==> ReadRight(us, ops, rs, i)
  {
    hide Shows;
    us :| Path(us, ops, junk, u, v);
    rs := [];
    for i := 0 to |ops|
      invariant |rs| == i && Shows(pool, us[i]) && pool.curcache <= pool.maxcache
      invariant forall j {:trigger ReadRight(us, ops, rs, j)} :: 0 <= j < i ==> ReadRight(us, ops, rs, j)
    {
      assert LeadsOn(us, ops, junk, i);
      var page := Make(pool, us[i], ops[i], junk);
      ghost var was := rs;
      rs := rs + [page];
      forall j | 0 <= j < i + 1
        ensures ReadRight(us, ops, rs, j)
      {
        if j < i { assert ReadRight(us, ops, was, j); }
      }
    }
  }

  /** The pool catches up with the store. */
  method CatchUp(pool: Pool, s: Store)
    requires Shows(pool, s.base) && s.Traced() && MINCACHE <= pool.maxcache && pool.curcache <= pool.maxcache
    modifies pool
    ensures Backs(pool, s)
  {
    hide Shows, Trace;
    var rs;
    ghost var us;
    rs, us := Drive(pool, s.base, s.calls, s.junk, s.AsUser());
  }

  /** `__bt_open` on an empty file: the pool gets the two pages `nroot` makes. */
  method OpenOn(psize: nat, minkeypage: nat, junk: Page, maxcache: nat) returns (pool: Pool, t: BTree)
    requires MINPSIZE <= psize <= 0xffff && minkeypage >= 2 && (psize - BTDATAOFF) / minkeypage >= SLOT + NbLeaf(0, 0) && maxcache >= MINCACHE
    ensures fresh(pool) && fresh(t) && fresh(t.st) && t.Valid() && t.HintLive() && t.Model() == map[] && t.Lost() == {} && !t.rdonly
    ensures Backs(pool, t.st) && t.st.psize == psize && t.minkeypage == minkeypage
  {
    hide Queues, Contents, Pins, View, Oldest, DiskOk;
    pool := new Pool([], maxcache);
    NoPages(pool);
    t := new BTree(psize, minkeypage, false, junk);
    var ok, p := pool.Get(0);
    if !ok {
      NewRoot(pool, junk);
    }
  }

  lemma {:induction false} NoPages(pool: Pool)
    requires pool.npages == 0
    ensures pool.Pages() == map[]
  {
  }

  /** `nroot`: the metadata page and the root are made, written and put. */
  method NewRoot(pool: Pool, junk: Page)
    requires Shows(pool, User(map[], 0, {}, {})) && MINCACHE <= pool.maxcache && pool.curcache <= pool.maxcache
    modifies pool
    ensures Shows(pool, NewUser(junk)) && pool.curcache <= pool.maxcache
  {
    hide Shows;
    ghost var u := User(map[], 0, {}, {});
    var page := Make(pool, u, OpNew, junk);
    u := After(u, OpNew, junk);
    page := Make(pool, u, OpNew, junk);
    u := After(u, OpNew, junk);
    u := Save(pool, u, P_ROOT, Page(Leaf, P_INVALID, P_INVALID, [], junk.bytes), junk);
    u := Save(pool, u, 0, junk, junk);
    assert u == NewUser(junk);
  }

  /** A pinned page is written and put, dirty. */
  method Save(pool: Pool, ghost u: User, n: PgNo, page: Page, junk: Page) returns (ghost u': User)
    requires Shows(pool, u) && n in u.pins && MINCACHE <= pool.maxcache && pool.curcache <= pool.maxcache
    modifies pool
    ensures Shows(pool, u') && pool.curcache <= pool.maxcache
    ensures u' == User(u.pages[n := page], u.npages, u.pins - {n}, u.changed - {n})
  {
    hide Shows;
    var read := Make(pool, u, OpStore(n, page), junk);
    u' := After(u, OpStore(n, page), junk);
    read := Make(pool, u', OpPut(n, true), junk);
    u' := After(u', OpPut(n, true), junk);
  }

  // ---------------------------------------------------------------- the operations of the tree, on the pool

  method GetOn(pool: Pool, t: BTree, key: Key) returns (status: int, data: seq<Byte>)
    requires t.Valid() && Backs(pool, t.st)
    modifies t, t.st, pool
    ensures t.Valid() && Backs(pool, t.st) && t.Model() == old(t.Model())
    ensures status == (if key in t.Model() then RET_SUCCESS else RET_SPECIAL) && (status == RET_SUCCESS ==> data == t.Model()[key])
  {
    hide Shows, Trace;
    t.st.Mark();
    status, data := t.Get(key, 0);
    CatchUp(pool, t.st);
  }

  method PutOn(pool: Pool, t: BTree, key: Key, data: seq<Byte>, flags: nat) returns (status: int)
    requires t.Valid() && t.HintOk() && t.Storable(key, data) && flags != R_CURSOR && (t.StaleHit(key, data) && key == t.stale ==> flags != 0)
    requires Backs(pool, t.st) && !t.rdonly && flags in {0, R_NOOVERWRITE}
    modifies t, t.st, pool
    ensures t.Valid() && Backs(pool, t.st)
    ensures status == PutStatus(old(t.Model()), key, flags) && t.Model() == PutModel(old(t.Model()), key, data, flags) <==> !old(t.StaleHit(key, data))
  {
    hide Shows, Trace;
    t.st.Mark();
    ghost var w;
    status, w := t.Put(key, data, flags);
    CatchUp(pool, t.st);
  }

  method DeleteOn(pool: Pool, t: BTree, key: Key, flags: nat) returns (status: int)
    requires t.Valid() && (flags == R_CURSOR ==> t.CursorOk()) && Backs(pool, t.st)
    modifies t, t.st, pool
    ensures t.Valid() && Backs(pool, t.st)
    ensures !t.rdonly && flags == 0 ==>
      status == (if key in old(t.Model()) then RET_SUCCESS else RET_SPECIAL) && t.Model() == old(t.Model()) - {key}
    ensures !t.rdonly && flags == R_CURSOR && old(t.cur).init && !old(t.cur).acquire ==>
      status == RET_SUCCESS && t.Model() == old(t.Model()) - {old(t.CursorKey())}
  {
    hide Shows, Trace;
    t.st.Mark();
    status := t.Delete(key, flags);
    CatchUp(pool, t.st);
  }

  method SeqOn(pool: Pool, t: BTree, key: Key, flags: nat) returns (status: int, k: Key, data: seq<Byte>)
    requires t.Valid() && flags in {R_CURSOR, R_FIRST, R_LAST, R_NEXT, R_PREV} && (flags == R_CURSOR ==> key != [])
    requires t.CursorFor(flags) && Backs(pool, t.st)
    modifies t, t.st, pool
    ensures t.Valid() && Backs(pool, t.st) && t.Model() == old(t.Model())
    ensures Answers(t.Model().Keys, old(t.Sought(key, flags)), status == RET_SUCCESS, k)
    ensures status == RET_SUCCESS ==> k in t.Model() && data == t.Model()[k]
    ensures flags == R_CURSOR ==> FirstAtOrAfter(t.Model().Keys, key, status == RET_SUCCESS, k)
    ensures flags == R_FIRST || (flags == R_NEXT && !old(t.cur).init) ==> Smallest(t.Model().Keys, status == RET_SUCCESS, k)
    ensures flags == R_LAST || (flags == R_PREV && !old(t.cur).init) ==> Largest(t.Model().Keys, status == RET_SUCCESS, k)
    ensures flags == R_NEXT && old(t.cur.init && !t.cur.acquire) ==> FirstAfter(t.Model().Keys, old(t.CursorKey()), status == RET_SUCCESS, k)
    ensures flags == R_PREV && old(t.cur.init && !t.cur.acquire && t.CursorOk()) ==> LastUnder(t.Model().Keys, old(t.CursorKey()), status == RET_SUCCESS, k)
    ensures flags in {R_NEXT, R_PREV} && old(t.cur.init && t.cur.acquire) ==> FirstAtOrAfter(t.Model().Keys, old(t.cur).key, status == RET_SUCCESS, k)
  {
    hide Shows, Trace;
    t.st.Mark();
    status, k, data := t.Seq(key, flags);
    CatchUp(pool, t.st);
  }

  /** A whole run from an empty file, over a pool of any size from five pages on. */
  method RunOn(psize: nat, minkeypage: nat, junk: Page, maxcache: nat, ops: seq<Runs.Op>) returns (pool: Pool, t: BTree, rs: seq<Runs.Result>)
    requires MINPSIZE <= psize <= 0xffff && minkeypage >= 2 && (psize - BTDATAOFF) / minkeypage >= SLOT + NbLeaf(0, 0) && maxcache >= MINCACHE
    ensures t.Valid() && Backs(pool, t.st)
    ensures (forall i :: 0 <= i < |ops| ==> Runs.Allowed(t, ops[i])) ==>
      Runs.Agrees(map[], ops, rs) && t.Model() == Runs.After(map[], ops, |rs|) && (|rs| < |ops| ==> Runs.Astray(t, ops[|rs|]))
  {
    hide Shows, Trace, Runs.Agrees;
    pool, t := OpenOn(psize, minkeypage, junk, maxcache);
    rs := [];
    if forall i :: 0 <= i < |ops| ==> Runs.Allowed(t, ops[i]) {
      t.st.Mark();
      rs := Runs.Run(t, ops);
      CatchUp(pool, t.st);
    }
  }
}
