/** Whole runs of the pool against a plain map from page number to contents. */
module PoolRuns {
  import opened Layout
  import opened Calls
  import opened CircleQ
  import opened Mpool

  /** The pool presents `u`. */
  ghost predicate Shows(pool: Pool, u: User)
    reads pool
  {
    pool.Valid() && u == User(pool.Pages(), pool.npages, Pins(pool.C()), pool.touched)
  }

  /** One call: what is read is what the map holds, whatever was evicted in between. */
  method Step(pool: Pool, ghost u: User, op: Op) returns (page: Page)
    requires Shows(pool, u) && Legal(u, op) && MINCACHE <= pool.maxcache && pool.curcache <= pool.maxcache
    modifies pool
    ensures Shows(pool, After(u, op, page)) && pool.curcache <= pool.maxcache
    ensures op.OpGet? ==> op.n in u.pages && page == u.pages[op.n]
    ensures op.OpSync? ==> forall n: PgNo :: n < u.npages && n !in u.changed ==> n in pool.file && n in u.pages && pool.file[n] == u.pages[n]
  {
    hide Queues, Contents, Pins, Oldest;
    page := UNREAD;
    match op
    case OpGet(n) =>
      var ok, p := pool.Get(n);
      page := pool.bkt[p].page;
    case OpPut(n, dirty) =>
      var p := Pinned(pool, n);
      pool.Put(p, dirty);
    case OpNew =>
      var n, p := pool.New();
      page := pool.bkt[p].page;
    case OpStore(n, page') =>
      var p := Pinned(pool, n);
      pool.Store(p, page');
    case OpSync =>
      pool.Sync();
  }

  /** The pointer a user holds to a pinned page. */
  method Pinned(pool: Pool, n: PgNo) returns (p: Ptr)
    requires pool.Valid() && n in Pins(pool.C())
    ensures pool.Handed(p) && pool.bkt[p].pgno == n
  {
    var found;
    found, p := pool.Look(n);
  }

  /** The user's view after the calls of a run, of which `rs` are the pages read. */
  function Final(u: User, ops: seq<Op>, rs: seq<Page>, i: nat): User
    requires i <= |ops| && i <= |rs|
  {
    if i == 0 then u else After(Final(u, ops, rs, i - 1), ops[i - 1], rs[i - 1])
  }

  /** Over every run every get returns the latest contents, and the cache stays within its limit.  The run goes
      on to the end unless a call breaks the rules. */
  method Run(pool: Pool, ops: seq<Op>, u: User) returns (rs: seq<Page>)
    requires Shows(pool, u) && MINCACHE <= pool.maxcache && pool.curcache <= pool.maxcache
    modifies pool
    ensures |rs| <= |ops| && Shows(pool, Final(u, ops, rs, |rs|)) && pool.curcache <= pool.maxcache
    ensures forall i {:trigger Right(u, ops, rs, i)} :: 0 <= i < |rs| ==> Right(u, ops, rs, i)
    ensures |rs| < |ops| ==> !Legal(Final(u, ops, rs, |rs|), ops[|rs|])
  {
    rs := [];
    var v := u;
    while |rs| < |ops| && Legal(v, ops[|rs|])
      invariant |rs| <= |ops| && v == Final(u, ops, rs, |rs|) && Shows(pool, v) && pool.curcache <= pool.maxcache
      invariant forall i {:trigger Right(u, ops, rs, i)} :: 0 <= i < |rs| ==> Right(u, ops, rs, i)
    {
      var op := ops[|rs|];
      var page := Step(pool, v, op);
      RightMore(u, ops, rs, page);
      rs := rs + [page];
      v := After(v, op, page);
    }
  }

  /** Call `i`, if it is a get, returned what the map held at that point. */
  ghost predicate Right(u: User, ops: seq<Op>, rs: seq<Page>, i: nat) {
    && i < |rs| && i < |ops|
    && (ops[i].OpGet? ==> ops[i].n in Final(u, ops, rs, i).pages && rs[i] == Final(u, ops, rs, i).pages[ops[i].n])
  }

  lemma {:induction false} RightMore(u: User, ops: seq<Op>, rs: seq<Page>, page: Page)
    requires |rs| < |ops| && forall i {:trigger Right(u, ops, rs, i)} :: 0 <= i < |rs| ==> Right(u, ops, rs, i)
    requires var v, op := Final(u, ops, rs, |rs|), ops[|rs|]; op.OpGet? ==> op.n in v.pages && page == v.pages[op.n]
    ensures var rs' := rs + [page];
      && (forall i {:trigger Right(u, ops, rs', i)} :: 0 <= i < |rs'| ==> Right(u, ops, rs', i))
      && Final(u, ops, rs', |rs'|) == After(Final(u, ops, rs, |rs|), ops[|rs|], page)
  {
    var rs' := rs + [page];
    forall i: nat | i < |rs'|
      ensures Right(u, ops, rs', i)
    {
      FinalSame(u, ops, rs', rs, i);
      if i < |rs| { assert Right(u, ops, rs, i); }
    }
    FinalSame(u, ops, rs', rs, |rs|);
  }

  lemma {:induction false} FinalSame(u: User, ops: seq<Op>, rs: seq<Page>, rs': seq<Page>, i: nat)
    requires i <= |ops| && i <= |rs| && i <= |rs'| && rs[..i] == rs'[..i]
    ensures Final(u, ops, rs, i) == Final(u, ops, rs', i)
  {
    if i > 0 {
      assert rs[..i - 1] == rs[..i][..i - 1] && rs'[..i - 1] == rs'[..i][..i - 1];
      assert rs[i - 1] == rs[..i][i - 1] && rs'[i - 1] == rs'[..i][i - 1];
      FinalSame(u, ops, rs, rs', i - 1);
    }
  }
}
