/** The calls a user makes of the page cache, and which of them are allowed. */
module Calls {
  import opened Layout

  datatype Op = OpGet(n: PgNo) | OpPut(n: PgNo, dirty: bool) | OpNew | OpStore(n: PgNo, page: Page) | OpSync

  /** What a caller knows of the pool: the contents of each page, which pages it holds and which it changed. */
  datatype User = User(pages: map<PgNo, Page>, npages: nat, pins: set<PgNo>, changed: set<PgNo>)

  /** The calls a user may make: no page twice, five at most, and changed pages put as dirty. */
  predicate Legal(u: User, op: Op) {
    match op
    case OpGet(n) => n in u.pages && n !in u.pins && |u.pins| < MINCACHE
    case OpPut(n, dirty) => n in u.pins && (n in u.changed ==> dirty)
    case OpNew => |u.pins| < MINCACHE
    case OpStore(n, page) => n in u.pins
    case OpSync => true
  }

  /** The effect of a call; `page` is what the buffer of a new page holds. */
  function After(u: User, op: Op, page: Page): User {
    match op
    case OpGet(n) => u.(pins := u.pins + {n})
    case OpPut(n, dirty) => u.(pins := u.pins - {n}, changed := u.changed - {n})
    case OpNew => User(u.pages[u.npages := page], u.npages + 1, u.pins + {u.npages}, u.changed + {u.npages})
    case OpStore(n, page') => u.(pages := u.pages[n := page'], changed := u.changed + {n})
    case OpSync => u
  }

  /** Call `i` is legal and leads from one user to the next, when a page that is new is at once written with `junk`. */
  ghost predicate LeadsOn(us: seq<User>, ops: seq<Op>, junk: Page, i: nat)
    requires |us| == |ops| + 1 && i < |ops|
  {
    Legal(us[i], ops[i]) && us[i + 1] == After(us[i], ops[i], junk)
  }

  ghost predicate Path(us: seq<User>, ops: seq<Op>, junk: Page, u: User, v: User) {
    && |us| == |ops| + 1 && us[0] == u && us[|ops|] == v
    && forall i {:trigger LeadsOn(us, ops, junk, i)} :: 0 <= i < |ops| ==> LeadsOn(us, ops, junk, i)
  }

  /** The calls, each legal when it is made, lead from `u` to `v`. */
  ghost predicate Trace(u: User, ops: seq<Op>, junk: Page, v: User) {
    exists us :: Path(us, ops, junk, u, v)
  }

  lemma {:induction false} TraceMore(u: User, ops: seq<Op>, junk: Page, v: User, op: Op)
    requires Trace(u, ops, junk, v) && Legal(v, op)
    ensures Trace(u, ops + [op], junk, After(v, op, junk))
  {
    var us :| Path(us, ops, junk, u, v);
    var us', ops' := us + [After(v, op, junk)], ops + [op];
    forall i | 0 <= i < |ops'|
      ensures LeadsOn(us', ops', junk, i)
    {
      if i < |ops| { assert LeadsOn(us, ops, junk, i); }
    }
    assert Path(us', ops', junk, u, After(v, op, junk));
  }

  lemma {:induction false} TraceNone(u: User, junk: Page)
    ensures Trace(u, [], junk, u)
  {
    assert Path([u], [], junk, u, u);
  }
}
