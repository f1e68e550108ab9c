/** Whole runs of the tree against a plain map, and scans that delete as they go. */
module Runs {
  import opened Keys
  import opened Layout
  import opened Shape
  import opened Position
  import opened Cursors
  import opened Hint
  import opened Btree
  import Calls
  import opened Items
  import opened Steps
  import opened Storage

  type Model = map<Key, seq<Byte>>

  datatype Op = OpPut(key: Key, data: seq<Byte>, flags: nat) | OpGet(key: Key) | OpDelete(key: Key)
  datatype Result = Result(status: int, data: seq<Byte>)

  /** What a caller expects of one operation. */
  function Answer(m: Model, op: Op): Result {
    match op
    case OpPut(key, data, flags) => Result(if flags == R_NOOVERWRITE && key in m then RET_SPECIAL else RET_SUCCESS, [])
    case OpGet(key) => if key in m then Result(RET_SUCCESS, m[key]) else Result(RET_SPECIAL, [])
    case OpDelete(key) => Result(if key in m then RET_SUCCESS else RET_SPECIAL, [])
  }

  function Effect(m: Model, op: Op): Model {
    match op
    case OpPut(key, data, flags) => if flags == R_NOOVERWRITE && key in m then m else m[key := data]
    case OpGet(key) => m
    case OpDelete(key) => m - {key}
  }

  /** The map after the first `n` operations, and the answers they get. */
  function After(m: Model, ops: seq<Op>, n: nat): Model
    requires n <= |ops|
  {
    if n == 0 then m else Effect(After(m, ops, n - 1), ops[n - 1])
  }

  ghost predicate Agrees(m: Model, ops: seq<Op>, rs: seq<Result>) {
    |rs| <= |ops| && forall i {:trigger Right(m, ops, rs, i)} :: 0 <= i < |rs| ==> Right(m, ops, rs, i)
  }

  /** Operation `i` got the answer of the map at that point. */
  ghost predicate Right(m: Model, ops: seq<Op>, rs: seq<Result>, i: nat) {
    i < |rs| && i < |ops| && rs[i] == Answer(After(m, ops, i), ops[i])
  }

  lemma {:induction false} AgreesMore(m: Model, ops: seq<Op>, rs: seq<Result>, r: Result)
    requires Agrees(m, ops, rs) && |rs| < |ops| && r == Answer(After(m, ops, |rs|), ops[|rs|])
    ensures Agrees(m, ops, rs + [r]) && After(m, ops, |rs| + 1) == Effect(After(m, ops, |rs|), ops[|rs|])
  {
    var rs' := rs + [r];
    forall i | 0 <= i < |rs'|
      ensures Right(m, ops, rs', i)
    {
      if i < |rs| { assert Right(m, ops, rs, i); }
    }
  }

  predicate Allowed(t: BTree, op: Op) {
    op.OpPut? ==> op.flags in {0, R_NOOVERWRITE} && t.Storable(op.key, op.data)
  }

  /** A put that is refused after its data went on a chain: no record will refer to that chain. */
  predicate Wastes(ovflsize: nat, m: Model, op: Op) {
    op.OpPut? && op.flags == R_NOOVERWRITE && op.key in m && |op.key| + |op.data| > ovflsize
  }

  /** How many of the first `n` operations do so. */
  function Wasted(ovflsize: nat, m: Model, ops: seq<Op>, n: nat): nat
    requires n <= |ops|
  {
    if n == 0 then 0
    else Wasted(ovflsize, m, ops, n - 1) + if Wastes(ovflsize, After(m, ops, n - 1), ops[n - 1]) then 1 else 0
  }

  /** One operation on a tree does what it does to the map. */
  method Step(t: BTree, op: Op) returns (r: Result)
    requires t.Valid() && t.HintOk() && !t.rdonly && Allowed(t, op) && (op.OpPut? ==> !t.StaleHit(op.key, op.data))
    modifies t, t.st
    ensures t.Valid() && t.HintOk() && (old(t.HintLive()) && !op.OpDelete? ==> t.HintLive())
    ensures r == Answer(old(t.Model()), op) && t.Model() == Effect(old(t.Model()), op)
    ensures |t.Lost()| == |old(t.Lost())| + (if Wastes(t.ovflsize, old(t.Model()), op) then 1 else 0) && t.st.base == old(t.st.base)
  {
    hide TreeOn, DiskOk, ItemsOk, ModelOf, Orphans, Live, Spent, IsPosition, Goes, Loses, Names, Calls.Trace;
    match op
    case OpPut(key, data, flags) =>
      var status, w := t.Put(key, data, flags);
      r := Result(status, []);
    case OpGet(key) =>
      var status, data := t.Get(key, 0);
      r := Result(status, if status == RET_SUCCESS then data else []);
    case OpDelete(key) =>
      var status := t.Delete(key, 0);
      r := Result(status, []);
  }

  /** A put that the hint leads to a freed page. */
  predicate Astray(t: BTree, op: Op)
    reads t, t.st
  {
    op.OpPut? && t.StaleHit(op.key, op.data)
  }

  /** Every run of puts, gets and deletes answers as the map does and keeps the tree in order.  It goes on
      to the end unless the hint leads a put to a freed page; there the code goes wrong (see `Lose`). */
  method Run(t: BTree, ops: seq<Op>) returns (rs: seq<Result>)
    requires t.Valid() && t.HintOk() && !t.rdonly && forall i :: 0 <= i < |ops| ==> Allowed(t, ops[i])
    modifies t, t.st
    ensures t.Valid() && t.HintOk()
    ensures Agrees(old(t.Model()), ops, rs) && t.Model() == After(old(t.Model()), ops, |rs|)
    ensures |rs| < |ops| ==> Astray(t, ops[|rs|])
    ensures old(t.HintLive()) && (forall i :: 0 <= i < |ops| ==> !ops[i].OpDelete?) ==> |rs| == |ops|
    ensures |t.Lost()| == |old(t.Lost())| + Wasted(t.ovflsize, old(t.Model()), ops, |rs|) && t.st.base == old(t.st.base)
  {
    hide TreeOn, DiskOk, ItemsOk, ModelOf, Orphans, Spent, Calls.Trace;
    rs := [];
    ghost var m := t.Model();
    while |rs| < |ops| && !Astray(t, ops[|rs|])
      invariant t.Valid() && t.HintOk() && Agrees(m, ops, rs) && t.Model() == After(m, ops, |rs|)
      invariant old(t.HintLive()) && (forall i :: 0 <= i < |ops| ==> !ops[i].OpDelete?) ==> t.HintLive()
      invariant |t.Lost()| == |old(t.Lost())| + Wasted(t.ovflsize, m, ops, |rs|) && t.st.base == old(t.st.base)
    {
      var r := Step(t, ops[|rs|]);
      AgreesMore(m, ops, rs, r);
      rs := rs + [r];
    }
  }

  /** Where such a run stops, the put is answered and a get of the same key finds nothing; and a put that is
      not to overwrite is refused as if the key were there. */
  method Lose(t: BTree, op: Op) returns (r: Result, got: Result)
    requires t.Valid() && t.HintOk() && !t.rdonly && Allowed(t, op) && Astray(t, op) && (op.key == t.stale ==> op.flags != 0)
    modifies t, t.st
    ensures t.Valid() && t.Model() == old(t.Model()) && op.key !in t.Model() && got == Result(RET_SPECIAL, [])
    ensures r.status == (if op.key == old(t.stale) then RET_SPECIAL else RET_SUCCESS)
    ensures !(r == Answer(old(t.Model()), op) && t.Model() == Effect(old(t.Model()), op))
  {
    var status, w := t.Put(op.key, op.data, op.flags);
    r := Result(status, []);
    var status', data := t.Get(op.key, 0);
    got := Result(status', []);
  }

  /** The same on a new tree, where puts and gets alone always run to the end. */
  method RunNew(psize: nat, minkeypage: nat, junk: Page, ops: seq<Op>) returns (t: BTree, rs: seq<Result>)
    requires MINPSIZE <= psize <= 0xffff && minkeypage >= 2 && (psize - BTDATAOFF) / minkeypage >= SLOT + NbLeaf(0, 0)
    ensures t.Valid() && fresh(t) && fresh(t.st)
    ensures (forall i :: 0 <= i < |ops| ==> Allowed(t, ops[i])) ==>
      && Agrees(map[], ops, rs) && t.Model() == After(map[], ops, |rs|) && (|rs| < |ops| ==> Astray(t, ops[|rs|]))
      && ((forall i :: 0 <= i < |ops| ==> !ops[i].OpDelete?) ==> |rs| == |ops|)
      && |t.Lost()| == Wasted(t.ovflsize, map[], ops, |rs|)
  {
    t := new BTree(psize, minkeypage, false, junk);
    rs := [];
    if forall i :: 0 <= i < |ops| ==> Allowed(t, ops[i]) {
      rs := Run(t, ops);
    }
  }

  /** Every page of the file but the first is in the tree, on the free list, on the chain of one record, or on
      a chain that was lost. */
  lemma {:induction false} PagesAccounted(t: BTree, p: PgNo)
    requires t.Valid() && 0 < p < t.st.npages
    ensures p in t.sh || p in t.st.book.freeSeq
      || exists f :: f in t.st.book.chains && p in t.st.book.chains[f].pgs && (f in t.Lost() || Refers(t.recs, f))
    ensures p in t.sh ==> p !in t.st.book.freeSeq && forall f :: f in t.st.book.chains ==> p !in t.st.book.chains[f].pgs
  {
    PagesPartitioned(t.st.D(), t.st.Plen());
    assert p in t.sh <==> Owns(t.st.D(), p, Tree);
  }

  // ---------------------------------------------------------------- scans

  /** `ks` lists, in ascending order, the keys of `m` below rank `x`. */
  ghost predicate Scanned(m: Model, ks: seq<Key>, x: real) {
    && (forall i, j :: 0 <= i < j < |ks| ==> Rank(ks[i]) < Rank(ks[j]))
    && (forall i :: 0 <= i < |ks| ==> ks[i] in m && Rank(ks[i]) < x)
    && (forall k {:trigger Listed(ks, k)} :: k in m && Rank(k) < x ==> Listed(ks, k))
  }

  ghost predicate Listed(ks: seq<Key>, k: Key) { k in ks }

  /** `m` without the keys of `ks` that are picked. */
  ghost function Kept(m: Model, ks: seq<Key>, pick: Key -> bool): Model {
    map k | k in m && !(Listed(ks, k) && pick(k)) :: m[k]
  }

  lemma {:induction false} ScanStart(m: Model, pick: Key -> bool)
    ensures Kept(m, [], pick) == m
  {
  }

  lemma {:induction false} ScanFirst(m: Model, k: Key)
    requires Meets(m.Keys, Up(BOTTOM, false), k)
    ensures Scanned(m, [], Rank(k)) && k in m
  {
  }

  /** From `k`, still there or just picked, the next record of the tree is the next of the initial map. */
  lemma {:induction false} ScanOn(m: Model, ks: seq<Key>, k: Key, k': Key, pick: Key -> bool)
    requires Scanned(m, ks, Rank(k)) && k in m && Meets(Kept(m, ks + [k], pick).Keys, Up(Rank(k), !pick(k)), k')
    ensures k' in m && Rank(k) < Rank(k') && Scanned(m, ks + [k], Rank(k'))
    ensures k' in Kept(m, ks + [k], pick) && Kept(m, ks + [k], pick)[k'] == m[k']
  {
    RankIsLexicographic(k, k');
    assert Listed(ks + [k], k);
    forall c | c in m && Rank(c) < Rank(k')
      ensures Listed(ks + [k], c)
    {
      RankIsLexicographic(c, k);
      var was, now := Listed(ks, c), Listed(ks + [k], c);
      if Rank(c) > Rank(k) { assert c in Kept(m, ks + [k], pick) && Past(c, Rank(k), !pick(k)); }
    }
  }

  lemma {:induction false} ScanEnd(m: Model, ks: seq<Key>, k: Key, pick: Key -> bool)
    requires Scanned(m, ks, Rank(k)) && k in m && NoneMeets(Kept(m, ks + [k], pick).Keys, Up(Rank(k), !pick(k)))
    ensures Scanned(m, ks + [k], TOP)
  {
    forall c | c in m
      ensures Listed(ks + [k], c)
    {
      RankIsLexicographic(c, k);
      var was, now := Listed(ks, c), Listed(ks + [k], c);
      var kept, past := c in Kept(m, ks + [k], pick), Past(c, Rank(k), !pick(k));
    }
  }

  lemma {:induction false} KeptMore(m: Model, ks: seq<Key>, k: Key, pick: Key -> bool)
    requires Scanned(m, ks, Rank(k)) && k in m
    ensures k in Kept(m, ks, pick)
    ensures Kept(m, ks + [k], pick) == if pick(k) then Kept(m, ks, pick) - {k} else Kept(m, ks, pick)
  {
  }

  lemma {:induction false} AllScanned(m: Model, ks: seq<Key>, pick: Key -> bool)
    requires Scanned(m, ks, TOP)
    ensures Kept(m, ks, pick) == map k | k in m && !pick(k) :: m[k]
  {
  }

  ghost predicate ReadFrom(m: Model, ks: seq<Key>, ds: seq<seq<Byte>>) {
    |ds| == |ks| && forall i :: 0 <= i < |ks| ==> ks[i] in m && ds[i] == m[ks[i]]
  }

  /** The record under the cursor is deleted if it is picked. */
  method VisitOne(t: BTree, k: Key, pick: Key -> bool)
    requires t.Valid() && !t.rdonly && Names(t.st.pages, t.sh, t.cur, k) && k in t.Model()
    modifies t, t.st
    ensures t.Valid() && t.cur.init
    ensures t.Model() == if pick(k) then old(t.Model()) - {k} else old(t.Model())
    ensures if pick(k) then t.cur.acquire && t.cur.key == k else Names(t.st.pages, t.sh, t.cur, k)
    ensures old(t.HintOk()) ==> t.HintOk()
  {
    hide TreeOn, DiskOk, ItemsOk, ModelOf, Orphans, Live, Spent, Calls.Trace;
    if pick(k) {
      var status := t.Delete([], R_CURSOR);
    }
  }

  /** One round of the scan: the record under the cursor, then the next. */
  method ScanRound(t: BTree, ghost m: Model, ghost ks: seq<Key>, k: Key, pick: Key -> bool) returns (status: int, k': Key, d': seq<Byte>)
    requires t.Valid() && !t.rdonly && t.Model() == Kept(m, ks, pick) && Scanned(m, ks, Rank(k)) && k in m && Names(t.st.pages, t.sh, t.cur, k)
    modifies t, t.st
    ensures t.Valid() && t.Model() == Kept(m, ks + [k], pick) && status in {RET_SUCCESS, RET_SPECIAL}
    ensures status == RET_SUCCESS ==>
      k' in m && d' == m[k'] && Rank(k) < Rank(k') && Scanned(m, ks + [k], Rank(k')) && Names(t.st.pages, t.sh, t.cur, k')
    ensures status == RET_SPECIAL ==> Scanned(m, ks + [k], TOP)
    ensures old(t.HintOk()) ==> t.HintOk()
  {
    hide TreeOn, DiskOk, ItemsOk, ModelOf, Orphans, Live, Spent, Calls.Trace, Kept, Scanned, Meets, NoneMeets, Answers;
    KeptMore(m, ks, k, pick);
    VisitOne(t, k, pick);
    status, k', d' := t.Seq([], R_NEXT);
    if status == RET_SUCCESS { ScanOn(m, ks, k, k', pick); } else { ScanEnd(m, ks, k, pick); }
  }

  method ScanBegin(t: BTree, pick: Key -> bool) returns (status: int, k: Key, d: seq<Byte>)
    requires t.Valid()
    modifies t, t.st
    ensures t.Valid() && t.Model() == old(t.Model()) == Kept(old(t.Model()), [], pick) && status in {RET_SUCCESS, RET_SPECIAL}
    ensures status == RET_SUCCESS ==>
      k in t.Model() && d == t.Model()[k] && Scanned(t.Model(), [], Rank(k)) && Names(t.st.pages, t.sh, t.cur, k)
    ensures status == RET_SPECIAL ==> Scanned(t.Model(), [], TOP)
    ensures old(t.HintOk()) ==> t.HintOk()
  {
    hide TreeOn, DiskOk, ItemsOk, FirstAtOrAfter, FirstAfter, LastUnder, Smallest, Largest, Calls.Trace;
    ScanStart(t.Model(), pick);
    status, k, d := t.Seq([], R_FIRST);
    if status == RET_SUCCESS { ScanFirst(t.Model(), k); }
  }

  /** The keys still to come. */
  ghost function From(m: Model, x: real): set<Key> { set k | k in m && Rank(k) >= x }

  lemma {:induction false} FewerLeft(m: Model, k: Key, k': Key)
    requires k in m && Rank(k) < Rank(k')
    ensures From(m, Rank(k')) < From(m, Rank(k))
  {
    assert k in From(m, Rank(k)) && k !in From(m, Rank(k'));
  }

  lemma {:induction false} ReadMore(m: Model, ks: seq<Key>, ds: seq<seq<Byte>>, k: Key)
    requires ReadFrom(m, ks, ds) && k in m
    ensures ReadFrom(m, ks + [k], ds + [m[k]])
  {
  }

  /** A forward scan that deletes any records it picks under the cursor still returns every initial
      record exactly once, in ascending order, and leaves the initial map minus the picked keys. */
  method ScanAndDelete(t: BTree, pick: Key -> bool) returns (ks: seq<Key>, ds: seq<seq<Byte>>)
    requires t.Valid() && !t.rdonly
    modifies t, t.st
    ensures t.Valid() && Scanned(old(t.Model()), ks, TOP) && ReadFrom(old(t.Model()), ks, ds)
    ensures t.Model() == map k | k in old(t.Model()) && !pick(k) :: old(t.Model())[k]
    ensures old(t.HintOk()) ==> t.HintOk()
  {
    ghost var m := t.Model();
    ks, ds := [], [];
    var status, k, d := ScanBegin(t, pick);
    ghost var left := From(m, Rank(k));
    while status == RET_SUCCESS
      invariant t.Valid() && status in {RET_SUCCESS, RET_SPECIAL} && (old(t.HintOk()) ==> t.HintOk())
      invariant ReadFrom(m, ks, ds) && t.Model() == Kept(m, ks, pick)
      invariant status == RET_SUCCESS ==> k in m && d == m[k] && Scanned(m, ks, Rank(k)) && Names(t.st.pages, t.sh, t.cur, k)
      invariant status == RET_SPECIAL ==> Scanned(m, ks, TOP)
      invariant status == RET_SUCCESS ==> left == From(m, Rank(k))
      decreases status == RET_SUCCESS, left
    {
      var status', k', d' := ScanRound(t, m, ks, k, pick);
      if status' == RET_SUCCESS { FewerLeft(m, k, k'); }
      ReadMore(m, ks, ds, k);
      ks, ds := ks + [k], ds + [d];
      status, k, d, left := status', k', d', From(m, Rank(k'));
    }
    AllScanned(m, ks, pick);
  }
}
