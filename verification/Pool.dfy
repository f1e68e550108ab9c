/** The page cache of mpool.c: buckets on a hash queue and on the LRU queue, write-back and eviction. */
module Mpool {
  import opened Layout
  import opened Shape
  import opened CircleQ

  const HASHSIZE := 128

  /** The hash queue for a page; page 0 wraps to the last. */
  function HashKey(pgno: PgNo): (k: nat)
    ensures k < HASHSIZE
  {
    (pgno - 1) % HASHSIZE
  }

  datatype Bkt = Bkt(pgno: PgNo, page: Page, pinned: bool, dirty: bool)

  /** The buckets and queues of a pool, with the queues as sequences, where each resident page is, and when it
      was last asked for. */
  datatype Cache = Cache(bkt: map<Ptr, Bkt>, q: Field, hq: Field, lqh: Head, hqh: seq<Head>,
                         order: seq<Ptr>, chains: seq<seq<Ptr>>, res: map<PgNo, Ptr>, used: map<PgNo, nat>, now: nat)

  ghost predicate ChainAt(c: Cache, k: nat)
    requires k < |c.hqh| && k < |c.chains|
  {
    c.hqh[k].self == Hash(k) && IsQueue(c.hq, c.hqh[k], c.chains[k])
  }

  /** Bucket `p` of the LRU queue is the one for its page, and on the hash queue for it. */
  ghost predicate Placed(c: Cache, p: Ptr)
    requires |c.chains| == HASHSIZE
  {
    && p.Bucket? && p in c.bkt && c.bkt[p].pgno in c.res && c.res[c.bkt[p].pgno] == p
    && p in c.chains[HashKey(c.bkt[p].pgno)]
    && c.bkt[p].pgno in c.used && c.used[c.bkt[p].pgno] < c.now
  }

  /** The LRU queue and the hash queues are proper queues; every resident page is once on the LRU queue and once
      on the hash queue for its number and nowhere else; the LRU queue is in order of last use. */
  ghost predicate Queues(c: Cache) {
    && c.lqh.self == Lru && IsQueue(c.q, c.lqh, c.order) && |c.hqh| == |c.chains| == HASHSIZE
    && (forall k {:trigger ChainAt(c, k)} :: 0 <= k < HASHSIZE ==> ChainAt(c, k))
    && (forall p {:trigger Placed(c, p)} :: p in c.order ==> Placed(c, p))
    && (forall n {:trigger c.res[n]} :: n in c.res ==> c.res[n] in c.order && c.res[n] in c.bkt && c.bkt[c.res[n]].pgno == n)
    && (forall k, p {:trigger OnChain(c, k, p)} :: OnChain(c, k, p) ==> p in c.order && p in c.bkt && HashKey(c.bkt[p].pgno) == k)
    && (forall i, j :: 0 <= i < j < |c.order| ==> Stamp(c, c.order[i]) < Stamp(c, c.order[j]))
  }

  ghost predicate OnChain(c: Cache, k: nat, p: Ptr) { k < |c.chains| && p in c.chains[k] }

  /** When the page of a bucket was last asked for. */
  ghost function Stamp(c: Cache, p: Ptr): nat {
    if p in c.bkt && c.bkt[p].pgno in c.used then c.used[c.bkt[p].pgno] else 0
  }

  // ---------------------------------------------------------------- taking a bucket off and putting one on

  /** Bucket `p`, at `j` on the LRU queue and at `i` on its hash queue, is taken off both. */
  ghost predicate Detached(c: Cache, c': Cache, p: Ptr, j: nat, i: nat) {
    && p in c.order && p in c.bkt && |c.chains| == HASHSIZE && j < |c.order| && c.order[j] == p
    && var k := HashKey(c.bkt[p].pgno);
    && i < |c.chains[k]| && c.chains[k][i] == p && |c'.hqh| == |c.hqh| == HASHSIZE
    && c'.order == Del(c.order, j) && c'.chains == c.chains[k := Del(c.chains[k], i)]
    && c'.lqh.self == Lru && IsQueue(c'.q, c'.lqh, c'.order)
    && (forall k' {:trigger c'.hqh[k']} :: 0 <= k' < HASHSIZE && k' != k ==> c'.hqh[k'] == c.hqh[k'])
    && c'.hqh[k].self == Hash(k) && IsQueue(c'.hq, c'.hqh[k], c'.chains[k]) && OnlyLinks(c.hq, c'.hq, c.chains[k])
    && c'.res == c.res - {c.bkt[p].pgno} && c'.used == c.used && c'.now == c.now && c'.bkt == c.bkt
  }

  lemma {:induction false} OtherChain(c: Cache, c': Cache, k: nat, k': nat)
    requires Queues(c) && k < HASHSIZE && k' < HASHSIZE && |c'.hqh| == |c'.chains| == HASHSIZE && ChainAt(c', k)
    requires k' != k ==> c'.hqh[k'] == c.hqh[k'] && c'.chains[k'] == c.chains[k'] && OnlyLinks(c.hq, c'.hq, c.chains[k])
    ensures ChainAt(c', k')
  {
    assert ChainAt(c, k');
    if k' != k {
      forall x | x in c.chains[k']
        ensures x !in c.chains[k]
      {
        assert OnChain(c, k', x) && (OnChain(c, k, x) ==> k == k');
      }
      QueueFrame(c.hq, c'.hq, c.hqh[k'], c.chains[k'], c.chains[k]);
    }
  }

  lemma {:induction false} DetachedOk(c: Cache, c': Cache, p: Ptr, j: nat, i: nat)
    requires Queues(c) && Detached(c, c', p, j, i)
    ensures Queues(c') && p !in c'.order
  {
    var k := HashKey(c.bkt[p].pgno);
    assert Placed(c, p) && ChainAt(c, k);
    forall x
      ensures x in c'.order <==> x in c.order && x != p
      ensures OnChain(c', k, x) <==> OnChain(c, k, x) && x != p
    {
      InDel(c.order, j, x);
      InDel(c.chains[k], i, x);
    }
    forall k' | 0 <= k' < HASHSIZE
      ensures ChainAt(c', k')
    {
      OtherChain(c, c', k, k');
    }
    forall x | x in c'.order
      ensures Placed(c', x)
    {
      assert Placed(c, x) && OnChain(c, HashKey(c.bkt[x].pgno), x);
    }
    forall k', x | OnChain(c', k', x)
      ensures x in c'.order && x in c'.bkt && HashKey(c'.bkt[x].pgno) == k'
    {
      assert OnChain(c, k', x);
    }
    StampsDel(c, c', j);
  }

  lemma {:induction false} StampsDel(c: Cache, c': Cache, j: nat)
    requires forall i, i' :: 0 <= i < i' < |c.order| ==> Stamp(c, c.order[i]) < Stamp(c, c.order[i'])
    requires j < |c.order| && c'.order == Del(c.order, j) && c'.bkt == c.bkt && c'.used == c.used
    ensures forall i, i' :: 0 <= i < i' < |c'.order| ==> Stamp(c', c'.order[i]) < Stamp(c', c'.order[i'])
  {
  }

  lemma {:induction false} InDel<T>(s: seq<T>, j: nat, x: T)
    requires Distinct(s) && j < |s|
    ensures x in Del(s, j) <==> x in s && x != s[j]
  {
  }

  /** Bucket `p`, on no queue, is put at the head of the hash queue for page `n` and the tail of the LRU queue. */
  ghost predicate Attached(c: Cache, c': Cache, p: Ptr, n: PgNo) {
    && p.Bucket? && |c.chains| == HASHSIZE && |c'.hqh| == |c.hqh| == HASHSIZE
    && var k := HashKey(n);
    && c'.order == c.order + [p] && c'.chains == c.chains[k := [p] + c.chains[k]]
    && c'.lqh.self == Lru && IsQueue(c'.q, c'.lqh, c'.order)
    && (forall k' {:trigger c'.hqh[k']} :: 0 <= k' < HASHSIZE && k' != k ==> c'.hqh[k'] == c.hqh[k'])
    && c'.hqh[k].self == Hash(k) && IsQueue(c'.hq, c'.hqh[k], c'.chains[k]) && OnlyLinks(c.hq, c'.hq, c'.chains[k])
    && c'.res == c.res[n := p] && c'.used == c.used[n := c.now] && c'.now == c.now + 1
    && p in c'.bkt && c'.bkt[p].pgno == n && c'.bkt == c.bkt[p := c'.bkt[p]]
  }

  lemma {:induction false} AttachedOk(c: Cache, c': Cache, p: Ptr, n: PgNo)
    requires Queues(c) && Attached(c, c', p, n) && p !in c.order && n !in c.res
    ensures Queues(c')
  {
    var k := HashKey(n);
    assert ChainAt(c, k);
    assert !OnChain(c, k, p);
    forall x
      ensures OnChain(c', k, x) <==> OnChain(c, k, x) || x == p
    {
    }
    forall k' | 0 <= k' < HASHSIZE
      ensures ChainAt(c', k')
    {
      assert ChainAt(c, k');
      if k' != k {
        forall x | x in c.chains[k']
          ensures x !in c'.chains[k]
        {
          assert OnChain(c, k', x) && (OnChain(c, k, x) ==> k == k');
        }
        QueueFrame(c.hq, c'.hq, c.hqh[k'], c.chains[k'], c'.chains[k]);
      }
    }
    forall x | x in c'.order
      ensures Placed(c', x)
    {
      if x != p {
        assert Placed(c, x) && OnChain(c, HashKey(c.bkt[x].pgno), x);
        assert OnChain(c', HashKey(c.bkt[x].pgno), x);
      }
    }
    forall k', x | OnChain(c', k', x)
      ensures x in c'.order && x in c'.bkt && HashKey(c'.bkt[x].pgno) == k'
    {
      var was := OnChain(c, k', x);
    }
    forall i, j | 0 <= i < j < |c'.order|
      ensures Stamp(c', c'.order[i]) < Stamp(c', c'.order[j])
    {
      assert c'.order[i] == c.order[i] && Placed(c, c.order[i]);
      if j < |c.order| { assert c'.order[j] == c.order[j] && Placed(c, c.order[j]); }
    }
  }

  // ---------------------------------------------------------------- contents

  type File = map<PgNo, Page>
  const UNREAD := Page(Overflow, 0, 0, [], [])

  ghost predicate Holds(c: Cache, n: PgNo) { n in c.res && c.res[n] in c.bkt }

  /** The latest contents of a page: in the cache, or else in the file. */
  ghost function Latest(c: Cache, file: File, n: PgNo): Page {
    if Holds(c, n) then c.bkt[c.res[n]].page else if n in file then file[n] else UNREAD
  }

  /** The plain map the pool stands for. */
  ghost function View(c: Cache, file: File, npages: nat): map<PgNo, Page> {
    map n | 0 <= n < npages :: Latest(c, file, n)
  }

  ghost function Pins(c: Cache): set<PgNo> { set n | n in c.res && Holds(c, n) && c.bkt[c.res[n]].pinned }

  /** A page that is neither marked dirty nor changed since it was pinned is in the file as it is. */
  ghost predicate Synced(c: Cache, file: File, touched: set<PgNo>, n: PgNo) {
    Holds(c, n) ==> var b := c.bkt[c.res[n]];
      (n in touched ==> b.pinned) && (!b.dirty && n !in touched ==> n in file && file[n] == b.page)
  }

  ghost predicate Contents(c: Cache, file: File, npages: nat, touched: set<PgNo>) {
    && (forall n: PgNo {:trigger Synced(c, file, touched, n)} :: Synced(c, file, touched, n))
    && (forall n: PgNo {:trigger Holds(c, n)} :: (Holds(c, n) ==> n < npages) && (n < npages && !Holds(c, n) ==> n in file && n !in touched))
    && (forall n :: n in touched ==> n < npages)
  }

  /** An unpinned bucket, written if dirty, can go: no page's latest contents change. */
  lemma {:induction false} EvictKeeps(c: Cache, c': Cache, file: File, file': File, npages: nat, touched: set<PgNo>, p: Ptr, j: nat, i: nat)
    requires Queues(c) && Contents(c, file, npages, touched) && Detached(c, c', p, j, i)
    requires var b := c.bkt[p]; !b.pinned && file' == if b.dirty then file[b.pgno := b.page] else file
    ensures Contents(c', file', npages, touched) && View(c', file', npages) == View(c, file, npages) && Pins(c') == Pins(c)
  {
    var v := c.bkt[p].pgno;
    assert Placed(c, p);
    assert Holds(c, v) && Synced(c, file, touched, v);
    forall n: PgNo
      ensures Synced(c', file', touched, n) && Latest(c', file', n) == Latest(c, file, n)
      ensures (Holds(c', n) ==> n < npages) && (n < npages && !Holds(c', n) ==> n in file' && n !in touched)
      ensures Holds(c', n) <==> Holds(c, n) && n != v
    {
      assert Synced(c, file, touched, n);
      var was := Holds(c, n);
    }
  }

  /** A bucket with the contents of page `n` joins the cache, pinned. */
  ghost predicate Joins(c: Cache, c': Cache, file: File, npages: nat, touched: set<PgNo>, p: Ptr, n: PgNo, touched': set<PgNo>, npages': nat) {
    && Queues(c) && Contents(c, file, npages, touched) && Attached(c, c', p, n) && p !in c.order && n !in c.res && c'.bkt[p].pinned
    && if n < npages then npages' == npages && touched' == touched && (c'.bkt[p].dirty || n in touched || (n in file && c'.bkt[p].page == file[n]))
       else npages' == n + 1 && n == npages && touched' == touched + {n}
  }

  lemma {:induction false} JoinAt(c: Cache, c': Cache, file: File, npages: nat, touched: set<PgNo>, p: Ptr, n: PgNo, touched': set<PgNo>, npages': nat, m: PgNo)
    requires Joins(c, c', file, npages, touched, p, n, touched', npages')
    ensures Holds(c', m) <==> Holds(c, m) || m == n
    ensures m != n && Holds(c, m) ==> c'.res[m] == c.res[m] && c'.bkt[c'.res[m]] == c.bkt[c.res[m]]
    ensures Synced(c', file, touched', m) && (m != n ==> Latest(c', file, m) == Latest(c, file, m))
    ensures (Holds(c', m) ==> m < npages') && (m < npages' && !Holds(c', m) ==> m in file && m !in touched')
  {
    assert Synced(c, file, touched, m);
    var was := Holds(c, m);
    if m in c.res && m != n { assert c.res[m] in c.order; }
  }

  lemma {:induction false} AttachPins(c: Cache, c': Cache, file: File, npages: nat, touched: set<PgNo>, p: Ptr, n: PgNo, touched': set<PgNo>, npages': nat)
    requires Joins(c, c', file, npages, touched, p, n, touched', npages')
    ensures Pins(c') == Pins(c) + {n}
  {
  }

  lemma {:induction false} AttachView(c: Cache, c': Cache, file: File, npages: nat, touched: set<PgNo>, p: Ptr, n: PgNo, touched': set<PgNo>, npages': nat)
    requires Joins(c, c', file, npages, touched, p, n, touched', npages')
    ensures View(c', file, npages') == View(c, file, npages)[n := c'.bkt[p].page]
  {
    var v, v' := View(c, file, npages)[n := c'.bkt[p].page], View(c', file, npages');
    assert v'.Keys == v.Keys;
    forall m | m in v
      ensures v'[m] == v[m]
    {
      if m != n { JoinAt(c, c', file, npages, touched, p, n, touched', npages', m); }
    }
  }

  lemma {:induction false} AttachKeeps(c: Cache, c': Cache, file: File, npages: nat, touched: set<PgNo>, p: Ptr, n: PgNo, touched': set<PgNo>, npages': nat)
    requires Joins(c, c', file, npages, touched, p, n, touched', npages')
    ensures Contents(c', file, npages', touched') && Pins(c') == Pins(c) + {n}
    ensures View(c', file, npages') == View(c, file, npages)[n := c'.bkt[p].page]
  {
    hide Pins, View, Queues, Attached;
    AttachPins(c, c', file, npages, touched, p, n, touched', npages');
    AttachView(c, c', file, npages, touched, p, n, touched', npages');
    forall m: PgNo
      ensures Synced(c', file, touched', m)
      ensures (Holds(c', m) ==> m < npages') && (m < npages' && !Holds(c', m) ==> m in file && m !in touched')
    {
      JoinAt(c, c', file, npages, touched, p, n, touched', npages', m);
    }
  }

  /** A bucket changes flags or contents. */
  lemma {:induction false} BucketSet(c: Cache, p: Ptr, b: Bkt)
    requires Queues(c) && p in c.order && p in c.bkt && b.pgno == c.bkt[p].pgno
    ensures Queues(c.(bkt := c.bkt[p := b])) && b.pgno in c.res && c.res[b.pgno] == p
  {
    var c' := c.(bkt := c.bkt[p := b]);
    assert Placed(c, p);
    forall k | 0 <= k < HASHSIZE
      ensures ChainAt(c', k)
    {
      assert ChainAt(c, k);
    }
    forall x | x in c'.order
      ensures Placed(c', x)
    {
      assert Placed(c, x);
    }
    forall k, x | OnChain(c', k, x)
      ensures x in c'.order && x in c'.bkt && HashKey(c'.bkt[x].pgno) == k
    {
      assert OnChain(c, k, x);
    }
    assert forall x :: Stamp(c', x) == Stamp(c, x);
  }

  /** What a change of bucket `p` to `b` must respect. */
  ghost predicate Sets(c: Cache, file: File, npages: nat, touched: set<PgNo>, p: Ptr, b: Bkt, file': File, touched': set<PgNo>) {
    && Queues(c) && Contents(c, file, npages, touched) && p in c.order && p in c.bkt && b.pgno == c.bkt[p].pgno
    && (file' == file || file' == file[b.pgno := b.page])
    && (forall m {:trigger m in touched'} :: m != b.pgno ==> (m in touched' <==> m in touched))
    && (b.pgno in touched' ==> b.pinned) && (!b.dirty && b.pgno !in touched' ==> b.pgno in file' && file'[b.pgno] == b.page)
  }

  lemma {:induction false} SetAt(c: Cache, file: File, npages: nat, touched: set<PgNo>, p: Ptr, b: Bkt, file': File, touched': set<PgNo>, m: PgNo)
    requires Sets(c, file, npages, touched, p, b, file', touched')
    ensures var c' := c.(bkt := c.bkt[p := b]);
      && (Holds(c', m) <==> Holds(c, m)) && (Holds(c, m) && m != b.pgno ==> c.res[m] != p)
      && Synced(c', file', touched', m) && (m != b.pgno ==> Latest(c', file', m) == Latest(c, file, m))
      && (Holds(c', m) ==> m < npages) && (m < npages && !Holds(c', m) ==> m in file' && m !in touched')
  {
    assert Placed(c, p);
    assert Synced(c, file, touched, m);
    var was := Holds(c, m);
  }

  lemma {:induction false} SetPins(c: Cache, file: File, npages: nat, touched: set<PgNo>, p: Ptr, b: Bkt, file': File, touched': set<PgNo>)
    requires Sets(c, file, npages, touched, p, b, file', touched')
    ensures Pins(c.(bkt := c.bkt[p := b])) == if b.pinned then Pins(c) + {b.pgno} else Pins(c) - {b.pgno}
  {
    var c' := c.(bkt := c.bkt[p := b]);
    assert Placed(c, p);
    forall m: PgNo
      ensures m in Pins(c') <==> if m == b.pgno then b.pinned else m in Pins(c)
    {
      SetAt(c, file, npages, touched, p, b, file', touched', m);
    }
  }

  lemma {:induction false} SetKeeps(c: Cache, file: File, npages: nat, touched: set<PgNo>, p: Ptr, b: Bkt, file': File, touched': set<PgNo>)
    requires Sets(c, file, npages, touched, p, b, file', touched')
    ensures Contents(c.(bkt := c.bkt[p := b]), file', npages, touched')
    ensures View(c.(bkt := c.bkt[p := b]), file', npages) == View(c, file, npages)[b.pgno := b.page]
    ensures Pins(c.(bkt := c.bkt[p := b])) == if b.pinned then Pins(c) + {b.pgno} else Pins(c) - {b.pgno}
  {
    hide Queues, Pins;
    var c' := c.(bkt := c.bkt[p := b]);
    SetPins(c, file, npages, touched, p, b, file', touched');
    BucketSet(c, p, b);
    assert Holds(c, b.pgno);
    forall m: PgNo
      ensures Synced(c', file', touched', m) && (m != b.pgno ==> Latest(c', file', m) == Latest(c, file, m))
      ensures (Holds(c', m) ==> m < npages) && (m < npages && !Holds(c', m) ==> m in file' && m !in touched')
    {
      SetAt(c, file, npages, touched, p, b, file', touched', m);
    }
  }

  lemma {:induction false} OnItsChain(c: Cache, n: PgNo)
    requires Queues(c) && n in c.res
    ensures c.res[n] in c.chains[HashKey(n)] && c.res[n] in c.bkt && c.bkt[c.res[n]].pgno == n
  {
    assert Placed(c, c.res[n]);
  }

  /** The places of a resident bucket on its two queues. */
  lemma {:induction false} Places(c: Cache, p: Ptr) returns (j: nat, i: nat)
    requires Queues(c) && p in c.order && p in c.bkt
    ensures p.Bucket? && c.lqh.self == Lru && IsQueue(c.q, c.lqh, c.order) && |c.hqh| == |c.chains| == HASHSIZE
    ensures j < |c.order| && c.order[j] == p
    ensures var k := HashKey(c.bkt[p].pgno); ChainAt(c, k) && i < |c.chains[k]| && c.chains[k][i] == p
  {
    assert Placed(c, p) && ChainAt(c, HashKey(c.bkt[p].pgno));
    j :| 0 <= j < |c.order| && c.order[j] == p;
    i :| 0 <= i < |c.chains[HashKey(c.bkt[p].pgno)]| && c.chains[HashKey(c.bkt[p].pgno)][i] == p;
  }

  /** A bucket on no queue can go on the hash queue for any page. */
  lemma {:induction false} Room(c: Cache, p: Ptr, n: PgNo)
    requires Queues(c) && p !in c.order
    ensures c.lqh.self == Lru && IsQueue(c.q, c.lqh, c.order) && |c.hqh| == |c.chains| == HASHSIZE
    ensures ChainAt(c, HashKey(n)) && p !in c.chains[HashKey(n)]
  {
    assert ChainAt(c, HashKey(n)) && !OnChain(c, HashKey(n), p);
  }

  /** No page beyond the end of the file is resident. */
  lemma {:induction false} BeyondEnd(c: Cache, file: File, npages: nat, touched: set<PgNo>)
    requires Queues(c) && Contents(c, file, npages, touched)
    ensures npages !in c.res
  {
    var held := Holds(c, npages);
  }

  /** The links the walks along the LRU queue follow. */
  lemma {:induction false} Along(c: Cache, j: nat)
    requires Queues(c) && j < |c.order|
    ensures var p := c.order[j]; p in c.bkt && p in c.q && p != Lru && c.q[p].next == if j + 1 < |c.order| then c.order[j + 1] else Lru
    ensures j + 1 < |c.order| ==> c.order[j + 1] != Lru
  {
    assert Placed(c, c.order[j]) && LinkedAt(c.q, Lru, c.order, j);
  }

  lemma {:induction false} Ends(c: Cache)
    requires Queues(c)
    ensures c.lqh.self == Lru && c.lqh.first == if c.order == [] then Lru else c.order[0]
    ensures c.order != [] ==> c.order[0] != Lru
  {
  }

  /** With nothing dirty the file holds every page that is not being changed. */
  lemma {:induction false} AllClean(c: Cache, file: File, npages: nat, touched: set<PgNo>)
    requires Queues(c) && Contents(c, file, npages, touched) && forall i :: 0 <= i < |c.order| ==> c.order[i] in c.bkt && !c.bkt[c.order[i]].dirty
    ensures forall n: PgNo :: n < npages && n !in touched ==> n in file && file[n] == View(c, file, npages)[n]
    ensures forall p :: p in c.order ==> p in c.bkt && !c.bkt[p].dirty
  {
    forall n: PgNo | n < npages && n !in touched
      ensures n in file && file[n] == View(c, file, npages)[n]
    {
      assert Synced(c, file, touched, n);
      var held := Holds(c, n);
    }
  }

  /** Element `j` of the LRU queue is the first that is not pinned. */
  ghost predicate IsVictim(c: Cache, j: nat) {
    && j < |c.order| && c.order[j] in c.bkt && !c.bkt[c.order[j]].pinned
    && forall i :: 0 <= i < j ==> c.order[i] in c.bkt && c.bkt[c.order[i]].pinned
  }

  /** Page `n` is resident, unpinned, and was last asked for before any other such page. */
  ghost predicate Oldest(c: Cache, n: PgNo) {
    && Holds(c, n) && !c.bkt[c.res[n]].pinned && n in c.used
    && forall m {:trigger c.used[m]} :: Holds(c, m) && !c.bkt[c.res[m]].pinned && m in c.used ==> c.used[n] <= c.used[m]
  }

  lemma {:induction false} VictimIsOldest(c: Cache, j: nat)
    requires Queues(c) && IsVictim(c, j)
    ensures Oldest(c, c.bkt[c.order[j]].pgno)
  {
    var n := c.bkt[c.order[j]].pgno;
    assert Placed(c, c.order[j]);
    forall m | Holds(c, m) && !c.bkt[c.res[m]].pinned && m in c.used
      ensures c.used[n] <= c.used[m]
    {
      assert c.res[m] in c.order;
      var i :| 0 <= i < |c.order| && c.order[i] == c.res[m];
      assert Stamp(c, c.order[i]) == c.used[m] && Stamp(c, c.order[j]) == c.used[n];
    }
  }

  /** With every resident page pinned there are as many pins as buckets. */
  lemma {:induction false} AllPinned(c: Cache, s: seq<Ptr>) returns (pins: set<PgNo>)
    requires Queues(c) && (forall p :: p in s ==> p in c.order && p in c.bkt && c.bkt[p].pinned) && Distinct(s)
    ensures |pins| == |s| && pins <= Pins(c) && forall n :: n in pins ==> n in c.res && c.res[n] in s
  {
    if s == [] { return {}; }
    var p, r := s[|s| - 1], s[..|s| - 1];
    assert Placed(c, p) && p in s;
    assert forall x :: x in r ==> x in s;
    pins := AllPinned(c, r);
    assert Holds(c, c.bkt[p].pgno) && c.res[c.bkt[p].pgno] == p;
    assert p !in r;
    pins := pins + {c.bkt[p].pgno};
  }

  lemma {:induction false} AddSmaller<T>(a: set<T>, b: set<T>)
    requires a <= b
    ensures |a| <= |b|
  {
    if a != {} {
      var x :| x in a;
      AddSmaller(a - {x}, b - {x});
    }
  }

  /** A full cache within its limit has a page that is not pinned. */
  lemma {:induction false} NotAllPinned(c: Cache, maxcache: nat)
    requires Queues(c) && |Pins(c)| < maxcache <= |c.order|
    ensures exists p :: p in c.order && p in c.bkt && !c.bkt[p].pinned
  {
    if forall p :: p in c.order ==> p in c.bkt && c.bkt[p].pinned {
      var pins := AllPinned(c, c.order);
      AddSmaller(pins, Pins(c));
    } else {
      var p :| p in c.order && !(p in c.bkt && c.bkt[p].pinned);
      assert Placed(c, p);
    }
  }

  /** Contents depend on the buckets and where they are, not on the queues. */
  lemma {:induction false} ContentsFrame(c: Cache, c': Cache, file: File, npages: nat, touched: set<PgNo>)
    requires c'.bkt == c.bkt && c'.res == c.res && Contents(c, file, npages, touched)
    ensures Contents(c', file, npages, touched) && View(c', file, npages) == View(c, file, npages) && Pins(c') == Pins(c)
  {
    forall n: PgNo
      ensures Synced(c', file, touched, n) && (Holds(c', n) <==> Holds(c, n)) && Latest(c', file, n) == Latest(c, file, n)
    {
      assert Synced(c, file, touched, n);
    }
  }

  /** A bucket taken off its queues and put back, pinned. */
  ghost predicate Moved(c: Cache, c1: Cache, c2: Cache, p: Ptr, j: nat, i: nat) {
    && p in c.order && p in c.bkt
    && Detached(c, c1, p, j, i) && Attached(c1, c2, p, c.bkt[p].pgno) && c2.bkt[p] == c.bkt[p].(pinned := true)
  }

  lemma {:induction false} MovedQueues(c: Cache, c1: Cache, c2: Cache, p: Ptr, j: nat, i: nat)
    requires Queues(c) && Moved(c, c1, c2, p, j, i)
    ensures Queues(c2) && |c2.order| == |c.order|
  {
    DetachedOk(c, c1, p, j, i);
    AttachedOk(c1, c2, p, c.bkt[p].pgno);
  }

  lemma {:induction false} MovedContents(c: Cache, c1: Cache, c2: Cache, file: File, npages: nat, touched: set<PgNo>, p: Ptr, j: nat, i: nat)
    requires Queues(c) && Contents(c, file, npages, touched) && Moved(c, c1, c2, p, j, i)
    ensures c2.res == c.res && Contents(c2, file, npages, touched)
    ensures View(c2, file, npages) == View(c, file, npages) && Pins(c2) == Pins(c) + {c.bkt[p].pgno}
  {
    var b := c.bkt[p].(pinned := true);
    assert Placed(c, p);
    assert c2.res == c.res && c2.bkt == c.bkt[p := b];
    PinKeeps(c, file, npages, touched, p);
    ContentsFrame(c.(bkt := c2.bkt), c2, file, npages, touched);
  }

  lemma {:induction false} PinKeeps(c: Cache, file: File, npages: nat, touched: set<PgNo>, p: Ptr)
    requires Queues(c) && Contents(c, file, npages, touched) && p in c.order && p in c.bkt
    ensures var b := c.bkt[p].(pinned := true); var c' := c.(bkt := c.bkt[p := b]);
      Contents(c', file, npages, touched) && View(c', file, npages) == View(c, file, npages) && Pins(c') == Pins(c) + {b.pgno}
  {
    var b := c.bkt[p].(pinned := true);
    assert Placed(c, p);
    assert Holds(c, b.pgno) && Synced(c, file, touched, b.pgno);
    SetKeeps(c, file, npages, touched, p, b, file, touched);
    LatestIn(c, file, npages, p);
  }

  lemma {:induction false} LatestIn(c: Cache, file: File, npages: nat, p: Ptr)
    requires p in c.bkt && Holds(c, c.bkt[p].pgno) && c.res[c.bkt[p].pgno] == p && c.bkt[p].pgno < npages
    ensures View(c, file, npages)[c.bkt[p].pgno := c.bkt[p].page] == View(c, file, npages)
  {
  }

  /** A page that is not resident is in the file. */
  lemma {:induction false} LatestOut(c: Cache, file: File, npages: nat, touched: set<PgNo>, n: PgNo)
    requires Contents(c, file, npages, touched) && n < npages && n !in c.res
    ensures n in file && View(c, file, npages)[n] == file[n] && View(c, file, npages)[n := file[n]] == View(c, file, npages)
  {
    assert !Holds(c, n);
  }

  // ---------------------------------------------------------------- the pool

  class Pool {
    const maxcache: nat
    var bkt: map<Ptr, Bkt>
    var q: Field
    var hq: Field
    var lqh: Head
    var hqh: seq<Head>
    var curcache: nat
    var npages: nat
    var file: File
    var brk: nat              // the next address malloc hands out
    ghost var order: seq<Ptr>
    ghost var chains: seq<seq<Ptr>>
    ghost var res: map<PgNo, Ptr>
    ghost var used: map<PgNo, nat>
    ghost var now: nat
    ghost var touched: set<PgNo>  // pages changed since they were pinned

    ghost function C(): Cache
      reads this
    {
      Cache(bkt, q, hq, lqh, hqh, order, chains, res, used, now)
    }

    ghost function Pages(): map<PgNo, Page>
      reads this
    {
      View(C(), file, npages)
    }

    ghost predicate Inside()
      reads this
    {
      && Queues(C()) && Contents(C(), file, npages, touched)
      && forall p {:trigger p in bkt} :: p in bkt ==> p.Bucket? && p.n < brk
    }

    ghost predicate Valid()
      reads this
    {
      Inside() && curcache == |order|
    }

    /** `mpool_open` on a file of whole pages. */
    constructor (file: seq<Page>, maxcache: nat)
      ensures Valid() && Pins(C()) == {} && touched == {} && this.maxcache == maxcache && curcache == 0
      ensures npages == |file| && forall n :: 0 <= n < |file| ==> Pages()[n] == file[n]
    {
      this.maxcache, this.file := maxcache, map n | 0 <= n < |file| :: file[n];
      bkt, q, hq, lqh := map[], map[], map[], Empty(Lru);
      hqh := seq(HASHSIZE, k requires 0 <= k => Empty(Hash(k)));
      curcache, npages, brk := 0, |file|, 0;
      order, chains, res, used, now, touched := [], seq(HASHSIZE, k => []), map[], map[], 0, {};
      new;
      forall k | 0 <= k < HASHSIZE
        ensures ChainAt(C(), k)
      {
      }
    }

    /** `mpool_look`: walks the hash queue for a page. */
    method Look(pgno: PgNo) returns (found: bool, p: Ptr)
      requires Inside()
      ensures found <==> pgno in res
      ensures found ==> p == res[pgno] && p in order && p in bkt && bkt[p].pgno == pgno
    {
      var k := HashKey(pgno);
      ghost var s, i := chains[k], 0;
      assert ChainAt(C(), k);
      if pgno in res { OnItsChain(C(), pgno); }
      p := hqh[k].first;
      while p != hqh[k].self
        invariant pgno in res ==> res[pgno] in s
        invariant 0 <= i <= |s| && p == if i < |s| then s[i] else Hash(k)
        invariant forall j :: 0 <= j < i ==> s[j] in bkt && bkt[s[j]].pgno != pgno
        decreases |s| - i
      {
        assert OnChain(C(), k, s[i]) && LinkedAt(hq, Hash(k), s, i);
        assert Placed(C(), p);
        if bkt[p].pgno == pgno {
          return true, p;
        }
        p, i := hq[p].next, i + 1;
      }
      return false, p;
    }

    /** Takes a bucket off its two queues. */
    method Unlink(p: Ptr, ghost j: nat, ghost i: nat)
      requires p in bkt && lqh.self == Lru && IsQueue(q, lqh, order) && |hqh| == |chains| == HASHSIZE && ChainAt(C(), HashKey(bkt[p].pgno))
      requires j < |order| && order[j] == p && i < |chains[HashKey(bkt[p].pgno)]| && chains[HashKey(bkt[p].pgno)][i] == p
      modifies `q, `hq, `lqh, `hqh, `order, `chains, `res
      ensures Detached(old(C()), C(), p, j, i)
    {
      var k := HashKey(bkt[p].pgno);
      var h;
      hq, h := Remove(hq, hqh[k], p, chains[k], i);
      hqh := hqh[k := h];
      q, lqh := Remove(q, lqh, p, order, j);
      order, chains, res := Del(order, j), chains[k := Del(chains[k], i)], res - {bkt[p].pgno};
    }

    /** A bucket goes to the head of hash queue `k`. */
    method HashIn(p: Ptr, k: nat)
      requires k < HASHSIZE && |hqh| == |chains| == HASHSIZE && ChainAt(C(), k) && p.Bucket? && p !in chains[k]
      modifies `hq, `hqh, `chains
      ensures |hqh| == HASHSIZE && hqh == old(hqh)[k := hqh[k]] && chains == old(chains)[k := [p] + old(chains)[k]]
      ensures hqh[k].self == Hash(k) && IsQueue(hq, hqh[k], chains[k]) && OnlyLinks(old(hq), hq, chains[k])
    {
      var h;
      hq, h := InsertHead(hq, hqh[k], p, chains[k]);
      hqh := hqh[k := h];
      chains := chains[k := [p] + chains[k]];
    }

    /** Makes a bucket that is on no queue that of a page: head of its hash queue, tail of the LRU queue. */
    method LinkIn(p: Ptr, b: Bkt)
      requires p.Bucket? && lqh.self == Lru && IsQueue(q, lqh, order) && |hqh| == |chains| == HASHSIZE && ChainAt(C(), HashKey(b.pgno))
      requires p !in order && p !in chains[HashKey(b.pgno)]
      modifies `bkt, `q, `hq, `lqh, `hqh, `order, `chains, `res, `used, `now
      ensures Attached(old(C()), C(), p, b.pgno) && bkt == old(bkt)[p := b]
    {
      hide IsQueue, OnlyLinks;
      HashIn(p, HashKey(b.pgno));
      q, lqh := InsertTail(q, lqh, p, order);
      order := order + [p];
      bkt := bkt[p := b];
      res, used, now := res[b.pgno := p], used[b.pgno := now], now + 1;
    }

    /** `mpool_write`, the filter being the identity. */
    method Flush(p: Ptr)
      requires Inside() && p in order && p in bkt
      modifies `file, `bkt
      ensures Inside() && bkt == old(bkt)[p := old(bkt)[p].(dirty := false)] && file == old(file)[bkt[p].pgno := bkt[p].page]
      ensures Pages() == old(Pages()) && Pins(C()) == old(Pins(C()))
    {
      ghost var c := C();
      var b := bkt[p].(dirty := false);
      assert Placed(c, p);
      assert Holds(c, b.pgno) && Synced(c, file, touched, b.pgno);
      LatestIn(c, file, npages, p);
      hide Queues, Contents, View, Pins;
      BucketSet(c, p, b);
      SetKeeps(c, file, npages, touched, p, b, file[b.pgno := b.page], touched);
      file := file[b.pgno := b.page];
      bkt := bkt[p := b];
    }

    /** The walk of `mpool_bkt` over the LRU queue. */
    method FindVictim() returns (found: bool, p: Ptr, ghost j: nat)
      requires Inside()
      ensures found ==> IsVictim(C(), j) && p == order[j]
      ensures !found ==> forall x :: x in order ==> x in bkt && bkt[x].pinned
    {
      p, j := lqh.first, 0;
      while p != lqh.self
        invariant 0 <= j <= |order| && p == if j < |order| then order[j] else Lru
        invariant forall i :: 0 <= i < j ==> order[i] in bkt && bkt[order[i]].pinned
        decreases |order| - j
      {
        assert Placed(C(), order[j]) && LinkedAt(q, Lru, order, j);
        if !bkt[p].pinned {
          return true, p, j;
        }
        p, j := q[p].next, j + 1;
      }
      found := false;
    }

    /** An unpinned bucket leaves the cache, written if dirty. */
    method Evict(p: Ptr, ghost j: nat)
      requires Inside() && IsVictim(C(), j) && p == order[j]
      modifies `file, `bkt, `q, `hq, `lqh, `hqh, `order, `chains, `res
      ensures Inside() && Pages() == old(Pages()) && Pins(C()) == old(Pins(C())) && p.Bucket? && p in bkt
      ensures order == Del(old(order), j) && p !in order && res == old(res) - {old(bkt)[p].pgno}
    {
      hide Queues, Contents, View, Pins, ChainAt;
      if bkt[p].dirty {
        Flush(p);
      }
      ghost var c, file0 := C(), file;
      ghost var j', i := Places(c, p);
      Unlink(p, j, i);
      DetachedOk(c, C(), p, j, i);
      EvictKeeps(c, C(), file0, file, npages, touched, p, j, i);
    }

    /** `mpool_bkt`: a bucket on no queue.  The cache grows only below its limit or with every page pinned;
        otherwise the first unpinned page of the LRU queue makes room. */
    method TakeBkt() returns (p: Ptr)
      requires Valid()
      modifies `file, `bkt, `q, `hq, `lqh, `hqh, `order, `chains, `res, `brk, `curcache
      ensures Inside() && p.Bucket? && p.n < brk && p !in order && curcache == |order| + 1
      ensures Pages() == old(Pages()) && Pins(C()) == old(Pins(C()))
      ensures res == old(res) || (old(curcache) >= maxcache && exists n :: n in old(res) && Oldest(old(C()), n) && res == old(res) - {n})
      ensures old(curcache) <= maxcache && |old(Pins(C()))| < maxcache ==> curcache <= maxcache
    {
      if curcache >= maxcache {
        if |Pins(C())| < maxcache { NotAllPinned(C(), maxcache); }
        var found;
        ghost var j;
        found, p, j := FindVictim();
        if found {
          VictimIsOldest(C(), j);
          ghost var n := bkt[p].pgno;
          assert Placed(C(), p);
          Evict(p, j);
          assert n in old(res) && Oldest(old(C()), n) && res == old(res) - {n};
          return;
        }
      }
      p := Bucket(brk);
      ghost var placed := Placed(C(), p);
      brk, curcache := brk + 1, curcache + 1;
    }

    /** The rest of `mpool_get` and `mpool_new`: the bucket becomes that of a page, pinned. */
    method Enter(p: Ptr, n: PgNo, page: Page, ghost touched': set<PgNo>)
      requires Inside() && p.Bucket? && p.n < brk && p !in order && n !in res && curcache == |order| + 1
      requires if n < npages then touched' == touched && n in file && page == file[n] else n == npages && touched' == touched + {n}
      modifies `bkt, `q, `hq, `lqh, `hqh, `order, `chains, `res, `used, `now, `npages, `touched
      ensures Valid() && res == old(res)[n := p] && used == old(used)[n := old(now)] && now == old(now) + 1
      ensures npages == (if n < old(npages) then old(npages) else n + 1) && touched == touched' && bkt == old(bkt)[p := Bkt(n, page, true, false)]
      ensures Pages() == old(Pages())[n := page] && Pins(C()) == old(Pins(C())) + {n}
    {
      hide Queues, Contents, View, Pins, IsQueue, OnlyLinks, ChainAt;
      ghost var c, np := C(), if n < npages then npages else n + 1;
      Room(c, p, n);
      LinkIn(p, Bkt(n, page, true, false));
      AttachedOk(c, C(), p, n);
      AttachKeeps(c, C(), file, npages, touched, p, n, touched', np);
      npages := if n < npages then npages else n + 1;
      touched := touched';
    }

    /** A bucket is taken off its queues and put back at their fresh ends. */
    method Move(p: Ptr, b: Bkt, ghost j: nat, ghost i: nat) returns (ghost c1: Cache)
      requires p in bkt && p.Bucket? && b.pgno == bkt[p].pgno
      requires lqh.self == Lru && IsQueue(q, lqh, order) && |hqh| == |chains| == HASHSIZE && ChainAt(C(), HashKey(bkt[p].pgno))
      requires j < |order| && order[j] == p && i < |chains[HashKey(bkt[p].pgno)]| && chains[HashKey(bkt[p].pgno)][i] == p
      modifies `bkt, `q, `hq, `lqh, `hqh, `order, `chains, `res, `used, `now
      ensures Detached(old(C()), c1, p, j, i) && Attached(c1, C(), p, b.pgno) && bkt == old(bkt)[p := b]
      ensures used == old(used)[b.pgno := old(now)] && now == old(now) + 1
    {
      InDel(order, j, p);
      InDel(chains[HashKey(b.pgno)], i, p);
      Unlink(p, j, i);
      c1 := C();
      LinkIn(p, b);
    }

    /** `mpool_get` of a resident page: it moves to the head of its hash queue and the tail of the LRU queue. */
    method Renew(p: Ptr)
      requires Valid() && p in order && p in bkt
      modifies `bkt, `q, `hq, `lqh, `hqh, `order, `chains, `res, `used, `now
      ensures Valid() && bkt == old(bkt)[p := old(bkt)[p].(pinned := true)] && res == old(res)
      ensures used == old(used)[bkt[p].pgno := old(now)] && now == old(now) + 1
      ensures Pages() == old(Pages()) && Pins(C()) == old(Pins(C())) + {bkt[p].pgno}
    {
      hide Queues, Contents, View, Pins, Detached, Attached, ChainAt;
      ghost var c := C();
      ghost var j, i := Places(c, p);
      ghost var c1 := Move(p, bkt[p].(pinned := true), j, i);
      MovedQueues(c, c1, C(), p, j, i);
      MovedContents(c, c1, C(), file, npages, touched, p, j, i);
    }

    /** What a call may do to the set of resident pages: page `n` comes in, and if the cache is full the page
        unused for longest goes. */
    twostate predicate Replaced(n: PgNo)
      reads this
    {
      || res.Keys == old(res).Keys + {n}
      || (old(curcache) >= maxcache && exists v :: v in old(res) && Oldest(old(C()), v) && res.Keys == old(res).Keys - {v} + {n})
    }

    /** `mpool_get` of a page that is not resident: it is read in. */
    method Fetch(pgno: PgNo) returns (p: Ptr)
      requires Valid() && pgno < npages && pgno !in res
      modifies `file, `bkt, `q, `hq, `lqh, `hqh, `order, `chains, `res, `brk, `curcache, `used, `now, `npages, `touched
      ensures Valid() && npages == old(npages) && touched == old(touched) && Pages() == old(Pages())
      ensures p in bkt && bkt[p].pgno == pgno && bkt[p].page == Pages()[pgno]
      ensures Pins(C()) == old(Pins(C())) + {pgno} && used == old(used)[pgno := old(now)] && Replaced(pgno)
      ensures old(curcache) <= maxcache && |old(Pins(C()))| < maxcache ==> curcache <= maxcache
    {
      hide Queues, Contents, View, Pins, Oldest;
      p := TakeBkt();
      LatestOut(C(), file, npages, touched, pgno);
      Enter(p, pgno, file[pgno], touched);
    }

    /** `mpool_get`: the latest contents of a page of the file, pinned; nothing for a page beyond its end.
        A page is not asked for again while it is pinned. */
    method Get(pgno: PgNo) returns (ok: bool, p: Ptr)
      requires Valid()
      modifies `file, `bkt, `q, `hq, `lqh, `hqh, `order, `chains, `res, `brk, `curcache, `used, `now, `npages, `touched
      ensures Valid() && ok == (pgno < npages) && npages == old(npages) && touched == old(touched) && Pages() == old(Pages())
      ensures ok ==> p in bkt && bkt[p].pgno == pgno && bkt[p].page == Pages()[pgno]
      ensures ok ==> Pins(C()) == old(Pins(C())) + {pgno} && used == old(used)[pgno := old(now)] && Replaced(pgno)
      ensures !ok ==> C() == old(C()) && file == old(file)
      ensures old(curcache) <= maxcache && |old(Pins(C()))| < maxcache ==> curcache <= maxcache
    {
      p := Lru;
      if pgno >= npages {
        return false, p;
      }
      ok, p := Look(pgno);
      if ok {
        Renew(p);
        assert Holds(C(), pgno);
      } else {
        p := Fetch(pgno);
        ok := true;
      }
    }

    /** `mpool_new`: the page after the last, pinned, with whatever its buffer holds. */
    method New() returns (pgno: PgNo, p: Ptr)
      requires Valid()
      modifies `file, `bkt, `q, `hq, `lqh, `hqh, `order, `chains, `res, `brk, `curcache, `used, `now, `npages, `touched
      ensures Valid() && pgno == old(npages) && npages == old(npages) + 1 && touched == old(touched) + {pgno}
      ensures p in bkt && bkt[p].pgno == pgno && Pages() == old(Pages())[pgno := bkt[p].page]
      ensures Pins(C()) == old(Pins(C())) + {pgno} && used == old(used)[pgno := old(now)] && Replaced(pgno)
      ensures old(curcache) <= maxcache && |old(Pins(C()))| < maxcache ==> curcache <= maxcache
    {
      hide Queues, Contents, View, Pins, Oldest;
      p := TakeBkt();
      pgno := npages;
      BeyondEnd(C(), file, npages, touched);
      var page: Page :| true;
      Enter(p, pgno, page, touched + {pgno});
    }

    /** The bucket a pointer handed out by the pool belongs to. */
    ghost predicate Handed(p: Ptr)
      reads this
    {
      p in order && p in bkt && bkt[p].pinned
    }

    /** `mpool_put`: a page changed since it was pinned must be marked dirty. */
    method Put(p: Ptr, dirty: bool)
      requires Valid() && Handed(p) && (bkt[p].pgno in touched ==> dirty)
      modifies `bkt, `touched
      ensures Valid() && Pages() == old(Pages()) && bkt.Keys == old(bkt).Keys && bkt[p].pgno == old(bkt)[p].pgno
      ensures Pins(C()) == old(Pins(C())) - {bkt[p].pgno} && touched == old(touched) - {bkt[p].pgno}
    {
      ghost var c := C();
      var b := bkt[p].(pinned := false, dirty := bkt[p].dirty || dirty);
      assert Placed(c, p);
      assert Holds(c, b.pgno) && Synced(c, file, touched, b.pgno);
      BucketSet(c, p, b);
      SetKeeps(c, file, npages, touched, p, b, file, touched - {b.pgno});
      LatestIn(c, file, npages, p);
      bkt := bkt[p := b];
      touched := touched - {b.pgno};
    }

    /** A caller stores through the pointer to a pinned page. */
    method Store(p: Ptr, page: Page)
      requires Valid() && Handed(p)
      modifies `bkt, `touched
      ensures Valid() && Handed(p) && bkt[p].pgno == old(bkt)[p].pgno && Pages() == old(Pages())[bkt[p].pgno := page]
      ensures Pins(C()) == old(Pins(C())) && touched == old(touched) + {bkt[p].pgno}
    {
      ghost var c := C();
      var b := bkt[p].(page := page);
      assert Placed(c, p);
      assert Holds(c, b.pgno);
      assert b.pgno < npages && Pins(c) + {b.pgno} == Pins(c);
      hide Queues, Contents, View, Pins;
      BucketSet(c, p, b);
      SetKeeps(c, file, npages, touched, p, b, file, touched + {b.pgno});
      bkt := bkt[p := b];
      touched := touched + {b.pgno};
    }

    /** `mpool_sync`: afterwards no page is dirty and the file holds every page that is not being changed. */
    method Sync()
      requires Valid()
      modifies `file, `bkt
      ensures Valid() && Pages() == old(Pages()) && Pins(C()) == old(Pins(C()))
      ensures forall p :: p in order ==> p in bkt && !bkt[p].dirty
      ensures forall n: PgNo :: n < npages && n !in touched ==> n in file && file[n] == Pages()[n]
    {
      hide Queues, Contents, View, Pins;
      Ends(C());
      var p := lqh.first;
      ghost var j := 0;
      while p != lqh.self
        invariant Valid() && Pages() == old(Pages()) && Pins(C()) == old(Pins(C()))
        invariant 0 <= j <= |order| && (if j < |order| then p == order[j] && p != Lru else p == Lru)
        invariant forall i :: 0 <= i < j ==> order[i] in bkt && !bkt[order[i]].dirty
        decreases |order| - j
      {
        Along(C(), j);
        if bkt[p].dirty {
          Flush(p);
        }
        p, j := q[p].next, j + 1;
      }
      AllClean(C(), file, npages, touched);
    }
  }
}
