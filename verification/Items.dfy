/** Stored items and the bytes they stand for. */
module Items {
  import opened Keys
  import opened Layout
  import opened Records
  import opened Storage

  /** The stored bytes of an item. */
  ghost function Value(i: Item, chains: Chains): seq<Byte> {
    match i
    case Inline(b) => b
    case Big(pg, _) => if pg in chains then chains[pg].data else []
  }

  /** What a caller of the interface sees: the bytes stored under every key. */
  ghost function ModelOf(recs: Recs, chains: Chains): map<Key, seq<Byte>> {
    map k | k in recs :: Value(recs[k], chains)
  }

  /** Big items refer to live chains of their size, no two to the same. */
  ghost predicate ItemsOk(recs: Recs, chains: Chains) {
    && (forall k {:trigger recs[k]} :: k in recs ==> ItemOk(recs[k], chains))
    && (forall k, k' {:trigger recs[k], recs[k']} :: k in recs && k' in recs && Shares(recs[k], recs[k']) ==> k == k')
  }

  ghost predicate ItemOk(i: Item, chains: Chains) {
    i.Big? ==> i.pgno in chains && |chains[i.pgno].data| == i.size
  }

  ghost predicate Shares(i: Item, j: Item) { i.Big? && j.Big? && i.pgno == j.pgno }

  /** `chains` without the chain of `i`, if it has one. */
  ghost function Without(chains: Chains, i: Item): Chains {
    if i.Big? then chains - {i.pgno} else chains
  }

  ghost predicate Refers(recs: Recs, f: PgNo) { exists k :: k in recs && RefersTo(recs[k], f) }

  ghost predicate RefersTo(i: Item, f: PgNo) { i.Big? && i.pgno == f }

  /** The chains that no record refers to. */
  ghost function Orphans(recs: Recs, chains: Chains): set<PgNo> { set f | f in chains && !Refers(recs, f) }

  /** The chain of an item. */
  ghost function ChainOf(i: Item): set<PgNo> { if i.Big? then {i.pgno} else {} }

  /** No chain is orphaned by a record that goes with its own. */
  lemma {:induction false} OrphansGo(recs: Recs, chains: Chains, key: Key)
    requires ItemsOk(recs, chains) && key in recs
    ensures Orphans(recs - {key}, Without(chains, recs[key])) == Orphans(recs, chains)
  {
    var recs' := recs - {key};
    forall f
      ensures Refers(recs', f) <==> Refers(recs, f) && !RefersTo(recs[key], f)
    {
      if Refers(recs', f) {
        var k :| k in recs' && RefersTo(recs'[k], f);
        assert recs[k] == recs'[k] && k != key;
        assert Shares(recs[k], recs[key]) ==> k == key;
      }
      if Refers(recs, f) && !RefersTo(recs[key], f) {
        var k :| k in recs && RefersTo(recs[k], f);
        assert k in recs' && recs'[k] == recs[k];
      }
    }
  }

  /** A record takes its chain from the orphans. */
  lemma {:induction false} OrphansTaken(recs: Recs, chains: Chains, key: Key, i: Item)
    requires key !in recs
    ensures Orphans(recs[key := i], chains) == Orphans(recs, chains) - ChainOf(i)
  {
    var recs' := recs[key := i];
    forall f
      ensures Refers(recs', f) <==> Refers(recs, f) || RefersTo(i, f)
    {
      if Refers(recs', f) {
        var k :| k in recs' && RefersTo(recs'[k], f);
        assert k == key || recs[k] == recs'[k];
      }
      if Refers(recs, f) {
        var k :| k in recs && RefersTo(recs[k], f);
        assert recs'[k] == recs[k];
      }
      if RefersTo(i, f) { assert key in recs' && RefersTo(recs'[key], f); }
    }
  }

  /** A chain comes as an orphan. */
  lemma {:induction false} OrphanComes(recs: Recs, chains: Chains, f: PgNo, c: Chain)
    requires ItemsOk(recs, chains) && f !in chains
    ensures Orphans(recs, chains[f := c]) == Orphans(recs, chains) + {f} && f !in Orphans(recs, chains)
  {
  }

  /** A record and its chain go; no other key's bytes change. */
  lemma {:induction false} ItemGoes(recs: Recs, chains: Chains, key: Key)
    requires ItemsOk(recs, chains) && key in recs
    ensures ItemOk(recs[key], chains) && ItemsOk(recs - {key}, Without(chains, recs[key]))
    ensures ModelOf(recs - {key}, Without(chains, recs[key])) == ModelOf(recs, chains) - {key}
  {
  }

  /** A chain no record refers to comes; no key's bytes change. */
  lemma {:induction false} ChainComes(recs: Recs, chains: Chains, f: PgNo, c: Chain)
    requires ItemsOk(recs, chains) && f !in chains
    ensures ItemsOk(recs, chains[f := c]) && ModelOf(recs, chains[f := c]) == ModelOf(recs, chains)
    ensures Unused(recs, Big(f, |c.data|))
  {
  }

  /** No record refers to the chain of `i`. */
  ghost predicate Unused(recs: Recs, i: Item) {
    forall k {:trigger recs[k]} :: k in recs ==> !Shares(recs[k], i)
  }

  /** A record comes with an item of its own. */
  lemma {:induction false} ItemComes(recs: Recs, chains: Chains, key: Key, i: Item)
    requires ItemsOk(recs, chains) && key !in recs && ItemOk(i, chains) && Unused(recs, i)
    ensures ItemsOk(recs[key := i], chains)
    ensures ModelOf(recs[key := i], chains) == ModelOf(recs, chains)[key := Value(i, chains)]
  {
  }

  /** Replacing a record frees the chain of the old item, not that of the new one. */
  lemma {:induction false} ItemReplaces(recs: Recs, chains: Chains, key: Key, i: Item)
    requires ItemsOk(recs, chains) && key in recs && ItemOk(i, chains) && Unused(recs, i)
    ensures var chains' := Without(chains, recs[key]);
      ItemOk(i, chains') && Unused(recs - {key}, i) && Value(i, chains') == Value(i, chains)
  {
  }
}
