/** Pages as bytes (btree.h): an index array growing up, items growing down, and their update in place.
    The index array is kept as numbers; it and the items never meet, as `lower <= upper`. */
module Slotted {
  import opened Keys
  import opened Layout

  /** Bytes of the fixed part of an item: two 32-bit sizes (or a size and a page number) and the flags. */
  const HEADER := 9

  /** A 32-bit number in memory, low byte first. */
  function U32(m: seq<Byte>, at: nat): nat
    requires at + 4 <= |m|
  {
    m[at] as int + 256 * (m[at + 1] as int) + 65536 * (m[at + 2] as int) + 16777216 * (m[at + 3] as int)
  }

  /** NBLEAF and NBINTERNAL: the bytes taken by the item at `at`, from its own header. */
  function ItemLen(leaf: bool, m: seq<Byte>, at: nat): (n: nat)
    requires at + HEADER <= |m|
    ensures n >= HEADER
  {
    if leaf then NbLeaf(U32(m, at), U32(m, at + 4)) else NbInternal(U32(m, at))
  }

  /** The bytes of a page with its offsets and the start of its items. */
  datatype Slots = Slots(mem: seq<Byte>, linp: seq<nat>, upper: nat)

  /** Item `i` lies in the item area. */
  ghost predicate ItemIn(leaf: bool, s: Slots, i: nat)
    requires i < |s.linp|
  {
    s.upper <= s.linp[i] && s.linp[i] + HEADER <= |s.mem| && s.linp[i] + ItemLen(leaf, s.mem, s.linp[i]) <= |s.mem|
  }

  ghost predicate Covers(leaf: bool, s: Slots, i: nat, a: nat) {
    i < |s.linp| && s.linp[i] + HEADER <= |s.mem| && s.linp[i] <= a < s.linp[i] + ItemLen(leaf, s.mem, s.linp[i])
  }

  /** The items tile [upper, psize): each lies in it, every byte of it belongs to an item, and to one only. */
  ghost predicate WellFormed(leaf: bool, s: Slots) {
    && BTDATAOFF + SLOT * |s.linp| <= s.upper <= |s.mem|
    && (forall i {:trigger ItemIn(leaf, s, i)} :: 0 <= i < |s.linp| ==> ItemIn(leaf, s, i))
    && (forall a {:trigger Owned(leaf, s, a)} :: s.upper <= a < |s.mem| ==> Owned(leaf, s, a))
    && (forall i, j, a {:trigger Covers(leaf, s, i, a), Covers(leaf, s, j, a)} :: Covers(leaf, s, i, a) && Covers(leaf, s, j, a) ==> i == j)
  }

  ghost predicate Owned(leaf: bool, s: Slots, a: nat) { exists i: nat :: Covers(leaf, s, i, a) }

  /** The bytes of item `i`. */
  ghost function Item(leaf: bool, s: Slots, i: nat): seq<Byte>
    requires i < |s.linp| && ItemIn(leaf, s, i)
  {
    s.mem[s.linp[i]..s.linp[i] + ItemLen(leaf, s.mem, s.linp[i])]
  }

  /** The page decoded: its items in index order. */
  ghost function Items(leaf: bool, s: Slots): (r: seq<seq<Byte>>)
    requires WellFormed(leaf, s)
    ensures |r| == |s.linp| && forall i :: 0 <= i < |r| ==> ItemIn(leaf, s, i) && r[i] == Item(leaf, s, i)
  {
    seq(|s.linp|, i requires 0 <= i < |s.linp| && ItemIn(leaf, s, i) => Item(leaf, s, i))
  }

  /** Bytes of the first `n` items. */
  ghost function SumTo(items: seq<seq<Byte>>, n: nat): nat
    requires n <= |items|
  {
    if n == 0 then 0 else SumTo(items, n - 1) + |items[n - 1]|
  }

  ghost function Sum(items: seq<seq<Byte>>): nat { SumTo(items, |items|) }

  lemma {:induction false} SumIns(items: seq<seq<Byte>>, index: nat, b: seq<Byte>, n: nat)
    requires index <= |items| && n <= |items| + 1
    ensures SumTo(Ins(items, index, b), n) == if n <= index then SumTo(items, n) else SumTo(items, n - 1) + |b|
  {
    if n > 0 { SumIns(items, index, b, n - 1); }
  }

  lemma {:induction false} SumDel(items: seq<seq<Byte>>, index: nat)
    requires index < |items|
    ensures Sum(Del(items, index)) == Sum(items) - |items[index]|
  {
    var rest := Del(items, index);
    assert items == Ins(rest, index, items[index]);
    SumIns(rest, index, items[index], |items|);
  }

  /** An item says its own length. */
  ghost predicate IsItem(leaf: bool, b: seq<Byte>) {
    |b| >= HEADER && ItemLen(leaf, b, 0) == |b|
  }

  // ---------------------------------------------------------------- insertion

  /** The item `b` is written below the others and its offset put at `index`. */
  ghost predicate Inserted(s: Slots, s': Slots, index: nat, b: seq<Byte>) {
    && index <= |s.linp| && |b| <= s.upper && |s'.mem| == |s.mem| && s.upper <= |s.mem|
    && s'.upper == s.upper - |b| && s'.linp == Ins(s.linp, index, s'.upper)
    && s'.mem[s'.upper..s.upper] == b && s'.mem[s.upper..] == s.mem[s.upper..]
  }

  lemma {:induction false} SameItem(leaf: bool, m: seq<Byte>, at: nat, m': seq<Byte>, at': nat, n: nat)
    requires at + n <= |m| && at' + n <= |m'| && m[at..at + n] == m'[at'..at' + n] && n >= HEADER
    ensures ItemLen(leaf, m, at) == ItemLen(leaf, m', at')
  {
    assert forall k {:trigger m[at..at + n][k]} :: 0 <= k < n ==> m[at + k] == m[at..at + n][k] == m'[at'..at' + n][k] == m'[at' + k];
    assert m[at] == m'[at'] && m[at + 1] == m'[at' + 1] && m[at + 2] == m'[at' + 2] && m[at + 3] == m'[at' + 3];
    assert m[at + 4] == m'[at' + 4] && m[at + 5] == m'[at' + 5] && m[at + 6] == m'[at' + 6] && m[at + 7] == m'[at' + 7];
  }

  /** An old item keeps its bytes and gets its new index. */
  lemma {:induction false} OldItem(leaf: bool, s: Slots, s': Slots, index: nat, b: seq<Byte>, i: nat)
    requires WellFormed(leaf, s) && Inserted(s, s', index, b) && i < |s.linp|
    ensures var i' := if i < index then i else i + 1;
      && ItemIn(leaf, s, i) && s'.linp[i'] == s.linp[i] && ItemIn(leaf, s', i') && Item(leaf, s', i') == Item(leaf, s, i)
      && ItemLen(leaf, s'.mem, s.linp[i]) == ItemLen(leaf, s.mem, s.linp[i])
  {
    assert ItemIn(leaf, s, i);
    var at, n := s.linp[i], ItemLen(leaf, s.mem, s.linp[i]);
    assert s.mem[at..at + n] == s.mem[s.upper..][at - s.upper..at - s.upper + n];
    assert s'.mem[at..at + n] == s'.mem[s.upper..][at - s.upper..at - s.upper + n];
    SameItem(leaf, s.mem, at, s'.mem, at, n);
  }

  lemma {:induction false} NewItem(leaf: bool, s: Slots, s': Slots, index: nat, b: seq<Byte>)
    requires Inserted(s, s', index, b) && IsItem(leaf, b)
    ensures s'.linp[index] == s'.upper && ItemIn(leaf, s', index) && Item(leaf, s', index) == b
  {
    assert b == b[0..|b|];
    SameItem(leaf, s'.mem, s'.upper, b, 0, |b|);
  }

  lemma {:induction false} InsertedWell(leaf: bool, s: Slots, s': Slots, index: nat, b: seq<Byte>)
    requires WellFormed(leaf, s) && Inserted(s, s', index, b) && IsItem(leaf, b)
    requires BTDATAOFF + SLOT * |s.linp| + SLOT + |b| <= s.upper
    ensures WellFormed(leaf, s')
  {
    NewItem(leaf, s, s', index, b);
    forall i | 0 <= i < |s'.linp|
      ensures ItemIn(leaf, s', i)
    {
      if i < index { OldItem(leaf, s, s', index, b, i); } else if i > index { OldItem(leaf, s, s', index, b, i - 1); }
    }
    forall a | s'.upper <= a < |s'.mem|
      ensures Owned(leaf, s', a)
    {
      if a < s.upper {
        assert Covers(leaf, s', index, a);
      } else {
        assert Owned(leaf, s, a);
        var i: nat :| Covers(leaf, s, i, a);
        OldItem(leaf, s, s', index, b, i);
        assert Covers(leaf, s', if i < index then i else i + 1, a);
      }
    }
    forall i: nat, j: nat, a: nat | Covers(leaf, s', i, a) && Covers(leaf, s', j, a)
      ensures i == j
    {
      CoveredBefore(leaf, s, s', index, b, i, a);
      CoveredBefore(leaf, s, s', index, b, j, a);
    }
  }

  /** An insertion keeps the page well formed and changes the decoded page by exactly one entry. */
  lemma {:induction false} InsertedOk(leaf: bool, s: Slots, s': Slots, index: nat, b: seq<Byte>)
    requires WellFormed(leaf, s) && Inserted(s, s', index, b) && IsItem(leaf, b)
    requires BTDATAOFF + SLOT * |s.linp| + SLOT + |b| <= s.upper
    ensures WellFormed(leaf, s') && Items(leaf, s') == Ins(Items(leaf, s), index, b)
  {
    hide ItemLen;
    InsertedWell(leaf, s, s', index, b);
    NewItem(leaf, s, s', index, b);
    var r, r' := Ins(Items(leaf, s), index, b), Items(leaf, s');
    forall i | 0 <= i < |r|
      ensures r'[i] == r[i]
    {
      if i < index { OldItem(leaf, s, s', index, b, i); } else if i > index { OldItem(leaf, s, s', index, b, i - 1); }
    }
  }

  lemma {:induction false} CoveredBefore(leaf: bool, s: Slots, s': Slots, index: nat, b: seq<Byte>, i: nat, a: nat)
    requires WellFormed(leaf, s) && Inserted(s, s', index, b) && IsItem(leaf, b) && Covers(leaf, s', i, a)
    ensures i == index ==> a < s.upper
    ensures i != index ==> a >= s.upper && Covers(leaf, s, if i < index then i else i - 1, a)
  {
    NewItem(leaf, s, s', index, b);
    if i != index { OldItem(leaf, s, s', index, b, if i < index then i else i - 1); }
  }

  // ---------------------------------------------------------------- deletion

  /** Where an item at `x` is after one of `nb` bytes at `off` has gone: those below it move up. */
  function Moved(x: nat, off: nat, nb: nat): nat { if x < off then x + nb else x }

  ghost predicate Deleted(s: Slots, s': Slots, index: nat, nb: nat) {
    && index < |s.linp| && |s'.mem| == |s.mem| && |s'.linp| == |s.linp| - 1
    && var off := s.linp[index];
    && s.upper <= off && off + nb <= |s.mem| && s'.upper == s.upper + nb
    && s'.mem[s.upper + nb..off + nb] == s.mem[s.upper..off] && s'.mem[off + nb..] == s.mem[off + nb..]
    && forall i {:trigger s'.linp[i]} :: 0 <= i < |s'.linp| ==> s'.linp[i] == Moved(s.linp[if i < index then i else i + 1], off, nb)
  }

  /** Another item lies below the deleted one or above it. */
  lemma {:induction false} Apart(leaf: bool, s: Slots, i: nat, j: nat)
    requires WellFormed(leaf, s) && i < |s.linp| && j < |s.linp| && i != j
    ensures ItemIn(leaf, s, i) && ItemIn(leaf, s, j)
    ensures s.linp[i] + ItemLen(leaf, s.mem, s.linp[i]) <= s.linp[j] || s.linp[j] + ItemLen(leaf, s.mem, s.linp[j]) <= s.linp[i]
  {
    assert ItemIn(leaf, s, i) && ItemIn(leaf, s, j);
    var a := if s.linp[i] < s.linp[j] then s.linp[j] else s.linp[i];
    var was, now := Covers(leaf, s, i, a), Covers(leaf, s, j, a);
  }

  lemma {:induction false} SubSlice(m: seq<Byte>, a: nat, len: nat, m': seq<Byte>, a': nat, x: nat, n: nat)
    requires a + len <= |m| && a' + len <= |m'| && m'[a'..a' + len] == m[a..a + len] && a <= x && x + n <= a + len
    ensures m'[a' + (x - a)..a' + (x - a) + n] == m[x..x + n]
  {
    var l, r := m'[a' + (x - a)..a' + (x - a) + n], m[x..x + n];
    forall k | 0 <= k < n
      ensures l[k] == r[k]
    {
      assert m[x + k] == m[a..a + len][x - a + k] == m'[a'..a' + len][x - a + k] == m'[a' + (x - a) + k];
    }
  }

  /** A surviving item keeps its bytes, moved or not, and closes up in the index. */
  ghost predicate Kept(leaf: bool, s: Slots, s': Slots, index: nat, i: nat, i': nat, nb: nat) {
    && i < |s.linp| && i' < |s'.linp| && index < |s.linp| && ItemIn(leaf, s, i) && ItemIn(leaf, s', i')
    && s'.linp[i'] == Moved(s.linp[i], s.linp[index], nb) && Item(leaf, s', i') == Item(leaf, s, i)
    && ItemLen(leaf, s'.mem, s'.linp[i']) == ItemLen(leaf, s.mem, s.linp[i])
    && if s.linp[i] < s.linp[index] then s.linp[i] + ItemLen(leaf, s.mem, s.linp[i]) <= s.linp[index] else s.linp[index] + nb <= s.linp[i]
  }

  lemma {:induction false} KeptItem(leaf: bool, s: Slots, s': Slots, index: nat, i': nat)
    requires WellFormed(leaf, s) && index < |s.linp| && ItemIn(leaf, s, index)
    requires Deleted(s, s', index, ItemLen(leaf, s.mem, s.linp[index])) && i' < |s'.linp|
    ensures Kept(leaf, s, s', index, if i' < index then i' else i' + 1, i', ItemLen(leaf, s.mem, s.linp[index]))
  {
    hide ItemLen, WellFormed;
    var i, off, nb := if i' < index then i' else i' + 1, s.linp[index], ItemLen(leaf, s.mem, s.linp[index]);
    Apart(leaf, s, i, index);
    var at, n := s.linp[i], ItemLen(leaf, s.mem, s.linp[i]);
    assert s'.mem[Moved(at, off, nb)..Moved(at, off, nb) + n] == s.mem[at..at + n] by {
      KeptBytes(s, s', index, nb, at, n);
    }
    SameItem(leaf, s.mem, at, s'.mem, Moved(at, off, nb), n);
  }

  lemma {:induction false} KeptBytes(s: Slots, s': Slots, index: nat, nb: nat, at: nat, n: nat)
    requires Deleted(s, s', index, nb) && s.upper <= at && at + n <= |s.mem| && n > 0
    requires at + n <= s.linp[index] || s.linp[index] + nb <= at
    ensures var at' := Moved(at, s.linp[index], nb); s'.mem[at'..at' + n] == s.mem[at..at + n]
  {
    var off := s.linp[index];
    if at < off {
      SubSlice(s.mem, s.upper, off - s.upper, s'.mem, s.upper + nb, at, n);
    } else {
      var len := |s.mem| - off - nb;
      assert s.mem[off + nb..] == s.mem[off + nb..off + nb + len] && s'.mem[off + nb..] == s'.mem[off + nb..off + nb + len];
      SubSlice(s.mem, off + nb, len, s'.mem, off + nb, at, n);
    }
  }

  lemma {:induction false} DeletedWell(leaf: bool, s: Slots, s': Slots, index: nat)
    requires WellFormed(leaf, s) && index < |s.linp| && ItemIn(leaf, s, index) && Deleted(s, s', index, ItemLen(leaf, s.mem, s.linp[index]))
    ensures WellFormed(leaf, s')
  {
    hide ItemLen;
    var off, nb := s.linp[index], ItemLen(leaf, s.mem, s.linp[index]);
    forall i | 0 <= i < |s'.linp|
      ensures ItemIn(leaf, s', i)
    {
      KeptItem(leaf, s, s', index, i);
    }
    forall a | s'.upper <= a < |s'.mem|
      ensures Owned(leaf, s', a)
    {
      StillOwned(leaf, s, s', index, a);
    }
    forall i: nat, j: nat, a: nat | Covers(leaf, s', i, a) && Covers(leaf, s', j, a)
      ensures i == j
    {
      StillOnce(leaf, s, s', index, i, a);
      StillOnce(leaf, s, s', index, j, a);
    }
  }

  /** A byte of a surviving item belonged to it before. */
  lemma {:induction false} StillOnce(leaf: bool, s: Slots, s': Slots, index: nat, i: nat, a: nat)
    requires WellFormed(leaf, s) && index < |s.linp| && ItemIn(leaf, s, index) && Deleted(s, s', index, ItemLen(leaf, s.mem, s.linp[index]))
    requires Covers(leaf, s', i, a)
    ensures var off, nb := s.linp[index], ItemLen(leaf, s.mem, s.linp[index]); var b := if a < off + nb then a - nb else a;
      b >= 0 && Covers(leaf, s, if i < index then i else i + 1, b)
  {
    hide ItemLen, WellFormed;
    KeptItem(leaf, s, s', index, i);
  }

  lemma {:induction false} StillOwned(leaf: bool, s: Slots, s': Slots, index: nat, a: nat)
    requires WellFormed(leaf, s) && index < |s.linp| && ItemIn(leaf, s, index) && Deleted(s, s', index, ItemLen(leaf, s.mem, s.linp[index]))
    requires s'.upper <= a < |s'.mem|
    ensures Owned(leaf, s', a)
  {
    hide ItemLen;
    var off, nb := s.linp[index], ItemLen(leaf, s.mem, s.linp[index]);
    var b := if a < off + nb then a - nb else a;
    assert Owned(leaf, s, b);
    var i: nat :| Covers(leaf, s, i, b);
    assert Covers(leaf, s, i, b) && i != index;
    KeptItem(leaf, s, s', index, if i < index then i else i - 1);
    assert Covers(leaf, s', if i < index then i else i - 1, a);
  }

  /** A deletion keeps the page well formed and changes the decoded page by exactly one entry. */
  lemma {:induction false} DeletedOk(leaf: bool, s: Slots, s': Slots, index: nat)
    requires WellFormed(leaf, s) && index < |s.linp| && ItemIn(leaf, s, index) && Deleted(s, s', index, ItemLen(leaf, s.mem, s.linp[index]))
    ensures WellFormed(leaf, s') && Items(leaf, s') == Del(Items(leaf, s), index)
  {
    hide ItemLen;
    DeletedWell(leaf, s, s', index);
    var r, r' := Del(Items(leaf, s), index), Items(leaf, s');
    forall i | 0 <= i < |r|
      ensures r'[i] == r[i]
    {
      KeptItem(leaf, s, s', index, i);
    }
  }

  /** The items take exactly the item area. */
  ghost predicate Packed(leaf: bool, s: Slots) {
    WellFormed(leaf, s) && Sum(Items(leaf, s)) == |s.mem| - s.upper
  }

  lemma {:induction false} InsertedPacked(leaf: bool, s: Slots, s': Slots, index: nat, b: seq<Byte>)
    requires Packed(leaf, s) && Inserted(s, s', index, b) && WellFormed(leaf, s') && Items(leaf, s') == Ins(Items(leaf, s), index, b)
    ensures Packed(leaf, s')
  {
    hide ItemLen;
    SumIns(Items(leaf, s), index, b, |s.linp| + 1);
  }

  lemma {:induction false} DeletedPacked(leaf: bool, s: Slots, s': Slots, index: nat)
    requires Packed(leaf, s) && index < |s.linp| && ItemIn(leaf, s, index) && Deleted(s, s', index, ItemLen(leaf, s.mem, s.linp[index]))
    requires WellFormed(leaf, s') && Items(leaf, s') == Del(Items(leaf, s), index)
    ensures Packed(leaf, s')
  {
    hide ItemLen;
    SumDel(Items(leaf, s), index);
  }

  // ---------------------------------------------------------------- in place

  /** A leaf or internal page in its buffer. */
  class SlottedPage {
    const leaf: bool
    const mem: array<Byte>
    const linp: array<nat>
    var lower: nat
    var upper: nat

    /** NEXTINDEX. */
    function NextIndex(): nat
      reads this
    {
      if lower < BTDATAOFF then 0 else (lower - BTDATAOFF) / SLOT
    }

    ghost function S(): Slots
      requires NextIndex() <= linp.Length
      reads this, mem, linp
    {
      Slots(mem[..], linp[..NextIndex()], upper)
    }

    ghost predicate Valid()
      reads this, mem, linp
    {
      && lower == BTDATAOFF + SLOT * NextIndex() && NextIndex() <= linp.Length && mem.Length <= BTDATAOFF + SLOT * linp.Length
      && WellFormed(leaf, S()) && Packed(leaf, S())
    }

    /** An empty page: `lower` after the header, `upper` at the end. */
    constructor (leaf: bool, psize: nat)
      requires psize >= BTDATAOFF
      ensures this.leaf == leaf && upper == psize && fresh(mem) && fresh(linp) && Valid() && Items(leaf, S()) == []
    {
      this.leaf := leaf;
      mem, linp := new Byte[psize](_ => 0), new nat[psize](_ => 0);
      lower, upper := BTDATAOFF, psize;
    }

    /** The in-page insertion of `__bt_put` (and of `__bt_split` into a parent): the offsets from `index` on
        move up, the item goes below the others. */
    method Insert(index: nat, item: seq<Byte>)
      requires Valid() && index <= NextIndex() && IsItem(leaf, item) && lower + SLOT + |item| <= upper
      modifies this, mem, linp
      ensures Valid() && NextIndex() == old(NextIndex()) + 1
      ensures Items(leaf, S()) == Ins(old(Items(leaf, S())), index, item)
    {
      hide Packed, ItemLen;
      ghost var s := S();
      var n := NextIndex();
      if index < n {
        forall i | index < i <= n { linp[i] := linp[i - 1]; }
      }
      lower := lower + SLOT;
      upper := upper - |item|;
      linp[index] := upper;
      forall i | 0 <= i < |item| { mem[upper + i] := item[i]; }
      assert linp[..n + 1] == Ins(s.linp, index, upper);
      assert mem[..][upper..s.upper] == item && mem[..][s.upper..] == s.mem[s.upper..];
      InsertedOk(leaf, s, S(), index, item);
      InsertedPacked(leaf, s, S(), index, item);
    }

    /** The bytes from `upper` to `offset` move up by `nbytes`. */
    method Pack(offset: nat, nbytes: nat)
      requires upper <= offset && offset + nbytes <= mem.Length
      modifies mem
      ensures mem[..][upper + nbytes..offset + nbytes] == old(mem[..])[upper..offset] && mem[..][offset + nbytes..] == old(mem[..])[offset + nbytes..]
    {
      forall i | upper <= i < offset { mem[i + nbytes] := mem[i]; }
      assert forall i :: upper <= i < offset ==> mem[i + nbytes] == old(mem[i]);
      assert forall i :: offset + nbytes <= i < mem.Length ==> mem[i] == old(mem[i]);
    }

    /** The offsets are adjusted and closed up over index `index`. */
    method CloseUp(n: nat, index: nat, offset: nat, nbytes: nat)
      requires index < n <= linp.Length
      modifies linp
      ensures forall i :: 0 <= i < n - 1 ==> linp[i] == Moved(old(linp[if i < index then i else i + 1]), offset, nbytes)
    {
      ghost var was := linp[..];
      var ip := 0;
      while ip < index
        invariant 0 <= ip <= index
        invariant forall i :: 0 <= i < ip ==> linp[i] == Moved(was[i], offset, nbytes)
        invariant forall i :: ip <= i < n ==> linp[i] == was[i]
      {
        if linp[ip] < offset {
          linp[ip] := linp[ip] + nbytes;
        }
        ip := ip + 1;
      }
      while ip < n - 1
        invariant index <= ip <= n - 1
        invariant forall i :: 0 <= i < ip ==> linp[i] == Moved(was[if i < index then i else i + 1], offset, nbytes)
        invariant forall i :: ip < i < n ==> linp[i] == was[i]
      {
        linp[ip] := if linp[ip + 1] < offset then linp[ip + 1] + nbytes else linp[ip + 1];
        ip := ip + 1;
      }
    }

    /** The packing of `__bt_dleaf` and `__bt_pdelete`: items below the deleted one move up over it, and the
        offsets are adjusted and closed up. */
    method Delete(index: nat)
      requires Valid() && index < NextIndex()
      modifies this, mem, linp
      ensures Valid() && NextIndex() == old(NextIndex()) - 1
      ensures Items(leaf, S()) == Del(old(Items(leaf, S())), index)
    {
      hide Packed, ItemLen;
      ghost var s := S();
      var n, offset := NextIndex(), linp[index];
      assert ItemIn(leaf, s, index);
      var nbytes := ItemLen(leaf, mem[..], offset);
      Pack(offset, nbytes);
      upper := upper + nbytes;
      CloseUp(n, index, offset, nbytes);
      lower := lower - SLOT;
      DeletedOk(leaf, s, S(), index);
      DeletedPacked(leaf, s, S(), index);
    }
  }

  /** Inserting an item and deleting it again restores the decoded page. */
  method InsertDelete(page: SlottedPage, index: nat, item: seq<Byte>)
    requires page.Valid() && index <= page.NextIndex() && IsItem(page.leaf, item) && page.lower + SLOT + |item| <= page.upper
    modifies page, page.mem, page.linp
    ensures page.Valid() && Items(page.leaf, page.S()) == old(Items(page.leaf, page.S()))
  {
    hide ItemLen, Packed, WellFormed, Items;
    DelIns(Items(page.leaf, page.S()), index, item);
    page.Insert(index, item);
    page.Delete(index);
  }

  lemma {:induction false} DelIns<T>(s: seq<T>, i: nat, e: T)
    requires i <= |s|
    ensures Del(Ins(s, i, e), i) == s
  {
  }
}
