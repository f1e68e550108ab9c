/** Entries as bytes (the WR_ and GET macros of btree.h), and byte pages as sequences of entries. */
module Entries {
  import opened Keys
  import opened Layout
  import opened Slotted

  const P_BIGDATA: Byte := 1

  /** A 32-bit number as stored. */
  function LE32(n: nat): (b: seq<Byte>)
    requires n < 0x1_0000_0000
    ensures |b| == 4
  {
    [n % 256, n / 256 % 256, n / 65536 % 256, n / 16777216]
  }

  ghost predicate Small(e: Ent) {
    && |e.key| < 0x1_0000_0000
    && match e.val
       case Data(Inline(b)) => |b| < 0x1_0000_0000
       case Data(Big(pg, size)) => pg < 0x1_0000_0000 && size < 0x1_0000_0000
       case Child(pg) => pg < 0x1_0000_0000
  }

  /** The data bytes of a leaf item. */
  function Payload(i: Item): (b: seq<Byte>)
    requires i.Big? ==> i.pgno < 0x1_0000_0000 && i.size < 0x1_0000_0000
    ensures |b| == ItemSize(i)
  {
    match i
    case Inline(b) => b
    case Big(pg, size) => LE32(pg) + LE32(size)
  }

  /** WR_BLEAF and WR_BINTERNAL, padded to the aligned length. */
  function Encode(e: Ent): (b: seq<Byte>)
    requires Small(e)
    ensures |b| == Nb(e)
  {
    var body := match e.val
      case Data(i) => LE32(|e.key|) + LE32(ItemSize(i)) + [if i.Big? then P_BIGDATA else 0] + e.key + Payload(i)
      case Child(pg) => LE32(|e.key|) + LE32(pg) + [0] + e.key;
    body + Pad(Nb(e) - |body|)
  }

  function Pad(n: nat): (b: seq<Byte>)
    ensures |b| == n
  {
    seq(n, _ => 0)
  }

  /** GETBLEAF and GETBINTERNAL with their fields read. */
  ghost function Decode(leaf: bool, b: seq<Byte>): Ent
    requires |b| >= HEADER
  {
    var ksize, n := U32(b, 0), U32(b, 4);
    var key := Sub(b, HEADER, ksize);
    if !leaf then Ent(key, Child(n))
    else
      var data := Sub(b, HEADER + ksize, n);
      Ent(key, Data(if b[8] % 2 == 1 && |data| >= NOVFLSIZE then Big(U32(data, 0), U32(data, 4)) else Inline(data)))
  }

  function Sub(b: seq<Byte>, at: nat, n: nat): seq<Byte> {
    if at + n <= |b| then b[at..at + n] else []
  }

  lemma {:induction false} LE32Value(n: nat)
    requires n < 0x1_0000_0000
    ensures U32(LE32(n), 0) == n
  {
    var a, b := n / 256, n / 65536;
    assert n == 256 * a + n % 256;
    assert a == 256 * (a / 256) + a % 256;
    assert a / 256 == b && b / 256 == n / 16777216;
    assert b == 256 * (b / 256) + b % 256;
  }

  lemma {:induction false} U32Prefix(b: seq<Byte>, c: seq<Byte>, n: nat, rest: seq<Byte>)
    requires n < 0x1_0000_0000 && b == c + LE32(n) + rest
    ensures U32(b, |c|) == n
  {
    LE32Value(n);
    var m := LE32(n);
    assert b[|c|] == m[0] && b[|c| + 1] == m[1] && b[|c| + 2] == m[2] && b[|c| + 3] == m[3];
  }

  lemma {:induction false} BigRoundTrip(pg: nat, size: nat)
    requires pg < 0x1_0000_0000 && size < 0x1_0000_0000
    ensures var data := Payload(Big(pg, size)); |data| == NOVFLSIZE && U32(data, 0) == pg && U32(data, 4) == size
  {
    hide LE32;
    var data := LE32(pg) + LE32(size);
    assert data == [] + LE32(pg) + LE32(size) && data == LE32(pg) + LE32(size) + [];
    U32Prefix(data, [], pg, LE32(size));
    U32Prefix(data, LE32(pg), size, []);
  }

  /** A header and two stretches of bytes, read back. */
  lemma {:induction false} Fields(k: nat, d: nat, flag: Byte, key: seq<Byte>, data: seq<Byte>, pad: seq<Byte>)
    requires k < 0x1_0000_0000 && d < 0x1_0000_0000 && |key| == k
    ensures var b := LE32(k) + LE32(d) + [flag] + key + data + pad;
      && U32(b, 0) == k && U32(b, 4) == d && b[8] == flag
      && b[HEADER..HEADER + k] == key && b[HEADER + k..HEADER + k + |data|] == data
  {
    hide LE32;
    var b := LE32(k) + LE32(d) + [flag] + key + data + pad;
    assert b == [] + LE32(k) + (LE32(d) + [flag] + key + data + pad);
    U32Prefix(b, [], k, LE32(d) + [flag] + key + data + pad);
    assert b == LE32(k) + LE32(d) + ([flag] + key + data + pad);
    U32Prefix(b, LE32(k), d, [flag] + key + data + pad);
  }

  lemma {:induction false} LeafRoundTrip(e: Ent)
    requires Small(e) && e.val.Data?
    ensures IsItem(true, Encode(e)) && Decode(true, Encode(e)) == e
  {
    hide LE32, Payload, U32;
    var b, i := Encode(e), e.val.item;
    var flag: Byte, data := if i.Big? then P_BIGDATA else 0, Payload(i);
    Fields(|e.key|, ItemSize(i), flag, e.key, data, Pad(Nb(e) - (HEADER + |e.key| + |data|)));
    if i.Big? { BigRoundTrip(i.pgno, i.size); } else { InlineRoundTrip(i.bytes); }
  }

  lemma {:induction false} InlineRoundTrip(b: seq<Byte>)
    ensures Payload(Inline(b)) == b
  {
  }

  lemma {:induction false} InternalRoundTrip(e: Ent)
    requires Small(e) && e.val.Child?
    ensures IsItem(false, Encode(e)) && Decode(false, Encode(e)) == e
  {
    hide LE32, U32;
    var pad := Pad(Nb(e) - (HEADER + |e.key|));
    Fields(|e.key|, e.val.pg, 0, e.key, [], pad);
    assert Encode(e) == LE32(|e.key|) + LE32(e.val.pg) + [0] + e.key + [] + pad;
  }

  /** The bytes of an entry: key size at 0, data size or child page at 4, flags at 8, then key and data, or for big data
      the page and size of its chain; up to three bytes make the length a multiple of four. */
  lemma {:induction false} EntryBytes(e: Ent)
    requires Small(e)
    ensures var b, k := Encode(e), |e.key|;
      && U32(b, 0) == k && b[9..9 + k] == e.key && |b| % 4 == 0
      && match e.val
         case Child(pg) => U32(b, 4) == pg && b[8] == 0 && 9 + k <= |b| < 9 + k + 4
         case Data(Inline(data)) => U32(b, 4) == |data| && b[8] == 0 && b[9 + k..9 + k + |data|] == data && |b| < 9 + k + |data| + 4
         case Data(Big(pg, size)) => U32(b, 4) == 8 && b[8] == 1 && U32(b, 9 + k) == pg && U32(b, 13 + k) == size && 17 + k <= |b| < 17 + k + 4
  {
    var k := |e.key|;
    match e.val
    case Child(pg) =>
      var pad := Pad(Nb(e) - (HEADER + k));
      Fields(k, pg, 0, e.key, [], pad);
      assert Encode(e) == LE32(k) + LE32(pg) + [0] + e.key + [] + pad;
    case Data(Inline(data)) =>
      Fields(k, |data|, 0, e.key, data, Pad(Nb(e) - (HEADER + k + |data|)));
    case Data(Big(pg, size)) =>
      var data := LE32(pg) + LE32(size);
      var pad := Pad(Nb(e) - (HEADER + k + 8));
      Fields(k, 8, P_BIGDATA, e.key, data, pad);
      ReferenceBytes(LE32(k) + LE32(8) + [P_BIGDATA] + e.key, pg, size, pad);
  }

  lemma {:induction false} ReferenceBytes(head: seq<Byte>, pg: nat, size: nat, pad: seq<Byte>)
    requires pg < 0x1_0000_0000 && size < 0x1_0000_0000
    ensures var b := head + (LE32(pg) + LE32(size)) + pad; U32(b, |head|) == pg && U32(b, |head| + 4) == size
  {
    hide LE32;
    var b := head + (LE32(pg) + LE32(size)) + pad;
    assert b == head + LE32(pg) + (LE32(size) + pad);
    U32Prefix(b, head, pg, LE32(size) + pad);
    assert b == (head + LE32(pg)) + LE32(size) + pad;
    U32Prefix(b, head + LE32(pg), size, pad);
  }

  // ---------------------------------------------------------------- pages

  /** The items of a page are these entries. */
  ghost predicate Spells(leaf: bool, items: seq<seq<Byte>>, ents: seq<Ent>) {
    |items| == |ents| && forall i {:trigger items[i]} {:trigger ents[i]} :: 0 <= i < |ents| ==>
      Small(ents[i]) && (leaf <==> ents[i].val.Data?) && items[i] == Encode(ents[i])
  }

  /** The byte page holds these entries. */
  ghost predicate Shows(page: SlottedPage, ents: seq<Ent>)
    reads page, page.mem, page.linp
  {
    page.Valid() && Spells(page.leaf, Items(page.leaf, page.S()), ents)
  }

  /** What is read from the page is what was written. */
  lemma {:induction false} ReadsBack(leaf: bool, items: seq<seq<Byte>>, ents: seq<Ent>, i: nat)
    requires Spells(leaf, items, ents) && i < |ents|
    ensures |items[i]| >= HEADER && Decode(leaf, items[i]) == ents[i]
  {
    if leaf { LeafRoundTrip(ents[i]); } else { InternalRoundTrip(ents[i]); }
  }

  lemma {:induction false} SumIsUsed(leaf: bool, items: seq<seq<Byte>>, ents: seq<Ent>, n: nat)
    requires Spells(leaf, items, ents) && n <= |ents|
    ensures SumTo(items, n) + SLOT * n == UpTo(ents, n)
  {
    if n > 0 { SumIsUsed(leaf, items, ents, n - 1); }
  }

  /** The space between the index and the items is what the entries leave. */
  lemma {:induction false} FreeSpace(page: SlottedPage, ents: seq<Ent>)
    requires Shows(page, ents)
    ensures page.upper - page.lower == page.mem.Length - BTDATAOFF - Used(ents)
  {
    SumIsUsed(page.leaf, Items(page.leaf, page.S()), ents, |ents|);
  }

  lemma {:induction false} SpellsIns(leaf: bool, items: seq<seq<Byte>>, ents: seq<Ent>, index: nat, e: Ent)
    requires Spells(leaf, items, ents) && index <= |ents| && Small(e) && (leaf <==> e.val.Data?)
    ensures Spells(leaf, Ins(items, index, Encode(e)), Ins(ents, index, e))
  {
  }

  lemma {:induction false} SpellsDel(leaf: bool, items: seq<seq<Byte>>, ents: seq<Ent>, index: nat)
    requires Spells(leaf, items, ents) && index < |ents|
    ensures Spells(leaf, Del(items, index), Del(ents, index))
  {
  }

  /** An entry that fits by the entry sizes fits the byte page, which then holds the entries with it inserted. */
  method InsertEntry(page: SlottedPage, index: nat, e: Ent, ghost ents: seq<Ent>)
    requires Shows(page, ents) && index <= |ents| && Small(e) && (page.leaf <==> e.val.Data?)
    requires Used(ents) + Nb(e) + SLOT <= page.mem.Length - BTDATAOFF
    modifies page, page.mem, page.linp
    ensures Shows(page, Ins(ents, index, e))
  {
    hide Packed, Encode, ItemLen, WellFormed;
    FreeSpace(page, ents);
    if page.leaf { LeafRoundTrip(e); } else { InternalRoundTrip(e); }
    SpellsIns(page.leaf, Items(page.leaf, page.S()), ents, index, e);
    page.Insert(index, Encode(e));
  }

  method DeleteEntry(page: SlottedPage, index: nat, ghost ents: seq<Ent>)
    requires Shows(page, ents) && index < |ents|
    modifies page, page.mem, page.linp
    ensures Shows(page, Del(ents, index))
  {
    hide Packed, Encode, ItemLen, WellFormed;
    SpellsDel(page.leaf, Items(page.leaf, page.S()), ents, index);
    page.Delete(index);
  }
}
