/** The byte-order conversion of pages in place (bt_conv.c).  A page is a byte buffer; numbers are low byte first
    in memory and high byte first on disk. */
module Conv {
  import opened Keys
  import opened Layout
  import opened Slotted

  const P_BINTERNAL := 1
  const P_BLEAF := 2

  function U16(m: seq<Byte>, at: nat): nat
    requires at + 2 <= |m|
  {
    m[at] as int + 256 * (m[at + 1] as int)
  }

  function BigData(flags: Byte): bool { flags % 2 == 1 }
  function BigKey(flags: Byte): bool { flags / 2 % 2 == 1 }

  /** How far into an entry the conversion reaches: its two numbers and flags, and for an overflow reference
      what the source takes to be the reference. */
  function Extent(leaf: bool, flags: Byte): (n: nat)
    ensures 9 <= n <= 25
  {
    if leaf && BigData(flags) then if BigKey(flags) then 25 else 21
    else if BigKey(flags) then 17 else 9
  }

  /** Where byte `t` of an entry comes from: each four-byte window is reversed. */
  function Mirror(leaf: bool, flags: Byte, t: nat): (u: nat)
    ensures t < Extent(leaf, flags) ==> u < Extent(leaf, flags) && (u == 8 <==> t == 8)
  {
    if t < 4 then 3 - t
    else if t < 8 then 11 - t
    else if BigKey(flags) && 9 <= t < 13 then 21 - t
    else if (BigKey(flags) || (leaf && BigData(flags))) && 13 <= t < 17 then 29 - t
    else if leaf && BigData(flags) && 17 <= t < 21 then 37 - t
    else if leaf && BigData(flags) && BigKey(flags) && 21 <= t < 25 then 45 - t
    else t
  }

  // ---------------------------------------------------------------- pages

  function Kind(m: seq<Byte>): nat
    requires |m| >= BTDATAOFF
  {
    U32(m, 12) % 32
  }

  /** The entries a conversion visits: those of internal and leaf pages. */
  function Count(m: seq<Byte>): nat
    requires |m| >= BTDATAOFF
  {
    if Kind(m) == P_BINTERNAL || Kind(m) == P_BLEAF then
      if U16(m, 16) < BTDATAOFF then 0 else (U16(m, 16) - BTDATAOFF) / SLOT
    else 0
  }

  function Leafy(m: seq<Byte>): bool
    requires |m| >= BTDATAOFF
  {
    Kind(m) == P_BLEAF
  }

  /** The place of offset `i` in the page, the entry it leads to, and how far the conversion reaches into it. */
  function Slot(i: nat): nat { BTDATAOFF + SLOT * i }

  ghost function Off(m: seq<Byte>, i: nat): nat
  {
    if Slot(i) + 2 <= |m| then U16(m, Slot(i)) else 0
  }

  ghost function Ext(m: seq<Byte>, i: nat): nat
  {
    if BTDATAOFF <= |m| && Off(m, i) + 9 <= |m| then Extent(Leafy(m), m[Off(m, i) + 8]) else 9
  }

  ghost predicate EntryOk(m: seq<Byte>, i: nat)
    requires |m| >= BTDATAOFF
  {
    Slot(Count(m)) <= Off(m, i) && Off(m, i) + 9 <= |m| && Off(m, i) + Ext(m, i) <= |m|
  }

  /** What conversion relies on: the index lies below the entries, and no two entries overlap as far as it
      reaches into them. */
  ghost predicate Convertible(m: seq<Byte>) {
    && |m| >= BTDATAOFF && Slot(Count(m)) <= |m|
    && (forall i {:trigger EntryOk(m, i)} :: 0 <= i < Count(m) ==> EntryOk(m, i))
    && (forall i, j {:trigger Off(m, i), Off(m, j)} :: 0 <= i < Count(m) && 0 <= j < Count(m) && i != j ==>
          Off(m, i) + Ext(m, i) <= Off(m, j) || Off(m, j) + Ext(m, j) <= Off(m, i))
  }

  /** Byte `k` is touched when entry `i` is converted. */
  ghost predicate Touches(m: seq<Byte>, i: nat, k: nat) {
    Slot(i) <= k < Slot(i) + 2 || Off(m, i) <= k < Off(m, i) + Ext(m, i)
  }

  /** Where a touched byte comes from. */
  ghost function Flip(m: seq<Byte>, i: nat, k: nat): nat
    requires |m| >= BTDATAOFF && Touches(m, i, k) && Off(m, i) + 9 <= |m|
  {
    if Slot(i) <= k < Slot(i) + 2 then 2 * Slot(i) + 1 - k
    else Off(m, i) + Mirror(Leafy(m), m[Off(m, i) + 8], k - Off(m, i))
  }

  /** No byte is touched for two entries. */
  lemma {:induction false} TouchedOnce(m: seq<Byte>, i: nat, j: nat, k: nat)
    requires Convertible(m) && i < Count(m) && j < Count(m) && Touches(m, i, k) && Touches(m, j, k)
    ensures i == j
  {
    assert EntryOk(m, i) && EntryOk(m, j);
    if i != j { var a, b := Off(m, i), Off(m, j); }
  }

  lemma {:induction false} FlipTwice(m: seq<Byte>, i: nat, k: nat)
    requires Convertible(m) && i < Count(m) && Touches(m, i, k)
    ensures EntryOk(m, i) && k < |m| && Flip(m, i, k) < |m| && Touches(m, i, Flip(m, i, k)) && Flip(m, i, Flip(m, i, k)) == k
  {
  }

  /** Where each byte comes from once the entries below `n` are converted. */
  ghost function Source(m: seq<Byte>, n: nat, k: nat): nat
    requires Convertible(m) && n <= Count(m)
  {
    if n == 0 then k
    else if EntryOk(m, n - 1) && Touches(m, n - 1, k) then Flip(m, n - 1, k)
    else Source(m, n - 1, k)
  }

  lemma {:induction false} SourceTouched(m: seq<Byte>, n: nat, i: nat, k: nat)
    requires Convertible(m) && i < n <= Count(m) && Touches(m, i, k)
    ensures EntryOk(m, i) && Source(m, n, k) == Flip(m, i, k)
  {
    assert EntryOk(m, i) && EntryOk(m, n - 1);
    if Touches(m, n - 1, k) {
      TouchedOnce(m, i, n - 1, k);
    } else {
      SourceTouched(m, n - 1, i, k);
    }
  }

  lemma {:induction false} SourceUntouched(m: seq<Byte>, n: nat, k: nat)
    requires Convertible(m) && n <= Count(m) && forall i :: 0 <= i < n ==> !Touches(m, i, k)
    ensures Source(m, n, k) == k
  {
    if n > 0 { SourceUntouched(m, n - 1, k); }
  }

  /** `cur` is `m` with the entries below `n` converted. */
  ghost predicate Half(m: seq<Byte>, cur: seq<Byte>, n: nat)
    requires Convertible(m) && n <= Count(m)
  {
    |cur| == |m| && forall k: nat {:trigger Comes(m, cur, n, k)} :: k < |m| ==> Comes(m, cur, n, k)
  }

  ghost predicate Comes(m: seq<Byte>, cur: seq<Byte>, n: nat, k: nat)
    requires Convertible(m) && n <= Count(m)
  {
    k < |cur| && Source(m, n, k) < |m| && cur[k] == m[Source(m, n, k)]
  }

  /** `cur'` is `cur` with entry `i` of `m` converted. */
  ghost predicate Converts(m: seq<Byte>, cur: seq<Byte>, cur': seq<Byte>, i: nat)
    requires Convertible(m) && i < Count(m)
  {
    && EntryOk(m, i) && |cur| == |cur'| == |m|
    && forall k {:trigger cur'[k]} :: 0 <= k < |m| ==>
         if Touches(m, i, k) then Flip(m, i, k) < |m| && cur'[k] == cur[Flip(m, i, k)] else cur'[k] == cur[k]
  }

  /** Entry `i` itself is still as in `m` while entries below it are converted. */
  lemma {:induction false} StillThere(m: seq<Byte>, cur: seq<Byte>, i: nat, k: nat)
    requires Convertible(m) && i < Count(m) && Half(m, cur, i) && Touches(m, i, k)
    ensures k < |m| && cur[k] == m[k]
  {
    assert EntryOk(m, i);
    forall j | 0 <= j < i
      ensures !Touches(m, j, k)
    {
      if Touches(m, j, k) { TouchedOnce(m, i, j, k); }
    }
    SourceUntouched(m, i, k);
    assert Comes(m, cur, i, k);
  }

  lemma {:induction false} HalfMore(m: seq<Byte>, cur: seq<Byte>, cur': seq<Byte>, i: nat)
    requires Convertible(m) && i < Count(m) && Half(m, cur, i) && Converts(m, cur, cur', i)
    ensures Half(m, cur', i + 1)
  {
    var n := i + 1;
    forall k: nat | k < |m|
      ensures Comes(m, cur', n, k)
    {
      assert Comes(m, cur, i, k);
      if Touches(m, i, k) {
        FlipTwice(m, i, k);
        StillThere(m, cur, i, Flip(m, i, k));
        assert cur'[k] == cur[Flip(m, i, k)];
      } else {
        assert cur'[k] == cur[k];
      }
    }
  }

  /** The header: three page numbers, flags, and the two bounds. */
  function HeadFlip(k: nat): nat {
    if k < 4 then 3 - k else if k < 8 then 11 - k else if k < 12 then 19 - k else if k < 16 then 27 - k
    else if k < 18 then 33 - k else if k < 20 then 37 - k else k
  }

  /** `out` is the disk form of the page `m`. */
  ghost predicate IsOut(m: seq<Byte>, out: seq<Byte>)
    requires Convertible(m)
  {
    && |out| == |m|
    && (forall k {:trigger out[k]} :: 0 <= k < BTDATAOFF ==> HeadFlip(k) < |m| && out[k] == m[HeadFlip(k)])
    && (forall k: nat {:trigger Comes(m, out, Count(m), k)} :: BTDATAOFF <= k < |m| ==> Comes(m, out, Count(m), k))
  }

  // ---------------------------------------------------------------- the disk form, number by number

  /** Numbers read high byte first. */
  function Hi16(m: seq<Byte>, at: nat): nat
    requires at + 2 <= |m|
  {
    256 * (m[at] as int) + m[at + 1] as int
  }

  function Hi32(m: seq<Byte>, at: nat): nat
    requires at + 4 <= |m|
  {
    0x1000000 * (m[at] as int) + 0x10000 * (m[at + 1] as int) + 256 * (m[at + 2] as int) + m[at + 3] as int
  }

  /** The numbers at `at` are the same, low byte first in memory and high byte first on disk. */
  ghost predicate Same16(m: seq<Byte>, out: seq<Byte>, at: nat) { at + 2 <= |m| && |out| == |m| && Hi16(out, at) == U16(m, at) }
  ghost predicate Same32(m: seq<Byte>, out: seq<Byte>, at: nat) { at + 4 <= |m| && |out| == |m| && Hi32(out, at) == U32(m, at) }

  /** The entry at `off` refers to overflow pages for its data, which only leaves do, or for its key. */
  ghost predicate DataAway(m: seq<Byte>, off: nat)
    requires |m| >= 20 && off + 9 <= |m|
  {
    m[12] % 32 == 2 && m[off + 8] % 2 == 1
  }

  ghost predicate KeyAway(m: seq<Byte>, off: nat)
    requires off + 9 <= |m|
  {
    m[off + 8] / 2 % 2 == 1
  }

  /** The numbers of the entry at `off`: key size, data size or child page, and the references. */
  ghost predicate NumbersForm(m: seq<Byte>, out: seq<Byte>, off: nat)
    requires |m| >= 20
  {
    && off + 9 <= |m| == |out| && out[off + 8] == m[off + 8] && Same32(m, out, off) && Same32(m, out, off + 4)
    && (KeyAway(m, off) ==> Same32(m, out, off + 9) && Same32(m, out, off + 13))
    && (DataAway(m, off) && !KeyAway(m, off) ==> Same32(m, out, off + 13) && Same32(m, out, off + 17))
    && (DataAway(m, off) && KeyAway(m, off) ==> Same32(m, out, off + 17) && Same32(m, out, off + 21))
  }

  /** Index slot `i` and the entry it leads to. */
  ghost predicate EntryForm(m: seq<Byte>, out: seq<Byte>, i: nat)
    requires |m| >= 20
  {
    Same16(m, out, 20 + 2 * i) && NumbersForm(m, out, U16(m, 20 + 2 * i))
  }

  /** Byte `k` belongs to a number of the entry at `off`. */
  ghost predicate InEntry(m: seq<Byte>, off: nat, k: nat)
    requires |m| >= 20
  {
    && off + 9 <= |m|
    && (off <= k < off + 8 || (KeyAway(m, off) && off + 9 <= k < off + 17)
        || (DataAway(m, off) && !KeyAway(m, off) && off + 13 <= k < off + 21) || (DataAway(m, off) && KeyAway(m, off) && off + 17 <= k < off + 25))
  }

  ghost predicate InNumber(m: seq<Byte>, i: nat, k: nat)
    requires |m| >= 20
  {
    22 + 2 * i <= |m| && (20 + 2 * i <= k < 22 + 2 * i || InEntry(m, U16(m, 20 + 2 * i), k))
  }

  /** Slot `i` is one of an internal page or a leaf. */
  ghost predicate HasSlot(m: seq<Byte>, i: nat) { |m| >= 20 && m[12] % 32 in {1, 2} && 22 + 2 * i <= U16(m, 16) }

  /** The disk form of the page `m`: every number of its header, index and entries, and no other byte. */
  ghost predicate DiskForm(m: seq<Byte>, out: seq<Byte>) {
    && |m| >= 20 && |out| == |m|
    && Same32(m, out, 0) && Same32(m, out, 4) && Same32(m, out, 8) && Same32(m, out, 12) && Same16(m, out, 16) && Same16(m, out, 18)
    && (forall i: nat {:trigger EntryForm(m, out, i)} :: HasSlot(m, i) ==> EntryForm(m, out, i))
    && (forall k: nat {:trigger out[k]} :: 20 <= k < |m| && (forall i: nat :: HasSlot(m, i) ==> !InNumber(m, i, k)) ==> out[k] == m[k])
  }

  lemma {:induction false} Kinds(m: seq<Byte>, i: nat)
    requires |m| >= BTDATAOFF
    ensures Kind(m) == m[12] % 32 && Leafy(m) == (m[12] % 32 == 2) && (HasSlot(m, i) <==> i < Count(m))
  {
    assert U32(m, 12) % 32 == m[12] % 32;
  }

  lemma {:induction false} InNumberTouches(m: seq<Byte>, i: nat, k: nat)
    requires Convertible(m) && i < Count(m)
    ensures EntryOk(m, i) && (InNumber(m, i, k) ==> Touches(m, i, k))
    ensures Touches(m, i, k) ==> Flip(m, i, k) == k || InNumber(m, i, k)
  {
    Kinds(m, i);
    assert EntryOk(m, i);
  }

  lemma {:induction false} Bytes16(m: seq<Byte>, out: seq<Byte>, at: nat)
    requires at + 2 <= |m| && |out| == |m|
    ensures Same16(m, out, at) <==> out[at] == m[at + 1] && out[at + 1] == m[at]
  {
  }

  lemma {:induction false} Bytes32(m: seq<Byte>, out: seq<Byte>, at: nat)
    requires at + 4 <= |m| && |out| == |m|
    ensures Same32(m, out, at) <==> out[at] == m[at + 3] && out[at + 1] == m[at + 2] && out[at + 2] == m[at + 1] && out[at + 3] == m[at]
  {
  }

  /** Byte `k` of slot `i` and its entry comes from where the conversion takes it. */
  ghost predicate FromFlip(m: seq<Byte>, out: seq<Byte>, i: nat, k: nat)
    requires |m| >= BTDATAOFF
  {
    Off(m, i) + 9 <= |m| && Touches(m, i, k) && k < |out| && Flip(m, i, k) < |m| && out[k] == m[Flip(m, i, k)]
  }

  ghost predicate Flipped(m: seq<Byte>, out: seq<Byte>, i: nat)
    requires |m| >= BTDATAOFF
  {
    forall k: nat {:trigger FromFlip(m, out, i, k)} :: InNumber(m, i, k) ==> FromFlip(m, out, i, k)
  }

  lemma {:induction false} FormFromFlips(m: seq<Byte>, out: seq<Byte>, i: nat)
    requires Convertible(m) && |out| == |m| && i < Count(m) && EntryOk(m, i) && out[Off(m, i) + 8] == m[Off(m, i) + 8] && Flipped(m, out, i)
    ensures EntryForm(m, out, i)
  {
    var off := Off(m, i);
    SlotForm(m, out, i);
    hide Convertible, Flipped, Same32;
    FormAt(m, out, i, 0);
    FormAt(m, out, i, 4);
    if KeyAway(m, off) { FormAt(m, out, i, 9); FormAt(m, out, i, 13); }
    if DataAway(m, off) && !KeyAway(m, off) { FormAt(m, out, i, 13); FormAt(m, out, i, 17); }
    if DataAway(m, off) && KeyAway(m, off) { FormAt(m, out, i, 17); FormAt(m, out, i, 21); }
  }

  lemma {:induction false} SlotForm(m: seq<Byte>, out: seq<Byte>, i: nat)
    requires Convertible(m) && |out| == |m| && i < Count(m) && EntryOk(m, i) && Flipped(m, out, i)
    ensures Same16(m, out, Slot(i)) && U16(m, Slot(i)) == Off(m, i)
  {
    var s := Slot(i);
    assert InNumber(m, i, s) && InNumber(m, i, s + 1);
    assert FromFlip(m, out, i, s) && FromFlip(m, out, i, s + 1);
    Bytes16(m, out, s);
  }

  /** A window of four bytes in an entry. */
  ghost predicate Window(m: seq<Byte>, off: nat, t: nat)
    requires |m| >= 20 && off + 9 <= |m|
  {
    || t == 0 || t == 4 || (KeyAway(m, off) && t in {9, 13}) || (DataAway(m, off) && !KeyAway(m, off) && t in {13, 17})
    || (DataAway(m, off) && KeyAway(m, off) && t in {17, 21})
  }

  lemma {:induction false} WindowFlips(m: seq<Byte>, i: nat, t: nat, k: nat)
    requires Convertible(m) && i < Count(m) && EntryOk(m, i) && Window(m, Off(m, i), t) && Off(m, i) + t <= k < Off(m, i) + t + 4
    ensures Touches(m, i, k) && InNumber(m, i, k) && Off(m, i) + t + 4 <= |m|
    ensures Flip(m, i, k) == 2 * (Off(m, i) + t) + 3 - k
  {
    Kinds(m, i);
  }

  lemma {:induction false} FormAt(m: seq<Byte>, out: seq<Byte>, i: nat, t: nat)
    requires Convertible(m) && |out| == |m| && i < Count(m) && EntryOk(m, i) && Window(m, Off(m, i), t) && Flipped(m, out, i)
    ensures Same32(m, out, Off(m, i) + t)
  {
    var a := Off(m, i) + t;
    WindowFlips(m, i, t, a);
    WindowFlips(m, i, t, a + 1);
    WindowFlips(m, i, t, a + 2);
    WindowFlips(m, i, t, a + 3);
    hide Flip, InNumber, Touches, Window;
    assert FromFlip(m, out, i, a) && FromFlip(m, out, i, a + 1) && FromFlip(m, out, i, a + 2) && FromFlip(m, out, i, a + 3);
    Bytes32(m, out, a);
  }

  /** The other way round, for one byte. */
  lemma {:induction false} FlipFromForm(m: seq<Byte>, out: seq<Byte>, i: nat, k: nat)
    requires Convertible(m) && i < Count(m) && EntryForm(m, out, i) && InNumber(m, i, k)
    ensures EntryOk(m, i) && FromFlip(m, out, i, k)
  {
    assert EntryOk(m, i);
    var s, off := Slot(i), Off(m, i);
    if s <= k < s + 2 {
      Bytes16(m, out, s);
    } else {
      var t := WindowOf(m, i, k);
      WindowFlips(m, i, t, k);
      Bytes32(m, out, off + t);
    }
  }

  lemma {:induction false} WindowOf(m: seq<Byte>, i: nat, k: nat) returns (t: nat)
    requires Convertible(m) && i < Count(m) && EntryOk(m, i) && InNumber(m, i, k) && !(Slot(i) <= k < Slot(i) + 2)
    ensures Window(m, Off(m, i), t) && Off(m, i) + t <= k < Off(m, i) + t + 4
    ensures forall out :: EntryForm(m, out, i) ==> Same32(m, out, Off(m, i) + t)
  {
    var off := Off(m, i);
    t := if k < off + 4 then 0 else if k < off + 8 then 4 else if k < off + 13 then 9 else if k < off + 17 then 13 else if k < off + 21 then 17 else 21;
  }

  /** The disk form is the one the conversion leads to. */
  lemma {:induction false} OutIsForm(m: seq<Byte>, out: seq<Byte>)
    requires Convertible(m) && IsOut(m, out)
    ensures DiskForm(m, out)
  {
    HeaderForm(m, out);
    forall i: nat | HasSlot(m, i)
      ensures EntryForm(m, out, i)
    {
      Kinds(m, i);
      OutFlipped(m, out, i);
      FormFromFlips(m, out, i);
    }
    forall k: nat | 20 <= k < |m| && (forall i: nat :: HasSlot(m, i) ==> !InNumber(m, i, k))
      ensures out[k] == m[k]
    {
      OutElsewhere(m, out, k);
    }
  }

  lemma {:induction false} HeaderForm(m: seq<Byte>, out: seq<Byte>)
    requires |m| >= BTDATAOFF && |out| == |m|
    ensures (Same32(m, out, 0) && Same32(m, out, 4) && Same32(m, out, 8) && Same32(m, out, 12) && Same16(m, out, 16) && Same16(m, out, 18))
      <==> forall k: nat {:trigger out[k]} :: k < BTDATAOFF ==> HeadFlip(k) < |m| && out[k] == m[HeadFlip(k)]
  {
    Bytes32(m, out, 0);
    Bytes32(m, out, 4);
    Bytes32(m, out, 8);
    Bytes32(m, out, 12);
    Bytes16(m, out, 16);
    Bytes16(m, out, 18);
  }

  lemma {:induction false} OutFlipped(m: seq<Byte>, out: seq<Byte>, i: nat)
    requires Convertible(m) && IsOut(m, out) && i < Count(m)
    ensures EntryOk(m, i) && Flipped(m, out, i) && out[Off(m, i) + 8] == m[Off(m, i) + 8]
  {
    assert EntryOk(m, i);
    forall k: nat | Touches(m, i, k)
      ensures FromFlip(m, out, i, k)
    {
      SourceTouched(m, Count(m), i, k);
      FlipTwice(m, i, k);
      assert Comes(m, out, Count(m), k);
    }
    forall k: nat | InNumber(m, i, k)
      ensures FromFlip(m, out, i, k)
    {
      InNumberTouches(m, i, k);
    }
    assert FromFlip(m, out, i, Off(m, i) + 8);
  }

  lemma {:induction false} OutElsewhere(m: seq<Byte>, out: seq<Byte>, k: nat)
    requires Convertible(m) && IsOut(m, out) && 20 <= k < |m| && forall i: nat :: HasSlot(m, i) ==> !InNumber(m, i, k)
    ensures out[k] == m[k]
  {
    StaysPut(m, k);
    assert Comes(m, out, Count(m), k);
  }

  /** A byte of no number stays where it is. */
  lemma {:induction false} StaysPut(m: seq<Byte>, k: nat)
    requires Convertible(m) && forall i: nat :: HasSlot(m, i) ==> !InNumber(m, i, k)
    ensures Source(m, Count(m), k) == k
  {
    if i: nat :| i < Count(m) && Touches(m, i, k) {
      Kinds(m, i);
      InNumberTouches(m, i, k);
      SourceTouched(m, Count(m), i, k);
    } else {
      SourceUntouched(m, Count(m), k);
    }
  }

  lemma {:induction false} FormIsOut(m: seq<Byte>, out: seq<Byte>)
    requires Convertible(m) && DiskForm(m, out)
    ensures IsOut(m, out)
  {
    HeaderForm(m, out);
    forall k: nat | BTDATAOFF <= k < |m|
      ensures Comes(m, out, Count(m), k)
    {
      if i: nat :| HasSlot(m, i) && InNumber(m, i, k) {
        Kinds(m, i);
        assert EntryForm(m, out, i);
        FlipFromForm(m, out, i, k);
        SourceTouched(m, Count(m), i, k);
      } else {
        StaysPut(m, k);
      }
    }
  }

  // ---------------------------------------------------------------- the conversion

  /** `n` bytes at `at` reversed. */
  ghost predicate Reversed(s: seq<Byte>, s': seq<Byte>, at: nat, n: nat) {
    |s'| == |s| && at + n <= |s| && forall k {:trigger s'[k]} :: 0 <= k < |s| ==> s'[k] == s[if at <= k < at + n then 2 * at + n - 1 - k else k]
  }

  method Swap32(m: array<Byte>, at: nat)
    requires at + 4 <= m.Length
    modifies m
    ensures Reversed(old(m[..]), m[..], at, 4)
  {
    m[at], m[at + 1], m[at + 2], m[at + 3] := m[at + 3], m[at + 2], m[at + 1], m[at];
  }

  method Swap16(m: array<Byte>, at: nat)
    requires at + 2 <= m.Length
    modifies m
    ensures Reversed(old(m[..]), m[..], at, 2)
  {
    m[at], m[at + 1] := m[at + 1], m[at];
  }

  /** Two consecutive numbers turned. */
  function Pair(p: nat, k: nat): nat { if p <= k < p + 4 then 2 * p + 3 - k else if p + 4 <= k < p + 8 then 2 * p + 11 - k else k }

  ghost predicate Turned(s: seq<Byte>, s': seq<Byte>, p: nat) {
    |s'| == |s| && p + 8 <= |s| && forall k {:trigger s'[k]} :: 0 <= k < |s| ==> s'[k] == s[Pair(p, k)]
  }

  method SwapPair(m: array<Byte>, p: nat)
    requires p + 8 <= m.Length
    modifies m
    ensures Turned(old(m[..]), m[..], p)
  {
    ghost var s0 := m[..];
    Swap32(m, p);
    ghost var s1 := m[..];
    Swap32(m, p + 4);
    PairTurned(s0, s1, m[..], p);
  }

  lemma {:induction false} PairTurned(s0: seq<Byte>, s1: seq<Byte>, s2: seq<Byte>, p: nat)
    requires Reversed(s0, s1, p, 4) && Reversed(s1, s2, p + 4, 4)
    ensures Turned(s0, s2, p)
  {
  }

  /** `s'` is `s` with the entry at `off` converted. */
  ghost predicate EntryTurned(s: seq<Byte>, s': seq<Byte>, off: nat, leaf: bool) {
    && |s'| == |s| && off + 9 <= |s| && off + Extent(leaf, s[off + 8]) <= |s|
    && forall k {:trigger s'[k]} :: 0 <= k < |s| ==>
         s'[k] == s[if off <= k < off + Extent(leaf, s[off + 8]) then off + Mirror(leaf, s[off + 8], k - off) else k]
  }

  /** The pairs turned, one to three of them, are those of the entry. */
  lemma {:induction false} PairsTurned(s0: seq<Byte>, s1: seq<Byte>, s2: seq<Byte>, s3: seq<Byte>, off: nat, leaf: bool)
    requires off + 9 <= |s0| && off + Extent(leaf, s0[off + 8]) <= |s0| && Turned(s0, s1, off)
    requires var f := s0[off + 8];
      && (if BigKey(f) then Turned(s1, s2, off + 9) else s2 == s1)
      && (if leaf && BigData(f) then Turned(s2, s3, if BigKey(f) then off + 17 else off + 13) else s3 == s2)
    ensures EntryTurned(s0, s3, off, leaf)
  {
    var f := s0[off + 8];
    forall k | 0 <= k < |s0|
      ensures s3[k] == s0[if off <= k < off + Extent(leaf, f) then off + Mirror(leaf, f, k - off) else k]
    {
      var a := if leaf && BigData(f) then Pair(if BigKey(f) then off + 17 else off + 13, k) else k;
      assert s3[k] == s2[a];
      var b := if BigKey(f) then Pair(off + 9, a) else a;
      assert s2[a] == s1[b] == s0[Pair(off, b)];
    }
  }

  /** One entry, found through its offset; its flags stay in place. */
  method SwapEntry(m: array<Byte>, off: nat, leaf: bool)
    requires off + 9 <= m.Length && off + Extent(leaf, m[..][off + 8]) <= m.Length
    modifies m
    ensures EntryTurned(old(m[..]), m[..], off, leaf)
  {
    ghost var s0 := m[..];
    SwapPair(m, off);
    var flags, p := m[off + 8], off + 9;
    ghost var s1 := m[..];
    assert s1[off + 8] == s0[off + 8];
    if BigKey(flags) {
      SwapPair(m, p);
      p := p + 4;
    }
    ghost var s2 := m[..];
    if leaf && BigData(flags) {
      SwapPair(m, p + 4);
    }
    PairsTurned(s0, s1, s2, m[..], off, leaf);
  }

  ghost predicate HeadTurned(s: seq<Byte>, s': seq<Byte>) {
    |s'| == |s| && forall k {:trigger s'[k]} :: 0 <= k < |s| ==> HeadFlip(k) < |s| && s'[k] == s[HeadFlip(k)]
  }

  method SwapHeader(m: array<Byte>)
    requires m.Length >= BTDATAOFF
    modifies m
    ensures HeadTurned(old(m[..]), m[..])
  {
    ghost var s0 := m[..];
    SwapPair(m, 0);
    ghost var s1 := m[..];
    SwapPair(m, 8);
    ghost var s2 := m[..];
    Swap16(m, 16);
    ghost var s3 := m[..];
    Swap16(m, 18);
    HeaderTurned(s0, s1, s2, s3, m[..]);
  }

  lemma {:induction false} HeaderTurned(s0: seq<Byte>, s1: seq<Byte>, s2: seq<Byte>, s3: seq<Byte>, s4: seq<Byte>)
    requires Turned(s0, s1, 0) && Turned(s1, s2, 8) && Reversed(s2, s3, 16, 2) && Reversed(s3, s4, 18, 2)
    ensures HeadTurned(s0, s4)
  {
    forall k | 0 <= k < |s0|
      ensures HeadFlip(k) < |s0| && s4[k] == s0[HeadFlip(k)]
    {
      var a := if 18 <= k < 20 then 37 - k else k;
      assert s4[k] == s3[a];
      var b := if 16 <= a < 18 then 33 - a else a;
      assert s3[a] == s2[b];
      assert s2[b] == s1[Pair(8, b)];
      assert s1[Pair(8, b)] == s0[Pair(0, Pair(8, b))];
    }
  }

  /** One round of the loops: entry `i`, whose offset has been read, and then the offset itself. */
  lemma {:induction false} RoundConverts(m: seq<Byte>, cur: seq<Byte>, mid: seq<Byte>, cur': seq<Byte>, i: nat)
    requires Convertible(m) && i < Count(m) && |cur| == |m|
    requires EntryOk(m, i) && cur[Off(m, i) + 8] == m[Off(m, i) + 8]
    requires EntryTurned(cur, mid, Off(m, i), Leafy(m)) && Reversed(mid, cur', Slot(i), 2)
    ensures Converts(m, cur, cur', i)
  {
  }

  /** The loop of `__bt_pgout`: an entry is found before its offset is turned. */
  method EntriesOut(m: array<Byte>)
    requires Convertible(m[..])
    modifies m
    ensures Half(old(m[..]), m[..], Count(old(m[..])))
  {
    ghost var was := m[..];
    var top, leaf := Count(m[..]), Leafy(m[..]);
    var i := 0;
    assert forall k: nat :: k < |was| ==> Comes(was, was, 0, k);
    while i < top
      invariant 0 <= i <= top && Half(was, m[..], i)
    {
      EntryOut(m, i, leaf, was);
      i := i + 1;
    }
  }

  method EntryOut(m: array<Byte>, i: nat, leaf: bool, ghost was: seq<Byte>)
    requires Convertible(was) && i < Count(was) && leaf == Leafy(was) && Half(was, m[..], i)
    modifies m
    ensures Half(was, m[..], i + 1)
  {
    ghost var cur := m[..];
    EntryFound(was, cur, i);
    hide Half, EntryTurned, Reversed, Converts;
    var off := U16(m[..], Slot(i));
    SwapEntry(m, off, leaf);
    ghost var mid := m[..];
    Swap16(m, Slot(i));
    RoundConverts(was, cur, mid, m[..], i);
    HalfMore(was, cur, m[..], i);
  }

  /** What is read to find entry `i` is still as it was. */
  lemma {:induction false} EntryFound(m: seq<Byte>, cur: seq<Byte>, i: nat)
    requires Convertible(m) && i < Count(m) && Half(m, cur, i)
    ensures EntryOk(m, i) && |cur| == |m| && Slot(i) + 2 <= |cur| && U16(cur, Slot(i)) == Off(m, i)
    ensures cur[Off(m, i) + 8] == m[Off(m, i) + 8] && Ext(m, i) == Extent(Leafy(m), cur[Off(m, i) + 8])
  {
    assert EntryOk(m, i);
    StillThere(m, cur, i, Slot(i));
    StillThere(m, cur, i, Slot(i) + 1);
    StillThere(m, cur, i, Off(m, i) + 8);
  }

  /** `__bt_pgout`: every number is turned where it is, the header last. */
  method PgOut(m: array<Byte>)
    requires Convertible(m[..])
    modifies m
    ensures DiskForm(old(m[..]), m[..])
  {
    ghost var was := m[..];
    EntriesOut(m);
    ghost var half := m[..];
    SwapHeader(m);
    OutDone(was, half, m[..]);
    OutIsForm(was, m[..]);
  }

  lemma {:induction false} OutDone(m: seq<Byte>, half: seq<Byte>, out: seq<Byte>)
    requires Convertible(m) && Half(m, half, Count(m)) && HeadTurned(half, out)
    ensures IsOut(m, out)
  {
    forall k: nat | k < |m|
      ensures k < BTDATAOFF ==> HeadFlip(k) < |m| && out[k] == m[HeadFlip(k)]
      ensures k >= BTDATAOFF ==> Comes(m, out, Count(m), k)
    {
      assert Comes(m, half, Count(m), HeadFlip(k));
      assert out[k] == half[HeadFlip(k)];
      if k < BTDATAOFF { HeaderAlone(m, Count(m), HeadFlip(k)); }
    }
  }

  /** Converting the entries does not touch the header. */
  lemma {:induction false} HeaderAlone(m: seq<Byte>, n: nat, k: nat)
    requires Convertible(m) && n <= Count(m) && k < BTDATAOFF
    ensures Source(m, n, k) == k
  {
    forall i | 0 <= i < n
      ensures !Touches(m, i, k)
    {
      assert EntryOk(m, i);
    }
    SourceUntouched(m, n, k);
  }

  // ---------------------------------------------------------------- and back

  /** Where each byte comes from once the header and the entries below `n` are turned back. */
  ghost function Back(m: seq<Byte>, n: nat, k: nat): nat
    requires Convertible(m) && n <= Count(m)
  {
    if n == 0 then Source(m, Count(m), k) else if Touches(m, n - 1, k) then k else Back(m, n - 1, k)
  }

  ghost predicate Returns(m: seq<Byte>, cur: seq<Byte>, n: nat, k: nat)
    requires Convertible(m) && n <= Count(m)
  {
    k < |cur| && Back(m, n, k) < |m| && cur[k] == m[Back(m, n, k)]
  }

  /** `cur` is the disk form of `m` with the header and the entries below `n` turned back. */
  ghost predicate HalfBack(m: seq<Byte>, cur: seq<Byte>, n: nat)
    requires Convertible(m) && n <= Count(m)
  {
    |cur| == |m| && forall k: nat {:trigger Returns(m, cur, n, k)} :: k < |m| ==> Returns(m, cur, n, k)
  }

  lemma {:induction false} BackLater(m: seq<Byte>, n: nat, i: nat, k: nat)
    requires Convertible(m) && n <= i < Count(m) && Touches(m, i, k)
    ensures EntryOk(m, i) && Back(m, n, k) == Flip(m, i, k)
  {
    assert EntryOk(m, i);
    if n == 0 {
      SourceTouched(m, Count(m), i, k);
    } else {
      if Touches(m, n - 1, k) { TouchedOnce(m, i, n - 1, k); }
      BackLater(m, n - 1, i, k);
    }
  }

  lemma {:induction false} BackDone(m: seq<Byte>, n: nat, k: nat)
    requires Convertible(m) && n <= Count(m)
    ensures Back(m, n, k) == if exists i :: 0 <= i < n && Touches(m, i, k) then k else Source(m, Count(m), k)
  {
    if n > 0 { BackDone(m, n - 1, k); }
  }

  /** Entry `i` is still as on disk while entries below it are turned back. */
  lemma {:induction false} StillOut(m: seq<Byte>, cur: seq<Byte>, i: nat, k: nat)
    requires Convertible(m) && i < Count(m) && HalfBack(m, cur, i) && Touches(m, i, k)
    ensures EntryOk(m, i) && k < |m| && Flip(m, i, k) < |m| && cur[k] == m[Flip(m, i, k)]
  {
    FlipTwice(m, i, k);
    BackLater(m, i, i, k);
    assert Returns(m, cur, i, k);
  }

  lemma {:induction false} BackMore(m: seq<Byte>, cur: seq<Byte>, cur': seq<Byte>, i: nat)
    requires Convertible(m) && i < Count(m) && HalfBack(m, cur, i) && Converts(m, cur, cur', i)
    ensures HalfBack(m, cur', i + 1)
  {
    var n := i + 1;
    forall k: nat | k < |m|
      ensures Returns(m, cur', n, k)
    {
      assert Returns(m, cur, i, k);
      if Touches(m, i, k) {
        FlipTwice(m, i, k);
        StillOut(m, cur, i, Flip(m, i, k));
        assert cur'[k] == cur[Flip(m, i, k)];
      } else {
        assert cur'[k] == cur[k];
      }
    }
  }

  /** What is read to find entry `i` on the way back: its offset, once turned, and its flags, which never move. */
  lemma {:induction false} EntryFoundBack(m: seq<Byte>, cur: seq<Byte>, mid: seq<Byte>, i: nat)
    requires Convertible(m) && i < Count(m) && HalfBack(m, cur, i) && Reversed(cur, mid, Slot(i), 2)
    ensures EntryOk(m, i) && |mid| == |m| && Slot(i) + 2 <= |mid| && U16(mid, Slot(i)) == Off(m, i)
    ensures mid[Off(m, i) + 8] == m[Off(m, i) + 8] && Ext(m, i) == Extent(Leafy(m), mid[Off(m, i) + 8])
  {
    assert EntryOk(m, i);
    StillOut(m, cur, i, Slot(i));
    StillOut(m, cur, i, Slot(i) + 1);
    assert mid[Slot(i)] == cur[Slot(i) + 1] && mid[Slot(i) + 1] == cur[Slot(i)];
    StillOut(m, cur, i, Off(m, i) + 8);
    assert mid[Off(m, i) + 8] == cur[Off(m, i) + 8];
  }

  lemma {:induction false} RoundBack(m: seq<Byte>, cur: seq<Byte>, mid: seq<Byte>, cur': seq<Byte>, i: nat)
    requires Convertible(m) && i < Count(m) && |cur| == |m|
    requires EntryOk(m, i) && |mid| == |m| && mid[Off(m, i) + 8] == m[Off(m, i) + 8]
    requires Reversed(cur, mid, Slot(i), 2) && EntryTurned(mid, cur', Off(m, i), Leafy(m))
    ensures Converts(m, cur, cur', i)
  {
  }

  /** The offset of entry `i` is turned back, and then read. */
  method OffsetIn(m: array<Byte>, i: nat, ghost was: seq<Byte>) returns (off: nat)
    requires Convertible(was) && i < Count(was) && HalfBack(was, m[..], i)
    modifies m
    ensures EntryOk(was, i) && m.Length == |was| && off == Off(was, i) && Reversed(old(m[..]), m[..], Slot(i), 2)
  {
    ghost var cur := m[..];
    assert EntryOk(was, i);
    Swap16(m, Slot(i));
    EntryFoundBack(was, cur, m[..], i);
    off := U16(m[..], Slot(i));
  }

  method EntryIn(m: array<Byte>, i: nat, leaf: bool, ghost was: seq<Byte>)
    requires Convertible(was) && i < Count(was) && leaf == Leafy(was) && HalfBack(was, m[..], i)
    modifies m
    ensures HalfBack(was, m[..], i + 1)
  {
    hide *;
    ghost var cur := m[..];
    var off := OffsetIn(m, i, was);
    ghost var mid := m[..];
    EntryReach(was, cur, mid, i, off);
    SwapEntry(m, off, leaf);
    EntryBack(was, cur, mid, m[..], i, off);
  }

  lemma {:induction false} EntryReach(m: seq<Byte>, cur: seq<Byte>, mid: seq<Byte>, i: nat, off: nat)
    requires Convertible(m) && i < Count(m) && HalfBack(m, cur, i) && Reversed(cur, mid, Slot(i), 2) && off == Off(m, i)
    ensures off + 9 <= |mid| && off + Extent(Leafy(m), mid[off + 8]) <= |mid|
  {
    EntryFoundBack(m, cur, mid, i);
  }

  lemma {:induction false} EntryBack(m: seq<Byte>, cur: seq<Byte>, mid: seq<Byte>, out: seq<Byte>, i: nat, off: nat)
    requires Convertible(m) && i < Count(m) && HalfBack(m, cur, i) && Reversed(cur, mid, Slot(i), 2) && off == Off(m, i)
    requires EntryTurned(mid, out, off, Leafy(m))
    ensures HalfBack(m, out, i + 1)
  {
    EntryFoundBack(m, cur, mid, i);
    RoundBack(m, cur, mid, out, i);
    BackMore(m, cur, out, i);
  }

  /** The loop of `__bt_pgin`: an offset is turned before its entry is found. */
  method EntriesIn(m: array<Byte>, ghost was: seq<Byte>)
    requires Convertible(was) && HalfBack(was, m[..], 0) && m[..BTDATAOFF] == was[..BTDATAOFF]
    modifies m
    ensures HalfBack(was, m[..], Count(was))
  {
    var top, leaf := Count(m[..]), Leafy(m[..]);
    SameHeader(was, m[..]);
    var i := 0;
    while i < top
      invariant 0 <= i <= top && HalfBack(was, m[..], i)
    {
      EntryIn(m, i, leaf, was);
      i := i + 1;
    }
  }

  lemma {:induction false} SameHeader(m: seq<Byte>, cur: seq<Byte>)
    requires |m| >= BTDATAOFF && |cur| >= BTDATAOFF && cur[..BTDATAOFF] == m[..BTDATAOFF]
    ensures Count(cur) == Count(m) && Leafy(cur) == Leafy(m)
  {
  }

  lemma {:induction false} HeaderBack(m: seq<Byte>, out: seq<Byte>, cur: seq<Byte>)
    requires Convertible(m) && IsOut(m, out) && HeadTurned(out, cur)
    ensures HalfBack(m, cur, 0) && cur[..BTDATAOFF] == m[..BTDATAOFF]
  {
    forall k: nat | k < |m|
      ensures Returns(m, cur, 0, k) && (k < BTDATAOFF ==> cur[k] == m[k])
    {
      assert cur[k] == out[HeadFlip(k)];
      if k < BTDATAOFF {
        HeaderAlone(m, Count(m), k);
        assert out[HeadFlip(k)] == m[HeadFlip(HeadFlip(k))];
      } else {
        assert Comes(m, out, Count(m), k);
      }
    }
  }

  lemma {:induction false} AllBack(m: seq<Byte>, cur: seq<Byte>)
    requires Convertible(m) && HalfBack(m, cur, Count(m))
    ensures cur == m
  {
    forall k: nat | k < |m|
      ensures cur[k] == m[k]
    {
      assert Returns(m, cur, Count(m), k);
      BackDone(m, Count(m), k);
      if !exists i :: 0 <= i < Count(m) && Touches(m, i, k) { SourceUntouched(m, Count(m), k); }
    }
  }

  /** `__bt_pgin`: turns the disk form of a page back into the page. */
  method PgIn(m: array<Byte>, ghost was: seq<Byte>)
    requires Convertible(was) && DiskForm(was, m[..])
    modifies m
    ensures m[..] == was
  {
    ghost var out := m[..];
    FormIsOut(was, out);
    SwapHeader(m);
    HeaderBack(was, out, m[..]);
    EntriesIn(m, was);
    AllBack(was, m[..]);
  }

  /** What goes out comes back, byte for byte. */
  method OutAndIn(m: array<Byte>)
    requires Convertible(m[..])
    modifies m
    ensures m[..] == old(m[..])
  {
    ghost var was := m[..];
    PgOut(m);
    PgIn(m, was);
  }

  // ---------------------------------------------------------------- which pages these are

  /** The page with its offsets read from the bytes. */
  ghost function PageOf(m: seq<Byte>): Slots
    requires |m| >= BTDATAOFF
  {
    Slots(m, seq(Count(m), i requires 0 <= i => Off(m, i)), U16(m, 18))
  }

  /** A well-formed page is converted safely if conversion stays inside every item. */
  lemma {:induction false} WellFormedConverts(m: seq<Byte>)
    requires |m| >= BTDATAOFF && WellFormed(Leafy(m), PageOf(m))
    requires forall i {:trigger Off(m, i)} :: 0 <= i < Count(m) && Off(m, i) + HEADER <= |m| ==> Ext(m, i) <= ItemLen(Leafy(m), m, Off(m, i))
    ensures Convertible(m)
  {
    hide ItemLen;
    var s := PageOf(m);
    forall i | 0 <= i < Count(m)
      ensures EntryOk(m, i)
    {
      assert ItemIn(Leafy(m), s, i) && s.linp[i] == Off(m, i);
    }
    forall i, j | 0 <= i < Count(m) && 0 <= j < Count(m) && i != j
      ensures Off(m, i) + Ext(m, i) <= Off(m, j) || Off(m, j) + Ext(m, j) <= Off(m, i)
    {
      Apart(Leafy(m), s, i, j);
    }
  }

  /** Without overflow references it always does; with overflow data exactly when the key has four bytes: the
      source takes the reference to start four bytes into the key. */
  lemma {:induction false} StaysInside(leaf: bool, flags: Byte, ksize: nat, dsize: nat)
    requires !BigKey(flags) && (leaf && BigData(flags) ==> dsize == NOVFLSIZE)
    ensures Extent(leaf, flags) <= (if leaf then NbLeaf(ksize, dsize) else NbInternal(ksize)) <==> !(leaf && BigData(flags)) || ksize >= 4
  {
  }

  /** With a shorter key it goes one byte too far. */
  lemma {:induction false} OneByteTooFar(flags: Byte, ksize: nat)
    requires !BigKey(flags) && BigData(flags) && ksize < 4
    ensures Extent(true, flags) == NbLeaf(ksize, NOVFLSIZE) + 1
  {
  }

  /** A page of 512 bytes with one entry, big data under an empty key: the conversion goes past its end. */
  lemma {:induction false} PastTheEnd(m: seq<Byte>)
    requires |m| == MINPSIZE && m[12..22] == [P_BLEAF, 0, 0, 0, 22, 0, 236, 1, 236, 1] && m[492..501] == [0, 0, 0, 0, NOVFLSIZE, 0, 0, 0, 1]
    ensures Leafy(m) && Count(m) == 1 && WellFormed(true, PageOf(m)) && Off(m, 0) == 492
    ensures ItemLen(true, m, 492) == 20 && Off(m, 0) + Ext(m, 0) == |m| + 1 && !Convertible(m)
  {
    var h, e := m[12..22], m[492..501];
    assert m[12] == h[0] && m[13] == h[1] && m[14] == h[2] && m[15] == h[3] && m[16] == h[4] && m[17] == h[5];
    assert m[18] == h[6] && m[19] == h[7] && m[20] == h[8] && m[21] == h[9];
    assert m[492] == e[0] && m[493] == e[1] && m[494] == e[2] && m[495] == e[3] && m[496] == e[4] && m[497] == e[5] && m[498] == e[6] && m[499] == e[7] && m[500] == e[8];
    assert U32(m, 12) == P_BLEAF && U16(m, 16) == 22 && U16(m, 18) == 492 && U16(m, 20) == 492 && U32(m, 492) == 0 && U32(m, 496) == NOVFLSIZE;
    OnePage(m);
  }

  lemma {:induction false} OnePage(m: seq<Byte>)
    requires |m| == MINPSIZE && U32(m, 12) == P_BLEAF && U16(m, 16) == 22 && U16(m, 18) == 492 && U16(m, 20) == 492
    requires U32(m, 492) == 0 && U32(m, 496) == NOVFLSIZE && m[500] == 1
    ensures Leafy(m) && Count(m) == 1 && WellFormed(true, PageOf(m)) && Off(m, 0) == 492
    ensures ItemLen(true, m, 492) == 20 && Off(m, 0) + Ext(m, 0) == |m| + 1 && !Convertible(m)
  {
    hide U32, U16;
    var s := PageOf(m);
    assert s.linp == [492] && s.upper == 492 && ItemLen(true, m, 492) == 20 && ItemIn(true, s, 0);
    forall a | 492 <= a < MINPSIZE
      ensures Owned(true, s, a)
    {
      assert Covers(true, s, 0, a);
    }
    assert !EntryOk(m, 0);
  }

  /** Out and in again, for an entry at `a` with big data under a short key and the entry that follows it 20
      bytes on: the bytes both conversions touch come back only if they are equal. */
  lemma {:induction false} NotRestored(s0: seq<Byte>, s1: seq<Byte>, s2: seq<Byte>, s3: seq<Byte>, s4: seq<Byte>, a: nat)
    requires a + 29 <= |s0| && !BigKey(s0[a + 8]) && BigData(s0[a + 8]) && !BigKey(s0[a + 28]) && !BigData(s0[a + 28])
    requires EntryTurned(s0, s1, a, true) && EntryTurned(s1, s2, a + 20, true) && EntryTurned(s2, s3, a, true) && EntryTurned(s3, s4, a + 20, true)
    ensures |s4| == |s0| && forall k :: 0 <= k < |s0| ==> s4[k] == s0[Cycle(a, k)]
    ensures s4 == s0 <==> s0[a + 17] == s0[a + 20] == s0[a + 23]
  {
    TurnedOnce(s0, s1, s2, a);
    TurnedOnce(s2, s3, s4, a);
    hide EntryTurned, Once;
    forall k: nat | k < |s0|
      ensures s4[k] == s0[Cycle(a, k)]
    {
      Twice(a, k, |s0|);
    }
    assert s4[a + 17] == s0[a + 23] && s4[a + 20] == s0[a + 17] && s4[a + 23] == s0[a + 20];
  }

  /** Where the bytes of the two entries come from when both have been converted once, and twice. */
  function Once(a: nat, k: nat): nat {
    if a <= k < a + 4 then 2 * a + 3 - k else if a + 4 <= k < a + 8 then 2 * a + 11 - k
    else if a + 13 <= k < a + 17 then 2 * a + 29 - k
    else if k == a + 17 then a + 20 else if k == a + 18 then a + 19 else if k == a + 19 then a + 18
    else if k == a + 20 then a + 23 else if k == a + 23 then a + 17 else if k == a + 21 then a + 22 else if k == a + 22 then a + 21
    else if a + 24 <= k < a + 28 then 2 * a + 51 - k else k
  }

  function Cycle(a: nat, k: nat): nat {
    if k == a + 17 then a + 23 else if k == a + 20 then a + 17 else if k == a + 23 then a + 20 else k
  }

  lemma {:induction false} Twice(a: nat, k: nat, n: nat)
    ensures Once(a, Once(a, k)) == Cycle(a, k) && (k < n && a + 29 <= n ==> Once(a, k) < n)
  {
  }

  lemma {:induction false} TurnedOnce(s0: seq<Byte>, s1: seq<Byte>, s2: seq<Byte>, a: nat)
    requires a + 29 <= |s0| && !BigKey(s0[a + 8]) && BigData(s0[a + 8]) && !BigKey(s0[a + 28]) && !BigData(s0[a + 28])
    requires EntryTurned(s0, s1, a, true) && EntryTurned(s1, s2, a + 20, true)
    ensures |s2| == |s0| && (forall k {:trigger s2[k]} :: 0 <= k < |s0| ==> s2[k] == s0[Once(a, k)])
  {
    assert s1[a + 28] == s0[a + 28];
  }
}
