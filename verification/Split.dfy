/** The split of one page's entries between two pages (`bt_psplit` of bt_split.c). */
module Split {
  import opened Keys
  import opened Layout

  /** No entry takes more than half a page, its slot included, and together they fit. */
  ghost predicate Sized(ents: seq<Ent>, full: nat) {
    && Used(ents) <= full
    && forall i :: 0 <= i < |ents| ==> Nb(ents[i]) + SLOT <= full / 2
  }

  /** The left page after the first `nl` entries, with the slot open at `skip` if `slot`. */
  ghost function LeftOf(ents: seq<Ent>, nl: nat, skip: nat, slot: bool, hole: Ent): seq<Ent>
    requires nl <= |ents| && (slot ==> skip <= nl)
  {
    if slot then Ins(ents[..nl], skip, hole) else ents[..nl]
  }

  ghost function RightOf(ents: seq<Ent>, nl: nat, skip: nat, slot: bool, hole: Ent): seq<Ent>
    requires nl <= |ents| && (!slot ==> nl <= skip <= |ents|)
  {
    if slot then ents[nl..] else Ins(ents[nl..], skip - nl, hole)
  }

  /** A cut around a slot for `ilen` bytes at `skip`: `nl` old entries go left, and both pages are
      non-empty and fit. */
  ghost predicate GoodCut(ents: seq<Ent>, full: nat, skip: nat, ilen: nat, nl: nat, slot: bool) {
    && nl <= |ents| && skip <= |ents| && (slot ==> skip <= nl) && (!slot ==> nl <= skip)
    && 0 < nl && (slot ==> nl < |ents|)
    && Used(ents[..nl]) + (if slot then ilen + SLOT else 0) <= full
    && Used(ents[nl..]) + (if slot then 0 else ilen + SLOT) <= full
  }

  lemma {:induction false} CutNonEmpty(ents: seq<Ent>, full: nat, skip: nat, ilen: nat, nl: nat, slot: bool, e: Ent)
    requires GoodCut(ents, full, skip, ilen, nl, slot)
    ensures |LeftOf(ents, nl, skip, slot, e)| > 0 && |RightOf(ents, nl, skip, slot, e)| > 0
  {
  }

  /** The two pages, read in order, are the old entries with the slot at `skip`. */
  lemma {:induction false} SplitKeepsOrder(ents: seq<Ent>, nl: nat, skip: nat, slot: bool, hole: Ent)
    requires nl <= |ents| && skip <= |ents| && (slot ==> skip <= nl) && (!slot ==> nl <= skip)
    ensures LeftOf(ents, nl, skip, slot, hole) + RightOf(ents, nl, skip, slot, hole) == Ins(ents, skip, hole)
  {
  }

  /** The bytes taken on the left page. */
  ghost function LeftUsed(ents: seq<Ent>, nl: nat, slot: bool, ilen: nat): nat
    requires nl <= |ents|
  {
    UpTo(ents, nl) + if slot then ilen + SLOT else 0
  }

  /** Where `bt_psplit` stops: the entry that fills half of the left page is its last, or the next one is
      the last of all or would not fit beside the new item. */
  ghost predicate HalfFull(ents: seq<Ent>, full: nat, skip: nat, ilen: nat, nl: nat, slot: bool)
    requires nl <= |ents|
  {
    var used := LeftUsed(ents, nl, slot, ilen);
    if used >= full / 2 then
      if slot && skip == nl then used - ilen - SLOT < full / 2 else nl > 0 && used - Nb(ents[nl - 1]) - SLOT < full / 2
    else skip <= nl < |ents| && (nl + 1 == |ents| || (slot && used + Nb(ents[nl]) + SLOT >= full))
  }

  /** Where the first loop of `bt_psplit` stops, from `nl`, `off` and `used` on: how many entries go left, and
      whether the slot does. */
  function Stop(ents: seq<Ent>, skip: nat, ilen: nat, full: nat, nl: nat, off: nat, used: nat): (nat, bool)
    requires nl <= |ents|
    decreases |ents| - nl, if off <= skip then 1 else 0
  {
    if nl == |ents| then (nl, skip <= off)
    else
      var nbytes := if skip == off then ilen else Nb(ents[nl]);
      if skip <= off && (used + nbytes + SLOT >= full || nl + 1 == |ents|) then (nl, skip < off)
      else
        var nxt := if skip == off then nl else nl + 1;
        if used + nbytes + SLOT >= full / 2 then (nxt, skip <= off)
        else Stop(ents, skip, ilen, full, nxt, off + 1, used + nbytes + SLOT)
  }

  /** The cut of a page for an item of `ilen` bytes at `skip`; `last` says that the page is the last of its
      level and not the root, so that an item appended to it goes on a new page alone. */
  function CutOf(ents: seq<Ent>, skip: nat, ilen: nat, full: nat, last: bool): (nat, bool) {
    if last && skip == |ents| then (|ents|, false) else Stop(ents, skip, ilen, full, 0, 0, 0)
  }

  lemma {:induction false} LeftGrows(ents: seq<Ent>, nl: nat, skip: nat, slot: bool, hole: Ent)
    requires nl < |ents| && (slot ==> skip <= nl)
    ensures LeftOf(ents, nl + 1, skip, slot, hole) == LeftOf(ents, nl, skip, slot, hole) + [ents[nl]]
  {
  }

  lemma {:induction false} LeftOpens(ents: seq<Ent>, nl: nat, hole: Ent)
    requires nl <= |ents|
    ensures LeftOf(ents, nl, nl, true, hole) == LeftOf(ents, nl, nl, false, hole) + [hole]
  {
  }

  /** A state the first loop of `bt_psplit` passes through. */
  ghost predicate Filling(ents: seq<Ent>, skip: nat, ilen: nat, full: nat, nl: nat, off: nat, used: nat) {
    && Sized(ents, full) && skip <= |ents| && ilen + SLOT <= full / 2 && Used(ents) + ilen + SLOT > full
    && nl <= |ents| && used < full / 2 && used == LeftUsed(ents, nl, off > skip, ilen)
    && off == (if off <= skip then nl else nl + 1) && (off > skip ==> skip <= nl < |ents|)
    && (skip == 0 ==> off == 0 || ilen + SLOT < full / 2)
  }

  /** What the cut comes to: `slot` says that the slot is left. */
  ghost predicate CutFacts(ents: seq<Ent>, skip: nat, ilen: nat, full: nat, nl: nat, slot: bool) {
    && nl <= |ents| && (if slot then skip <= nl else nl <= skip)
    && (nl == 0 <==> skip == 0 && ilen + SLOT >= full / 2) && (nl == 0 ==> slot) && (nl > 0 && slot ==> nl < |ents|)
    && HalfFull(ents, full, skip, ilen, nl, slot) && LeftUsed(ents, nl, slot, ilen) <= full
    && Used(ents) + ilen + SLOT - LeftUsed(ents, nl, slot, ilen) <= full
  }

  lemma {:induction false} StopFacts(ents: seq<Ent>, skip: nat, ilen: nat, full: nat, nl: nat, off: nat, used: nat)
    requires Filling(ents, skip, ilen, full, nl, off, used)
    ensures var cut := Stop(ents, skip, ilen, full, nl, off, used); CutFacts(ents, skip, ilen, full, cut.0, cut.1)
    decreases |ents| - nl, if off <= skip then 1 else 0
  {
    hide Nb;
    if nl < |ents| {
      var nbytes := if skip == off then ilen else Nb(ents[nl]);
      var nxt := if skip == off then nl else nl + 1;
      if !(skip <= off && (used + nbytes + SLOT >= full || nl + 1 == |ents|)) && used + nbytes + SLOT < full / 2 {
        StopFacts(ents, skip, ilen, full, nxt, off + 1, used + nbytes + SLOT);
      }
    }
  }

  /** The first loop of `bt_psplit` (lines 637-699): copies to the left page until it holds half a
      page, and stops before the last entry once the slot is placed.  `off` is the last offset valid
      on the left page; where the source decrements it, it is positive. */
  method FillLeft(ents: seq<Ent>, skip: nat, ilen: nat, full: nat, hole: Ent)
    returns (left: seq<Ent>, off: nat, nl: nat)
    requires Sized(ents, full) && skip <= |ents|
    requires ilen + SLOT <= full / 2 && Used(ents) + ilen + SLOT > full
    ensures (nl, skip <= off) == CutOf(ents, skip, ilen, full, false) && CutFacts(ents, skip, ilen, full, nl, skip <= off)
    ensures left == LeftOf(ents, nl, skip, skip <= off, hole) && (nl == 0 ==> off == 0)
  {
    hide CutFacts, HalfFull, Sized, Nb;
    var half := full / 2;
    var top := |ents|;
    var used: nat := 0;
    left, off, nl := [], 0, 0;
    FillingStarts(ents, skip, ilen, full);
    StopFacts(ents, skip, ilen, full, 0, 0, 0);
    while nl < top
      invariant Filling(ents, skip, ilen, full, nl, off, used)
      invariant left == LeftOf(ents, nl, skip, off > skip, hole)
      invariant Stop(ents, skip, ilen, full, nl, off, used) == CutOf(ents, skip, ilen, full, false)
      decreases top - nl, skip - off
    {
      var nbytes := if skip == off then ilen else Nb(ents[nl]);
      if skip <= off && (used + nbytes + SLOT >= full || nl == top - 1) {
        off := off - 1;
        break;
      }
      if skip != off {
        LeftGrows(ents, nl, skip, off > skip, hole);
        left := left + [ents[nl]];
        nl := nl + 1;
      } else {
        LeftOpens(ents, nl, hole);
        left := left + [hole];
      }
      used := used + nbytes + SLOT;
      if used >= half {
        break;
      }
      off := off + 1;
    }
  }

  lemma {:induction false} FillingStarts(ents: seq<Ent>, skip: nat, ilen: nat, full: nat)
    requires Sized(ents, full) && skip <= |ents| && ilen + SLOT <= full / 2 && Used(ents) + ilen + SLOT > full
    ensures Filling(ents, skip, ilen, full, 0, 0, 0) && |ents| >= 2
  {
    if |ents| > 0 { assert UpTo(ents, 1) == UpTo(ents, 0) + Nb(ents[0]) + SLOT; }
  }

  /** The second loop of `bt_psplit` (lines 726-772): the rest goes right, around the slot if it is there. */
  method FillRight(ents: seq<Ent>, skip: nat, slotLeft: bool, nl: nat, hole: Ent) returns (right: seq<Ent>)
    requires 0 < |ents| && skip <= |ents| && nl <= |ents| && (!slotLeft ==> nl <= skip)
    requires nl == 0 ==> slotLeft
    ensures nl > 0 ==> right == RightOf(ents, nl, skip, slotLeft, hole)
    ensures nl == 0 ==> right == [hole] + ents
  {
    var top := |ents|;
    var nxt := nl;
    var open := if slotLeft then 0 else skip;
    right := [];
    while nxt < top
      invariant nl <= nxt <= top
      invariant slotLeft && nl > 0 ==> open == 0 && right == ents[nl..nxt]
      invariant slotLeft && nl == 0 ==> open == 0 && right == if nxt == 0 then [] else [hole] + ents[..nxt]
      invariant !slotLeft && nxt <= skip ==> open == skip && right == ents[nl..nxt]
      invariant !slotLeft && nxt > skip ==> open == 0 && right == Ins(ents[nl..nxt], skip - nl, hole)
    {
      assert ents[nl..nxt + 1] == ents[nl..nxt] + [ents[nxt]];
      if open == nxt {
        right := right + [hole];
        open := 0;
      }
      right := right + [ents[nxt]];
      nxt := nxt + 1;
    }
    assert ents[nl..top] == ents[nl..];
    if open == top {
      right := right + [hole];
    }
  }

  /** `bt_psplit`: distributes `ents` over `left` and `right`, leaving a slot open for an item of
      `ilen` bytes at index `skip` of the whole.  `hole` stands for whatever an open slot holds.
      `slotLeft` says on which page the slot is and `at` where; `nl` entries went left.

      Both pages are non-empty, fit, and read in order are the old entries around the slot -- unless
      the slot is the very first and its item takes half a page: then a second slot is left open at
      the front of the right page. */
  method PSplit(ents: seq<Ent>, skip: nat, ilen: nat, full: nat, hole: Ent)
    returns (left: seq<Ent>, right: seq<Ent>, slotLeft: bool, at: nat, nl: nat)
    requires Sized(ents, full) && skip <= |ents|
    requires ilen + SLOT <= full / 2 && Used(ents) + ilen + SLOT > full
    ensures left + right == Ins(ents, skip, hole) <==> skip > 0 || ilen + SLOT < full / 2
    ensures nl <= |ents| && (slotLeft ==> skip <= nl) && (!slotLeft ==> nl <= skip)
    ensures at == (if slotLeft then skip else skip - nl) && left == LeftOf(ents, nl, skip, slotLeft, hole)
    ensures (nl, slotLeft) == CutOf(ents, skip, ilen, full, false) && HalfFull(ents, full, skip, ilen, nl, slotLeft)
    ensures skip > 0 || ilen + SLOT < full / 2 ==>
      GoodCut(ents, full, skip, ilen, nl, slotLeft) && right == RightOf(ents, nl, skip, slotLeft, hole)
    ensures skip == 0 && ilen + SLOT >= full / 2 ==> left == [hole] && right == [hole] + ents && slotLeft
  {
    var off;
    left, off, nl := FillLeft(ents, skip, ilen, full, hole);
    slotLeft := skip <= off;
    at := if slotLeft then skip else skip - nl;
    right := FillRight(ents, skip, slotLeft, nl, hole);
    UsedSplit(ents, nl);
    if nl > 0 {
      SplitKeepsOrder(ents, nl, skip, slotLeft, hole);
    } else {
      assert |left + right| == |ents| + 2;
    }
  }

  /** The two ways `bt_page` cuts a page: an item appended to the last page of its level goes on the
      new page alone, anything else through `bt_psplit`. */
  method Cut(ents: seq<Ent>, skip: nat, ilen: nat, full: nat, hole: Ent, lastPage: bool)
    returns (left: seq<Ent>, right: seq<Ent>, slotLeft: bool, at: nat, nl: nat)
    requires Sized(ents, full) && skip <= |ents| && (skip > 0 || ilen + SLOT < full / 2)
    requires ilen + SLOT <= full / 2 && Used(ents) + ilen + SLOT > full
    ensures GoodCut(ents, full, skip, ilen, nl, slotLeft) && at == (if slotLeft then skip else skip - nl)
    ensures left == LeftOf(ents, nl, skip, slotLeft, hole) && right == RightOf(ents, nl, skip, slotLeft, hole)
    ensures (nl, slotLeft) == CutOf(ents, skip, ilen, full, lastPage)
    ensures if lastPage && skip == |ents| then nl == |ents| && !slotLeft else HalfFull(ents, full, skip, ilen, nl, slotLeft)
  {
    if lastPage && skip == |ents| {
      assert ents[..|ents|] == ents && ents[|ents|..] == [];
      return ents, [hole], false, 0, |ents|;
    }
    left, right, slotLeft, at, nl := PSplit(ents, skip, ilen, full, hole);
  }

  /** A record of `n` bytes of data. */
  function Filler(k: Byte, n: nat): Ent { Ent([k], Data(Inline(seq(n, _ => 0)))) }

  /** On 512-byte pages: two records of half a page each, and a third before them. */
  method SecondSlot() returns (ents: seq<Ent>, hole: Ent, left: seq<Ent>, right: seq<Ent>)
    ensures Sized(ents, 492) && |ents| == 2 && Nb(hole) + SLOT == 492 / 2 && Used(ents) + Nb(hole) + SLOT > 492
    ensures left == [hole] && right == [hole] + ents && left + right != Ins(ents, 0, hole)
  {
    ents, hole := [Filler(1, 234), Filler(2, 234)], Filler(0, 234);
    assert UpTo(ents, 2) == UpTo(ents, 1) + Nb(ents[1]) + SLOT && UpTo(ents, 1) == UpTo(ents, 0) + Nb(ents[0]) + SLOT;
    var slotLeft, at, nl;
    left, right, slotLeft, at, nl := PSplit(ents, 0, Nb(hole), 492, hole);
    assert |left + right| == 4 && |Ins(ents, 0, hole)| == 3;
  }
}
