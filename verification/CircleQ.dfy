/** The circular queues of queue.h.  A pointer is an address: of a queue's head, or of an allocated element.
    The link field of all elements is a map from addresses to links, so that a macro's `field` argument is a map
    and its assignments are updates of it. */
module CircleQ {
  import opened Layout

  datatype Ptr = Lru | Hash(k: nat) | Bucket(n: nat)

  datatype Links = Links(next: Ptr, prev: Ptr)
  type Field = map<Ptr, Links>

  /** A queue head: its own address, and its first and last element (itself when empty). */
  datatype Head = Head(self: Ptr, first: Ptr, last: Ptr)

  ghost predicate Distinct<T>(s: seq<T>) {
    forall i, j :: 0 <= i < j < |s| ==> s[i] != s[j]
  }

  /** Element `i` of `s` is linked to its neighbours, the end elements to the head. */
  ghost predicate LinkedAt(f: Field, self: Ptr, s: seq<Ptr>, i: nat)
    requires i < |s|
  {
    s[i] in f && f[s[i]] == Links(if i + 1 < |s| then s[i + 1] else self, if i > 0 then s[i - 1] else self)
  }

  /** The queue is the sequence `s`, read either way. */
  ghost predicate IsQueue(f: Field, h: Head, s: seq<Ptr>) {
    && h.self !in s && Distinct(s)
    && h.first == (if s == [] then h.self else s[0]) && h.last == (if s == [] then h.self else s[|s| - 1])
    && forall i {:trigger LinkedAt(f, h.self, s, i)} :: 0 <= i < |s| ==> LinkedAt(f, h.self, s, i)
  }

  /** Only the links of elements of `s` changed. */
  ghost predicate OnlyLinks(f: Field, f': Field, s: seq<Ptr>) {
    f.Keys <= f'.Keys && forall p {:trigger f'[p]} :: p in f && p !in s ==> f'[p] == f[p]
  }

  lemma {:induction false} QueueFrame(f: Field, f': Field, h: Head, s: seq<Ptr>, changed: seq<Ptr>)
    requires IsQueue(f, h, s) && OnlyLinks(f, f', changed) && forall p :: p in s ==> p !in changed
    ensures IsQueue(f', h, s)
  {
    forall i | 0 <= i < |s|
      ensures LinkedAt(f', h.self, s, i)
    {
      assert LinkedAt(f, h.self, s, i);
      assert s[i] in s;
    }
  }

  /** CIRCLEQ_INIT. */
  function Empty(self: Ptr): (h: Head)
    ensures forall f :: IsQueue(f, h, [])
  {
    Head(self, self, self)
  }

  /** CIRCLEQ_INSERT_HEAD. */
  method InsertHead(f: Field, h: Head, elm: Ptr, ghost s: seq<Ptr>) returns (f': Field, h': Head)
    requires IsQueue(f, h, s) && elm !in s && elm != h.self
    ensures IsQueue(f', h', [elm] + s) && h'.self == h.self && OnlyLinks(f, f', [elm] + s) && f'.Keys == f.Keys + {elm}
  {
    f', h' := f[elm := Links(h.first, h.self)], h;
    if s != [] { assert LinkedAt(f, h.self, s, 0) && LinkedAt(f, h.self, s, |s| - 1); }
    if h'.last == h'.self {
      h' := h'.(last := elm);
    } else {
      f' := f'[h'.first := f'[h'.first].(prev := elm)];
    }
    h' := h'.(first := elm);
    ghost var t := [elm] + s;
    forall i | 0 <= i < |t|
      ensures LinkedAt(f', h.self, t, i)
    {
      if i > 0 { assert LinkedAt(f, h.self, s, i - 1); }
    }
  }

  /** CIRCLEQ_INSERT_TAIL. */
  method InsertTail(f: Field, h: Head, elm: Ptr, ghost s: seq<Ptr>) returns (f': Field, h': Head)
    requires IsQueue(f, h, s) && elm !in s && elm != h.self
    ensures IsQueue(f', h', s + [elm]) && h'.self == h.self && OnlyLinks(f, f', s + [elm]) && f'.Keys == f.Keys + {elm}
  {
    f', h' := f[elm := Links(h.self, h.last)], h;
    if s != [] { assert LinkedAt(f, h.self, s, 0) && LinkedAt(f, h.self, s, |s| - 1); }
    if h'.first == h'.self {
      h' := h'.(first := elm);
    } else {
      f' := f'[h'.last := f'[h'.last].(next := elm)];
    }
    h' := h'.(last := elm);
    ghost var t := s + [elm];
    forall i | 0 <= i < |t|
      ensures LinkedAt(f', h.self, t, i)
    {
      if i < |s| { assert LinkedAt(f, h.self, s, i); }
    }
  }

  /** CIRCLEQ_REMOVE of element `j`. */
  method Remove(f: Field, h: Head, elm: Ptr, ghost s: seq<Ptr>, ghost j: nat) returns (f': Field, h': Head)
    requires IsQueue(f, h, s) && j < |s| && s[j] == elm
    ensures IsQueue(f', h', Del(s, j)) && h'.self == h.self && OnlyLinks(f, f', s) && f'.Keys == f.Keys
  {
    f', h' := f, h;
    DelFacts(s, j);
    assert LinkedAt(f, h.self, s, j);
    if j > 0 { assert LinkedAt(f, h.self, s, j - 1); }
    if j + 1 < |s| { assert LinkedAt(f, h.self, s, j + 1); }
    if f'[elm].next == h'.self {
      h' := h'.(last := f'[elm].prev);
    } else {
      f' := f'[f'[elm].next := f'[f'[elm].next].(prev := f'[elm].prev)];
    }
    if f'[elm].prev == h'.self {
      h' := h'.(first := f'[elm].next);
    } else {
      f' := f'[f'[elm].prev := f'[f'[elm].prev].(next := f'[elm].next)];
    }
    ghost var t := Del(s, j);
    forall i | 0 <= i < |t|
      ensures LinkedAt(f', h.self, t, i)
    {
      assert LinkedAt(f, h.self, s, if i < j then i else i + 1);
      assert t[i] == s[if i < j then i else i + 1];
    }
  }

  lemma {:induction false} DelFacts<T>(s: seq<T>, j: nat)
    requires Distinct(s) && j < |s|
    ensures Distinct(Del(s, j)) && (forall x :: x in Del(s, j) ==> x in s)
    ensures forall i {:trigger Del(s, j)[i]} :: 0 <= i < |s| - 1 ==> Del(s, j)[i] == s[if i < j then i else i + 1]
  {
    var d := Del(s, j);
    assert forall i {:trigger d[i]} :: 0 <= i < |d| ==> d[i] == s[if i < j then i else i + 1];
    forall a, b | 0 <= a < b < |d|
      ensures d[a] != d[b]
    {
      assert d[a] == s[if a < j then a else a + 1] && d[b] == s[if b < j then b else b + 1];
    }
  }
}
