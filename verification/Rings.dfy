/** The circular lists of src/include/elfboot/list.h: rings of heads linked both ways. The other
    modules keep their lists as sequences; here the pointer operations are shown to be the
    operations on sequences that those modules use. */
module Rings {
  class ListHead {
    var prev: ListHead?
    var next: ListHead?

    /** `list_init`: a ring of one. */
    constructor ()
      ensures ListAt(this, [this])
    {
      prev, next := this, this;
    }
  }

  ghost predicate Distinct(c: seq<ListHead>) {
    forall i, j :: 0 <= i < j < |c| ==> c[i] != c[j]
  }

  function After(c: seq<ListHead>, i: nat): ListHead
    requires i < |c|
  {
    if i + 1 < |c| then c[i + 1] else c[0]
  }

  function Before(c: seq<ListHead>, i: nat): ListHead
    requires i < |c|
  {
    if i > 0 then c[i - 1] else c[|c| - 1]
  }

  /** The heads of c, in this order, form a ring. */
  ghost predicate Closed(c: seq<ListHead>)
    reads c
  {
    |c| > 0 && Distinct(c) && forall i :: 0 <= i < |c| ==> c[i].next == After(c, i) && c[i].prev == Before(c, i)
  }

  /** The list at `head`: the ring c starts there, the entries are what follows. */
  ghost predicate ListAt(head: ListHead, c: seq<ListHead>)
    reads c
  {
    Closed(c) && c[0] == head
  }

  /** `list_empty`. */
  method ListEmpty(head: ListHead, ghost c: seq<ListHead>) returns (empty: bool)
    requires ListAt(head, c)
    ensures empty <==> c == [head]
  {
    empty := head.next == head;
  }

  function InsertAt(c: seq<ListHead>, j: nat, entry: ListHead): (d: seq<ListHead>)
    requires j <= |c|
    ensures |d| == |c| + 1
    ensures forall i {:trigger d[i]} :: 0 <= i < |d| ==>
      d[i] == if i < j then c[i] else if i == j then entry else c[i - 1]
  {
    c[..j] + [entry] + c[j..]
  }

  function RemoveAt(c: seq<ListHead>, j: nat): (d: seq<ListHead>)
    requires j < |c|
    ensures |d| == |c| - 1
    ensures forall i {:trigger d[i]} :: 0 <= i < |d| ==> d[i] == if i < j then c[i] else c[i + 1]
  {
    c[..j] + c[j + 1..]
  }

  /** The links of a ring after an entry has been linked in at place j. */
  lemma Inserted(c: seq<ListHead>, j: nat, entry: ListHead)
    requires |c| > 0 && Distinct(c) && entry !in c && 1 <= j <= |c|
    requires entry.prev == c[j - 1] && entry.next == After(c, j - 1)
    requires forall i :: 0 <= i < |c| ==> c[i].next == if i == j - 1 then entry else After(c, i)
    requires forall i :: 0 <= i < |c| ==> c[i].prev == if i == j || (i == 0 && j == |c|) then entry else Before(c, i)
    ensures Closed(InsertAt(c, j, entry))
  {
    hide InsertAt;
    var d := InsertAt(c, j, entry);
    forall i | 0 <= i < |d|
      ensures d[i].next == After(d, i) && d[i].prev == Before(d, i)
    {
      if i < j { assert d[i] == c[i]; } else if i > j { assert d[i] == c[i - 1]; }
    }
    forall x, y | 0 <= x < y < |d|
      ensures d[x] != d[y]
    {
      assert x != j ==> d[x] in c;
      assert y != j ==> d[y] in c;
    }
  }

  /** The links of a ring after entry j has been linked out. */
  lemma Removed(c: seq<ListHead>, j: nat)
    requires Distinct(c) && 1 <= j < |c|
    requires forall i :: 0 <= i < |c| && i != j ==> c[i].next == if i == j - 1 then After(c, j) else After(c, i)
    requires forall i :: 0 <= i < |c| && i != j ==>
      c[i].prev == if i == j + 1 || (i == 0 && j == |c| - 1) then c[j - 1] else Before(c, i)
    ensures Closed(RemoveAt(c, j))
  {
    hide RemoveAt;
    var d := RemoveAt(c, j);
    forall i | 0 <= i < |d|
      ensures d[i].next == After(d, i) && d[i].prev == Before(d, i)
    {
      if i < j { assert d[i] == c[i]; } else { assert d[i] == c[i + 1]; }
    }
    forall x, y | 0 <= x < y < |d|
      ensures d[x] != d[y]
    {
      assert d[x] == c[if x < j then x else x + 1] && d[y] == c[if y < j then y else y + 1];
    }
  }

  /** `__list_add` at place j of the ring. */
  method AddBetween(entry: ListHead, prev: ListHead, next: ListHead, ghost c: seq<ListHead>, ghost j: nat)
    requires Closed(c) && entry !in c && 1 <= j <= |c| && prev == c[j - 1] && next == After(c, j - 1)
    modifies entry, prev, next
    ensures Closed(InsertAt(c, j, entry))
  {
    next.prev := entry;
    entry.next := next;
    entry.prev := prev;
    prev.next := entry;
    Inserted(c, j, entry);
  }

  ghost predicate Apart(c: seq<ListHead>, o: seq<ListHead>) {
    forall i, k :: 0 <= i < |c| && 0 <= k < |o| ==> c[i] != o[k]
  }

  /** Another ring, or none. */
  ghost predicate Other(c: seq<ListHead>, o: seq<ListHead>)
    reads o
  {
    o != [] ==> Closed(o) && Apart(c, o)
  }

  /** A ring stays one while its links stay as they are. */
  twostate lemma Kept(o: seq<ListHead>)
    requires old(Closed(o))
    requires forall i :: 0 <= i < |o| ==> o[i].next == old(o[i].next) && o[i].prev == old(o[i].prev)
    ensures Closed(o)
  {
  }

  /** `list_add`: at the front; another list o stays as it is. */
  method ListAdd(entry: ListHead, head: ListHead, ghost c: seq<ListHead>, ghost o: seq<ListHead>)
    requires ListAt(head, c) && entry !in c && entry !in o && Other(c, o)
    modifies entry, c
    ensures ListAt(head, InsertAt(c, 1, entry)) && (o != [] ==> Closed(o))
  {
    AddBetween(entry, head, head.next, c, 1);
    if o != [] { Kept(o); }
  }

  /** `list_add_tail`: at the end. */
  method ListAddTail(entry: ListHead, head: ListHead, ghost c: seq<ListHead>)
    requires ListAt(head, c) && entry !in c
    modifies entry, c
    ensures ListAt(head, c + [entry])
  {
    AddBetween(entry, head.prev, head, c, |c|);
    assert InsertAt(c, |c|, entry) == c + [entry];
  }

  /** `__list_del` around entry j of the ring. */
  method DelBetween(prev: ListHead, next: ListHead, ghost c: seq<ListHead>, ghost j: nat)
    requires Closed(c) && 1 <= j < |c| && prev == c[j - 1] && next == After(c, j)
    modifies prev, next
    ensures Closed(RemoveAt(c, j))
  {
    prev.next := next;
    next.prev := prev;
    Removed(c, j);
  }

  /** `list_del` of entry j of the list; another list o stays as it is. */
  method ListDel(entry: ListHead, ghost head: ListHead, ghost c: seq<ListHead>, ghost j: nat, ghost o: seq<ListHead>)
    requires ListAt(head, c) && 1 <= j < |c| && entry == c[j] && Other(c, o)
    modifies c
    ensures ListAt(head, RemoveAt(c, j)) && entry.prev == null && entry.next == null && (o != [] ==> Closed(o))
  {
    DelBetween(entry.prev, entry.next, c, j);
    entry.prev, entry.next := null, null;
    GoneFrom(c, j);
    if o != [] { Kept(o); }
  }

  lemma GoneFrom(c: seq<ListHead>, j: nat)
    requires Distinct(c) && j < |c|
    ensures c[j] in c && c[j] !in RemoveAt(c, j)
    ensures forall x :: x in RemoveAt(c, j) ==> x in c
  {
  }

  /** The list that entry j has left and another one are still two lists. */
  lemma StillApart(c: seq<ListHead>, j: nat, d: seq<ListHead>)
    requires j < |c| && Apart(c, d)
    ensures c[j] !in d && Apart(d, RemoveAt(c, j))
  {
    hide RemoveAt;
  }

  lemma DistinctRing(c: seq<ListHead>)
    requires Closed(c)
    ensures Distinct(c)
  {
  }

  /** `list_move` of entry j to the front of its own list. */
  method ListMoveWithin(entry: ListHead, head: ListHead, ghost c: seq<ListHead>, ghost j: nat)
    requires ListAt(head, c) && 1 <= j < |c| && entry == c[j]
    modifies c
    ensures ListAt(head, InsertAt(RemoveAt(c, j), 1, entry))
  {
    hide Closed, RemoveAt, InsertAt, Apart;
    ghost var less, none: seq<ListHead> := RemoveAt(c, j), [];
    DistinctRing(c);
    GoneFrom(c, j);
    hide Distinct;
    assert Other(c, none) && Other(less, none);
    ListDel(entry, head, c, j, none);
    ListAdd(entry, head, less, none);
  }

  /** `list_move` of entry j to the front of another list. */
  method ListMove(entry: ListHead, ghost from: ListHead, ghost c: seq<ListHead>, ghost j: nat,
                  head: ListHead, ghost d: seq<ListHead>)
    requires ListAt(from, c) && 1 <= j < |c| && entry == c[j] && ListAt(head, d) && Apart(c, d)
    modifies c, d
    ensures ListAt(from, RemoveAt(c, j)) && ListAt(head, InsertAt(d, 1, entry))
  {
    ghost var less := RemoveAt(c, j);
    GoneFrom(c, j);
    StillApart(c, j, d);
    hide Closed, RemoveAt, InsertAt, Distinct, Apart;
    ListDel(entry, from, c, j, d);
    ListAdd(entry, head, d, less);
  }
}
