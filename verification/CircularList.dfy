/**
 * The intrusive circular doubly linked list of GeForceSensors/list.h. A ring
 * is the cycle of nodes met by following `next`, starting anywhere; a list is
 * the ring that starts at its head. A poisoned pointer is null.
 */
module CircularList {
  class ListHead {
    var next: ListHead?
    var prev: ListHead?

    /** INIT_LIST_HEAD of a new node. */
    constructor ()
      ensures Ring([this])
    {
      next := this;
      prev := this;
    }
  }

  /** Node k and the one after it point at each other. */
  ghost predicate Linked(r: seq<ListHead>, k: nat)
    requires k < |r|
    reads r
  {
    r[k].next == After(r, k) && After(r, k).prev == r[k]
  }

  ghost predicate Ring(r: seq<ListHead>)
    reads r
  {
    && r != []
    && (forall i, j :: 0 <= i < j < |r| ==> r[i] != r[j])
    && (forall k: nat :: k < |r| ==> Linked(r, k))
  }

  lemma Neighbours(r: seq<ListHead>, k: nat)
    requires Ring(r) && k < |r|
    ensures r[k].next == After(r, k) && r[k].prev == r[Before(r, k)]
    ensures After(r, Before(r, k)) == r[k]
    ensures |r| > 1 ==> r[Before(r, k)] != r[k] && After(r, k) != r[k]
  {
    assert Linked(r, k) && Linked(r, Before(r, k));
  }

  ghost predicate Disjoint(r: seq<ListHead>, q: seq<ListHead>) {
    forall i, j :: 0 <= i < |r| && 0 <= j < |q| ==> r[i] != q[j]
  }

  /** A ring does not notice changes elsewhere. */
  twostate lemma RingUntouched(r: seq<ListHead>)
    requires old(Ring(r)) && forall k :: 0 <= k < |r| ==> unchanged(r[k])
    ensures Ring(r)
  {
    forall k: nat | k < |r|
      ensures Linked(r, k)
    {
      assert old(Linked(r, k));
    }
  }

  /** The ring with xs inserted after position k. */
  function InsertedAfter(r: seq<ListHead>, k: nat, xs: seq<ListHead>): seq<ListHead>
    requires k < |r|
  {
    r[..k + 1] + xs + r[k + 1..]
  }

  function Without(r: seq<ListHead>, k: nat): seq<ListHead>
    requires k < |r|
  {
    r[..k] + r[k + 1..]
  }

  function After(r: seq<ListHead>, k: nat): ListHead
    requires k < |r|
  {
    if k + 1 == |r| then r[0] else r[k + 1]
  }

  function Before(r: seq<ListHead>, k: nat): nat
    requires k < |r|
  {
    if k == 0 then |r| - 1 else k - 1
  }

  method InitListHead(list: ListHead)
    modifies list
    ensures Ring([list])
  {
    list.next := list;
    list.prev := list;
  }

  /** __list_add */
  method Insert(newl: ListHead, prev: ListHead, next: ListHead, ghost r: seq<ListHead>, ghost k: nat)
    requires Ring(r) && k < |r| && prev == r[k] && next == After(r, k) && newl !in r
    modifies newl, prev, next
    ensures Ring(InsertedAfter(r, k, [newl]))
  {
    next.prev := newl;
    newl.next := next;
    newl.prev := prev;
    prev.next := newl;
    forall m: nat | m < |r| + 1
      ensures Linked(InsertedAfter(r, k, [newl]), m)
    {
      assert old(Linked(r, if m <= k then m else m - 1));
    }
  }

  /** list_add: a stack's push when head is the list head. */
  method ListAdd(newl: ListHead, head: ListHead, ghost r: seq<ListHead>, ghost k: nat)
    requires Ring(r) && k < |r| && head == r[k] && newl !in r
    modifies newl, r
    ensures Ring(InsertedAfter(r, k, [newl]))
  {
    Neighbours(r, k);
    Insert(newl, head, head.next, r, k);
  }

  /** list_add_tail: a queue's put when head is the list head. */
  method ListAddTail(newl: ListHead, head: ListHead, ghost r: seq<ListHead>, ghost k: nat)
    requires Ring(r) && k < |r| && head == r[k] && newl !in r
    modifies newl, r
    ensures Ring(InsertedAfter(r, Before(r, k), [newl]))
  {
    Neighbours(r, k);
    Insert(newl, head.prev, head, r, Before(r, k));
  }

  /** __list_del_entry */
  method Unlink(entry: ListHead, ghost r: seq<ListHead>, ghost k: nat)
    requires Ring(r) && k < |r| && entry == r[k]
    modifies r
    ensures |r| > 1 ==> Ring(Without(r, k))
    ensures |r| == 1 ==> Ring(r)
  {
    Neighbours(r, k);
    var prev, next := entry.prev, entry.next;
    next.prev := prev;
    prev.next := next;
    if |r| > 1 {
      forall m: nat | m < |r| - 1
        ensures Linked(Without(r, k), m)
      {
        assert old(Linked(r, if m < k then m else m + 1));
      }
    }
  }

  /** list_del */
  method ListDel(entry: ListHead, ghost r: seq<ListHead>, ghost k: nat)
    requires Ring(r) && k < |r| && entry == r[k]
    modifies r
    ensures |r| > 1 ==> Ring(Without(r, k))
    ensures entry.next == null && entry.prev == null
  {
    Unlink(entry, r, k);
    entry.next := null;
    entry.prev := null;
  }

  /** list_del_init */
  method ListDelInit(entry: ListHead, ghost r: seq<ListHead>, ghost k: nat)
    requires Ring(r) && k < |r| && entry == r[k]
    modifies r
    ensures |r| > 1 ==> Ring(Without(r, k))
    ensures Ring([entry])
  {
    Unlink(entry, r, k);
    InitListHead(entry);
  }

  /** list_replace, also of an empty list's head. */
  method ListReplace(entry: ListHead, newl: ListHead, ghost r: seq<ListHead>, ghost k: nat)
    requires Ring(r) && k < |r| && entry == r[k] && newl !in r
    modifies newl, r
    ensures Ring(r[k := newl])
  {
    Neighbours(r, k);
    newl.next := entry.next;
    newl.next.prev := newl;
    newl.prev := entry.prev;
    newl.prev.next := newl;
    ghost var s := r[k := newl];
    forall m: nat | m < |s|
      ensures Linked(s, m)
    {
      assert old(Linked(r, m));
    }
  }

  /** list_replace_init */
  method ListReplaceInit(entry: ListHead, newl: ListHead, ghost r: seq<ListHead>, ghost k: nat)
    requires Ring(r) && k < |r| && entry == r[k] && newl !in r
    modifies newl, r
    ensures Ring(r[k := newl]) && Ring([entry])
  {
    ListReplace(entry, newl, r, k);
    InitListHead(entry);
  }

  /** Where an entry may be moved to: the rest of its own ring, or another ring. */
  ghost predicate Target(r: seq<ListHead>, k: nat, q: seq<ListHead>)
    requires k < |r|
    reads q
  {
    q == Without(r, k) || (Ring(q) && Disjoint(r, q))
  }

  /** list_move */
  method ListMove(list: ListHead, head: ListHead, ghost r: seq<ListHead>, ghost k: nat, ghost q: seq<ListHead>, ghost j: nat)
    requires Ring(r) && k < |r| && list == r[k] && Target(r, k, q) && j < |q| && head == q[j]
    modifies r, q
    ensures Ring(InsertedAfter(q, j, [list]))
    ensures q != Without(r, k) && |r| > 1 ==> Ring(Without(r, k))
  {
    Unlink(list, r, k);
    if q != Without(r, k) {
      RingUntouched(q);
    }
    label unlinked:
    ListAdd(list, head, q, j);
    if q != Without(r, k) && |r| > 1 {
      RingUntouched@unlinked(Without(r, k));
    }
  }

  /** list_move_tail */
  method ListMoveTail(list: ListHead, head: ListHead, ghost r: seq<ListHead>, ghost k: nat, ghost q: seq<ListHead>, ghost j: nat)
    requires Ring(r) && k < |r| && list == r[k] && Target(r, k, q) && j < |q| && head == q[j]
    modifies r, q
    ensures Ring(InsertedAfter(q, Before(q, j), [list]))
    ensures q != Without(r, k) && |r| > 1 ==> Ring(Without(r, k))
  {
    Unlink(list, r, k);
    if q != Without(r, k) {
      RingUntouched(q);
    }
    label unlinked:
    ListAddTail(list, head, q, j);
    if q != Without(r, k) && |r| > 1 {
      RingUntouched@unlinked(Without(r, k));
    }
  }

  /** list_is_last */
  method ListIsLast(list: ListHead, head: ListHead, ghost r: seq<ListHead>, ghost k: nat) returns (last: bool)
    requires Ring(r) && k < |r| && list == r[k] && head == r[0]
    ensures last == (k == |r| - 1)
  {
    Neighbours(r, k);
    last := list.next == head;
  }

  /** list_empty */
  method ListEmpty(head: ListHead, ghost r: seq<ListHead>) returns (empty: bool)
    requires Ring(r) && head == r[0]
    ensures empty == (|r| == 1)
  {
    Neighbours(r, 0);
    empty := head.next == head;
  }

  /** list_empty_careful */
  method ListEmptyCareful(head: ListHead, ghost r: seq<ListHead>) returns (empty: bool)
    requires Ring(r) && head == r[0]
    ensures empty == (|r| == 1)
  {
    Neighbours(r, 0);
    var next := head.next;
    empty := next == head && next == head.prev;
  }

  /** list_is_singular */
  method ListIsSingular(head: ListHead, ghost r: seq<ListHead>) returns (singular: bool)
    requires Ring(r) && head == r[0]
    ensures singular == (|r| == 2)
  {
    Neighbours(r, 0);
    var empty := ListEmpty(head, r);
    singular := !empty && head.next == head.prev;
  }

  /** list_rotate_left: the first entry becomes the last. */
  method ListRotateLeft(head: ListHead, ghost r: seq<ListHead>)
    requires Ring(r) && head == r[0]
    modifies r
    ensures if |r| == 1 then Ring(r) else Ring([head] + r[2..] + [r[1]])
  {
    Neighbours(r, 0);
    var empty := ListEmpty(head, r);
    if !empty {
      var first := head.next;
      ghost var rest := Without(r, 1);
      ListMoveTail(first, head, r, 1, rest, 0);
      assert InsertedAfter(rest, Before(rest, 0), [first]) == [head] + r[2..] + [r[1]];
    }
  }

  /** Both parts of a cut list are free of repetitions. */
  lemma CutApart(list: ListHead, r: seq<ListHead>, k: nat)
    requires 1 <= k < |r| && list !in r && forall i, j :: 0 <= i < j < |r| ==> r[i] != r[j]
    ensures var front := [list] + r[1..k + 1]; forall i, j :: 0 <= i < j < |front| ==> front[i] != front[j]
    ensures var back := [r[0]] + r[k + 1..]; forall i, j :: 0 <= i < j < |back| ==> back[i] != back[j]
  {
  }

  /** __list_cut_position */
  method Cut(list: ListHead, head: ListHead, entry: ListHead, ghost r: seq<ListHead>, ghost k: nat)
    requires Ring(r) && head == r[0] && 1 <= k < |r| && entry == r[k] && list !in r
    modifies list, r
    ensures Ring([list] + r[1..k + 1]) && Ring([head] + r[k + 1..])
  {
    Neighbours(r, k);
    Neighbours(r, 0);
    var newFirst := entry.next;
    list.next := head.next;
    list.next.prev := list;
    list.prev := entry;
    entry.next := list;
    head.next := newFirst;
    newFirst.prev := head;
    ghost var front, back := [list] + r[1..k + 1], [head] + r[k + 1..];
    CutApart(list, r, k);
    forall m: nat | m < |front|
      ensures Linked(front, m)
    {
      assert old(Linked(r, m));
    }
    forall m: nat | m < |back|
      ensures Linked(back, m)
    {
      assert old(Linked(r, if m == 0 then 0 else k + m));
    }
  }

  /**
   * list_cut_position, with k the place of entry on the list if it is on it.
   * Cutting an empty list leaves `list` as it was.
   */
  method ListCutPosition(list: ListHead, head: ListHead, entry: ListHead, ghost r: seq<ListHead>, ghost k: nat)
    requires Ring(r) && head == r[0] && list !in r
    requires |r| > 2 || entry in r ==> k < |r| && entry == r[k]
    modifies list, r
    ensures |r| == 1 ==> Ring(r) && list.next == old(list.next) && list.prev == old(list.prev)
    ensures |r| == 2 && entry !in r ==> Ring(r) && list.next == old(list.next) && list.prev == old(list.prev)
    ensures |r| > 1 && entry == head ==> Ring([list]) && Ring(r)
    ensures |r| > 1 && entry in r && entry != head ==> Ring([list] + r[1..k + 1]) && Ring([head] + r[k + 1..])
  {
    Neighbours(r, 0);
    var empty := ListEmpty(head, r);
    if empty {
      return;
    }
    var singular := ListIsSingular(head, r);
    if singular && head.next != entry && head != entry {
      return;
    }
    if entry == head {
      InitListHead(list);
    } else {
      Cut(list, head, entry, r, k);
    }
  }

  /** __list_splice */
  method Join(list: ListHead, prev: ListHead, next: ListHead, ghost q: seq<ListHead>, ghost r: seq<ListHead>, ghost k: nat)
    requires Ring(q) && list == q[0] && |q| > 1
    requires Ring(r) && k < |r| && prev == r[k] && next == After(r, k) && Disjoint(q, r)
    modifies q, r
    ensures Ring(InsertedAfter(r, k, q[1..]))
    ensures list.next == old(list.next) && list.prev == old(list.prev)
  {
    Neighbours(q, 0);
    var first, last := list.next, list.prev;
    first.prev := prev;
    prev.next := first;
    last.next := next;
    next.prev := last;
    ghost var n := |q| - 1;
    forall m: nat | m < |r| + n
      ensures Linked(InsertedAfter(r, k, q[1..]), m)
    {
      if m <= k {
        assert old(Linked(r, m));
      } else if m <= k + n {
        assert old(Linked(q, m - k));
      } else {
        assert old(Linked(r, m - n));
      }
    }
  }

  /** list_splice: list keeps its stale pointers. */
  method ListSplice(list: ListHead, head: ListHead, ghost q: seq<ListHead>, ghost r: seq<ListHead>, ghost k: nat)
    requires Ring(q) && list == q[0] && Ring(r) && k < |r| && head == r[k] && Disjoint(q, r)
    modifies q, r
    ensures Ring(InsertedAfter(r, k, q[1..]))
    ensures list.next == old(list.next) && list.prev == old(list.prev)
  {
    Neighbours(r, k);
    var empty := ListEmpty(list, q);
    if !empty {
      Join(list, head, head.next, q, r, k);
    } else {
      assert InsertedAfter(r, k, q[1..]) == r;
    }
  }

  /** list_splice_tail */
  method ListSpliceTail(list: ListHead, head: ListHead, ghost q: seq<ListHead>, ghost r: seq<ListHead>, ghost k: nat)
    requires Ring(q) && list == q[0] && Ring(r) && k < |r| && head == r[k] && Disjoint(q, r)
    modifies q, r
    ensures Ring(InsertedAfter(r, Before(r, k), q[1..]))
    ensures list.next == old(list.next) && list.prev == old(list.prev)
  {
    Neighbours(r, k);
    var empty := ListEmpty(list, q);
    if !empty {
      Join(list, head.prev, head, q, r, Before(r, k));
    } else {
      assert InsertedAfter(r, Before(r, k), q[1..]) == r;
    }
  }

  /** list_splice_init */
  method ListSpliceInit(list: ListHead, head: ListHead, ghost q: seq<ListHead>, ghost r: seq<ListHead>, ghost k: nat)
    requires Ring(q) && list == q[0] && Ring(r) && k < |r| && head == r[k] && Disjoint(q, r)
    modifies q, r
    ensures Ring(InsertedAfter(r, k, q[1..])) && Ring([list])
  {
    Neighbours(r, k);
    var empty := ListEmpty(list, q);
    if !empty {
      Join(list, head, head.next, q, r, k);
      label joined:
      InitListHead(list);
      RingUntouched@joined(InsertedAfter(r, k, q[1..]));
    } else {
      assert InsertedAfter(r, k, q[1..]) == r && q == [list];
    }
  }

  /** list_splice_tail_init */
  method ListSpliceTailInit(list: ListHead, head: ListHead, ghost q: seq<ListHead>, ghost r: seq<ListHead>, ghost k: nat)
    requires Ring(q) && list == q[0] && Ring(r) && k < |r| && head == r[k] && Disjoint(q, r)
    modifies q, r
    ensures Ring(InsertedAfter(r, Before(r, k), q[1..])) && Ring([list])
  {
    Neighbours(r, k);
    var empty := ListEmpty(list, q);
    if !empty {
      Join(list, head.prev, head, q, r, Before(r, k));
      label joined:
      InitListHead(list);
      RingUntouched@joined(InsertedAfter(r, Before(r, k), q[1..]));
    } else {
      assert InsertedAfter(r, Before(r, k), q[1..]) == r && q == [list];
    }
  }

  /** Cutting a list at any entry and splicing the piece back at its head restores the list. */
  method CutAndSplice(list: ListHead, head: ListHead, entry: ListHead, ghost r: seq<ListHead>, ghost k: nat)
    requires Ring(r) && head == r[0] && |r| > 1 && k < |r| && entry == r[k] && list !in r
    modifies list, r
    ensures Ring(r)
  {
    ListCutPosition(list, head, entry, r, k);
    if entry == head {
      ListSplice(list, head, [list], r, 0);
      assert InsertedAfter(r, 0, []) == r;
    } else {
      ghost var q, rest := [list] + r[1..k + 1], [head] + r[k + 1..];
      ListSplice(list, head, q, rest, 0);
      assert InsertedAfter(rest, 0, q[1..]) == r;
    }
  }

  /** A ring is determined by where it starts: two lists with the same head are the same list. */
  lemma {:induction false} RingPrefix(r: seq<ListHead>, q: seq<ListHead>, n: nat)
    requires Ring(r) && Ring(q) && r[0] == q[0] && n < |r|
    ensures n < |q| && r[n] == q[n]
  {
    if n > 0 {
      RingPrefix(r, q, n - 1);
      Neighbours(r, n - 1);
      Neighbours(q, n - 1);
    }
  }

  lemma RingUnique(r: seq<ListHead>, q: seq<ListHead>)
    requires Ring(r) && Ring(q) && r[0] == q[0]
    ensures r == q
  {
    RingPrefix(r, q, |r| - 1);
    RingPrefix(q, r, |q| - 1);
    forall n | 0 <= n < |r|
      ensures r[n] == q[n]
    {
      RingPrefix(r, q, n);
    }
  }
}
