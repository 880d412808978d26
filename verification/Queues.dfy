/** The intrusive lists of `queue.h`. Every head and every entry begins with its forward pointer, so the
    address of that pointer is taken to be the link itself: a pointer to a forward pointer is a `Link`. */
module Links {
  class Link {
    var next: Link?  // first element of a head, next element of an entry
    var prev: Link?  // holder of the forward pointer to this entry; for a tail queue's head, of its last one

    constructor ()
      ensures next == null && prev == null
    {
      next, prev := null, null;
    }
  }

  /** A list is described by the sequence of its head and its elements. */
  ghost predicate Chain(p: seq<Link>)
    reads p
  {
    && |p| > 0
    && (forall i, j :: 0 <= i < j < |p| ==> p[i] != p[j])
    && (forall i {:trigger p[i].next} :: 0 <= i < |p| ==> p[i].next == if i + 1 < |p| then p[i + 1] else null)
  }

  /** Every element knows the holder of the pointer to it. */
  ghost predicate BackLinked(p: seq<Link>)
    reads p
  {
    forall i {:trigger p[i].prev} :: 1 <= i < |p| ==> p[i].prev == p[i - 1]
  }

  /** The head knows the holder of the last forward pointer, itself when the list is empty. */
  ghost predicate TailLinked(p: seq<Link>)
    requires |p| > 0
    reads p
  {
    p[0].prev == p[|p| - 1]
  }

  ghost predicate Disjoint(p: seq<Link>, q: seq<Link>) {
    forall i, j :: 0 <= i < |p| && 0 <= j < |q| ==> p[i] != q[j]
  }

  function InsertedAt<T>(p: seq<T>, i: nat, x: T): seq<T>
    requires i <= |p|
  {
    p[..i] + [x] + p[i..]
  }

  function RemovedAt<T>(p: seq<T>, i: nat): seq<T>
    requires i < |p|
  {
    p[..i] + p[i + 1..]
  }

  lemma RemovedAtIndex<T>(s: seq<T>, i: nat)
    requires i < |s|
    ensures |RemovedAt(s, i)| == |s| - 1
    ensures forall k :: 0 <= k < |s| - 1 ==> RemovedAt(s, i)[k] == s[if k < i then k else k + 1]
  {
  }

  lemma InsertedAtIndex<T>(s: seq<T>, i: nat, x: T)
    requires i <= |s|
    ensures |InsertedAt(s, i, x)| == |s| + 1 && InsertedAt(s, i, x)[i] == x
    ensures forall k :: 0 <= k < |s| ==> InsertedAt(s, i, x)[if k < i then k else k + 1] == s[k]
    ensures RemovedAt(InsertedAt(s, i, x), i) == s
  {
  }

  function Reverse<T>(s: seq<T>): seq<T> {
    if s == [] then [] else Reverse(s[1..]) + [s[0]]
  }

  /** A head has only one list behind it: forward pointers determine the elements and their order. */
  lemma {:induction false} ChainDetermined(p: seq<Link>, q: seq<Link>, k: nat)
    requires Chain(p) && Chain(q) && p[0] == q[0] && k < |p|
    ensures k < |q| && p[k] == q[k]
    ensures |p| == |q| || k + 1 < |p|
  {
    if k > 0 {
      ChainDetermined(p, q, k - 1);
      assert p[k - 1].next == q[k - 1].next;
    }
    assert p[k].next == q[k].next;
  }

  lemma HeadDeterminesList(p: seq<Link>, q: seq<Link>)
    requires Chain(p) && Chain(q) && p[0] == q[0]
    ensures p == q
  {
    ChainDetermined(p, q, |p| - 1);
    forall k | 0 <= k < |p| ensures p[k] == q[k] {
      ChainDetermined(p, q, k);
    }
  }

  /** The FOREACH loop of every list kind visits the elements in order, and ends. */
  method Foreach(head: Link, ghost p: seq<Link>) returns (visited: seq<Link>)
    requires Chain(p) && p[0] == head
    ensures visited == p[1..]
  {
    visited := [];
    var item := head.next;
    while item != null
      invariant |visited| < |p| && visited == p[1..][..|visited|]
      invariant item == p[|visited|].next
      decreases |p| - |visited|
    {
      visited := visited + [item];
      item := item.next;
    }
  }
}

/** Singly-linked lists. */
module SList {
  import opened Links

  method Init(head: Link)
    modifies head`next
    ensures Chain([head])
  {
    head.next := null;
  }

  method InsertHead(head: Link, elm: Link, ghost p: seq<Link>)
    requires Chain(p) && p[0] == head && elm !in p
    modifies head`next, elm`next
    ensures Chain(InsertedAt(p, 1, elm))
  {
    elm.next := head.next;
    head.next := elm;
  }

  method InsertAfter(slistelm: Link, elm: Link, ghost p: seq<Link>, ghost i: nat)
    requires Chain(p) && 1 <= i < |p| && p[i] == slistelm && elm !in p
    modifies slistelm`next, elm`next
    ensures Chain(InsertedAt(p, i + 1, elm))
  {
    elm.next := slistelm.next;
    slistelm.next := elm;
  }

  method RemoveHead(head: Link, ghost p: seq<Link>)
    requires Chain(p) && p[0] == head && |p| > 1
    modifies head`next
    ensures Chain(RemovedAt(p, 1))
  {
    head.next := head.next.next;
  }

  method RemoveAfter(elm: Link, ghost p: seq<Link>, ghost i: nat)
    requires Chain(p) && i + 1 < |p| && p[i] == elm
    modifies elm`next
    ensures Chain(RemovedAt(p, i + 1))
  {
    elm.next := elm.next.next;
  }

  /** Searches for the predecessor; the removed element keeps its own pointer. */
  method Remove(head: Link, elm: Link, ghost p: seq<Link>, ghost i: nat)
    requires Chain(p) && p[0] == head && 1 <= i < |p| && p[i] == elm
    modifies {p[i - 1]}`next
    ensures Chain(RemovedAt(p, i))
  {
    if head.next == elm {
      assert p[1] == elm;
      RemoveHead(head, p);
    } else {
      var curelm := head.next;
      ghost var k := 1;
      while curelm.next != elm
        invariant 1 <= k < i && curelm == p[k]
        decreases i - k
      {
        curelm, k := curelm.next, k + 1;
      }
      assert k + 1 == i;
      RemoveAfter(curelm, p, k);
    }
  }

  method Concat(head1: Link, head2: Link, ghost p: seq<Link>, ghost q: seq<Link>)
    requires Chain(p) && Chain(q) && p[0] == head1 && q[0] == head2
    requires Disjoint(p, q)
    modifies {p[|p| - 1], head2}`next
    ensures Chain(p + q[1..]) && Chain([head2])
  {
    var curelm := head1.next;
    if curelm == null {
      head1.next := head2.next;
      if head1.next != null {
        Init(head2);
      }
    } else if head2.next != null {
      ghost var k := 1;
      while curelm.next != null
        invariant 1 <= k < |p| && curelm == p[k]
        decreases |p| - k
      {
        curelm, k := curelm.next, k + 1;
      }
      curelm.next := head2.next;
      Init(head2);
    }
    assert |q| == 1 ==> p + q[1..] == p;
  }

  method Swap(head1: Link, head2: Link, ghost p: seq<Link>, ghost q: seq<Link>)
    requires Chain(p) && Chain(q) && p[0] == head1 && q[0] == head2
    requires Disjoint(p, q)
    modifies head1`next, head2`next
    ensures Chain([head1] + q[1..]) && Chain([head2] + p[1..])
  {
    var swapFirst := head1.next;
    head1.next := head2.next;
    head2.next := swapFirst;
  }
}

/** Doubly-linked lists headed by a single pointer: entries are removed and inserted before
    without the head, which `le_prev` may well point at. */
module DList {
  import opened Links

  ghost predicate List(p: seq<Link>)
    reads p
  {
    Chain(p) && BackLinked(p)
  }

  method Init(head: Link)
    modifies head`next
    ensures List([head])
  {
    head.next := null;
  }

  /** `LIST_PREV`. */
  function Prev(elm: Link, head: Link): Link?
    reads elm
  {
    if elm.prev == head then null else elm.prev
  }

  lemma PrevIsPredecessor(p: seq<Link>, i: nat)
    requires List(p) && 1 <= i < |p|
    ensures Prev(p[i], p[0]) == if i == 1 then null else p[i - 1]
  {
  }

  method InsertHead(head: Link, elm: Link, ghost p: seq<Link>)
    requires List(p) && p[0] == head && elm !in p
    modifies head`next, elm, (if |p| > 1 then {p[1]} else {})`prev
    ensures List(InsertedAt(p, 1, elm)) && head.prev == old(head.prev)
  {
    elm.next := head.next;
    if elm.next != null {
      head.next.prev := elm;
    }
    head.next := elm;
    elm.prev := head;
  }

  method InsertAfter(listelm: Link, elm: Link, ghost p: seq<Link>, ghost i: nat)
    requires List(p) && 1 <= i < |p| && p[i] == listelm && elm !in p
    modifies listelm`next, elm, (if i + 1 < |p| then {p[i + 1]} else {})`prev
    ensures List(InsertedAt(p, i + 1, elm))
  {
    elm.next := listelm.next;
    if elm.next != null {
      listelm.next.prev := elm;
    }
    listelm.next := elm;
    elm.prev := listelm;
  }

  method InsertBefore(listelm: Link, elm: Link, ghost p: seq<Link>, ghost i: nat)
    requires List(p) && 1 <= i < |p| && p[i] == listelm && elm !in p
    modifies {p[i - 1]}`next, elm, listelm`prev
    ensures List(InsertedAt(p, i, elm))
  {
    elm.prev := listelm.prev;
    elm.next := listelm;
    listelm.prev.next := elm;
    listelm.prev := elm;
  }

  method Remove(elm: Link, ghost p: seq<Link>, ghost i: nat)
    requires List(p) && 1 <= i < |p| && p[i] == elm
    modifies {p[i - 1]}`next, (if i + 1 < |p| then {p[i + 1]} else {})`prev
    ensures List(RemovedAt(p, i))
  {
    if elm.next != null {
      elm.next.prev := elm.prev;
    }
    elm.prev.next := elm.next;
  }

  method Concat(head1: Link, head2: Link, ghost p: seq<Link>, ghost q: seq<Link>)
    requires List(p) && List(q) && p[0] == head1 && q[0] == head2 && Disjoint(p, q)
    modifies {p[|p| - 1], head2}`next, (if |q| > 1 then {q[1]} else {})`prev
    ensures List(p + q[1..]) && List([head2])
  {
    var curelm := head1.next;
    if curelm == null {
      head1.next := head2.next;
      if head1.next != null {
        head2.next.prev := head1;
        Init(head2);
      }
    } else if head2.next != null {
      ghost var k := 1;
      while curelm.next != null
        invariant 1 <= k < |p| && curelm == p[k]
        decreases |p| - k
      {
        curelm, k := curelm.next, k + 1;
      }
      curelm.next := head2.next;
      head2.next.prev := curelm;
      Init(head2);
    }
    assert |q| == 1 ==> p + q[1..] == p;
  }

  method Swap(head1: Link, head2: Link, ghost p: seq<Link>, ghost q: seq<Link>)
    requires List(p) && List(q) && p[0] == head1 && q[0] == head2 && Disjoint(p, q)
    modifies {head1, head2}`next, ((if |p| > 1 then {p[1]} else {}) + if |q| > 1 then {q[1]} else {})`prev
    ensures List([head1] + q[1..]) && List([head2] + p[1..])
  {
    var swapTmp := head1.next;
    head1.next := head2.next;
    head2.next := swapTmp;
    swapTmp := head1.next;
    if swapTmp != null {
      swapTmp.prev := head1;
    }
    swapTmp := head2.next;
    if swapTmp != null {
      swapTmp.prev := head2;
    }
  }
}

/** Singly-linked tail queues. */
module STailQ {
  import opened Links

  ghost predicate STailq(p: seq<Link>)
    reads p
  {
    Chain(p) && TailLinked(p)
  }

  method Init(head: Link)
    modifies head
    ensures STailq([head])
  {
    head.next := null;
    head.prev := head;
  }

  /** `STAILQ_LAST`. */
  function Last(head: Link): Link?
    reads head
  {
    if head.next == null then null else head.prev
  }

  lemma LastIsLast(p: seq<Link>)
    requires STailq(p)
    ensures Last(p[0]) == if |p| == 1 then null else p[|p| - 1]
  {
  }

  method InsertHead(head: Link, elm: Link, ghost p: seq<Link>)
    requires STailq(p) && p[0] == head && elm !in p
    modifies head, elm`next
    ensures STailq(InsertedAt(p, 1, elm))
  {
    elm.next := head.next;
    if elm.next == null {
      head.prev := elm;
    }
    head.next := elm;
  }

  method InsertTail(head: Link, elm: Link, ghost p: seq<Link>)
    requires STailq(p) && p[0] == head && elm !in p
    modifies head`prev, elm`next, {p[|p| - 1]}`next
    ensures STailq(p + [elm])
  {
    elm.next := null;
    head.prev.next := elm;
    head.prev := elm;
  }

  method InsertAfter(head: Link, tqelm: Link, elm: Link, ghost p: seq<Link>, ghost i: nat)
    requires STailq(p) && p[0] == head && 1 <= i < |p| && p[i] == tqelm && elm !in p
    modifies head`prev, tqelm`next, elm`next
    ensures STailq(InsertedAt(p, i + 1, elm))
  {
    elm.next := tqelm.next;
    if elm.next == null {
      head.prev := elm;
    }
    tqelm.next := elm;
  }

  method RemoveHead(head: Link, ghost p: seq<Link>)
    requires STailq(p) && p[0] == head && |p| > 1
    modifies head`next, head`prev
    ensures STailq(RemovedAt(p, 1))
  {
    head.next := head.next.next;
    if head.next == null {
      head.prev := head;
    }
  }

  method RemoveAfter(head: Link, elm: Link, ghost p: seq<Link>, ghost i: nat)
    requires STailq(p) && p[0] == head && 1 <= i && i + 1 < |p| && p[i] == elm
    modifies head`prev, elm`next
    ensures STailq(RemovedAt(p, i + 1))
  {
    elm.next := elm.next.next;
    if elm.next == null {
      head.prev := elm;
    }
  }

  method Remove(head: Link, elm: Link, ghost p: seq<Link>, ghost i: nat)
    requires STailq(p) && p[0] == head && 1 <= i < |p| && p[i] == elm
    modifies head`prev, {p[i - 1]}`next
    ensures STailq(RemovedAt(p, i))
  {
    if head.next == elm {
      assert p[1] == elm;
      RemoveHead(head, p);
    } else {
      var curelm := head.next;
      ghost var k := 1;
      while curelm.next != elm
        invariant 1 <= k < i && curelm == p[k]
        decreases i - k
      {
        curelm, k := curelm.next, k + 1;
      }
      assert k + 1 == i;
      RemoveAfter(head, curelm, p, k);
    }
  }

  method Concat(head1: Link, head2: Link, ghost p: seq<Link>, ghost q: seq<Link>)
    requires STailq(p) && STailq(q) && p[0] == head1 && q[0] == head2 && Disjoint(p, q)
    modifies {p[|p| - 1]}`next, head1`prev, head2
    ensures STailq(p + q[1..]) && STailq([head2])
  {
    if head2.next != null {
      head1.prev.next := head2.next;
      head1.prev := head2.prev;
      Init(head2);
    }
    assert |q| == 1 ==> p + q[1..] == p;
  }

  method Swap(head1: Link, head2: Link, ghost p: seq<Link>, ghost q: seq<Link>)
    requires STailq(p) && STailq(q) && p[0] == head1 && q[0] == head2 && Disjoint(p, q)
    modifies head1, head2
    ensures STailq([head1] + q[1..]) && STailq([head2] + p[1..])
  {
    var swapFirst, swapLast := head1.next, head1.prev;
    head1.next := head2.next;
    head1.prev := head2.prev;
    head2.next := swapFirst;
    head2.prev := swapLast;
    if head1.next == null {
      head1.prev := head1;
    }
    if head2.next == null {
      head2.prev := head2;
    }
  }
}

/** Tail queues: both kinds of back pointer at once. */
module TailQ {
  import opened Links

  ghost predicate Tailq(p: seq<Link>)
    reads p
  {
    Chain(p) && BackLinked(p) && TailLinked(p)
  }

  method Init(head: Link)
    modifies head
    ensures Tailq([head])
  {
    head.next := null;
    head.prev := head;
  }

  /** `TAILQ_LAST`: the holder of the last forward pointer is read as if it were a head. */
  function Last(head: Link): Link?
    requires head.prev != null && head.prev.prev != null
    reads head, head.prev, head.prev.prev
  {
    head.prev.prev.next
  }

  /** `TAILQ_PREV`: the holder of the pointer to `elm` is read as if it were a head. */
  function Prev(elm: Link): Link?
    requires elm.prev != null && elm.prev.prev != null
    reads elm, elm.prev, elm.prev.prev
  {
    elm.prev.prev.next
  }

  lemma LastIsLast(p: seq<Link>)
    requires Tailq(p)
    ensures p[0].prev != null && p[0].prev.prev != null
    ensures Last(p[0]) == if |p| == 1 then null else p[|p| - 1]
  {
  }

  lemma PrevIsPredecessor(p: seq<Link>, i: nat)
    requires Tailq(p) && 1 <= i < |p|
    ensures p[i].prev != null && p[i].prev.prev != null
    ensures Prev(p[i]) == if i == 1 then null else p[i - 1]
  {
  }

  /** `TAILQ_FOREACH_REVERSE`. */
  method ForeachReverse(head: Link, ghost p: seq<Link>) returns (visited: seq<Link>)
    requires Tailq(p) && p[0] == head
    ensures visited == Reverse(p[1..])
    ensures |visited| == |p| - 1 && forall k :: 0 <= k < |visited| ==> visited[k] == p[|p| - 1 - k]
  {
    visited := [];
    LastIsLast(p);
    var item := Last(head);
    ghost var k := |p| - 1;
    while item != null
      invariant 0 <= k < |p|
      invariant item == if k == 0 then null else p[k]
      invariant visited == Reverse(p[k + 1..])
      invariant |visited| == |p| - 1 - k && forall m :: 0 <= m < |visited| ==> visited[m] == p[|p| - 1 - m]
      decreases k
    {
      visited := visited + [item];
      PrevIsPredecessor(p, k);
      item := Prev(item);
      k := k - 1;
    }
  }

  method InsertHead(head: Link, elm: Link, ghost p: seq<Link>)
    requires Tailq(p) && p[0] == head && elm !in p
    modifies head, elm, (if |p| > 1 then {p[1]} else {})`prev
    ensures Tailq(InsertedAt(p, 1, elm))
  {
    elm.next := head.next;
    if elm.next != null {
      head.next.prev := elm;
    } else {
      head.prev := elm;
    }
    head.next := elm;
    elm.prev := head;
  }

  method InsertTail(head: Link, elm: Link, ghost p: seq<Link>)
    requires Tailq(p) && p[0] == head && elm !in p
    modifies head`prev, elm, {p[|p| - 1]}`next
    ensures Tailq(p + [elm])
  {
    elm.next := null;
    elm.prev := head.prev;
    head.prev.next := elm;
    head.prev := elm;
  }

  method InsertAfter(head: Link, listelm: Link, elm: Link, ghost p: seq<Link>, ghost i: nat)
    requires Tailq(p) && p[0] == head && 1 <= i < |p| && p[i] == listelm && elm !in p
    modifies head`prev, listelm`next, elm, (if i + 1 < |p| then {p[i + 1]} else {})`prev
    ensures Tailq(InsertedAt(p, i + 1, elm))
  {
    elm.next := listelm.next;
    if elm.next != null {
      elm.next.prev := elm;
    } else {
      head.prev := elm;
    }
    listelm.next := elm;
    elm.prev := listelm;
  }

  method InsertBefore(listelm: Link, elm: Link, ghost p: seq<Link>, ghost i: nat)
    requires Tailq(p) && 1 <= i < |p| && p[i] == listelm && elm !in p
    modifies {p[i - 1]}`next, elm, listelm`prev
    ensures Tailq(InsertedAt(p, i, elm))
  {
    elm.prev := listelm.prev;
    elm.next := listelm;
    listelm.prev.next := elm;
    listelm.prev := elm;
  }

  method Remove(head: Link, elm: Link, ghost p: seq<Link>, ghost i: nat)
    requires Tailq(p) && p[0] == head && 1 <= i < |p| && p[i] == elm
    modifies head`prev, {p[i - 1]}`next, (if i + 1 < |p| then {p[i + 1]} else {})`prev
    ensures Tailq(RemovedAt(p, i))
  {
    if elm.next != null {
      elm.next.prev := elm.prev;
    } else {
      head.prev := elm.prev;
    }
    elm.prev.next := elm.next;
  }

  method Concat(head1: Link, head2: Link, ghost p: seq<Link>, ghost q: seq<Link>)
    requires Tailq(p) && Tailq(q) && p[0] == head1 && q[0] == head2 && Disjoint(p, q)
    modifies {p[|p| - 1]}`next, head1`prev, head2, (if |q| > 1 then {q[1]} else {})`prev
    ensures Tailq(p + q[1..]) && Tailq([head2])
  {
    if head2.next != null {
      head1.prev.next := head2.next;
      head2.next.prev := head1.prev;
      head1.prev := head2.prev;
      Init(head2);
    }
    assert |q| == 1 ==> p + q[1..] == p;
  }

  method Swap(head1: Link, head2: Link, ghost p: seq<Link>, ghost q: seq<Link>)
    requires Tailq(p) && Tailq(q) && p[0] == head1 && q[0] == head2 && Disjoint(p, q)
    modifies head1, head2, ((if |p| > 1 then {p[1]} else {}) + if |q| > 1 then {q[1]} else {})`prev
    ensures Tailq([head1] + q[1..]) && Tailq([head2] + p[1..])
  {
    var swapFirst, swapLast := head1.next, head1.prev;
    head1.next := head2.next;
    head1.prev := head2.prev;
    head2.next := swapFirst;
    head2.prev := swapLast;
    swapFirst := head1.next;
    if swapFirst != null {
      swapFirst.prev := head1;
    } else {
      head1.prev := head1;
    }
    swapFirst := head2.next;
    if swapFirst != null {
      swapFirst.prev := head2;
    } else {
      head2.prev := head2;
    }
  }
}
