// queue.h: the TAILQ macros. A queue head and the entry inside an element are
// both a struct { T *; T ** }, and TAILQ_LAST and TAILQ_PREV read one as the
// other; so both are a Link here, and a T ** is a reference to the Link that
// starts with the T * it points at.
module TailQueue {

  class Link {
    var next: Elem?  // tqh_first or tqe_next
    var back: Link?  // tqh_last or tqe_prev

    constructor ()
      ensures next == null && back == null
    {
      next, back := null, null;
    }
  }

  class Elem {
    const field: Link

    constructor ()
      ensures fresh(field)
    {
      field := new Link();
    }
  }

  function Fields(s: seq<Elem>): set<Link> {
    set e | e in s :: e.field
  }

  // The Link in front of element i; the last one when i == |s|.
  function LinkAt(head: Link, s: seq<Elem>, i: nat): Link
    requires i <= |s|
  {
    if i == 0 then head else s[i - 1].field
  }

  // What that Link must hold: element i, or NULL after the last.
  function NextAt(s: seq<Elem>, i: nat): Elem?
    requires i <= |s|
  {
    if i < |s| then s[i] else null
  }

  // Which Link must point back at it: that of element i, or the head's.
  function OwnerAt(head: Link, s: seq<Elem>, i: nat): Link
    requires i <= |s|
  {
    if i < |s| then s[i].field else head
  }

  // A queue of n elements has n + 1 joints; joint i lies before element i.
  ghost predicate Joint(head: Link, s: seq<Elem>, i: nat)
    requires i <= |s|
    reads LinkAt(head, s, i), OwnerAt(head, s, i)
  {
    && LinkAt(head, s, i).next == NextAt(s, i)
    && OwnerAt(head, s, i).back == LinkAt(head, s, i)
  }

  ghost predicate Separate(head: Link, s: seq<Elem>) {
    && (forall i :: 0 <= i < |s| ==> s[i].field != head)
    && (forall i, j :: 0 <= i < j < |s| ==> s[i].field != s[j].field)
  }

  // Each tqe_prev refers to the link that points at its element, and tqh_last
  // is the final link, which holds NULL.
  ghost predicate IsQueue(head: Link, s: seq<Elem>)
    reads head, Fields(s)
  {
    Separate(head, s) && forall i :: 0 <= i <= |s| ==> Joint(head, s, i)
  }

  // Two joints have no cell in common.
  lemma Apart(head: Link, s: seq<Elem>, i: nat, j: nat)
    requires Separate(head, s) && i <= |s| && j <= |s| && i != j
    ensures LinkAt(head, s, i) != LinkAt(head, s, j)
    ensures OwnerAt(head, s, i) != OwnerAt(head, s, j)
  {
  }

  // The joints of a queue after an insertion at joint k.
  lemma Inserted(head: Link, s: seq<Elem>, k: nat, elm: Elem)
    requires Separate(head, s) && k <= |s|
    requires elm.field != head && elm.field !in Fields(s)
    requires forall i :: 0 <= i <= |s| && i != k ==> Joint(head, s, i)
    requires LinkAt(head, s, k).next == elm && elm.field.back == LinkAt(head, s, k)
    requires elm.field.next == NextAt(s, k) && OwnerAt(head, s, k).back == elm.field
    ensures IsQueue(head, s[..k] + [elm] + s[k..])
  {
    var t := s[..k] + [elm] + s[k..];
    forall i | 0 <= i <= |t|
      ensures Joint(head, t, i)
    {
      if i < k {
        assert Joint(head, s, i);
      } else if i > k + 1 {
        assert Joint(head, s, i - 1);
      }
    }
  }

  lemma Removed(head: Link, s: seq<Elem>, k: nat)
    requires Separate(head, s) && k < |s|
    requires forall i :: 0 <= i <= |s| && i != k && i != k + 1 ==> Joint(head, s, i)
    requires LinkAt(head, s, k).next == NextAt(s, k + 1)
    requires OwnerAt(head, s, k + 1).back == LinkAt(head, s, k)
    ensures IsQueue(head, s[..k] + s[k + 1..])
  {
    var t := s[..k] + s[k + 1..];
    forall i | 0 <= i <= |t|
      ensures Joint(head, t, i)
    {
      if i < k {
        assert Joint(head, s, i);
      } else if i > k {
        assert Joint(head, s, i + 1);
      }
    }
  }

  method Init(head: Link)
    modifies head
    ensures IsQueue(head, [])
  {
    head.next := null;
    head.back := head;
  }

  method InsertHead(head: Link, elm: Elem, ghost s: seq<Elem>)
    requires IsQueue(head, s) && elm.field != head && elm.field !in Fields(s)
    modifies head, Fields(s), elm.field
    ensures IsQueue(head, [elm] + s)
  {
    assert Joint(head, s, 0);
    elm.field.next := head.next;
    if elm.field.next != null {
      head.next.field.back := elm.field;
    } else {
      head.back := elm.field;
    }
    head.next := elm;
    elm.field.back := head;
    forall i | 0 <= i <= |s| && i != 0
      ensures Joint(head, s, i)
    {
      Apart(head, s, i, 0);
      assert old(Joint(head, s, i));
    }
    Inserted(head, s, 0, elm);
    assert s[..0] + [elm] + s[0..] == [elm] + s;
  }

  method InsertTail(head: Link, elm: Elem, ghost s: seq<Elem>)
    requires IsQueue(head, s) && elm.field != head && elm.field !in Fields(s)
    modifies head, Fields(s), elm.field
    ensures IsQueue(head, s + [elm])
  {
    assert Joint(head, s, |s|);
    elm.field.next := null;
    elm.field.back := head.back;
    head.back.next := elm;
    head.back := elm.field;
    forall i | 0 <= i <= |s| && i != |s|
      ensures Joint(head, s, i)
    {
      Apart(head, s, i, |s|);
      assert old(Joint(head, s, i));
    }
    Inserted(head, s, |s|, elm);
    assert s[..|s|] + [elm] + s[|s|..] == s + [elm];
  }

  method InsertAfter(head: Link, listelm: Elem, elm: Elem, ghost s: seq<Elem>, ghost k: nat)
    requires IsQueue(head, s) && elm.field != head && elm.field !in Fields(s)
    requires k < |s| && s[k] == listelm
    modifies head, Fields(s), elm.field
    ensures IsQueue(head, s[..k + 1] + [elm] + s[k + 1..])
  {
    assert Joint(head, s, k + 1);
    elm.field.next := listelm.field.next;
    if elm.field.next != null {
      elm.field.next.field.back := elm.field;
    } else {
      head.back := elm.field;
    }
    listelm.field.next := elm;
    elm.field.back := listelm.field;
    forall i | 0 <= i <= |s| && i != k + 1
      ensures Joint(head, s, i)
    {
      Apart(head, s, i, k + 1);
      assert old(Joint(head, s, i));
    }
    Inserted(head, s, k + 1, elm);
  }

  method InsertBefore(listelm: Elem, elm: Elem, ghost head: Link, ghost s: seq<Elem>, ghost k: nat)
    requires IsQueue(head, s) && elm.field != head && elm.field !in Fields(s)
    requires k < |s| && s[k] == listelm
    modifies head, Fields(s), elm.field
    ensures IsQueue(head, s[..k] + [elm] + s[k..])
  {
    assert Joint(head, s, k);
    elm.field.back := listelm.field.back;
    elm.field.next := listelm;
    listelm.field.back.next := elm;
    listelm.field.back := elm.field;
    forall i | 0 <= i <= |s| && i != k
      ensures Joint(head, s, i)
    {
      Apart(head, s, i, k);
      assert old(Joint(head, s, i));
    }
    Inserted(head, s, k, elm);
  }

  method Remove(head: Link, elm: Elem, ghost s: seq<Elem>, ghost k: nat)
    requires IsQueue(head, s)
    requires k < |s| && s[k] == elm
    modifies head, Fields(s)
    ensures IsQueue(head, s[..k] + s[k + 1..])
  {
    assert Joint(head, s, k) && Joint(head, s, k + 1);
    if elm.field.next != null {
      elm.field.next.field.back := elm.field.back;
    } else {
      head.back := elm.field.back;
    }
    elm.field.back.next := elm.field.next;
    forall i | 0 <= i <= |s| && i != k && i != k + 1
      ensures Joint(head, s, i)
    {
      Apart(head, s, i, k);
      Apart(head, s, i, k + 1);
      assert old(Joint(head, s, i));
    }
    Removed(head, s, k);
  }

  method Concat(head1: Link, head2: Link, ghost s1: seq<Elem>, ghost s2: seq<Elem>)
    requires IsQueue(head1, s1) && IsQueue(head2, s2)
    requires {head1} + Fields(s1) !! {head2} + Fields(s2)
    modifies head1, head2, Fields(s1), Fields(s2)
    ensures IsQueue(head1, s1 + s2) && IsQueue(head2, [])
  {
    assert Joint(head1, s1, |s1|) && Joint(head2, s2, 0) && Joint(head2, s2, |s2|);
    if head2.next != null {
      head1.back.next := head2.next;
      head2.next.field.back := head1.back;
      head1.back := head2.back;
      Init(head2);
      forall i | 0 <= i < |s1|
        ensures Joint(head1, s1, i)
      {
        Apart(head1, s1, i, |s1|);
        assert old(Joint(head1, s1, i));
      }
      forall i | 0 < i < |s2|
        ensures Joint(head2, s2, i)
      {
        Apart(head2, s2, i, 0);
        Apart(head2, s2, i, |s2|);
        assert old(Joint(head2, s2, i));
      }
      Joined(head1, head2, s1, s2);
    } else {
      assert s1 + s2 == s1;
    }
  }

  lemma Joined(head1: Link, head2: Link, s1: seq<Elem>, s2: seq<Elem>)
    requires Separate(head1, s1) && Separate(head2, s2) && |s2| > 0
    requires {head1} + Fields(s1) !! {head2} + Fields(s2)
    requires forall i :: 0 <= i < |s1| ==> Joint(head1, s1, i)
    requires forall i :: 0 < i < |s2| ==> Joint(head2, s2, i)
    requires LinkAt(head1, s1, |s1|).next == s2[0] && s2[0].field.back == LinkAt(head1, s1, |s1|)
    requires s2[|s2| - 1].field.next == null && head1.back == s2[|s2| - 1].field
    ensures IsQueue(head1, s1 + s2)
  {
    var t := s1 + s2;
    forall i, j | 0 <= i < j < |t|
      ensures t[i].field != t[j].field
    {
      assert i < |s1| ==> t[i].field in Fields(s1);
      assert j >= |s1| ==> t[j].field in Fields(s2);
    }
    forall i | 0 <= i < |t|
      ensures t[i].field != head1
    {
      assert i >= |s1| ==> t[i].field in Fields(s2);
    }
    forall i | 0 <= i <= |t|
      ensures Joint(head1, t, i)
    {
      if i < |s1| {
        assert Joint(head1, s1, i);
      } else if |s1| < i < |t| {
        assert Joint(head2, s2, i - |s1|);
      }
    }
  }

  method Swap(head1: Link, head2: Link, ghost s1: seq<Elem>, ghost s2: seq<Elem>)
    requires IsQueue(head1, s1) && IsQueue(head2, s2)
    requires {head1} + Fields(s1) !! {head2} + Fields(s2)
    modifies head1, head2, Fields(s1), Fields(s2)
    ensures IsQueue(head1, s2) && IsQueue(head2, s1)
  {
    assert Joint(head1, s1, 0) && Joint(head1, s1, |s1|);
    assert Joint(head2, s2, 0) && Joint(head2, s2, |s2|);
    var swapFirst, swapLast := head1.next, head1.back;
    head1.next := head2.next;
    head1.back := head2.back;
    head2.next := swapFirst;
    head2.back := swapLast;
    forall i | 0 < i < |s2|
      ensures Joint(head2, s2, i)
    {
      assert old(Joint(head2, s2, i));
    }
    Adopt(head1, head2, s2);
    forall i | 0 < i < |s1|
      ensures Joint(head1, s1, i)
    {
      assert old(Joint(head1, s1, i));
    }
    Adopt(head2, head1, s1);
  }

  // The end of TAILQ_SWAP, done for each head: the elements copied from
  // another head are made to point back at this one.
  method Adopt(head: Link, ghost before: Link, ghost s: seq<Elem>)
    requires Separate(before, s) && head !in Fields(s)
    requires forall i :: 0 < i < |s| ==> Joint(before, s, i)
    requires head.next == NextAt(s, 0) && LinkAt(head, s, |s|).next == null
    requires s != [] ==> head.back == s[|s| - 1].field
    modifies head, Fields(s)
    ensures IsQueue(head, s)
  {
    if head.next != null {
      head.next.field.back := head;
    } else {
      head.back := head;
    }
    forall i | 0 < i < |s|
      ensures Joint(before, s, i)
    {
      Apart(before, s, i, 0);
      assert old(Joint(before, s, i));
    }
    Moved(head, before, s);
  }

  // A queue whose elements hang from another head than before.
  lemma Moved(head: Link, before: Link, s: seq<Elem>)
    requires Separate(before, s) && head !in Fields(s)
    requires forall i :: 0 < i < |s| ==> Joint(before, s, i)
    requires Joint(head, s, 0) && Joint(head, s, |s|)
    ensures IsQueue(head, s)
  {
    forall i | 0 < i < |s|
      ensures Joint(head, s, i)
    {
      assert Joint(before, s, i);
    }
  }

  // TAILQ_LAST: the head's back pointer read as a head.
  function Last(head: Link, ghost s: seq<Elem>): (e: Elem?)
    requires IsQueue(head, s)
    reads head, Fields(s)
    ensures e == if s == [] then null else s[|s| - 1]
  {
    assert Joint(head, s, |s|);
    assert s != [] ==> Joint(head, s, |s| - 1);
    head.back.back.next
  }

  // TAILQ_PREV: likewise from an element.
  function Prev(elm: Elem, ghost head: Link, ghost s: seq<Elem>, ghost k: nat): (e: Elem?)
    requires IsQueue(head, s) && k < |s| && s[k] == elm
    reads head, Fields(s)
    ensures e == if k == 0 then null else s[k - 1]
  {
    assert Joint(head, s, k) && Joint(head, s, |s|);
    assert k > 0 ==> Joint(head, s, k - 1);
    elm.field.back.back.next
  }

  // TAILQ_FOREACH and TAILQ_FOREACH_REVERSE visit the same elements, in
  // opposite orders.

  method Foreach(head: Link, ghost s: seq<Elem>) returns (visited: seq<Elem>)
    requires IsQueue(head, s)
    ensures visited == s
  {
    visited := [];
    assert Joint(head, s, 0);
    var v := head.next;
    while v != null
      invariant |visited| <= |s| && visited == s[..|visited|]
      invariant v == NextAt(s, |visited|)
      decreases |s| - |visited|
    {
      visited := visited + [v];
      assert Joint(head, s, |visited|);
      v := v.field.next;
    }
  }

  method ForeachReverse(head: Link, ghost s: seq<Elem>) returns (visited: seq<Elem>)
    requires IsQueue(head, s)
    ensures |visited| == |s|
    ensures forall i :: 0 <= i < |s| ==> visited[i] == s[|s| - 1 - i]
  {
    hide IsQueue;
    visited := [];
    var v := Last(head, s);
    while v != null
      invariant |visited| <= |s|
      invariant forall i :: 0 <= i < |visited| ==> visited[i] == s[|s| - 1 - i]
      invariant v == if |visited| == |s| then null else s[|s| - 1 - |visited|]
      decreases |s| - |visited|
    {
      ghost var k: nat := |s| - 1 - |visited|;
      assert k < |s| && s[k] == v;
      visited := visited + [v];
      v := Prev(v, head, s, k);
    }
  }

  // ------------------------------------------------------------ whole runs

  // Two lists, and the operations on them; the flag picks the first or the
  // second list. Concat(true) appends the second list to the first.
  datatype Lists = Lists(s1: seq<Elem>, s2: seq<Elem>) {
    ghost function Get(first: bool): seq<Elem> {
      if first then s1 else s2
    }

    ghost function Set(first: bool, s: seq<Elem>): Lists {
      if first then Lists(s, s2) else Lists(s1, s)
    }
  }

  datatype Op =
    | OpHead(first: bool, elm: Elem)
    | OpTail(first: bool, elm: Elem)
    | OpAfter(first: bool, at: Elem, elm: Elem)
    | OpBefore(first: bool, at: Elem, elm: Elem)
    | OpRemove(first: bool, elm: Elem)
    | OpConcat(first: bool)
    | OpSwap

  ghost function Position(s: seq<Elem>, e: Elem): (k: nat)
    requires e in s
    ensures k < |s| && s[k] == e
  {
    if s[0] == e then 0 else 1 + Position(s[1..], e)
  }

  lemma {:induction false} PositionAt(s: seq<Elem>, k: nat, e: Elem)
    requires k <= |s| && e !in s
    ensures var t := s[..k] + [e] + s[k..];
            Position(t, e) == k && t[..k] + t[k + 1..] == s
    decreases k
  {
    var t := s[..k] + [e] + s[k..];
    if k > 0 {
      assert t[1..] == s[1..][..k - 1] + [e] + s[1..][k - 1..];
      PositionAt(s[1..], k - 1, e);
    }
  }

  // What the macros ask of their callers: an inserted element is in neither
  // list, and a listed element is in the list named.
  ghost predicate Legal(l: Lists, op: Op, pool: set<Elem>) {
    match op
    case OpHead(_, e) => e in pool && e !in l.s1 && e !in l.s2
    case OpTail(_, e) => e in pool && e !in l.s1 && e !in l.s2
    case OpAfter(q, at, e) => e in pool && e !in l.s1 && e !in l.s2 && at in l.Get(q)
    case OpBefore(q, at, e) => e in pool && e !in l.s1 && e !in l.s2 && at in l.Get(q)
    case OpRemove(q, e) => e in l.Get(q)
    case OpConcat(_) => true
    case OpSwap => true
  }

  // The operation on lists.
  ghost function Apply(l: Lists, op: Op, pool: set<Elem>): Lists
    requires Legal(l, op, pool)
  {
    match op
    case OpHead(q, e) => l.Set(q, [e] + l.Get(q))
    case OpTail(q, e) => l.Set(q, l.Get(q) + [e])
    case OpAfter(q, at, e) =>
      var s, k := l.Get(q), Position(l.Get(q), at) + 1;
      l.Set(q, s[..k] + [e] + s[k..])
    case OpBefore(q, at, e) =>
      var s, k := l.Get(q), Position(l.Get(q), at);
      l.Set(q, s[..k] + [e] + s[k..])
    case OpRemove(q, e) =>
      var s, k := l.Get(q), Position(l.Get(q), e);
      l.Set(q, s[..k] + s[k + 1..])
    case OpConcat(q) => l.Set(q, l.Get(q) + l.Get(!q)).Set(!q, [])
    case OpSwap => Lists(l.s2, l.s1)
  }

  ghost function Without(s: seq<Elem>, e: Elem): seq<Elem> {
    if s == [] then []
    else (if s[0] == e then [] else [s[0]]) + Without(s[1..], e)
  }

  // d is the element right after e.
  ghost predicate Adjacent(s: seq<Elem>, e: Elem, d: Elem) {
    exists i :: 0 <= i < |s| - 1 && s[i] == e && s[i + 1] == d
  }

  ghost predicate NoRepeats(s: seq<Elem>) {
    forall i, j :: 0 <= i < j < |s| ==> s[i] != s[j]
  }

  lemma {:induction false} WithoutAbsent(s: seq<Elem>, e: Elem)
    requires e !in s
    ensures Without(s, e) == s
  {
    if s != [] {
      WithoutAbsent(s[1..], e);
    }
  }

  // Taking the element at k out of a list that has it there only.
  lemma {:induction false} WithoutAt(s: seq<Elem>, k: nat, e: Elem)
    requires k < |s| && s[k] == e && e !in s[..k] && e !in s[k + 1..]
    ensures Without(s, e) == s[..k] + s[k + 1..]
  {
    if k == 0 {
      WithoutAbsent(s[1..], e);
    } else {
      assert s[1..][..k - 1] == s[..k][1..] && s[0] == s[..k][0];
      assert s[1..][k..] == s[k + 1..];
      WithoutAt(s[1..], k - 1, e);
    }
  }

  // Where an inserted element ends up, and that the others, and the other
  // list, keep their order.
  lemma {:induction false} InsertOrder(l: Lists, op: Op, pool: set<Elem>)
    requires op.OpHead? || op.OpTail? || op.OpAfter? || op.OpBefore?
    requires Legal(l, op, pool)
    ensures var l' := Apply(l, op, pool);
            var s, t := if op.first then l.s1 else l.s2, if op.first then l'.s1 else l'.s2;
            && Without(t, op.elm) == s && |t| == |s| + 1
            && (op.OpHead? ==> t[0] == op.elm)
            && (op.OpTail? ==> t[|s|] == op.elm)
            && (op.OpAfter? ==> Adjacent(t, op.at, op.elm))
            && (op.OpBefore? ==> Adjacent(t, op.elm, op.at))
            && (if op.first then l'.s2 == l.s2 else l'.s1 == l.s1)
  {
    hide Position, Without;
    var s := l.Get(op.first);
    match op
    case OpHead(q, e) => InsertedAt(s, [e] + s, 0, e);
    case OpTail(q, e) => InsertedAt(s, s + [e], |s|, e);
    case OpAfter(q, at, e) =>
      var k := Position(s, at) + 1;
      InsertedAt(s, s[..k] + [e] + s[k..], k, e);
    case OpBefore(q, at, e) =>
      var k := Position(s, at);
      InsertedAt(s, s[..k] + [e] + s[k..], k, e);
    case _ =>
  }

  lemma InsertedAt(s: seq<Elem>, t: seq<Elem>, k: nat, e: Elem)
    requires k <= |s| && t == s[..k] + [e] + s[k..] && e !in s
    ensures Without(t, e) == s && t[k] == e
    ensures k > 0 ==> Adjacent(t, s[k - 1], e)
    ensures k < |s| ==> Adjacent(t, e, s[k])
  {
    hide Without;
    assert t[..k] == s[..k] && t[k + 1..] == s[k..];
    WithoutAt(t, k, e);
    assert s[..k] + s[k..] == s;
    assert k > 0 ==> t[k - 1] == s[k - 1] && t[k] == e;
    assert k < |s| ==> t[k] == e && t[k + 1] == s[k];
  }

  // What the other operations leave: the removed element is gone and the rest
  // keeps its order, the concatenated list starts with the one and ends with
  // the other, and the swapped lists have changed places.
  lemma {:induction false} OtherOrder(l: Lists, op: Op, pool: set<Elem>)
    requires op.OpRemove? || op.OpConcat? || op.OpSwap?
    requires Legal(l, op, pool) && NoRepeats(l.s1) && NoRepeats(l.s2)
    ensures var l' := Apply(l, op, pool);
            match op
            case OpRemove(true, e) => l'.s1 == Without(l.s1, e) && l'.s2 == l.s2
            case OpRemove(false, e) => l'.s2 == Without(l.s2, e) && l'.s1 == l.s1
            case OpConcat(true) => l.s1 <= l'.s1 && l'.s1[|l.s1|..] == l.s2 && l'.s2 == []
            case OpConcat(false) => l.s2 <= l'.s2 && l'.s2[|l.s2|..] == l.s1 && l'.s1 == []
            case OpSwap => l'.s1 == l.s2 && l'.s2 == l.s1
            case _ => true
  {
    if op.OpRemove? {
      hide Position, Without;
      var s := l.Get(op.first);
      WithoutAt(s, Position(s, op.elm), op.elm);
    }
  }

  // A queue has no element twice.
  lemma QueueHasNoRepeats(head: Link, s: seq<Elem>)
    requires IsQueue(head, s)
    ensures NoRepeats(s)
  {
  }

  // Removing an element undoes any way of inserting it.
  lemma {:induction false} RemoveUndoesInsert(l: Lists, op: Op, pool: set<Elem>)
    requires op.OpHead? || op.OpTail? || op.OpAfter? || op.OpBefore?
    requires Legal(l, op, pool)
    ensures var l' := Apply(l, op, pool);
            && Legal(l', OpRemove(op.first, op.elm), pool)
            && Apply(l', OpRemove(op.first, op.elm), pool) == l
  {
    hide Position;
    var s := l.Get(op.first);
    match op
    case OpHead(q, e) =>
      assert s[..0] + [e] + s[0..] == [e] + s;
      RemoveInserted(l, q, 0, e, pool);
    case OpTail(q, e) =>
      assert s[..|s|] + [e] + s[|s|..] == s + [e];
      RemoveInserted(l, q, |s|, e, pool);
    case OpAfter(q, at, e) => RemoveInserted(l, q, Position(s, at) + 1, e, pool);
    case OpBefore(q, at, e) => RemoveInserted(l, q, Position(s, at), e, pool);
    case _ =>
  }

  lemma RemoveInserted(l: Lists, q: bool, k: nat, e: Elem, pool: set<Elem>)
    requires k <= |l.Get(q)| && e !in l.Get(q)
    ensures var l' := l.Set(q, l.Get(q)[..k] + [e] + l.Get(q)[k..]);
            && Legal(l', OpRemove(q, e), pool)
            && Apply(l', OpRemove(q, e), pool) == l
  {
    hide Position;
    var t := l.Get(q)[..k] + [e] + l.Get(q)[k..];
    assert t[k] == e;
    PositionAt(l.Get(q), k, e);
  }

  ghost predicate LegalRun(l: Lists, ops: seq<Op>, pool: set<Elem>)
    decreases |ops|
  {
    ops == [] || (Legal(l, ops[0], pool) && LegalRun(Apply(l, ops[0], pool), ops[1..], pool))
  }

  ghost function ApplyAll(l: Lists, ops: seq<Op>, pool: set<Elem>): Lists
    requires LegalRun(l, ops, pool)
    decreases |ops|
  {
    if ops == [] then l else ApplyAll(Apply(l, ops[0], pool), ops[1..], pool)
  }

  // Operations are done in order.
  lemma {:induction false} RunsCompose(l: Lists, a: seq<Op>, b: seq<Op>, pool: set<Elem>)
    requires LegalRun(l, a, pool) && LegalRun(ApplyAll(l, a, pool), b, pool)
    ensures LegalRun(l, a + b, pool)
    ensures ApplyAll(l, a + b, pool) == ApplyAll(ApplyAll(l, a, pool), b, pool)
    ensures a != [] ==> Legal(l, a[0], pool) && ApplyAll(l, [a[0]], pool) == Apply(l, a[0], pool)
    decreases |a|
  {
    hide Apply, Legal;
    if a == [] {
      assert a + b == b;
    } else {
      assert (a + b)[1..] == a[1..] + b;
      RunsCompose(Apply(l, a[0], pool), a[1..], b, pool);
    }
  }

  // Distinct elements have distinct entries, apart from the two heads.
  ghost predicate Pool(head1: Link, head2: Link, pool: set<Elem>) {
    && head1 != head2
    && (forall e :: e in pool ==> e.field != head1 && e.field != head2)
    && (forall e, f :: e in pool && f in pool && e != f ==> e.field != f.field)
  }

  ghost predicate Disjoint(l: Lists, pool: set<Elem>) {
    && (forall e :: e in l.s1 ==> e in pool && e !in l.s2)
    && (forall e :: e in l.s2 ==> e in pool)
  }

  ghost function Cells(head1: Link, head2: Link, pool: set<Elem>): set<Link> {
    {head1, head2} + set e | e in pool :: e.field
  }

  // Both heads describe their lists.
  ghost predicate Holds(head1: Link, head2: Link, l: Lists, pool: set<Elem>)
    reads Cells(head1, head2, pool), head1, Fields(l.s1), head2, Fields(l.s2)
  {
    && Pool(head1, head2, pool) && Disjoint(l, pool)
    && IsQueue(head1, l.s1) && IsQueue(head2, l.s2)
  }

  // The two queues share no cell with each other or with a spare element.
  lemma CellsApart(head1: Link, head2: Link, l: Lists, pool: set<Elem>)
    requires Pool(head1, head2, pool) && Disjoint(l, pool)
    ensures {head1} + Fields(l.s1) !! {head2} + Fields(l.s2)
    ensures {head1} + Fields(l.s1) + {head2} + Fields(l.s2) <= Cells(head1, head2, pool)
    ensures forall e :: e in pool && e !in l.s1 && e !in l.s2 ==>
              (e.field !in {head1} + Fields(l.s1) && e.field !in {head2} + Fields(l.s2)
               && e.field in Cells(head1, head2, pool))
  {
  }

  // An operation on one list keeps the lists disjoint and inside the pool.
  lemma StaysDisjoint(l: Lists, op: Op, pool: set<Elem>)
    requires Disjoint(l, pool) && Legal(l, op, pool)
    ensures Disjoint(Apply(l, op, pool), pool)
  {
    match op
    case OpHead(q, e) => GrowsBy(l, q, [e] + l.Get(q), e, pool);
    case OpTail(q, e) => GrowsBy(l, q, l.Get(q) + [e], e, pool);
    case OpAfter(q, at, e) => GrowsBy(l, q, Apply(l, op, pool).Get(q), e, pool);
    case OpBefore(q, at, e) => GrowsBy(l, q, Apply(l, op, pool).Get(q), e, pool);
    case OpRemove(q, e) =>
    case OpConcat(q) =>
    case OpSwap =>
  }

  lemma GrowsBy(l: Lists, q: bool, s: seq<Elem>, e: Elem, pool: set<Elem>)
    requires Disjoint(l, pool) && e in pool && e !in l.s1 && e !in l.s2
    requires forall x :: x in s ==> x == e || x in l.Get(q)
    ensures Disjoint(l.Set(q, s), pool)
  {
  }

  method StepInsert(head1: Link, head2: Link, op: Op, ghost l: Lists, ghost pool: set<Elem>)
    requires Holds(head1, head2, l, pool) && Legal(l, op, pool)
    requires op.OpHead? || op.OpTail? || op.OpAfter? || op.OpBefore?
    modifies Cells(head1, head2, pool)
    ensures Holds(head1, head2, Apply(l, op, pool), pool)
  {
    hide IsQueue, Pool, Disjoint, Cells, Position;
    CellsApart(head1, head2, l, pool);
    StaysDisjoint(l, op, pool);
    var head := if op.first then head1 else head2;
    ghost var s := l.Get(op.first);
    match op
    case OpHead(_, e) => InsertHead(head, e, s);
    case OpTail(_, e) => InsertTail(head, e, s);
    case OpAfter(_, at, e) => InsertAfter(head, at, e, s, Position(s, at));
    case OpBefore(_, at, e) => InsertBefore(at, e, head, s, Position(s, at));
    case _ =>
  }

  method StepBoth(head1: Link, head2: Link, op: Op, ghost l: Lists, ghost pool: set<Elem>)
    requires Holds(head1, head2, l, pool) && Legal(l, op, pool)
    requires op.OpConcat? || op.OpSwap?
    modifies Cells(head1, head2, pool)
    ensures Holds(head1, head2, Apply(l, op, pool), pool)
  {
    hide IsQueue, Pool, Disjoint, Cells;
    CellsApart(head1, head2, l, pool);
    StaysDisjoint(l, op, pool);
    match op
    case OpConcat(q) =>
      if q {
        Concat(head1, head2, l.s1, l.s2);
      } else {
        Concat(head2, head1, l.s2, l.s1);
      }
    case OpSwap => Swap(head1, head2, l.s1, l.s2);
    case _ =>
  }

  method Step(head1: Link, head2: Link, op: Op, ghost l: Lists, ghost pool: set<Elem>)
    requires Holds(head1, head2, l, pool) && Legal(l, op, pool)
    modifies Cells(head1, head2, pool)
    ensures Holds(head1, head2, Apply(l, op, pool), pool)
  {
    match op
    case OpRemove(q, e) =>
      hide IsQueue, Pool, Disjoint, Cells, Position;
      CellsApart(head1, head2, l, pool);
      StaysDisjoint(l, op, pool);
      Remove(if q then head1 else head2, e, l.Get(q), Position(l.Get(q), e));
    case OpConcat(_) => StepBoth(head1, head2, op, l, pool);
    case OpSwap => StepBoth(head1, head2, op, l, pool);
    case _ => StepInsert(head1, head2, op, l, pool);
  }

  // Tail-queue refinement: any legal sequence of operations changes the two
  // lists exactly as it changes sequences, and leaves the heap well formed.
  method RunOps(head1: Link, head2: Link, ops: seq<Op>, ghost l: Lists, ghost pool: set<Elem>)
    requires Holds(head1, head2, l, pool) && LegalRun(l, ops, pool)
    modifies Cells(head1, head2, pool)
    ensures Holds(head1, head2, ApplyAll(l, ops, pool), pool)
    decreases |ops|
  {
    if ops != [] {
      Step(head1, head2, ops[0], l, pool);
      RunOps(head1, head2, ops[1..], Apply(l, ops[0], pool), pool);
    }
  }
}
