// aesdsocket.c: the list of connections (an SLIST of queue.h) and the pass
// that joins and frees the finished ones.
module Connections {

  class Connection {
    var threadComplete: bool
    var next: Connection?  // entries.sle_next

    constructor ()
      ensures !threadComplete && next == null
    {
      threadComplete, next := false, null;
    }
  }

  function NextAt(s: seq<Connection>, i: nat): Connection?
    requires i <= |s|
  {
    if i < |s| then s[i] else null
  }

  ghost predicate Distinct(s: seq<Connection>) {
    forall i, j :: 0 <= i < j < |s| ==> s[i] != s[j]
  }

  // The connections of s that are in marked, or that are not, in order.
  ghost function Picked(s: seq<Connection>, marked: set<Connection>, want: bool): (r: seq<Connection>)
    ensures forall c :: c in r ==> c in s && (c in marked) == want
    ensures forall c :: c in s && (c in marked) == want ==> c in r
  {
    if s == [] then []
    else
      var c := s[|s| - 1];
      Picked(s[..|s| - 1], marked, want) + if (c in marked) == want then [c] else []
  }

  lemma {:induction false} PickedDistinct(s: seq<Connection>, marked: set<Connection>, want: bool)
    requires Distinct(s)
    ensures Distinct(Picked(s, marked, want))
  {
    if s != [] {
      PickedDistinct(s[..|s| - 1], marked, want);
    }
  }

  // c comes before d on the list s.
  ghost predicate Before(s: seq<Connection>, c: Connection, d: Connection) {
    exists i, j :: 0 <= i < j < |s| && s[i] == c && s[j] == d
  }

  ghost predicate InOrder(p: seq<Connection>, s: seq<Connection>) {
    forall i, j :: 0 <= i < j < |p| ==> Before(s, p[i], p[j])
  }

  // Picking keeps the order of the list.
  lemma {:induction false} PickedInOrder(s: seq<Connection>, marked: set<Connection>, want: bool)
    ensures InOrder(Picked(s, marked, want), s)
  {
    if s != [] {
      hide InOrder;
      var init, c := s[..|s| - 1], s[|s| - 1];
      PickedInOrder(init, marked, want);
      OneMoreInOrder(Picked(init, marked, want), init, c);
      assert init + [c] == s;
    } else {
      assert Picked(s, marked, want) == [];
    }
  }

  lemma OneMoreInOrder(p: seq<Connection>, s: seq<Connection>, c: Connection)
    requires InOrder(p, s) && forall d :: d in p ==> d in s
    ensures InOrder(p, s + [c]) && InOrder(p + [c], s + [c]) && p + [] == p
  {
    var t := s + [c];
    forall i, j | 0 <= i < j < |p + [c]|
      ensures Before(t, (p + [c])[i], (p + [c])[j])
    {
      assert p[i] in s;
      if j < |p| {
        assert Before(s, p[i], p[j]);
        var a, b :| 0 <= a < b < |s| && s[a] == p[i] && s[b] == p[j];
        assert t[a] == p[i] && t[b] == p[j];
      } else {
        var a :| 0 <= a < |s| && s[a] == p[i];
        assert t[a] == p[i] && t[|s|] == c;
      }
    }
    forall i, j | 0 <= i < j < |p|
      ensures Before(t, p[i], p[j])
    {
      assert (p + [c])[i] == p[i] && (p + [c])[j] == p[j];
    }
  }

  // One more connection looked at.
  lemma PickedSnoc(s: seq<Connection>, n: nat, marked: set<Connection>, want: bool)
    requires n < |s|
    ensures Picked(s[..n + 1], marked, want)
            == Picked(s[..n], marked, want) + if (s[n] in marked) == want then [s[n]] else []
  {
    assert s[..n + 1][..n] == s[..n];
  }

  // Connection s[n] between those kept and those to come.
  lemma Regroup<T>(kept: seq<T>, s: seq<T>, n: nat)
    requires n < |s|
    ensures kept + [] == kept
    ensures (kept + [s[n]]) + s[n + 1..] == kept + s[n..]
    ensures (kept + s[n..])[|kept|] == s[n]
    ensures (kept + s[n..])[..|kept|] + (kept + s[n..])[|kept| + 1..] == kept + s[n + 1..]
  {
  }

  lemma AllListed<T>(kept: seq<T>, s: seq<T>, n: nat)
    requires n <= |s| && forall c :: c in kept ==> c in s[..n]
    ensures forall i :: 0 <= i < |kept + s[n..]| ==> (kept + s[n..])[i] in s
  {
    assert forall i :: 0 <= i < |kept| ==> kept[i] in s[..n];
  }

  class ConnectionList {
    var first: Connection?  // slh_first

    // The list holds s: every link points at the next element, the last is NULL.
    ghost predicate IsList(s: seq<Connection>)
      reads this, s`next
    {
      && Distinct(s)
      && first == NextAt(s, 0)
      && forall i :: 0 <= i < |s| ==> s[i].next == NextAt(s, i + 1)
    }

    // SLIST_INIT
    constructor ()
      ensures IsList([])
    {
      first := null;
    }

    // SLIST_INSERT_HEAD
    method InsertHead(elm: Connection, ghost s: seq<Connection>)
      requires IsList(s) && elm !in s
      modifies this, elm`next
      ensures IsList([elm] + s)
    {
      elm.next := first;
      first := elm;
    }

    // SLIST_REMOVE: the search ends because the element is on the list.
    method Remove(elm: Connection, ghost s: seq<Connection>, ghost k: nat)
      requires IsList(s) && k < |s| && s[k] == elm
      modifies this, s`next
      ensures IsList(s[..k] + s[k + 1..])
      ensures elm.next == old(elm.next)
    {
      if first == elm {
        first := first.next;
      } else {
        var curelm := first;
        ghost var i := 0;
        while curelm.next != elm
          invariant i < k && curelm == s[i]
          decreases k - i
        {
          curelm := curelm.next;
          i := i + 1;
        }
        assert s[i].next == NextAt(s, i + 1);
        assert elm.next == NextAt(s, k + 1);
        curelm.next := curelm.next.next;
      }
      Unlinked(s, k);
    }

    // Element k is bypassed and every other link is as it was.
    lemma Unlinked(s: seq<Connection>, k: nat)
      requires k < |s| && Distinct(s)
      requires first == NextAt(s, if k == 0 then 1 else 0)
      requires forall i :: 0 <= i < |s| && i != k ==>
                 s[i].next == NextAt(s, if i + 1 == k then k + 1 else i + 1)
      ensures IsList(s[..k] + s[k + 1..])
    {
      var t := s[..k] + s[k + 1..];
      forall i | 0 <= i < |t|
        ensures t[i].next == NextAt(t, i + 1)
      {
        assert t[i] == s[if i < k then i else i + 1];
      }
    }

    // collect_complete_threads. Handler threads set flags without taking the
    // list's lock: finishing are the connections whose flag is set during the
    // pass, before they are looked at. (A flag set later is not read again and
    // waits for the next pass.) The next pointer is saved before the element is
    // freed; the source's SLIST_FOREACH reads it from the element afterwards,
    // and readsFreed says whether that happens.
    method CollectCompleteThreads(ghost s: seq<Connection>, finishing: set<Connection>)
      returns (joined: seq<Connection>, freed: seq<Connection>, readsFreed: bool)
      requires IsList(s)
      modifies this, s`next, s`threadComplete
      ensures var marked := old(Finished(s)) + finishing;
              && IsList(Picked(s, marked, false))
              && joined == freed == Picked(s, marked, true)
              && Distinct(freed)
              && (forall c :: c in Picked(s, marked, false) ==> c !in freed)
              && (forall c :: c in s ==> (c in joined <==> old(c.threadComplete) || c in finishing))
              && (readsFreed <==> exists c :: c in s && c in marked)
              && forall c :: c in s ==> c.threadComplete == (c in marked)
    {
      hide IsList, Picked, Left, Taken, Distinct, FlagsRead;
      ghost var marked := Finished(s) + finishing;
      joined, freed, readsFreed := [], [], false;
      var conn := first;
      ghost var n := 0;
      Start(s, marked);
      FlagsBefore(s, finishing);
      while conn != null
        invariant n <= |s| && conn == NextAt(s, n)
        invariant IsList(Left(s, n, marked))
        invariant joined == freed == Taken(s, n, marked)
        invariant readsFreed <==> freed != []
        invariant FlagsRead(s, n, marked, finishing)
        decreases |s| - n
      {
        Current(s, n, marked);
        Advance(s, n, marked);
        HandlerMayFinish(conn, s, n, marked, finishing);
        var next := conn.next;
        if conn.threadComplete {
          joined := joined + [conn];
          RemoveCurrent(conn, s, n, marked, finishing);
          freed := freed + [conn];
        }
        // where the source reads conn->next
        readsFreed := readsFreed || conn in freed;
        conn := next;
        n := n + 1;
      }
      Finish(s, n, marked);
      FlagsAfter(s, n, marked, finishing);
    }

    // After n connections have been looked at: the list, and those collected.

    ghost function Left(s: seq<Connection>, n: nat, marked: set<Connection>): seq<Connection>
      requires n <= |s|
    {
      Picked(s[..n], marked, false) + s[n..]
    }

    ghost function Taken(s: seq<Connection>, n: nat, marked: set<Connection>): seq<Connection>
      requires n <= |s|
    {
      Picked(s[..n], marked, true)
    }

    // The handler of conn may set its flag before the flag is read.
    method HandlerMayFinish(conn: Connection, ghost s: seq<Connection>, ghost n: nat,
                            ghost marked: set<Connection>, finishing: set<Connection>)
      requires n < |s| && s[n] == conn && FlagsRead(s, n, marked, finishing)
      requires IsList(Left(s, n, marked))
      modifies conn`threadComplete
      ensures IsList(Left(s, n, marked))
      ensures conn.threadComplete == (conn in marked)
      ensures FlagsRead(s, n + 1, marked, finishing)
    {
      if conn in finishing {
        conn.threadComplete := true;
      }
    }

    // The first n flags have been read, the others may still be set.
    ghost predicate FlagsRead(s: seq<Connection>, n: nat, marked: set<Connection>, finishing: set<Connection>)
      reads s`threadComplete
    {
      && n <= |s| && finishing <= marked
      && (forall c :: c in s && c !in finishing ==> c.threadComplete == (c in marked))
      && (forall i :: 0 <= i < n ==> s[i].threadComplete == (s[i] in marked))
    }

    lemma FlagsBefore(s: seq<Connection>, finishing: set<Connection>)
      ensures FlagsRead(s, 0, Finished(s) + finishing, finishing)
    {
    }

    lemma FlagsAfter(s: seq<Connection>, n: nat, marked: set<Connection>, finishing: set<Connection>)
      requires n == |s| && FlagsRead(s, n, marked, finishing)
      ensures forall c :: c in s ==> c.threadComplete == (c in marked)
    {
    }

    ghost function Finished(s: seq<Connection>): set<Connection>
      reads s`threadComplete
    {
      set c | c in s && c.threadComplete
    }

    lemma Start(s: seq<Connection>, marked: set<Connection>)
      requires IsList(s)
      ensures first == NextAt(s, 0) && Distinct(s)
      ensures Left(s, 0, marked) == s && Taken(s, 0, marked) == []
    {
    }

    // The connection being looked at comes after those kept.
    lemma Current(s: seq<Connection>, n: nat, marked: set<Connection>)
      requires n < |s| && IsList(Left(s, n, marked))
      ensures s[n].next == NextAt(s, n + 1)
    {
      assert Left(s, n, marked)[|Picked(s[..n], marked, false)|] == s[n];
    }

    // Looking at it leaves it on the list or moves it to those collected.
    lemma Advance(s: seq<Connection>, n: nat, marked: set<Connection>)
      requires n < |s|
      ensures s[n] in marked ==> Taken(s, n + 1, marked) == Taken(s, n, marked) + [s[n]]
      ensures s[n] !in marked ==>
                Left(s, n + 1, marked) == Left(s, n, marked) && Taken(s, n + 1, marked) == Taken(s, n, marked)
    {
      hide Picked;
      PickedSnoc(s, n, marked, false);
      PickedSnoc(s, n, marked, true);
      Regroup(Picked(s[..n], marked, false), s, n);
      Regroup(Picked(s[..n], marked, true), s, n);
    }

    method RemoveCurrent(conn: Connection, ghost s: seq<Connection>, ghost n: nat,
                         ghost marked: set<Connection>, ghost finishing: set<Connection>)
      requires n < |s| && s[n] == conn && conn in marked && IsList(Left(s, n, marked))
      requires FlagsRead(s, n + 1, marked, finishing)
      modifies this, s`next
      ensures IsList(Left(s, n + 1, marked))
      ensures FlagsRead(s, n + 1, marked, finishing)
    {
      hide IsList, Picked;
      ghost var kept, all := Picked(s[..n], marked, false), Left(s, n, marked);
      PickedSnoc(s, n, marked, false);
      Regroup(kept, s, n);
      AllListed(kept, s, n);
      Remove(conn, all, |kept|);
    }

    lemma Finish(s: seq<Connection>, n: nat, marked: set<Connection>)
      requires n == |s| && Distinct(s)
      ensures Left(s, n, marked) == Picked(s, marked, false) && Taken(s, n, marked) == Picked(s, marked, true)
      ensures Distinct(Picked(s, marked, true))
      ensures Picked(s, marked, true) != [] <==> exists c :: c in s && c in marked
      ensures forall c :: c in Picked(s, marked, false) ==> c !in Picked(s, marked, true)
    {
      assert s[..n] == s;
      PickedDistinct(s, marked, true);
      if Picked(s, marked, true) != [] {
        assert Picked(s, marked, true)[0] in s;
      }
    }
  }
}
