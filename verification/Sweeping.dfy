/** The garbage collector's sweep over the connections: chatd/net/server/connection_pool.cpp. */
module Sweeping {
  import opened Collections
  import opened Vectors
  import opened Transmission

  type Conns = seq<Transmitter?>

  /** The connections of s inside (or outside) a set, in order. */
  ghost function Select(s: Conns, ready: set<Transmitter?>, inside: bool): Conns {
    if s == [] then []
    else
      var n := |s| - 1;
      Select(s[..n], ready, inside) + if (s[n] in ready) == inside then [s[n]] else []
  }

  /** They are those connections, each as often as in s. */
  lemma {:induction false} SelectHolds(s: Conns, ready: set<Transmitter?>, inside: bool)
    ensures forall t | t in s && (t in ready) == inside :: t in Select(s, ready, inside)
    ensures forall t | t in Select(s, ready, inside) :: t in s && (t in ready) == inside
    ensures NoDuplicates(s) ==> NoDuplicates(Select(s, ready, inside))
  {
    if s != [] {
      var n := |s| - 1;
      assert s == s[..n] + [s[n]];
      assert NoDuplicates(s) ==> NoDuplicates(s[..n]) && s[n] !in s[..n];
      SelectHolds(s[..n], ready, inside);
    }
  }

  /** What a sweep leaves on the list, and what it shuts down, in this order: the last sweep
      shuts down everything and leaves the list as it is. */
  ghost function Kept(s: Conns, ready: set<Transmitter?>, terminated: bool): Conns {
    if terminated then s else Select(s, ready, true)
  }

  ghost function Gone(s: Conns, ready: set<Transmitter?>, terminated: bool): Conns {
    if terminated then s else Select(s, ready, false)
  }

  lemma OneMoreSwept(s: Conns, t: Transmitter?, ready: set<Transmitter?>, terminated: bool)
    ensures Kept(s + [t], ready, terminated)
         == if terminated || t in ready then Kept(s, ready, terminated) + [t] else Kept(s, ready, terminated)
    ensures Gone(s + [t], ready, terminated)
         == if terminated || t !in ready then Gone(s, ready, terminated) + [t] else Gone(s, ready, terminated)
  {
    assert (s + [t])[..|s|] == s;
    assert Select(s, ready, true) + [] == Select(s, ready, true);
    assert Select(s, ready, false) + [] == Select(s, ready, false);
  }

  lemma PassOver(front: Conns, rest: Conns)
    requires rest != []
    ensures (front + rest)[|front|] == rest[0]
    ensures Removed(front + rest, |front|) == front + rest[1..]
    ensures front + rest == front + [rest[0]] + rest[1..]
  {
  }

  /** Lines 30-38 of the source, for the connection at `index`: whether it is shut down, and
      where to look next. */
  method Visit(conns: Vec<Transmitter?>, index: nat, terminated: bool) returns (next: nat, doomed: bool)
    requires conns.Valid() && index < conns.size && conns.Contents()[index] != null
    modifies conns`size, conns.arr
    ensures conns.Valid() && doomed == (terminated || !old(conns.Contents()[index]).isReady)
    ensures doomed && !terminated ==> next == index && conns.Contents() == Removed(old(conns.Contents()), index)
    ensures !doomed || terminated ==> next == index + 1 && conns.Contents() == old(conns.Contents())
  {
    var i: int := index;
    var conn := conns.arr[index];
    doomed := terminated || !conn.isReady;
    if doomed && !terminated {
      var _, _ := conns.Remove(index);
      i := i - 1;
    }
    next := i + 1;
  }

  /** The sweep over `was` has passed `done`, kept `front` of it and shut down `gone`. */
  ghost predicate SweptSoFar(was: Conns, done: Conns, rest: Conns, front: Conns, gone: Conns,
                             ready: set<Transmitter?>, terminated: bool)
  {
    was == done + rest && front == Kept(done, ready, terminated) && gone == Gone(done, ready, terminated)
  }

  /** One round of the sweep. */
  method SweepOne(conns: Vec<Transmitter?>, index: nat, terminated: bool, shutDown: Conns, ghost was: Conns,
                  ghost done: Conns, ghost rest: Conns, ghost front: Conns, ghost ready: set<Transmitter?>)
    returns (next: nat, shutDown': Conns, ghost front': Conns)
    requires conns.Valid() && index < conns.size && null !in was
    requires forall t: Transmitter | t in was :: t.isReady <==> t in ready
    requires SweptSoFar(was, done, rest, front, shutDown, ready, terminated)
    requires conns.Contents() == front + rest && |front| == index && rest != []
    modifies conns`size, conns.arr
    ensures conns.Valid() && conns.Contents() == front' + rest[1..] && |front'| == next
    ensures SweptSoFar(was, done + [rest[0]], rest[1..], front', shutDown', ready, terminated)
    ensures conns.size - next == old(conns.size) - index - 1
  {
    PassOver(front, rest);
    PassOver(done, rest);
    var conn := conns.arr[index];
    assert conn == conns.Contents()[index] == rest[0];
    assert conn in was;
    OneMoreSwept(done, conn, ready, terminated);
    var doomed;
    next, doomed := Visit(conns, index, terminated);
    shutDown' := if doomed then shutDown + [conn] else shutDown;
    front' := if next == index then front else front + [conn];
  }

  /** One sweep over connections of which those in `ready` are ready; `shutDown` are the calls of
      `shutdown`, in order. While the server runs, the connections that are not ready go, each
      shut down once, and the ready ones stay in order. The index steps back at a removal, so
      what decreases is its distance to the end of the shrinking list. */
  method Sweep(conns: Vec<Transmitter?>, terminated: bool, ghost ready: set<Transmitter?>) returns (shutDown: Conns)
    requires conns.Valid() && null !in conns.Contents() && NoDuplicates(conns.Contents())
    requires forall t: Transmitter | t in conns.Contents() :: t.isReady <==> t in ready
    modifies conns`size, conns.arr
    ensures conns.Valid() && conns.Contents() == Kept(old(conns.Contents()), ready, terminated)
    ensures shutDown == Gone(old(conns.Contents()), ready, terminated) && NoDuplicates(shutDown)
  {
    ghost var was := conns.Contents();
    ghost var done, rest, front: Conns := [], was, [];
    shutDown := [];
    var index := 0;
    while index < conns.size
      invariant conns.Valid() && SweptSoFar(was, done, rest, front, shutDown, ready, terminated)
      invariant conns.Contents() == front + rest && |front| == index
      decreases conns.size - index
    {
      index, shutDown, front := SweepOne(conns, index, terminated, shutDown, was, done, rest, front, ready);
      done, rest := done + [rest[0]], rest[1..];
    }
    assert done + [] == done && front + [] == front;
    SelectHolds(was, ready, false);
  }
}
