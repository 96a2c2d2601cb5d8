/** Directed graphs as adjacency lists, their walks, and finishing orders. */
module Walks {
  import opened Strings

  type Graph<T(==)> = map<T, seq<T>>

  /** A node that is no key leads nowhere. */
  function Next<T>(g: Graph<T>, n: T): seq<T> {
    if n in g then g[n] else []
  }

  function Nodes<T>(g: Graph<T>): set<T> {
    g.Keys + set n, i | n in g && 0 <= i < |g[n]| :: g[n][i]
  }

  predicate IsWalk<T>(g: Graph<T>, w: seq<T>) {
    forall i, j :: 0 <= i < |w| && j == i + 1 < |w| ==> w[j] in Next(g, w[i])
  }

  predicate ClosedWalk<T(==)>(g: Graph<T>, w: seq<T>) {
    |w| >= 2 && IsWalk(g, w) && w[0] == w[|w| - 1]
  }

  /** A closed walk that visits no node twice on the way. */
  predicate SimpleCycle<T(==)>(g: Graph<T>, w: seq<T>) {
    ClosedWalk(g, w) && NoRepeats(w[..|w| - 1])
  }

  // ----- why a finishing order excludes cycles

  /** Every node comes after everything it leads to. */
  predicate Finished<T>(g: Graph<T>, order: seq<T>) {
    forall i :: 0 <= i < |order| ==> forall b :: b in Next(g, order[i]) ==> b in order[..i]
  }

  lemma FinishedSnoc<T>(g: Graph<T>, order: seq<T>, n: T)
    requires Finished(g, order) && forall b :: b in Next(g, n) ==> b in order
    ensures Finished(g, order + [n])
  {
    var more := order + [n];
    forall i | 0 <= i < |more|
      ensures forall b :: b in Next(g, more[i]) ==> b in more[..i]
    {
      if i < |order| {
        assert more[i] == order[i] && more[..i] == order[..i];
      } else {
        assert more[..i] == order;
      }
    }
  }

  lemma WalkTail<T>(g: Graph<T>, w: seq<T>)
    requires IsWalk(g, w) && w != []
    ensures IsWalk(g, w[1..])
  {
    forall k | 0 <= k < |w[1..]| - 1
      ensures w[1..][k + 1] in Next(g, w[1..][k])
    {
      assert w[k + 1 + 1] in Next(g, w[k + 1]);
    }
  }

  lemma WalkSlice<T>(g: Graph<T>, w: seq<T>, i: nat, j: nat)
    requires IsWalk(g, w) && i <= j <= |w|
    ensures IsWalk(g, w[i..j])
  {
    forall k | 0 <= k < |w[i..j]| - 1
      ensures w[i..j][k + 1] in Next(g, w[i..j][k])
    {
      assert w[i + k + 1] in Next(g, w[i + k]);
    }
  }

  /** In a finishing order every walk runs strictly backwards. */
  lemma {:induction false} WalkDescends<T>(g: Graph<T>, order: seq<T>, w: seq<T>, i: nat)
    requires Finished(g, order) && IsWalk(g, w) && |w| >= 2
    requires i < |order| && w[0] == order[i]
    ensures w[|w| - 1] in order[..i]
    decreases |w|
  {
    assert w[1] in order[..i];
    if |w| > 2 {
      var j :| 0 <= j < i && order[j] == w[1];
      WalkTail(g, w);
      WalkDescends(g, order, w[1..], j);
    }
  }

  function FirstIndex<T(==)>(order: seq<T>, n: T): (i: nat)
    requires n in order
    ensures i < |order| && order[i] == n && n !in order[..i]
  {
    if order[0] == n then 0
    else
      assert order == [order[0]] + order[1..];
      var j := FirstIndex(order[1..], n);
      assert order[..j + 1] == [order[0]] + order[1..][..j];
      j + 1
  }

  lemma NoCycleThrough<T>(g: Graph<T>, order: seq<T>, w: seq<T>)
    requires Finished(g, order) && w != [] && w[0] in order
    ensures !ClosedWalk(g, w)
  {
    if ClosedWalk(g, w) {
      var i := FirstIndex(order, w[0]);
      WalkDescends(g, order, w, i);
      assert false;
    }
  }

  /** A finished graph has no closed walk at all, from a key or from any other node. */
  lemma FinishedIsAcyclic<T>(g: Graph<T>, order: seq<T>, w: seq<T>)
    requires Finished(g, order) && forall n :: n in g ==> n in order
    ensures !ClosedWalk(g, w)
  {
    if ClosedWalk(g, w) {
      assert w[1] in Next(g, w[0]);
      NoCycleThrough(g, order, w);
    }
  }

  lemma PrefixKeeps<T>(a: seq<T>, b: seq<T>)
    requires a <= b
    ensures forall n :: n in a ==> n in b
  {
  }

  // ----- reachability

  /** `w` leads from `a` to `b`; a single node leads from itself to itself. */
  predicate Leads<T(==)>(g: Graph<T>, w: seq<T>, a: T, b: T) {
    w != [] && IsWalk(g, w) && w[0] == a && w[|w| - 1] == b
  }

  ghost predicate Reaches<T(!new)>(g: Graph<T>, a: T, b: T) {
    exists w :: Leads(g, w, a, b)
  }

  lemma ReachesSelf<T(!new)>(g: Graph<T>, a: T)
    ensures Reaches(g, a, a)
  {
    assert Leads(g, [a], a, a);
  }

  lemma ReachesVia<T(!new)>(g: Graph<T>, a: T, b: T, c: T)
    requires b in Next(g, a) && Reaches(g, b, c)
    ensures Reaches(g, a, c)
  {
    var w :| Leads(g, w, b, c);
    assert Leads(g, [a] + w, a, c);
  }

  lemma ReachesOn<T(!new)>(g: Graph<T>, a: T, b: T, c: T)
    requires Reaches(g, a, b) && c in Next(g, b)
    ensures Reaches(g, a, c)
  {
    var w :| Leads(g, w, a, b);
    assert Leads(g, w + [c], a, c);
  }

  lemma {:induction false} ReachesTransitive<T(!new)>(g: Graph<T>, a: T, b: T, c: T, w: seq<T>)
    requires Leads(g, w, a, b) && Reaches(g, b, c)
    ensures Reaches(g, a, c)
    decreases |w|
  {
    if |w| > 1 {
      WalkTail(g, w);
      ReachesTransitive(g, w[1], b, c, w[1..]);
      ReachesVia(g, a, w[1], c);
    }
  }

  /** A walk that ends where it has been closes a walk that its start reaches. */
  lemma ReturningWalk<T(!new)>(g: Graph<T>, s: seq<T>, i: nat) returns (w: seq<T>)
    requires IsWalk(g, s) && i < |s| - 1 && s[i] == s[|s| - 1]
    ensures ClosedWalk(g, w) && Reaches(g, s[0], w[0])
  {
    WalkSlice(g, s, 0, i + 1);
    assert Leads(g, s[0..i + 1], s[0], s[i]);
    WalkSlice(g, s, i, |s|);
    w := s[i..|s|];
  }

  /** What a set of nodes closed under edges contains, it contains with everything reachable. */
  lemma {:induction false} ClosedKeeps<T(!new)>(g: Graph<T>, s: set<T>, w: seq<T>, a: T, b: T)
    requires Leads(g, w, a, b) && a in s
    requires forall n, m :: n in s && m in Next(g, n) ==> m in s
    ensures b in s
    decreases |w|
  {
    if |w| > 1 {
      WalkTail(g, w);
      ClosedKeeps(g, s, w[1..], w[1], b);
    }
  }

  // ----- what a search still has before it

  /** The nodes that can still be marked are among `room`. */
  ghost predicate Room<T(!new)>(all: set<T>, marked: set<T>, room: set<T>) {
    forall t {:trigger t in room} :: t in all && t !in marked ==> t in room
  }

  lemma RoomKept<T(!new)>(all: set<T>, before: set<T>, now: set<T>, room: set<T>)
    requires Room(all, before, room) && before <= now
    ensures Room(all, now, room)
  {
  }

  lemma RoomTaken<T(!new)>(all: set<T>, marked: set<T>, t: T, room: set<T>)
    requires Room(all, marked, room) && t in all && t !in marked
    ensures room - {t} < room && Room(all, marked + {t}, room - {t})
  {
  }
}
