/** The order in which a depth-first walk meets the nodes of a graph: each on its first walk,
    which takes at every step the first node on offer that leads on to it. */
module FirstWalks {
  import opened Strings
  import opened Walks

  // ----- what stands before what

  /** The nodes on offer before the first `n`. */
  function Ahead<T(==)>(offer: seq<T>, n: T): seq<T> {
    if offer == [] || offer[0] == n then [] else [offer[0]] + Ahead(offer[1..], n)
  }

  lemma {:induction false} AheadIsBefore<T>(before: seq<T>, n: T, after: seq<T>, c: T)
    requires c in Ahead(before + ([n] + after), n)
    ensures c in before
  {
    var offer := before + ([n] + after);
    if before != [] {
      assert offer[1..] == before[1..] + ([n] + after);
      if c != offer[0] {
        AheadIsBefore(before[1..], n, after, c);
      }
    }
  }

  lemma {:induction false} AheadTotal<T>(offer: seq<T>, a: T, b: T)
    requires a in offer && b in offer && a != b
    ensures a in Ahead(offer, b) || b in Ahead(offer, a)
  {
    if offer[0] != a && offer[0] != b {
      AheadTotal(offer[1..], a, b);
    }
  }

  /** What a walk could have taken for its k-th node: a root, or a node below the one before. */
  function Offer<T>(g: Graph<T>, roots: seq<T>, w: seq<T>, k: nat): seq<T>
    requires k <= |w|
  {
    if k == 0 then roots else Next(g, w[k - 1])
  }

  predicate FromRoot<T(==)>(g: Graph<T>, roots: seq<T>, w: seq<T>) {
    w != [] && w[0] in roots && IsWalk(g, w)
  }

  /** `c` was on offer before the k-th node of the walk. */
  predicate Passed<T(==)>(g: Graph<T>, roots: seq<T>, w: seq<T>, k: nat, c: T)
    requires k < |w|
  {
    c in Ahead(Offer(g, roots, w, k), w[k])
  }

  /** Nothing that the walk passes by leads to `t`. */
  ghost predicate PassesNoWay<T(!new)>(g: Graph<T>, roots: seq<T>, w: seq<T>, t: T) {
    forall k, c :: 0 <= k < |w| && Passed(g, roots, w, k, c) ==> !Reaches(g, c, t)
  }

  /** The first walk to its last node, in the order of roots and then of fields. */
  ghost predicate FirstWalk<T(!new)>(g: Graph<T>, roots: seq<T>, w: seq<T>) {
    FromRoot(g, roots, w) && PassesNoWay(g, roots, w, w[|w| - 1])
  }

  ghost predicate FirstTo<T(!new)>(g: Graph<T>, roots: seq<T>, w: seq<T>, t: T) {
    FirstWalk(g, roots, w) && w[|w| - 1] == t
  }

  /** `a` lies on the first walk to `b`. */
  ghost predicate OnFirstWalk<T(!new)>(g: Graph<T>, roots: seq<T>, a: T, b: T) {
    exists w :: FirstTo(g, roots, w, b) && a in w
  }

  /** Neither lies on the first walk to the other. */
  ghost predicate Divided<T(!new)>(g: Graph<T>, roots: seq<T>, a: T, b: T) {
    exists v, w :: FirstTo(g, roots, v, a) && FirstTo(g, roots, w, b) && b !in v && a !in w
  }

  /** No closed walk is reached from a root. */
  ghost predicate NoCycle<T(!new)>(g: Graph<T>, roots: seq<T>) {
    forall w, r :: ClosedWalk(g, w) && r in roots ==> !Reaches(g, r, w[0])
  }

  // ----- without a cycle there is one first walk to a node

  lemma WalkFrom<T(!new)>(g: Graph<T>, w: seq<T>, k: nat)
    requires IsWalk(g, w) && k < |w|
    ensures Leads(g, w[k..], w[k], w[|w| - 1]) && Reaches(g, w[k], w[|w| - 1])
  {
    WalkSlice(g, w, k, |w|);
    assert w[k..|w|] == w[k..];
    assert Leads(g, w[k..], w[k], w[|w| - 1]);
  }

  lemma WalkUpTo<T(!new)>(g: Graph<T>, w: seq<T>, k: nat)
    requires IsWalk(g, w) && k < |w|
    ensures Reaches(g, w[0], w[k])
  {
    WalkSlice(g, w, 0, k + 1);
    assert Leads(g, w[0..k + 1], w[0], w[k]);
  }

  /** A walk without a cycle ends where it has not been. */
  lemma EndsAnew<T(!new)>(g: Graph<T>, roots: seq<T>, w: seq<T>, k: nat)
    requires FromRoot(g, roots, w) && NoCycle(g, roots) && k < |w| - 1
    ensures w[k] != w[|w| - 1]
  {
    if w[k] == w[|w| - 1] {
      WalkFrom(g, w, k);
      WalkUpTo(g, w, k);
      assert ClosedWalk(g, w[k..]);
    }
  }

  lemma SameChoice<T(!new)>(g: Graph<T>, roots: seq<T>, v: seq<T>, w: seq<T>, k: nat)
    requires FirstWalk(g, roots, v) && FirstWalk(g, roots, w) && v[|v| - 1] == w[|w| - 1]
    requires k < |v| && k < |w| && v[..k] == w[..k]
    ensures v[k] == w[k]
  {
    var offer := Offer(g, roots, v, k);
    assert k > 0 ==> v[..k][k - 1] == v[k - 1] && w[..k][k - 1] == w[k - 1];
    assert offer == Offer(g, roots, w, k) && v[k] in offer && w[k] in offer;
    WalkFrom(g, v, k);
    WalkFrom(g, w, k);
    assert !Passed(g, roots, w, k, v[k]) && !Passed(g, roots, v, k, w[k]);
    if v[k] != w[k] {
      AheadTotal(offer, v[k], w[k]);
    }
  }

  lemma {:induction false} FirstUniqueFrom<T(!new)>(g: Graph<T>, roots: seq<T>, v: seq<T>, w: seq<T>, k: nat)
    requires FirstWalk(g, roots, v) && FirstWalk(g, roots, w) && v[|v| - 1] == w[|w| - 1] && NoCycle(g, roots)
    requires k <= |v| && k <= |w| && v[..k] == w[..k]
    ensures v == w
    decreases |v| - k
  {
    if k < |v| && k < |w| {
      SameChoice(g, roots, v, w, k);
      assert v[..k + 1] == v[..k] + [v[k]] && w[..k + 1] == w[..k] + [w[k]];
      FirstUniqueFrom(g, roots, v, w, k + 1);
    } else if k < |v| {
      assert v[k - 1] == v[..k][k - 1] == w[..k][k - 1];
      EndsAnew(g, roots, v, k - 1);
    } else if k < |w| {
      assert w[k - 1] == w[..k][k - 1] == v[..k][k - 1];
      EndsAnew(g, roots, w, k - 1);
    } else {
      assert v == v[..k] && w == w[..k];
    }
  }

  lemma DividedAreApart<T(!new)>(g: Graph<T>, roots: seq<T>, a: T, b: T)
    requires Divided(g, roots, a, b) && NoCycle(g, roots)
    ensures !OnFirstWalk(g, roots, a, b) && !OnFirstWalk(g, roots, b, a)
  {
    var v, w :| FirstTo(g, roots, v, a) && FirstTo(g, roots, w, b) && b !in v && a !in w;
    if x :| FirstTo(g, roots, x, b) && a in x {
      FirstUniqueFrom(g, roots, w, x, 0);
    }
    if x :| FirstTo(g, roots, x, a) && b in x {
      FirstUniqueFrom(g, roots, v, x, 0);
    }
  }

  // ----- and there is one

  lemma {:induction false} FirstOffered<T(!new)>(g: Graph<T>, offer: seq<T>, t: T) returns (c: T)
    requires exists d :: d in offer && Reaches(g, d, t)
    ensures c in offer && Reaches(g, c, t)
    ensures forall d :: d in Ahead(offer, c) ==> !Reaches(g, d, t)
  {
    if Reaches(g, offer[0], t) {
      c := offer[0];
    } else {
      var d :| d in offer && Reaches(g, d, t);
      assert offer == [offer[0]] + offer[1..];
      assert d in offer[1..];
      c := FirstOffered(g, offer[1..], t);
    }
  }

  lemma StepOn<T(!new)>(g: Graph<T>, roots: seq<T>, w: seq<T>, t: T) returns (c: T)
    requires w == [] ==> exists r :: r in roots && Reaches(g, r, t)
    requires w != [] ==> FromRoot(g, roots, w) && Reaches(g, w[|w| - 1], t) && w[|w| - 1] != t
    requires PassesNoWay(g, roots, w, t)
    ensures FromRoot(g, roots, w + [c]) && Reaches(g, c, t) && PassesNoWay(g, roots, w + [c], t)
  {
    var offer := Offer(g, roots, w, |w|);
    if w != [] {
      var x :| Leads(g, x, w[|w| - 1], t);
      assert |x| > 1 && x[1] in offer;
      WalkFrom(g, x, 1);
    }
    c := FirstOffered(g, offer, t);
    var more := w + [c];
    forall k, d | 0 <= k < |more| && Passed(g, roots, more, k, d)
      ensures !Reaches(g, d, t)
    {
      if k < |w| {
        assert Offer(g, roots, more, k) == Offer(g, roots, w, k);
        assert Passed(g, roots, w, k, d);
      } else {
        assert Offer(g, roots, more, k) == offer;
      }
    }
  }

  function Elements<T>(s: seq<T>): set<T> {
    set x | x in s
  }

  lemma {:induction false} FirstFrom<T(!new)>(g: Graph<T>, roots: seq<T>, w: seq<T>, t: T, room: set<T>) returns (f: seq<T>)
    requires NoCycle(g, roots)
    requires w == [] ==> exists r :: r in roots && Reaches(g, r, t)
    requires w != [] ==> FromRoot(g, roots, w) && Reaches(g, w[|w| - 1], t)
    requires PassesNoWay(g, roots, w, t)
    requires room == Nodes(g) + Elements(roots) - Elements(w)
    ensures FirstTo(g, roots, f, t)
    decreases room
  {
    if w != [] && w[|w| - 1] == t {
      f := w;
    } else {
      var c := StepOn(g, roots, w, t);
      var more := w + [c];
      OfferedIsNode(g, roots, more);
      if c in w {
        var k :| 0 <= k < |w| && w[k] == c;
        EndsAnew(g, roots, more, k);
      }
      assert Elements(more) == Elements(w) + {c};
      f := FirstFrom(g, roots, more, t, room - {c});
    }
  }

  lemma OfferedIsNode<T(!new)>(g: Graph<T>, roots: seq<T>, w: seq<T>)
    requires FromRoot(g, roots, w)
    ensures w[|w| - 1] in Nodes(g) + Elements(roots)
  {
    if |w| > 1 {
      assert w[|w| - 1] in Next(g, w[|w| - 2]);
    }
  }

  /** Whatever a root leads to has a first walk. */
  lemma FirstExists<T(!new)>(g: Graph<T>, roots: seq<T>, r: T, t: T) returns (f: seq<T>)
    requires NoCycle(g, roots) && r in roots && Reaches(g, r, t)
    ensures FirstTo(g, roots, f, t)
  {
    f := FirstFrom(g, roots, [], t, Nodes(g) + Elements(roots) - Elements<T>([]));
  }

  // ----- how a depth-first walk keeps to first walks

  /** What the walk passes by at its k-th node is done with. */
  predicate PassedDone<T(==)>(g: Graph<T>, roots: seq<T>, w: seq<T>, k: nat, order: seq<T>)
    requires k < |w|
  {
    forall c :: c in Ahead(Offer(g, roots, w, k), w[k]) ==> c in order
  }

  predicate LeftDone<T(==)>(g: Graph<T>, roots: seq<T>, w: seq<T>, order: seq<T>) {
    forall k :: 0 <= k < |w| ==> PassedDone(g, roots, w, k, order)
  }

  lemma OfferOfPrefix<T>(g: Graph<T>, roots: seq<T>, v: seq<T>, w: seq<T>, k: nat)
    requires v <= w && k <= |v|
    ensures Offer(g, roots, v, k) == Offer(g, roots, w, k)
  {
  }

  lemma LeftDoneSnoc<T>(g: Graph<T>, roots: seq<T>, w: seq<T>, n: T, order: seq<T>)
    requires LeftDone(g, roots, w, order)
    requires forall c :: c in Ahead(Offer(g, roots, w, |w|), n) ==> c in order
    ensures LeftDone(g, roots, w + [n], order)
  {
    var more := w + [n];
    forall k | 0 <= k < |more|
      ensures PassedDone(g, roots, more, k, order)
    {
      OfferOfPrefix(g, roots, w, more, k);
      if k < |w| {
        assert PassedDone(g, roots, w, k, order) && more[k] == w[k];
      }
    }
  }

  lemma LeftDoneKept<T>(g: Graph<T>, roots: seq<T>, w: seq<T>, v: seq<T>, before: seq<T>, order: seq<T>)
    requires LeftDone(g, roots, w, before) && v <= w && before <= order
    ensures LeftDone(g, roots, v, order)
  {
    PrefixKeeps(before, order);
    forall k | 0 <= k < |v|
      ensures PassedDone(g, roots, v, k, order)
    {
      OfferOfPrefix(g, roots, v, w, k);
      assert PassedDone(g, roots, w, k, before);
    }
  }

  /** A node that is not done, met when all that was passed by is: on its first walk. */
  lemma MetFirst<T(!new)>(g: Graph<T>, roots: seq<T>, w: seq<T>, order: seq<T>)
    requires FromRoot(g, roots, w) && LeftDone(g, roots, w, order) && w[|w| - 1] !in order
    requires forall a, b :: a in order && Reaches(g, a, b) ==> b in order
    ensures FirstWalk(g, roots, w)
  {
    forall k, c | 0 <= k < |w| && Passed(g, roots, w, k, c)
      ensures !Reaches(g, c, w[|w| - 1])
    {
      assert PassedDone(g, roots, w, k, order);
    }
  }
}
