/** Sorting by a string key, as sort.Slice and slices.Sort are used: bytewise order. */
module Sorting {

  /** a <= b, byte by byte. */
  predicate Leq(a: string, b: string) {
    a == "" || (b != "" && (a[0] < b[0] || (a[0] == b[0] && Leq(a[1..], b[1..]))))
  }

  lemma {:induction false} LeqTotal(a: string, b: string)
    ensures Leq(a, b) || Leq(b, a)
    ensures Leq(a, b) && Leq(b, a) ==> a == b
  {
    if a != "" && b != "" {
      LeqTotal(a[1..], b[1..]);
      assert a == [a[0]] + a[1..] && b == [b[0]] + b[1..];
    }
  }

  lemma {:induction false} LeqTransitive(a: string, b: string, c: string)
    requires Leq(a, b) && Leq(b, c)
    ensures Leq(a, c)
  {
    if a != "" {
      if a[0] == b[0] == c[0] {
        LeqTransitive(a[1..], b[1..], c[1..]);
      }
    }
  }

  predicate SortedBy<T>(key: T -> string, s: seq<T>) {
    forall i, j :: 0 <= i < j < |s| ==> Leq(key(s[i]), key(s[j]))
  }

  function Insert<T>(key: T -> string, x: T, s: seq<T>): (r: seq<T>)
    ensures |r| == |s| + 1
    ensures multiset(r) == multiset(s) + multiset{x}
  {
    if s == [] then [x]
    else if Leq(key(x), key(s[0])) then [x] + s
    else
      assert s == [s[0]] + s[1..];
      [s[0]] + Insert(key, x, s[1..])
  }

  function SortBy<T>(key: T -> string, s: seq<T>): (r: seq<T>)
    ensures |r| == |s|
    ensures multiset(r) == multiset(s)
  {
    if s == [] then []
    else
      assert s == [s[0]] + s[1..];
      Insert(key, s[0], SortBy(key, s[1..]))
  }

  lemma InMultiset<T>(a: seq<T>, b: seq<T>)
    requires multiset(a) == multiset(b)
    ensures forall x :: x in a <==> x in b
  {
    forall x
      ensures x in a <==> x in b
    {
      assert x in a <==> x in multiset(a);
      assert x in b <==> x in multiset(b);
    }
  }

  lemma SortedCons<T>(key: T -> string, x: T, s: seq<T>)
    requires SortedBy(key, s) && forall y :: y in s ==> Leq(key(x), key(y))
    ensures SortedBy(key, [x] + s)
  {
  }

  lemma {:induction false} InsertSorted<T>(key: T -> string, x: T, s: seq<T>)
    requires SortedBy(key, s)
    ensures SortedBy(key, Insert(key, x, s))
  {
    if s != [] {
      LeqTotal(key(x), key(s[0]));
      if Leq(key(x), key(s[0])) {
        forall y | y in s
          ensures Leq(key(x), key(y))
        {
          if y != s[0] {
            LeqTransitive(key(x), key(s[0]), key(y));
          }
        }
        SortedCons(key, x, s);
      } else {
        var r := Insert(key, x, s[1..]);
        InsertSorted(key, x, s[1..]);
        forall y | y in r
          ensures Leq(key(s[0]), key(y))
        {
          assert y in multiset(r);
          assert y in s[1..] || y == x;
        }
        SortedCons(key, s[0], r);
      }
    }
  }

  lemma {:induction false} SortSorted<T>(key: T -> string, s: seq<T>)
    ensures SortedBy(key, SortBy(key, s))
  {
    if s != [] {
      SortSorted(key, s[1..]);
      InsertSorted(key, s[0], SortBy(key, s[1..]));
    }
  }

  /** No two different elements share a key. */
  ghost predicate KeyDetermines<T>(key: T -> string, s: seq<T>) {
    forall x, y :: x in s && y in s && key(x) == key(y) ==> x == y
  }

  lemma TailMultiset<T>(s: seq<T>)
    requires s != []
    ensures multiset(s[1..]) == multiset(s) - multiset{s[0]}
  {
    assert s == [s[0]] + s[1..];
  }

  lemma HeadsAgree<T>(key: T -> string, a: seq<T>, b: seq<T>)
    requires SortedBy(key, a) && SortedBy(key, b) && multiset(a) == multiset(b) && a != [] && b != []
    requires KeyDetermines(key, a)
    ensures a[0] == b[0]
  {
    InMultiset(a, b);
    HeadLeast(key, a, b[0]);
    HeadLeast(key, b, a[0]);
    LeqTotal(key(a[0]), key(b[0]));
  }

  lemma TailsAgree<T>(key: T -> string, a: seq<T>, b: seq<T>)
    requires SortedBy(key, a) && SortedBy(key, b) && multiset(a) == multiset(b) && KeyDetermines(key, a)
    requires a != [] && b != [] && a[0] == b[0]
    ensures multiset(a[1..]) == multiset(b[1..]) && SortedBy(key, a[1..]) && SortedBy(key, b[1..]) && KeyDetermines(key, a[1..])
  {
    TailMultiset(a);
    TailMultiset(b);
    assert forall x :: x in a[1..] ==> x in a;
  }

  lemma {:induction false} SortedUnique<T>(key: T -> string, a: seq<T>, b: seq<T>)
    requires SortedBy(key, a) && SortedBy(key, b) && multiset(a) == multiset(b)
    requires KeyDetermines(key, a)
    ensures a == b
  {
    assert |multiset(a)| == |a| && |multiset(b)| == |b|;
    if a != [] {
      HeadsAgree(key, a, b);
      TailsAgree(key, a, b);
      SortedUnique(key, a[1..], b[1..]);
      assert a == [a[0]] + a[1..] && b == [b[0]] + b[1..];
    }
  }

  lemma HeadLeast<T>(key: T -> string, s: seq<T>, x: T)
    requires SortedBy(key, s) && x in s
    ensures Leq(key(s[0]), key(x))
  {
    LeqTotal(key(x), key(x));
  }

  lemma DeterminesPermuted<T>(key: T -> string, a: seq<T>, b: seq<T>)
    requires multiset(a) == multiset(b) && KeyDetermines(key, a)
    ensures KeyDetermines(key, b)
  {
    InMultiset(a, b);
    forall x, y | x in b && y in b && key(x) == key(y)
      ensures x == y
    {
      assert x in a && y in a;
    }
  }

  /** Sorting forgets the order the elements came in. */
  lemma SortForgetsOrder<T>(key: T -> string, a: seq<T>, b: seq<T>)
    requires multiset(a) == multiset(b)
    requires KeyDetermines(key, a)
    ensures SortBy(key, a) == SortBy(key, b)
  {
    SortSorted(key, a);
    SortSorted(key, b);
    DeterminesPermuted(key, a, SortBy(key, a));
    SortedUnique(key, SortBy(key, a), SortBy(key, b));
  }

  // ----- sorting pair by pair

  /** The elements at each position are related. */
  ghost predicate Paired<T>(related: (T, T) -> bool, a: seq<T>, b: seq<T>) {
    |a| == |b| && forall i :: 0 <= i < |a| ==> related(a[i], b[i])
  }

  lemma PairedCons<T>(related: (T, T) -> bool, x: T, y: T, a: seq<T>, b: seq<T>)
    requires related(x, y) && Paired(related, a, b)
    ensures Paired(related, [x] + a, [y] + b)
  {
    forall i | 0 <= i < |[x] + a|
      ensures related(([x] + a)[i], ([y] + b)[i])
    {
      if i > 0 {
        assert related(a[i - 1], b[i - 1]);
      }
    }
  }

  lemma PairedUncons<T>(related: (T, T) -> bool, a: seq<T>, b: seq<T>)
    requires Paired(related, a, b) && a != []
    ensures related(a[0], b[0]) && Paired(related, a[1..], b[1..])
  {
    forall i | 0 <= i < |a[1..]|
      ensures related(a[1..][i], b[1..][i])
    {
      assert related(a[i + 1], b[i + 1]);
    }
  }

  lemma {:induction false} InsertPaired<T>(related: (T, T) -> bool, key: T -> string, x: T, y: T, a: seq<T>, b: seq<T>)
    requires related(x, y) && Paired(related, a, b)
    requires forall u, v :: related(u, v) ==> key(u) == key(v)
    ensures Paired(related, Insert(key, x, a), Insert(key, y, b))
  {
    if a == [] {
      assert [x] + [] == [x] && [y] + [] == [y];
      PairedCons(related, x, y, [], []);
    } else {
      PairedUncons(related, a, b);
      if Leq(key(x), key(a[0])) {
        PairedCons(related, x, y, a, b);
      } else {
        InsertPaired(related, key, x, y, a[1..], b[1..]);
        PairedCons(related, a[0], b[0], Insert(key, x, a[1..]), Insert(key, y, b[1..]));
      }
    }
  }

  /** Pairs that share their keys stay together when both lists are sorted. */
  lemma {:induction false} SortPaired<T>(related: (T, T) -> bool, key: T -> string, a: seq<T>, b: seq<T>)
    requires Paired(related, a, b)
    requires forall u, v :: related(u, v) ==> key(u) == key(v)
    ensures Paired(related, SortBy(key, a), SortBy(key, b))
  {
    if a != [] {
      PairedUncons(related, a, b);
      SortPaired(related, key, a[1..], b[1..]);
      InsertPaired(related, key, a[0], b[0], SortBy(key, a[1..]), SortBy(key, b[1..]));
    }
  }

  function Sort(s: seq<string>): (r: seq<string>)
    ensures |r| == |s|
    ensures multiset(r) == multiset(s)
  {
    SortBy((x: string) => x, s)
  }

  lemma SortForgets(a: seq<string>, b: seq<string>)
    requires multiset(a) == multiset(b)
    ensures Sort(a) == Sort(b)
  {
    SortForgetsOrder((x: string) => x, a, b);
  }
}
