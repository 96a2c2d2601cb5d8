/** reachesSecret and union (cmd/plugin-typescript/model.go): a memoised search for the first
    field trail from a type to a secret. */
module SecretReach {
  import opened Strings
  import opened Payloads
  import opened Walks
  import opened Exposure

  // ----- the graph of names

  function NamesBelow(fs: seq<Field>): (r: seq<string>)
    ensures forall k :: 0 <= k < |fs| && fs[k].elem.Some? ==> fs[k].elem.value.name in r
    ensures forall n :: n in r ==> exists k :: 0 <= k < |fs| && fs[k].elem.Some? && fs[k].elem.value.name == n
  {
    if fs == [] then []
    else
      assert fs == [fs[0]] + fs[1..];
      (if fs[0].elem.Some? then [fs[0].elem.value.name] else []) + NamesBelow(fs[1..])
  }

  function NameGraph(ms: Models): Graph<string> {
    map n | n in ms :: NamesBelow(ms[n].fields)
  }

  predicate HoldsSecret(m: Model) {
    exists k :: 0 <= k < |m.fields| && m.fields[k].class_ == CLASS_SECRET
  }

  /** A secret is reachable from the type called `name`. */
  ghost predicate Leaks(ms: Models, name: string) {
    exists n :: Reaches(NameGraph(ms), name, n) && n in ms && HoldsSecret(ms[n])
  }

  /** Every hop is a field of the type the one before leads to, and the last is a secret. */
  predicate SecretTrail(ms: Models, name: string, trail: seq<Hop>)
    decreases |trail|
  {
    && trail != [] && name in ms && trail[0].owner == name
    && exists k :: 0 <= k < |ms[name].fields| && TrailFrom(ms, ms[name].fields[k], trail)
  }

  predicate TrailFrom(ms: Models, f: Field, trail: seq<Hop>)
    requires trail != []
    decreases |trail|, 0
  {
    && f.goName == trail[0].goName
    && if |trail| == 1 then f.class_ == CLASS_SECRET else f.elem.Some? && SecretTrail(ms, f.elem.value.name, trail[1..])
  }

  /** Types lead only to types of lower rank. */
  ghost predicate Descends(rank: string -> nat, ms: Models) {
    forall n, m :: n in ms && m in NamesBelow(ms[n].fields) ==> rank(m) < rank(n)
  }

  lemma {:induction false} TrailLeaks(ms: Models, name: string, trail: seq<Hop>)
    requires SecretTrail(ms, name, trail)
    ensures Leaks(ms, name)
    decreases |trail|
  {
    var k :| 0 <= k < |ms[name].fields| && TrailFrom(ms, ms[name].fields[k], trail);
    if |trail| == 1 {
      ReachesSelf(NameGraph(ms), name);
    } else {
      var below := ms[name].fields[k].elem.value.name;
      TrailLeaks(ms, below, trail[1..]);
      var n :| Reaches(NameGraph(ms), below, n) && n in ms && HoldsSecret(ms[n]);
      ReachesVia(NameGraph(ms), name, below, n);
    }
  }

  lemma LeakEnds(ms: Models, name: string) returns (n: string)
    requires Leaks(ms, name)
    ensures Reaches(NameGraph(ms), name, n) && n in ms && HoldsSecret(ms[n])
  {
    n :| Reaches(NameGraph(ms), name, n) && n in ms && HoldsSecret(ms[n]);
  }

  // ----- walks to a secret

  /** A walk by names that ends at a type with a secret of its own. */
  predicate SecretWalk(ms: Models, w: seq<string>) {
    w != [] && IsWalk(NameGraph(ms), w) && w[|w| - 1] in ms && HoldsSecret(ms[w[|w| - 1]])
  }

  /** Some walk leads from `name` to a secret and past none of `avoid`. */
  ghost predicate LeaksPast(ms: Models, name: string, avoid: set<string>) {
    exists w :: SecretWalk(ms, w) && w[0] == name && forall k :: 0 <= k < |w| ==> w[k] !in avoid
  }

  ghost predicate LeaksWithin(ms: Models, name: string, within: set<string>) {
    exists w :: SecretWalk(ms, w) && w[0] == name && forall k :: 0 <= k < |w| ==> w[k] in within
  }

  /** A name that leads back to itself. */
  ghost predicate OnCycle(ms: Models, c: string) {
    exists w :: ClosedWalk(NameGraph(ms), w) && w[0] == c
  }

  lemma LeakWalk(ms: Models, name: string) returns (w: seq<string>)
    requires Leaks(ms, name)
    ensures SecretWalk(ms, w) && w[0] == name
  {
    var n := LeakEnds(ms, name);
    w :| Leads(NameGraph(ms), w, name, n);
  }

  lemma WalkLeaks(ms: Models, w: seq<string>)
    requires SecretWalk(ms, w)
    ensures Leaks(ms, w[0])
  {
    assert Leads(NameGraph(ms), w, w[0], w[|w| - 1]);
  }

  lemma WithinGrown(ms: Models, name: string, a: set<string>, b: set<string>)
    requires LeaksWithin(ms, name, a) && a <= b
    ensures LeaksWithin(ms, name, b)
  {
    var w :| SecretWalk(ms, w) && w[0] == name && forall k :: 0 <= k < |w| ==> w[k] in a;
  }

  lemma {:induction false} WithinVia(ms: Models, name: string, below: string, within: set<string>)
    requires name in ms && below in NamesBelow(ms[name].fields) && LeaksWithin(ms, below, within)
    ensures LeaksWithin(ms, name, within + {name})
  {
    var w :| SecretWalk(ms, w) && w[0] == below && forall k :: 0 <= k < |w| ==> w[k] in within;
    var more := [name] + w;
    assert IsWalk(NameGraph(ms), more);
    assert SecretWalk(ms, more);
  }

  lemma WithinOwn(ms: Models, name: string, within: set<string>)
    requires name in ms && HoldsSecret(ms[name]) && name in within
    ensures LeaksWithin(ms, name, within)
  {
    assert SecretWalk(ms, [name]);
  }

  // ----- what the memo remembers

  type Memo = map<string, seq<Hop>>

  /** The names searched in vain. */
  function InVain(memo: Memo): set<string> {
    set n | n in memo && memo[n] == []
  }

  function Trailed(memo: Memo): set<string> {
    set n | n in memo && memo[n] != []
  }

  /** Remembered trails are trails, past names that have one. */
  ghost predicate Trails(ms: Models, memo: Memo) {
    forall n {:trigger n in memo} :: n in memo && memo[n] != [] ==> SecretTrail(ms, n, memo[n]) && LeaksWithin(ms, n, Trailed(memo))
  }

  /** No secret of its own, and all it leads to is remembered: in vain, or else it is still open
      or has a trail, and then it leads back. */
  ghost predicate SettledName(ms: Models, memo: Memo, open: set<string>, m: string)
    requires m in ms
  {
    && !HoldsSecret(ms[m])
    && forall c :: c in NamesBelow(ms[m].fields) ==>
         c in memo && (c in open || memo[c] != [] ==> Reaches(NameGraph(ms), c, m))
  }

  ghost predicate Settled(ms: Models, memo: Memo, open: set<string>) {
    forall m {:trigger m in memo} :: m in memo && m !in open && memo[m] == [] && m in ms ==> SettledName(ms, memo, open, m)
  }

  /** All that is open is remembered and leads to `name`. */
  ghost predicate Above(ms: Models, memo: Memo, open: set<string>, name: string) {
    forall o {:trigger o in open} :: o in open ==> o in memo && Reaches(NameGraph(ms), o, name)
  }

  predicate Kept(a: Memo, b: Memo) {
    forall n {:trigger n in a} :: n in a ==> n in b && b[n] == a[n]
  }

  predicate VainBelow(ms: Models, memo: Memo, m: string)
    requires m in ms
  {
    forall c :: c in NamesBelow(ms[m].fields) ==> c in memo && memo[c] == []
  }

  /** What was searched since was searched in vain, and so was all it leads to. */
  ghost predicate OnlyVain(ms: Models, a: Memo, b: Memo) {
    forall m {:trigger m in b} :: m in b && m !in a ==> b[m] == [] && (m in ms ==> !HoldsSecret(ms[m]) && VainBelow(ms, b, m))
  }

  lemma OnlyVainTransitive(ms: Models, a: Memo, b: Memo, c: Memo)
    requires OnlyVain(ms, a, b) && OnlyVain(ms, b, c) && Kept(a, b) && Kept(b, c)
    ensures OnlyVain(ms, a, c) && Kept(a, c)
  {
    forall m | m in c && m !in a
      ensures c[m] == [] && (m in ms ==> !HoldsSecret(ms[m]) && VainBelow(ms, c, m))
    {
      if m in b {
        assert m in ms ==> VainBelow(ms, b, m);
      }
    }
  }

  /** The memo after a name was opened for search. */
  lemma Opened(ms: Models, memo: Memo, open: set<string>, name: string)
    requires Trails(ms, memo) && Settled(ms, memo, open) && Above(ms, memo, open, name) && name !in memo
    ensures Trails(ms, memo[name := []]) && Settled(ms, memo[name := []], open + {name})
    ensures Above(ms, memo[name := []], open + {name}, name) && Kept(memo, memo[name := []])
  {
    var more := memo[name := []];
    assert Trailed(more) == Trailed(memo);
    ReachesSelf(NameGraph(ms), name);
    forall m | m in more && m !in open + {name} && more[m] == [] && m in ms
      ensures SettledName(ms, more, open + {name}, m)
    {
      assert m in memo && SettledName(ms, memo, open, m);
    }
  }

  /** A name searched in vain is closed. */
  lemma {:induction false} ClosedInVain(ms: Models, before: Memo, memo: Memo, open: set<string>, name: string)
    requires Settled(ms, memo, open + {name}) && Above(ms, before, open, name) && name !in before
    requires Kept(before[name := []], memo) && OnlyVain(ms, before[name := []], memo)
    requires name in ms ==> !HoldsSecret(ms[name]) && VainBelow(ms, memo, name)
    ensures Settled(ms, memo, open) && OnlyVain(ms, before, memo) && Kept(before, memo)
  {
    forall m | m in memo && m !in open && memo[m] == [] && m in ms
      ensures SettledName(ms, memo, open, m)
    {
      if m != name {
        assert SettledName(ms, memo, open + {name}, m);
      }
    }
    forall n | n in before
      ensures n in memo && memo[n] == before[n]
    {
      assert n in before[name := []];
    }
  }

  lemma {:induction false} TrailsGrown(ms: Models, memo: Memo, name: string, trail: seq<Hop>)
    requires Trails(ms, memo) && name in memo && memo[name] == [] && SecretTrail(ms, name, trail)
    requires LeaksWithin(ms, name, Trailed(memo) + {name})
    ensures Trails(ms, memo[name := trail])
  {
    var more := memo[name := trail];
    assert Trailed(more) == Trailed(memo) + {name};
    forall n | n in more && more[n] != []
      ensures SecretTrail(ms, n, more[n]) && LeaksWithin(ms, n, Trailed(more))
    {
      if n != name {
        assert n in memo && LeaksWithin(ms, n, Trailed(memo));
        WithinGrown(ms, n, Trailed(memo), Trailed(more));
      }
    }
  }

  lemma {:induction false} SettledGrown(ms: Models, memo: Memo, open: set<string>, name: string, trail: seq<Hop>)
    requires Settled(ms, memo, open + {name}) && name in memo && trail != []
    ensures Settled(ms, memo[name := trail], open)
  {
    var more := memo[name := trail];
    forall m | m in more && m !in open && more[m] == [] && m in ms
      ensures SettledName(ms, more, open, m)
    {
      assert m in memo && SettledName(ms, memo, open + {name}, m);
    }
  }

  /** A name with a trail is closed. */
  lemma {:induction false} ClosedWithTrail(ms: Models, before: Memo, memo: Memo, open: set<string>, name: string, trail: seq<Hop>)
    requires Trails(ms, memo) && Settled(ms, memo, open + {name}) && name !in before
    requires Kept(before[name := []], memo) && SecretTrail(ms, name, trail)
    requires LeaksWithin(ms, name, Trailed(memo) + {name})
    ensures Trails(ms, memo[name := trail]) && Settled(ms, memo[name := trail], open) && Kept(before, memo[name := trail])
  {
    assert name in before[name := []] && memo[name] == [];
    TrailsGrown(ms, memo, name, trail);
    SettledGrown(ms, memo, open, name, trail);
    forall n | n in before
      ensures n in memo && memo[n] == before[n]
    {
      assert n in before[name := []];
    }
  }

  lemma AboveBelow(ms: Models, memo: Memo, open: set<string>, name: string, below: string)
    requires Above(ms, memo, open, name) && name in ms && below in NamesBelow(ms[name].fields)
    ensures Above(ms, memo, open, below)
  {
    forall o | o in open
      ensures o in memo && Reaches(NameGraph(ms), o, below)
    {
      ReachesOn(NameGraph(ms), o, name, below);
    }
  }

  lemma AboveKept(ms: Models, a: Memo, b: Memo, open: set<string>, name: string)
    requires Above(ms, a, open, name) && Kept(a, b)
    ensures Above(ms, b, open, name)
  {
    forall o | o in open
      ensures o in b && Reaches(NameGraph(ms), o, name)
    {
      assert o in a;
    }
  }

  // ----- what a search finds

  /** What a search for `name` makes of a memo. */
  ghost predicate Searched(ms: Models, before: Memo, after: Memo, name: string) {
    Trails(ms, after) && Kept(before, after) && name in after && (after[name] == [] ==> OnlyVain(ms, before, after))
  }

  /** A walk to a secret from a name searched in vain meets one that was so before. */
  lemma {:induction false} MeetsVain(ms: Models, before: Memo, after: Memo, w: seq<string>)
    requires Kept(before, after) && OnlyVain(ms, before, after)
    requires SecretWalk(ms, w) && w[0] in after && after[w[0]] == []
    ensures exists k :: 0 <= k < |w| && w[k] in InVain(before)
    decreases |w|
  {
    if w[0] in before {
      assert w[0] in InVain(before);
    } else if |w| > 1 {
      assert w[1] in Next(NameGraph(ms), w[0]);
      assert VainBelow(ms, after, w[0]);
      WalkTail(NameGraph(ms), w);
      MeetsVain(ms, before, after, w[1..]);
      var k :| 0 <= k < |w[1..]| && w[1..][k] in InVain(before);
      assert w[k + 1] in InVain(before);
    }
  }

  /** A trail is found exactly when some walk leads to a secret past no name that was searched in
      vain before, or is still being searched. */
  lemma FoundExactly(ms: Models, before: Memo, after: Memo, name: string)
    requires Trails(ms, before) && Searched(ms, before, after, name)
    ensures after[name] != [] <==> LeaksPast(ms, name, InVain(before))
  {
    if after[name] != [] {
      var w :| SecretWalk(ms, w) && w[0] == name && forall k :: 0 <= k < |w| ==> w[k] in Trailed(after);
      forall k | 0 <= k < |w|
        ensures w[k] !in InVain(before)
      {
        assert w[k] in Trailed(after);
      }
    } else if LeaksPast(ms, name, InVain(before)) {
      var w :| SecretWalk(ms, w) && w[0] == name && forall k :: 0 <= k < |w| ==> w[k] !in InVain(before);
      MeetsVain(ms, before, after, w);
    }
  }

  /** A leaking name that was searched in vain leads to one with a trail, which leads back. */
  lemma {:induction false} VainLoopsBack(ms: Models, memo: Memo, w: seq<string>) returns (c: string)
    requires Settled(ms, memo, {}) && SecretWalk(ms, w) && w[0] in InVain(memo)
    ensures c in Trailed(memo) && OnCycle(ms, c) && Reaches(NameGraph(ms), w[0], c)
    decreases |w|
  {
    var g := NameGraph(ms);
    assert w[0] in memo && w[0] in ms && SettledName(ms, memo, {}, w[0]) by {
      assert |w| > 1 ==> w[1] in Next(g, w[0]);
    }
    assert |w| > 1 && w[1] in Next(g, w[0]);
    if w[1] in InVain(memo) {
      WalkTail(g, w);
      c := VainLoopsBack(ms, memo, w[1..]);
      ReachesVia(g, w[0], w[1], c);
    } else {
      c := w[1];
      var x :| Leads(g, x, c, w[0]);
      assert ClosedWalk(g, x + [c]);
      ReachesSelf(g, w[0]);
      ReachesOn(g, w[0], w[0], c);
    }
  }

  /** While nothing was found, no name that was searched leaks, whatever cycles the names have. */
  lemma VainIsSafe(ms: Models, memo: Memo, name: string)
    requires Settled(ms, memo, {}) && name in memo && Trailed(memo) == {}
    ensures !Leaks(ms, name)
  {
    if Leaks(ms, name) {
      var w := LeakWalk(ms, name);
      assert name in Trailed(memo) || name in InVain(memo);
      var c := VainLoopsBack(ms, memo, w);
    }
  }

  lemma StillVain(ms: Models, before: Memo, after: Memo, name: string)
    requires Searched(ms, before, after, name) && after[name] == []
    ensures Trailed(before) == {} ==> Trailed(after) == {}
  {
    if Trailed(before) == {} {
      forall n | n in after
        ensures after[n] == []
      {
        assert n in before ==> n !in Trailed(before) && after[n] == before[n];
      }
    }
  }

  // ----- the search

  class SecretSearch {
    const ms: Models
    var memo: Memo

    constructor (ms: Models)
      ensures this.ms == ms && Valid({}) && memo == map[]
    {
      this.ms := ms;
      memo := map[];
    }

    ghost predicate Valid(open: set<string>)
      reads this
    {
      Trails(ms, memo) && Settled(ms, memo, open)
    }

    method Search(name: string, ghost open: set<string>, ghost room: set<string>) returns (trail: seq<Hop>)
      requires Valid(open) && Above(ms, memo, open, name) && Room(ms.Keys, memo.Keys, room)
      modifies this`memo
      ensures Valid(open) && Searched(ms, old(memo), memo, name) && trail == memo[name]
      ensures trail != [] ==> SecretTrail(ms, name, trail)
      ensures trail != [] <==> LeaksPast(ms, name, InVain(old(memo)))
      decreases room, 1
    {
      if name in memo {
        trail := memo[name];
      } else {
        trail := Explore(name, open, room);
      }
      FoundExactly(ms, old(memo), memo, name);
    }

    /** The search for a name met for the first time. */
    method Explore(name: string, ghost open: set<string>, ghost room: set<string>) returns (trail: seq<Hop>)
      requires Valid(open) && Above(ms, memo, open, name) && Room(ms.Keys, memo.Keys, room) && name !in memo
      modifies this`memo
      ensures Valid(open) && Searched(ms, old(memo), memo, name) && trail == memo[name]
      decreases room, 0
    {
      ghost var before := memo;
      Opened(ms, memo, open, name);
      memo := memo[name := []];
      if name !in ms {
        ClosedInVain(ms, before, memo, open, name);
        return [];
      }
      RoomTaken(ms.Keys, before.Keys, name, room);
      assert memo.Keys == before.Keys + {name};
      trail := SearchType(name, open + {name}, room - {name});
      if trail == [] {
        ClosedInVain(ms, before, memo, open, name);
      } else {
        ClosedWithTrail(ms, before, memo, open, name, trail);
        memo := memo[name := trail];
      }
    }

    /** Both loops over the fields. */
    method SearchType(name: string, ghost open: set<string>, ghost room: set<string>) returns (trail: seq<Hop>)
      requires Valid(open) && Above(ms, memo, open, name) && Room(ms.Keys, memo.Keys, room) && name in ms
      modifies this`memo
      ensures Valid(open) && Kept(old(memo), memo)
      ensures trail != [] ==> SecretTrail(ms, name, trail) && LeaksWithin(ms, name, Trailed(memo) + {name})
      ensures trail == [] ==> OnlyVain(ms, old(memo), memo) && !HoldsSecret(ms[name]) && VainBelow(ms, memo, name)
      decreases room, 4
    {
      trail := OwnSecret(name);
      if trail == [] {
        trail := SearchFields(name, open, room);
      } else {
        WithinOwn(ms, name, Trailed(memo) + {name});
      }
    }

    /** The first loop: a secret among the type's own fields. */
    method OwnSecret(name: string) returns (trail: seq<Hop>)
      requires name in ms
      ensures trail != [] ==> SecretTrail(ms, name, trail)
      ensures trail == [] <==> !HoldsSecret(ms[name])
    {
      var fields := ms[name].fields;
      for i := 0 to |fields|
        invariant forall k :: 0 <= k < i ==> fields[k].class_ != CLASS_SECRET
      {
        if fields[i].class_ == CLASS_SECRET {
          trail := [Hop(name, fields[i].goName)];
          assert TrailFrom(ms, ms[name].fields[i], trail);
          return;
        }
      }
      return [];
    }

    /** The second loop: a secret below one of the fields. */
    method SearchFields(name: string, ghost open: set<string>, ghost room: set<string>) returns (trail: seq<Hop>)
      requires Valid(open) && Above(ms, memo, open, name) && Room(ms.Keys, memo.Keys, room) && name in ms
      modifies this`memo
      ensures Valid(open) && Kept(old(memo), memo)
      ensures trail != [] ==> SecretTrail(ms, name, trail) && LeaksWithin(ms, name, Trailed(memo) + {name})
      ensures trail == [] ==> OnlyVain(ms, old(memo), memo) && VainBelow(ms, memo, name)
      decreases room, 3
    {
      var fields := ms[name].fields;
      for i := 0 to |fields|
        invariant Valid(open) && Above(ms, memo, open, name) && Room(ms.Keys, memo.Keys, room)
        invariant Kept(old(memo), memo) && OnlyVain(ms, old(memo), memo)
        invariant VainUpTo(fields, i, memo)
      {
        ghost var before := memo;
        trail := SearchField(name, i, open, room);
        if trail != [] {
          KeptTransitive(old(memo), before, memo);
          return;
        }
        OnlyVainTransitive(ms, old(memo), before, memo);
        AboveKept(ms, before, memo, open, name);
        RoomKept(ms.Keys, before.Keys, memo.Keys, room);
        VainFurther(fields, i, before, memo);
      }
      AllVainBelow(ms, memo, name);
      return [];
    }

    method SearchField(name: string, i: nat, ghost open: set<string>, ghost room: set<string>) returns (trail: seq<Hop>)
      requires Valid(open) && Above(ms, memo, open, name) && Room(ms.Keys, memo.Keys, room)
      requires name in ms && i < |ms[name].fields|
      modifies this`memo
      ensures Valid(open) && Kept(old(memo), memo)
      ensures trail != [] ==> SecretTrail(ms, name, trail) && LeaksWithin(ms, name, Trailed(memo) + {name})
      ensures trail == [] ==> OnlyVain(ms, old(memo), memo) && VainField(ms[name].fields[i], memo)
      decreases room, 2
    {
      var f := ms[name].fields[i];
      if f.elem == None {
        return [];
      }
      var below := f.elem.value.name;
      assert below in NamesBelow(ms[name].fields);
      AboveBelow(ms, memo, open, name, below);
      var rest := Search(below, open, room);
      if rest == [] {
        return [];
      }
      trail := [Hop(name, f.goName)] + rest;
      HopTrail(ms, name, i, trail, rest);
      WithinVia(ms, name, below, Trailed(memo));
    }
  }

  lemma HopTrail(ms: Models, name: string, i: nat, trail: seq<Hop>, rest: seq<Hop>)
    requires name in ms && i < |ms[name].fields| && ms[name].fields[i].elem.Some?
    requires SecretTrail(ms, ms[name].fields[i].elem.value.name, rest)
    requires trail == [Hop(name, ms[name].fields[i].goName)] + rest
    ensures SecretTrail(ms, name, trail)
  {
    assert trail[1..] == rest;
    assert TrailFrom(ms, ms[name].fields[i], trail);
  }

  predicate VainField(f: Field, memo: Memo) {
    f.elem.Some? ==> f.elem.value.name in memo && memo[f.elem.value.name] == []
  }

  predicate VainUpTo(fields: seq<Field>, n: nat, memo: Memo) {
    n <= |fields| && forall k :: 0 <= k < n ==> VainField(fields[k], memo)
  }

  lemma VainFurther(fields: seq<Field>, i: nat, before: Memo, memo: Memo)
    requires i < |fields| && VainUpTo(fields, i, before) && Kept(before, memo) && VainField(fields[i], memo)
    ensures VainUpTo(fields, i + 1, memo)
  {
    forall k | 0 <= k < i + 1
      ensures VainField(fields[k], memo)
    {
      assert k < i ==> VainField(fields[k], before);
    }
  }

  lemma AllVainBelow(ms: Models, memo: Memo, name: string)
    requires name in ms && VainUpTo(ms[name].fields, |ms[name].fields|, memo)
    ensures VainBelow(ms, memo, name)
  {
    var fs := ms[name].fields;
    forall c | c in NamesBelow(fs)
      ensures c in memo && memo[c] == []
    {
      var k :| 0 <= k < |fs| && fs[k].elem.Some? && fs[k].elem.value.name == c;
      assert VainField(fs[k], memo);
    }
  }

  lemma KeptTransitive(a: Memo, b: Memo, c: Memo)
    requires Kept(a, b) && Kept(b, c)
    ensures Kept(a, c)
  {
    forall n | n in a
      ensures n in c && c[n] == a[n]
    {
      assert n in b;
    }
  }

  /** The names from which no secret is reachable, in order. */
  ghost function SafeNames(ms: Models, names: seq<string>): seq<string> {
    if names == [] then []
    else SafeNames(ms, names[..|names| - 1]) + if Leaks(ms, names[|names| - 1]) then [] else [names[|names| - 1]]
  }

  /** The names that are in `vain`, in order. */
  function Keep(names: seq<string>, vain: set<string>): seq<string> {
    if names == [] then []
    else Keep(names[..|names| - 1], vain) + if names[|names| - 1] in vain then [names[|names| - 1]] else []
  }

  lemma {:induction false} KeepSame(names: seq<string>, a: set<string>, b: set<string>)
    requires forall k :: 0 <= k < |names| ==> (names[k] in a <==> names[k] in b)
    ensures Keep(names, a) == Keep(names, b)
  {
    if names != [] {
      KeepSame(names[..|names| - 1], a, b);
    }
  }

  lemma {:induction false} KeepAll(names: seq<string>, vain: set<string>)
    ensures |Keep(names, vain)| <= |names|
    ensures Keep(names, vain) == names <==> forall k :: 0 <= k < |names| ==> names[k] in vain
  {
    if names != [] {
      var n := |names| - 1;
      KeepAll(names[..n], vain);
      assert names == names[..n] + [names[n]];
      KeepAllSnoc(names[..n], names[n], vain);
    }
  }

  lemma {:induction false} KeepAllSnoc(names: seq<string>, n: string, vain: set<string>)
    requires |Keep(names, vain)| <= |names|
    ensures Keep(names + [n], vain) == names + [n] <==> Keep(names, vain) == names && n in vain
  {
    var more, kept := names + [n], Keep(names, vain);
    assert more[..|names|] == names && more[|names|] == n;
    assert Keep(more, vain) == kept + if n in vain then [n] else [];
    if n in vain && kept + [n] == more {
      assert kept == (kept + [n])[..|names|] == more[..|names|];
    }
  }

  /** `c` is dropped, leaks and leads back to itself, and `n` leads to it. */
  ghost predicate LoopsTo(ms: Models, vain: set<string>, n: string, c: string) {
    c !in vain && Leaks(ms, c) && OnCycle(ms, c) && Reaches(NameGraph(ms), n, c)
  }

  /** `out` keeps of `names` those searched in vain: each name dropped leaks past all of these,
      and one that leaks and is kept leads into a cycle that a dropped one is on. */
  ghost predicate UnionPast(ms: Models, names: seq<string>, out: seq<string>, vain: set<string>) {
    && out == Keep(names, vain)
    && (forall n :: n in names && n !in vain ==> LeaksPast(ms, n, vain))
    && (forall n :: n in names && n in vain && Leaks(ms, n) ==> exists c :: LoopsTo(ms, vain, n, c))
  }

  ghost predicate IsUnion(ms: Models, names: seq<string>, out: seq<string>) {
    exists vain :: UnionPast(ms, names, out, vain)
  }

  predicate AllIn(names: seq<string>, s: set<string>) {
    forall k :: 0 <= k < |names| ==> names[k] in s
  }

  /** What union has made of the names so far. */
  predicate UnionSoFar(names: seq<string>, memo: Memo, out: seq<string>) {
    AllIn(names, memo.Keys) && out == Keep(names, InVain(memo)) && (out == names ==> Trailed(memo) == {})
  }

  /** union: the members of the generated Payload type. */
  method Union(ms: Models, names: seq<string>) returns (out: seq<string>)
    ensures IsUnion(ms, names, out)
    ensures out == names <==> forall k :: 0 <= k < |names| ==> !Leaks(ms, names[k])
  {
    var search := new SecretSearch(ms);
    out := [];
    for i := 0 to |names|
      invariant search.Valid({}) && search.ms == ms && fresh(search)
      invariant UnionSoFar(names[..i], search.memo, out)
    {
      ghost var before, start := search.memo, out;
      var trail := search.Search(names[i], {}, ms.Keys);
      if trail == [] {
        out := out + [names[i]];
      }
      UnionNext(ms, names[..i], names[i], before, search.memo, start, out);
      assert names[..i + 1] == names[..i] + [names[i]];
    }
    assert names[..|names|] == names;
    UnionEnds(ms, names, search.memo, out);
  }

  lemma {:induction false} UnionEnds(ms: Models, names: seq<string>, memo: Memo, out: seq<string>)
    requires Trails(ms, memo) && Settled(ms, memo, {}) && UnionSoFar(names, memo, out)
    ensures IsUnion(ms, names, out)
    ensures out == names <==> forall k :: 0 <= k < |names| ==> !Leaks(ms, names[k])
  {
    UnionDone(ms, names, memo);
    UnionIsAll(ms, names, memo);
  }

  lemma {:induction false} UnionNext(ms: Models, start: seq<string>, n: string, before: Memo, memo: Memo, out: seq<string>, more: seq<string>)
    requires UnionSoFar(start, before, out) && Searched(ms, before, memo, n)
    requires more == if memo[n] == [] then out + [n] else out
    ensures UnionSoFar(start + [n], memo, more)
  {
    UnionStep(ms, start, n, before, memo);
    if memo[n] == [] {
      StillVain(ms, before, memo, n);
    }
  }

  lemma {:induction false} UnionStep(ms: Models, start: seq<string>, n: string, before: Memo, memo: Memo)
    requires AllIn(start, before.Keys) && Searched(ms, before, memo, n)
    ensures AllIn(start + [n], memo.Keys)
    ensures Keep(start + [n], InVain(memo)) == Keep(start, InVain(before)) + if memo[n] == [] then [n] else []
    ensures Keep(start + [n], InVain(memo)) == start + [n] <==> memo[n] == [] && Keep(start, InVain(before)) == start
  {
    StaysKept(start, before, memo);
    KeepAll(start, InVain(memo));
    KeepAllSnoc(start, n, InVain(memo));
    KeepSnoc(start, n, InVain(memo));
  }

  lemma {:induction false} KeepSnoc(names: seq<string>, n: string, vain: set<string>)
    ensures Keep(names + [n], vain) == Keep(names, vain) + if n in vain then [n] else []
  {
    assert (names + [n])[..|names|] == names;
  }

  lemma {:induction false} StaysKept(names: seq<string>, before: Memo, memo: Memo)
    requires AllIn(names, before.Keys) && Kept(before, memo)
    ensures AllIn(names, memo.Keys) && Keep(names, InVain(before)) == Keep(names, InVain(memo))
  {
    forall k | 0 <= k < |names|
      ensures names[k] in memo && (names[k] in InVain(before) <==> names[k] in InVain(memo))
    {
      assert names[k] in before;
    }
    KeepSame(names, InVain(before), InVain(memo));
  }

  lemma {:induction false} UnionDone(ms: Models, names: seq<string>, memo: Memo)
    requires Trails(ms, memo) && Settled(ms, memo, {}) && AllIn(names, memo.Keys)
    ensures UnionPast(ms, names, Keep(names, InVain(memo)), InVain(memo))
  {
    var vain := InVain(memo);
    forall n | n in names && n !in vain
      ensures LeaksPast(ms, n, vain)
    {
      assert n in memo && LeaksWithin(ms, n, Trailed(memo));
      var w :| SecretWalk(ms, w) && w[0] == n && forall k :: 0 <= k < |w| ==> w[k] in Trailed(memo);
      assert forall k :: 0 <= k < |w| ==> w[k] !in vain;
    }
    forall n | n in names && n in vain && Leaks(ms, n)
      ensures exists c :: LoopsTo(ms, vain, n, c)
    {
      var w := LeakWalk(ms, n);
      var c := VainLoopsBack(ms, memo, w);
      TrailLeaks(ms, c, memo[c]);
      assert LoopsTo(ms, vain, n, c);
    }
  }

  /** All names are kept exactly when none leaks. */
  lemma {:induction false} UnionIsAll(ms: Models, names: seq<string>, memo: Memo)
    requires Trails(ms, memo) && Settled(ms, memo, {}) && AllIn(names, memo.Keys)
    requires Keep(names, InVain(memo)) == names ==> Trailed(memo) == {}
    ensures Keep(names, InVain(memo)) == names <==> forall k :: 0 <= k < |names| ==> !Leaks(ms, names[k])
  {
    KeepAll(names, InVain(memo));
    if Keep(names, InVain(memo)) == names {
      forall k | 0 <= k < |names|
        ensures !Leaks(ms, names[k])
      {
        VainIsSafe(ms, memo, names[k]);
      }
    } else {
      var k :| 0 <= k < |names| && names[k] !in InVain(memo);
      TrailLeaks(ms, names[k], memo[names[k]]);
    }
  }

  /** Unless a name that leaks leads back to itself, union keeps exactly the names from which no
      secret is reachable. */
  lemma {:induction false} UnionExact(ms: Models, names: seq<string>, out: seq<string>)
    requires IsUnion(ms, names, out)
    requires forall c :: OnCycle(ms, c) ==> !Leaks(ms, c)
    ensures out == SafeNames(ms, names)
  {
    var vain :| UnionPast(ms, names, out, vain);
    forall n | n in names
      ensures n in vain <==> !Leaks(ms, n)
    {
      if n !in vain {
        var w :| SecretWalk(ms, w) && w[0] == n && forall k :: 0 <= k < |w| ==> w[k] !in vain;
        WalkLeaks(ms, w);
      }
      assert forall c :: !LoopsTo(ms, vain, n, c);
    }
    KeepIsSafe(ms, names, vain);
  }

  lemma {:induction false} KeepIsSafe(ms: Models, names: seq<string>, vain: set<string>)
    requires forall n :: n in names ==> (n in vain <==> !Leaks(ms, n))
    ensures Keep(names, vain) == SafeNames(ms, names)
  {
    if names != [] {
      var n := |names| - 1;
      assert names == names[..n] + [names[n]];
      KeepIsSafe(ms, names[..n], vain);
    }
  }

  /** Names that only lead downwards lead back to none. */
  lemma DescendsHasNoCycle(rank: string -> nat, ms: Models, c: string)
    requires Descends(rank, ms)
    ensures !OnCycle(ms, c)
  {
    if w :| ClosedWalk(NameGraph(ms), w) && w[0] == c {
      RankFalls(rank, ms, w);
    }
  }

  lemma {:induction false} RankFalls(rank: string -> nat, ms: Models, w: seq<string>)
    requires Descends(rank, ms) && IsWalk(NameGraph(ms), w) && |w| >= 2
    ensures rank(w[|w| - 1]) < rank(w[0])
  {
    assert w[1] in Next(NameGraph(ms), w[0]);
    if |w| > 2 {
      WalkTail(NameGraph(ms), w);
      RankFalls(rank, ms, w[1..]);
    }
  }

  lemma {:induction false} AllSafe(ms: Models, names: seq<string>)
    requires forall k :: 0 <= k < |names| ==> !Leaks(ms, names[k])
    ensures SafeNames(ms, names) == names
  {
    if names != [] {
      var n := |names| - 1;
      assert names == names[..n] + [names[n]];
      AllSafe(ms, names[..n]);
    }
  }
}
