/** markReadonly (cmd/plugin-typescript/model.go): the second pass, from the readonly roots. */
module ReadonlyMarks {
  import opened Payloads
  import opened Walks
  import opened Exposure
  import opened SecretReach

  /** `n` is a model some readonly root leads to. */
  ghost predicate FromReadonlyRoot(ms: Models, roots: seq<Root>, n: string) {
    n in ms && exists i :: 0 <= i < |roots| && roots[i].readonly && Reaches(NameGraph(ms), NameOf(roots[i].typ), n)
  }

  class ReadonlyWalk {
    const ms: Models
    var seen: set<string>
    var readonly: set<string>

    constructor (ms: Models)
      ensures this.ms == ms && Valid() && seen == {}
    {
      this.ms := ms;
      seen, readonly := {}, {};
    }

    ghost predicate Valid()
      reads this
    {
      readonly == seen && seen <= ms.Keys
    }

    /** Every model `n` leads to has been seen. */
    ghost predicate Expanded(n: string)
      reads this
    {
      forall m :: m in Next(NameGraph(ms), n) && m in ms ==> m in seen
    }

    method Walk(name: string, ghost room: set<string>)
      requires Valid() && Room(ms.Keys, seen, room)
      modifies this
      ensures Valid() && old(seen) <= seen
      ensures name in ms ==> name in seen
      ensures forall n :: n in seen && n !in old(seen) ==> Reaches(NameGraph(ms), name, n) && Expanded(n)
      decreases room
    {
      if name !in ms || name in seen {
        return;
      }
      seen := seen + {name};
      readonly := readonly + {name};
      RoomTaken(ms.Keys, old(seen), name, room);
      ReachesSelf(NameGraph(ms), name);
      ghost var marked := seen;
      var fields := ms[name].fields;
      for i := 0 to |fields|
        invariant Valid() && marked <= seen
        invariant forall k :: 0 <= k < i && fields[k].elem.Some? && fields[k].elem.value.name in ms ==> fields[k].elem.value.name in seen
        invariant forall n :: n in seen && n !in marked ==> Reaches(NameGraph(ms), name, n) && Expanded(n)
      {
        if fields[i].elem.Some? {
          var below := fields[i].elem.value.name;
          RoomKept(ms.Keys, marked, seen, room - {name});
          ghost var before := seen;
          Walk(below, room - {name});
          assert below in Next(NameGraph(ms), name);
          forall n | n in seen && n !in marked
            ensures Reaches(NameGraph(ms), name, n) && Expanded(n)
          {
            if n !in before {
              ReachesVia(NameGraph(ms), name, below, n);
            }
          }
        }
      }
    }
  }

  /** The models flagged readonly are exactly those a readonly root leads to. */
  method MarkReadonly(ms: Models, roots: seq<Root>) returns (readonly: set<string>)
    ensures forall n :: n in readonly <==> FromReadonlyRoot(ms, roots, n)
  {
    var walk := new ReadonlyWalk(ms);
    for i := 0 to |roots|
      invariant walk.Valid() && walk.ms == ms && fresh(walk)
      invariant forall n :: n in walk.seen ==> FromReadonlyRoot(ms, roots, n) && walk.Expanded(n)
      invariant forall k :: 0 <= k < i && roots[k].readonly && NameOf(roots[k].typ) in ms ==> NameOf(roots[k].typ) in walk.seen
    {
      if roots[i].readonly {
        walk.Walk(NameOf(roots[i].typ), ms.Keys);
      }
    }
    forall n | FromReadonlyRoot(ms, roots, n)
      ensures n in walk.seen
    {
      var i :| 0 <= i < |roots| && roots[i].readonly && Reaches(NameGraph(ms), NameOf(roots[i].typ), n);
      SeenIsClosed(ms, walk.seen, NameOf(roots[i].typ), n);
    }
    return walk.readonly;
  }

  lemma SeenIsClosed(ms: Models, seen: set<string>, from: string, n: string)
    requires Reaches(NameGraph(ms), from, n) && n in ms && (from in ms ==> from in seen)
    requires forall a, b :: a in seen && b in Next(NameGraph(ms), a) && b in ms ==> b in seen
    ensures n in seen
  {
    var w :| Leads(NameGraph(ms), w, from, n);
    if |w| > 1 {
      assert w[1] in Next(NameGraph(ms), from);
    }
    StaysSeen(ms, seen, w, from, n);
  }

  lemma {:induction false} StaysSeen(ms: Models, seen: set<string>, w: seq<string>, from: string, n: string)
    requires Leads(NameGraph(ms), w, from, n) && from in seen && n in ms
    requires forall a, b :: a in seen && b in Next(NameGraph(ms), a) && b in ms ==> b in seen
    ensures n in seen
    decreases |w|
  {
    if |w| > 1 {
      WalkTail(NameGraph(ms), w);
      if |w| > 2 {
        assert w[1..][1] in Next(NameGraph(ms), w[1]);
      }
      StaysSeen(ms, seen, w[1..], w[1], n);
    }
  }
}
