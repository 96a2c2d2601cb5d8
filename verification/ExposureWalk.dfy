/** The visit of buildModels (cmd/plugin-typescript/model.go): a depth-first walk with marks,
    the path of fields, the finished models and the problems found on the way. */
module ExposureWalk {
  import opened Strings
  import opened Payloads
  import opened FieldTags
  import opened Walks
  import opened FirstWalks
  import opened Exposure

  // ----- what the walk keeps

  /** `fields` are the first `n` of the described ones. */
  predicate Copied(fields: seq<Field>, ds: seq<Described>, n: nat) {
    |fields| == n <= |ds| && forall k :: 0 <= k < n ==> fields[k] == ds[k].field
  }

  lemma CopiedNext(fields: seq<Field>, ds: seq<Described>, i: nat)
    requires Copied(fields, ds, i) && i < |ds|
    ensures Copied(fields + [ds[i].field], ds, i + 1)
  {
  }

  lemma CopiedAll(fields: seq<Field>, ds: seq<Described>)
    requires Copied(fields, ds, |ds|)
    ensures fields == FieldsIn(ds)
  {
  }


  /** Marked types are the stack and the finishing order. */
  ghost predicate Marked(state: map<TypeId, Mark>, stack: seq<TypeId>, order: seq<TypeId>) {
    && (forall t :: t in state && state[t] == OnStack <==> t in stack)
    && (forall t :: t in state && state[t] == Done <==> t in order)
  }

  ghost predicate AllReached(g: Graph<TypeId>, tops: set<TypeId>, marked: set<TypeId>) {
    forall t {:trigger ReachedWithin(g, tops, marked, t)} :: t in marked ==> ReachedWithin(g, tops, marked, t)
  }

  ghost predicate Explained(types: Types, g: Graph<TypeId>, tops: set<TypeId>, roots: seq<TypeId>, problems: seq<Problem>) {
    && (forall i {:trigger Genuine(types, g, tops, problems[i])} :: 0 <= i < |problems| ==> Genuine(types, g, tops, problems[i]))
    && FirstIsDivided(g, roots, problems)
  }

  /** The first walk to the type stays inside `within`. */
  ghost predicate MetWithin(g: Graph<TypeId>, roots: seq<TypeId>, within: set<TypeId>, t: TypeId) {
    exists w :: FirstTo(g, roots, w, t) && forall k :: 0 <= k < |w| ==> w[k] in within
  }

  /** Of two types of one name, one lies on the first walk to the other. */
  ghost predicate NestedPair(g: Graph<TypeId>, roots: seq<TypeId>, t: TypeId, u: TypeId) {
    t.name == u.name && t != u ==> OnFirstWalk(g, roots, t, u) || OnFirstWalk(g, roots, u, t)
  }

  /** How the walk stands as long as nothing was reported: all that it passed by is finished, each
      type was met on its first walk, and namesakes are nested. */
  ghost predicate Orderly(g: Graph<TypeId>, roots: seq<TypeId>, marked: set<TypeId>, stack: seq<TypeId>, order: seq<TypeId>) {
    && LeftDone(g, roots, stack, order)
    && (forall t {:trigger MetWithin(g, roots, marked, t)} :: t in marked ==> MetWithin(g, roots, marked, t))
    && (forall t, u {:trigger NestedPair(g, roots, t, u)} :: t in marked && u in marked ==> NestedPair(g, roots, t, u))
  }

  lemma MetGrows(g: Graph<TypeId>, roots: seq<TypeId>, a: set<TypeId>, b: set<TypeId>, t: TypeId)
    requires MetWithin(g, roots, a, t) && a <= b
    ensures MetWithin(g, roots, b, t)
  {
    var w :| FirstTo(g, roots, w, t) && forall k :: 0 <= k < |w| ==> w[k] in a;
  }

  lemma MetNow(g: Graph<TypeId>, roots: seq<TypeId>, stack: seq<TypeId>, order: seq<TypeId>, t: TypeId)
    requires FromRoot(g, roots, stack + [t]) && LeftDone(g, roots, stack + [t], order)
    requires Finished(g, order) && t !in order
    ensures FirstTo(g, roots, stack + [t], t)
  {
    forall a, b | a in order && Reaches(g, a, b)
      ensures b in order
    {
      FinishedIsClosed(g, order, a, b);
    }
    MetFirst(g, roots, stack + [t], order);
  }

  lemma OrderlyEnter(g: Graph<TypeId>, roots: seq<TypeId>, marked: set<TypeId>, stack: seq<TypeId>, order: seq<TypeId>, t: TypeId)
    requires Orderly(g, roots, marked, stack, order) && LeftDone(g, roots, stack + [t], order)
    requires FromRoot(g, roots, stack + [t]) && Finished(g, order) && t !in order
    requires forall u :: u in stack ==> u in marked
    requires forall u :: u in marked ==> u in stack || u.name != t.name
    ensures Orderly(g, roots, marked + {t}, stack + [t], order)
  {
    MetNow(g, roots, stack, order, t);
    forall u | u in marked + {t}
      ensures MetWithin(g, roots, marked + {t}, u)
    {
      if u == t {
        assert FirstTo(g, roots, stack + [t], t);
      } else {
        MetGrows(g, roots, marked, marked + {t}, u);
      }
    }
    forall u, v | u in marked + {t} && v in marked + {t}
      ensures NestedPair(g, roots, u, v)
    {
      if u in marked && v in marked {
        assert NestedPair(g, roots, u, v);
      } else if u != v && u.name == v.name {
        var other := if u == t then v else u;
        assert FirstTo(g, roots, stack + [t], t) && other in stack + [t];
        assert OnFirstWalk(g, roots, other, t);
      }
    }
  }

  /** A finished type and one met now on a walk that it is not on. */
  lemma MetApart(g: Graph<TypeId>, roots: seq<TypeId>, marked: set<TypeId>, stack: seq<TypeId>, order: seq<TypeId>, prior: TypeId, t: TypeId)
    requires Orderly(g, roots, marked, stack, order) && LeftDone(g, roots, stack + [t], order)
    requires FromRoot(g, roots, stack + [t]) && Finished(g, order) && t !in order && t !in marked
    requires prior in marked && prior !in stack
    ensures Divided(g, roots, prior, t)
  {
    MetNow(g, roots, stack, order, t);
    assert MetWithin(g, roots, marked, prior);
    var v :| FirstTo(g, roots, v, prior) && forall k :: 0 <= k < |v| ==> v[k] in marked;
    assert t !in v && prior !in stack + [t];
  }

  /** What the finished types are like as long as nothing was reported. */
  ghost predicate Sound(types: Types, g: Graph<TypeId>, order: seq<TypeId>) {
    && Finished(g, order)
    && (forall t {:trigger Faultless(FieldsOfType(types, t))} :: t in order ==> Faultless(FieldsOfType(types, t)))
    && NamesakesLead(g, order)
    && Once(order)
  }

  /** What a visit only adds to. */
  datatype Snapshot = Snapshot(problems: seq<Problem>, order: seq<TypeId>, marked: set<TypeId>)

  /** Nothing is lost, and what was finished since is reachable from `t`. */
  ghost predicate Grew(g: Graph<TypeId>, t: TypeId, a: Snapshot, b: Snapshot) {
    && a.problems <= b.problems && a.order <= b.order && a.marked <= b.marked
    && forall k :: |a.order| <= k < |b.order| ==> Reaches(g, t, b.order[k])
  }

  lemma GrewProblems(g: Graph<TypeId>, t: TypeId, a: Snapshot, problems: seq<Problem>)
    requires a.problems <= problems
    ensures Grew(g, t, a, a.(problems := problems))
  {
  }

  lemma GrewMarked(g: Graph<TypeId>, t: TypeId, a: Snapshot, marked: set<TypeId>)
    requires a.marked <= marked
    ensures Grew(g, t, a, a.(marked := marked))
  {
  }

  lemma GrewTransitive(g: Graph<TypeId>, t: TypeId, a: Snapshot, b: Snapshot, c: Snapshot)
    requires Grew(g, t, a, b) && Grew(g, t, b, c)
    ensures Grew(g, t, a, c)
  {
    assert forall k :: 0 <= k < |b.order| ==> c.order[k] == b.order[k];
  }

  lemma GrewBelow(g: Graph<TypeId>, t: TypeId, below: TypeId, a: Snapshot, b: Snapshot)
    requires below in Next(g, t) && Grew(g, below, a, b)
    ensures Grew(g, t, a, b)
  {
    forall k | |a.order| <= k < |b.order|
      ensures Reaches(g, t, b.order[k])
    {
      ReachesVia(g, t, below, b.order[k]);
    }
  }

  lemma GrewByOne(g: Graph<TypeId>, t: TypeId, a: Snapshot)
    ensures Grew(g, t, a, a.(order := a.order + [t])) && t in a.order + [t]
  {
    ReachesSelf(g, t);
  }

  /** All that `t` needs of the finished types to be the next of them. */
  ghost predicate Settled(types: Types, g: Graph<TypeId>, order: seq<TypeId>, t: TypeId) {
    && Faultless(FieldsOfType(types, t))
    && (forall b :: b in Next(g, t) ==> b in order)
    && (forall i :: 0 <= i < |order| && order[i].name == t.name ==> Reaches(g, t, order[i]))
  }

  ghost predicate Modelled(types: Types, order: seq<TypeId>, byName: map<string, Model>, names: seq<string>) {
    byName == ModelsOf(types, order) && names == NamesOf(order)
  }

  lemma ModelledLeave(types: Types, order: seq<TypeId>, byName: map<string, Model>, names: seq<string>, t: TypeId)
    requires Modelled(types, order, byName, names)
    ensures Modelled(types, order + [t], byName[t.name := ModelOf(types, t)], names + [t.name])
  {
    SnocNames(types, order, t);
  }

  lemma MarkedEnter(state: map<TypeId, Mark>, stack: seq<TypeId>, order: seq<TypeId>, t: TypeId)
    requires Marked(state, stack, order) && t !in state
    ensures Marked(state[t := OnStack], stack + [t], order)
  {
    var more := stack + [t];
    assert t !in stack && t !in order;
    forall u
      ensures u in state[t := OnStack] && state[t := OnStack][u] == OnStack <==> u in more
    {
      assert u in more <==> u in stack || u == t;
    }
  }

  lemma MarkedLeave(state: map<TypeId, Mark>, below: seq<TypeId>, order: seq<TypeId>, t: TypeId)
    requires Marked(state, below + [t], order) && t !in below
    ensures Marked(state[t := Done], below, order + [t])
    ensures state[t := Done].Keys == state.Keys
  {
    var stack, more := below + [t], order + [t];
    assert stack[|below|] == t && t in stack;
    forall u
      ensures u in state[t := Done] && state[t := Done][u] == OnStack <==> u in below
      ensures u in state[t := Done] && state[t := Done][u] == Done <==> u in more
    {
      assert u in stack <==> u in below || u == t;
      assert u in more <==> u in order || u == t;
    }
  }

  lemma Unmarked(state: map<TypeId, Mark>, stack: seq<TypeId>, order: seq<TypeId>, t: TypeId)
    requires Marked(state, stack, order) && t !in state
    ensures t !in order && t !in stack
  {
  }

  lemma MarkedNamesakes(state: map<TypeId, Mark>, stack: seq<TypeId>, order: seq<TypeId>, t: TypeId)
    requires Marked(state, stack, order) && forall i :: 0 <= i < |order| ==> order[i].name != t.name
    ensures forall u :: u in state.Keys ==> u in stack || u.name != t.name
  {
    forall u | u in state.Keys
      ensures u in stack || u.name != t.name
    {
      if state[u] == Done {
        assert u in order;
      }
    }
  }

  lemma ReachedEnter(types: Types, g: Graph<TypeId>, tops: set<TypeId>, marked: set<TypeId>, stack: seq<TypeId>, t: TypeId, path: seq<Hop>)
    requires IsGraphOf(g, types) && AllReached(g, tops, marked) && forall u :: u in stack ==> u in marked
    requires Trace(types, stack + [t], path) && (stack + [t])[0] in tops
    ensures AllReached(g, tops, marked + {t})
  {
    var more := stack + [t];
    TraceIsWalk(types, g, more, path);
    forall u | u in marked + {t}
      ensures ReachedWithin(g, tops, marked + {t}, u)
    {
      if u == t {
        assert RunsWithin(g, tops, marked + {t}, more) && more[|more| - 1] == t;
      } else {
        WithinGrows(g, tops, marked, marked + {t}, u);
      }
    }
  }

  lemma SoundLeave(types: Types, g: Graph<TypeId>, order: seq<TypeId>, t: TypeId)
    requires Sound(types, g, order) && Settled(types, g, order, t) && t !in order
    ensures Sound(types, g, order + [t])
  {
    FinishedSnoc(g, order, t);
    assert (order + [t])[..|order|] == order;
    forall u | u in order + [t]
      ensures Faultless(FieldsOfType(types, u))
    {
      assert u in order || u == t;
    }
  }

  class Walker {
    const types: Types
    ghost const g: Graph<TypeId>
    ghost const tops: set<TypeId>
    ghost const roots: seq<TypeId>
    var state: map<TypeId, Mark>
    var byName: map<string, Model>
    var names: seq<string>
    var problems: seq<Problem>
    var path: seq<Hop>
    ghost var stack: seq<TypeId>
    ghost var order: seq<TypeId>

    constructor (types: Types, ghost roots: seq<TypeId>)
      ensures Valid() && this.types == types && this.roots == roots && g == TypeGraph(types)
      ensures tops == Elements(roots)
      ensures stack == [] && path == [] && order == [] && problems == []
    {
      this.types := types;
      this.g, this.tops, this.roots := TypeGraph(types), Elements(roots), roots;
      state, byName, names, problems, path := map[], map[], [], [], [];
      stack, order := [], [];
      TypeGraphFollowsFields(types);
    }

    ghost predicate Valid()
      reads this
    {
      && IsGraphOf(g, types)
      && Marked(state, stack, order)
      && Modelled(types, order, byName, names)
      && AllReached(g, tops, state.Keys)
      && tops == Elements(roots)
      && Explained(types, g, tops, roots, problems)
      && (problems == [] ==> Sound(types, g, order) && Orderly(g, roots, state.Keys, stack, order))
    }

    ghost function Now(): Snapshot
      reads this
    {
      Snapshot(problems, order, state.Keys)
    }

    method Report(p: Problem)
      requires Valid() && Genuine(types, g, tops, p)
      requires problems == [] && p.SharedName? ==> Divided(g, roots, p.prior, p.typ)
      modifies this`problems
      ensures Valid() && problems == old(problems) + [p]
    {
      problems := problems + [p];
    }

    method Enter(t: TypeId)
      requires Valid() && t !in state
      requires Trace(types, stack + [t], path) && (stack + [t])[0] in tops
      requires problems == [] ==> LeftDone(g, roots, stack + [t], order)
      requires forall i :: 0 <= i < |order| ==> order[i].name != t.name
      modifies this`state, this`stack
      ensures Valid() && stack == old(stack) + [t] && state == old(state)[t := OnStack]
    {
      MarkedEnter(state, stack, order, t);
      ReachedEnter(types, g, tops, state.Keys, stack, t, path);
      assert state[t := OnStack].Keys == state.Keys + {t};
      if problems == [] {
        TraceIsWalk(types, g, stack + [t], path);
        Unmarked(state, stack, order, t);
        MarkedNamesakes(state, stack, order, t);
        OrderlyEnter(g, roots, state.Keys, stack, order, t);
      }
      state := state[t := OnStack];
      stack := stack + [t];
    }

    method Leave(t: TypeId, m: Model)
      requires Valid() && stack != [] && stack[|stack| - 1] == t && t !in stack[..|stack| - 1]
      requires m == ModelOf(types, t)
      requires problems == [] ==> Settled(types, g, order, t)
      modifies this`state, this`stack, this`order, this`byName, this`names
      ensures Valid() && stack == old(stack)[..|old(stack)| - 1]
      ensures Now() == old(Now()).(order := old(order) + [t])
    {
      LeaveKeeps(t, m);
      stack, order := stack[..|stack| - 1], order + [t];
      state, byName, names := state[t := Done], byName[t.name := m], names + [t.name];
    }

    lemma LeaveKeeps(t: TypeId, m: Model)
      requires Valid() && stack != [] && stack[|stack| - 1] == t && t !in stack[..|stack| - 1]
      requires m == ModelOf(types, t)
      requires problems == [] ==> Settled(types, g, order, t)
      ensures Marked(state[t := Done], stack[..|stack| - 1], order + [t])
      ensures state[t := Done].Keys == state.Keys
      ensures Modelled(types, order + [t], byName[t.name := m], names + [t.name])
      ensures problems == [] ==> Sound(types, g, order + [t])
      ensures problems == [] ==> Orderly(g, roots, state.Keys, stack[..|stack| - 1], order + [t])
    {
      ghost var below := stack[..|stack| - 1];
      assert stack == below + [t] && t in stack;
      MarkedLeave(state, below, order, t);
      ModelledLeave(types, order, byName, names, t);
      if problems == [] {
        SoundLeave(types, g, order, t);
        LeftDoneKept(g, roots, stack, below, order, order + [t]);
      }
    }

    /** One struct type: marked, walked, finished; or reported. */
    method Visit(t: TypeId, ghost room: set<TypeId>)
      requires Valid() && Room(types.Keys, state.Keys, room) && Trace(types, stack + [t], path) && (stack + [t])[0] in tops
      requires problems == [] ==> LeftDone(g, roots, stack + [t], order)
      modifies this
      ensures Valid() && stack == old(stack) && path == old(path)
      ensures Grew(g, t, old(Now()), Now())
      ensures problems == [] ==> t in order
      decreases room, 2
    {
      if t in state {
        if state[t] == OnStack {
          ReportCycle(t);
        }
        return;
      }
      ModelsOfKeys(types, order);
      if t.name in byName && byName[t.name].typ != t {
        ReportShared(byName[t.name].typ, t);
        return;
      }
      Unmarked(state, stack, order, t);
      assert forall i :: 0 <= i < |order| ==> order[i].name != t.name;
      Descend(t, room);
    }

    /** A type met for the first time. */
    method Descend(t: TypeId, ghost room: set<TypeId>)
      requires Valid() && Room(types.Keys, state.Keys, room) && Trace(types, stack + [t], path) && (stack + [t])[0] in tops
      requires problems == [] ==> LeftDone(g, roots, stack + [t], order)
      requires t !in state && t !in stack && forall i :: 0 <= i < |order| ==> order[i].name != t.name
      modifies this
      ensures Valid() && stack == old(stack) && path == old(path)
      ensures Grew(g, t, old(Now()), Now())
      ensures t in order
      decreases room, 1
    {
      var fields := Fill(t, room);
      ghost var filled := Now();
      assert stack[..|stack| - 1] == old(stack);
      Leave(t, Model(t.name, t, fields));
      GrewByOne(g, t, filled);
      GrewTransitive(g, t, old(Now()), filled, Now());
    }

    /** Marks the type and reads its fields. */
    method Fill(t: TypeId, ghost room: set<TypeId>) returns (fields: seq<Field>)
      requires Valid() && Room(types.Keys, state.Keys, room) && Trace(types, stack + [t], path) && (stack + [t])[0] in tops
      requires problems == [] ==> LeftDone(g, roots, stack + [t], order)
      requires t !in state && forall i :: 0 <= i < |order| ==> order[i].name != t.name
      modifies this
      ensures Valid() && stack == old(stack) + [t] && path == old(path)
      ensures Grew(g, t, old(Now()), Now())
      ensures fields == FieldsIn(FieldsOfType(types, t))
      ensures problems == [] ==> Settled(types, g, order, t)
      decreases room, 0
    {
      Enter(t);
      ghost var entered := Now();
      GrewMarked(g, t, old(Now()), entered.marked);
      fields := [];
      if t in types {
        RoomTaken(types.Keys, old(state.Keys), t, room);
        fields := VisitFields(t, room - {t});
      }
      GrewTransitive(g, t, old(Now()), entered, Now());
      if problems == [] {
        Settles(types, g, old(order), order, t);
      }
    }

    method ReportCycle(t: TypeId)
      requires Valid() && t in stack
      requires Trace(types, stack + [t], path) && (stack + [t])[0] in tops
      modifies this`problems
      ensures Valid() && problems == old(problems) + [CyclicGraph(path, t.name)]
    {
      BackOnStack(types, tops, stack, path, t);
      Report(CyclicGraph(path, t.name));
    }

    method ReportShared(prior: TypeId, t: TypeId)
      requires Valid() && t !in state && prior in order && prior.name == t.name
      requires Trace(types, stack + [t], path) && (stack + [t])[0] in tops
      requires problems == [] ==> LeftDone(g, roots, stack + [t], order)
      modifies this`problems
      ensures Valid() && problems == old(problems) + [SharedName(prior, t)]
    {
      TraceIsWalk(types, g, stack + [t], path);
      assert Leads(g, stack + [t], (stack + [t])[0], t);
      assert Exposed(g, tops, t);
      WithinAvoids(g, tops, state.Keys, prior, t);
      if problems == [] {
        Unmarked(state, stack, order, t);
        assert state[prior] == Done;
        MetApart(g, roots, state.Keys, stack, order, prior, t);
      }
      Report(SharedName(prior, t));
    }

    /** The loop over the declared fields. */
    method VisitFields(t: TypeId, ghost room: set<TypeId>) returns (fields: seq<Field>)
      requires Valid() && stack != [] && stack[|stack| - 1] == t && t in types
      requires Room(types.Keys, state.Keys, room)
      requires Trace(types, stack, path) && stack[0] in tops
      modifies this
      ensures Valid() && stack == old(stack) && path == old(path)
      ensures Grew(g, t, old(Now()), Now())
      ensures fields == FieldsIn(FieldsOfType(types, t))
      ensures problems == [] ==> Followed(FieldsOfType(types, t), |FieldsOfType(types, t)|, order)
      decreases room, 6
    {
      ghost var start := Now();
      var ds := DescribeFields(types[t]);
      fields := [];
      for i := 0 to |ds|
        invariant Valid() && stack == old(stack) && path == old(path)
        invariant Grew(g, t, start, Now())
        invariant Copied(fields, ds, i)
        invariant problems == [] ==> Followed(ds, i, order)
      {
        VisitNext(t, ds, i, start, room);
        CopiedNext(fields, ds, i);
        fields := fields + [ds[i].field];
      }
      CopiedAll(fields, ds);
    }

    /** The field after those already seen. */
    method VisitNext(t: TypeId, ds: seq<Described>, i: nat, ghost start: Snapshot, ghost room: set<TypeId>)
      requires Valid() && stack != [] && stack[|stack| - 1] == t && t in types
      requires Trace(types, stack, path) && stack[0] in tops
      requires ds == FieldsOfType(types, t) && i < |ds|
      requires Grew(g, t, start, Now()) && Room(types.Keys, start.marked, room)
      requires problems == [] ==> Followed(ds, i, order)
      modifies this
      ensures Valid() && stack == old(stack) && path == old(path)
      ensures Grew(g, t, start, Now()) && (problems == [] ==> Followed(ds, i + 1, order))
      decreases room, 5
    {
      ghost var before := Now();
      RoomKept(types.Keys, start.marked, before.marked, room);
      VisitField(t, ds[i], i, room);
      GrewTransitive(g, t, start, before, Now());
      if problems == [] {
        FollowedNext(ds, i, before.order, order);
      }
    }

    method VisitField(t: TypeId, d: Described, ghost k: nat, ghost room: set<TypeId>)
      requires Valid() && Room(types.Keys, state.Keys, room) && stack != [] && stack[|stack| - 1] == t && t in types
      requires Trace(types, stack, path) && stack[0] in tops
      requires k < |FieldsOfType(types, t)| && FieldsOfType(types, t)[k] == d
      requires problems == [] ==> Followed(FieldsOfType(types, t), k, order)
      modifies this
      ensures Valid() && stack == old(stack) && path == old(path)
      ensures Grew(g, t, old(Now()), Now())
      ensures problems == [] ==> d.faults == [] && (d.field.elem.Some? ==> d.field.elem.value in order)
      decreases room, 4
    {
      OnStackIsMarked(t);
      ReportFaults(t, d, k);
      ghost var reported := Now();
      GrewProblems(g, t, old(Now()), problems);
      match d.field.elem {
        case None =>
        case Some(b) =>
          Follow(t, d, b, k, room);
          GrewTransitive(g, t, old(Now()), reported, Now());
      }
    }

    lemma OnStackIsMarked(t: TypeId)
      requires Valid() && stack != [] && stack[|stack| - 1] == t
      ensures t in state
    {
      assert t in stack;
    }

    /** The visit of what a field leads to, with the field on the path. */
    method Follow(t: TypeId, d: Described, b: TypeId, ghost k: nat, ghost room: set<TypeId>)
      requires Valid() && Room(types.Keys, state.Keys, room) && stack != [] && stack[|stack| - 1] == t
      requires Trace(types, stack, path) && stack[0] in tops
      requires k < |FieldsOfType(types, t)| && FieldsOfType(types, t)[k] == d && d.field.elem == Some(b)
      requires problems == [] ==> Followed(FieldsOfType(types, t), k, order)
      modifies this
      ensures Valid() && stack == old(stack) && path == old(path)
      ensures Grew(g, t, old(Now()), Now())
      ensures problems == [] ==> b in order
      decreases room, 3, 1
    {
      var h := Hop(t.name, d.field.goName);
      HopOn(t, d, b, k, h);
      if problems == [] {
        PassedFields(types, g, roots, stack, t, k, b, order);
      }
      Go(t, h, b, room);
    }

    method Go(ghost t: TypeId, h: Hop, b: TypeId, ghost room: set<TypeId>)
      requires Valid() && Room(types.Keys, state.Keys, room) && b in Next(g, t)
      requires stack != [] && stack[0] in tops && Trace(types, stack + [b], path + [h])
      requires problems == [] ==> LeftDone(g, roots, stack + [b], order)
      modifies this
      ensures Valid() && stack == old(stack) && path == old(path)
      ensures Grew(g, t, old(Now()), Now())
      ensures problems == [] ==> b in order
      decreases room, 3, 0
    {
      path := path + [h];
      Visit(b, room);
      path := path[..|path| - 1];
      GrewBelow(g, t, b, old(Now()), Now());
    }

    lemma HopOn(t: TypeId, d: Described, b: TypeId, k: nat, h: Hop)
      requires IsGraphOf(g, types) && stack != [] && stack[|stack| - 1] == t && Trace(types, stack, path)
      requires k < |FieldsOfType(types, t)| && FieldsOfType(types, t)[k] == d && d.field.elem == Some(b)
      requires h == Hop(t.name, d.field.goName)
      ensures Trace(types, stack + [b], path + [h]) && b in Next(g, t)
    {
      assert LeadsOn(FieldsOfType(types, t)[k].field, h, b);
      assert IsHop(types, t, h, b);
      HopIsEdge(types, g, t, h, b);
      TraceSnoc(types, stack, path, h, b);
    }

    method ReportFaults(t: TypeId, d: Described, ghost k: nat)
      requires Valid() && t in state
      requires k < |FieldsOfType(types, t)| && FieldsOfType(types, t)[k] == d
      modifies this`problems
      ensures Valid() && old(problems) <= problems
      ensures problems == [] ==> d.faults == []
    {
      WithinIsExposed(g, tops, state.Keys, t);
      for i := 0 to |d.faults|
        invariant Valid() && old(problems) <= problems && (i > 0 ==> problems != [])
      {
        assert HasFault(FieldsOfType(types, t), d.field.goName, d.faults[i]);
        Report(BadField(t, d.field.goName, d.faults[i]));
      }
    }

    /** The loop over the roots; a root that is no struct exposes nothing. */
    method VisitRoots(roots: seq<Root>)
      requires Valid() && stack == [] && path == [] && order == [] && this.roots == RootList(roots)
      modifies this
      ensures Valid() && stack == []
      ensures problems == [] ==> forall t :: t in tops ==> t in order
    {
      RootListTypes(roots);
      for i := 0 to |roots|
        invariant Valid() && stack == [] && path == []
        invariant problems == [] ==> RootsDone(roots, i, order)
      {
        match Deref(roots[i].typ) {
          case Struct(id) =>
            ghost var before := order;
            assert id in tops;
            if problems == [] {
              PassedRoots(g, this.roots, roots, i, id, order);
              assert stack + [id] == [id];
            }
            Visit(id, types.Keys);
            PrefixKeeps(before, order);
          case _ =>
        }
      }
    }
  }

  /** The first `n` fields are faultless, and what they lead to is finished. */
  predicate Followed(ds: seq<Described>, n: nat, order: seq<TypeId>) {
    n <= |ds| && forall k :: 0 <= k < n ==> Fine(ds[k], order)
  }

  predicate Fine(d: Described, order: seq<TypeId>) {
    d.faults == [] && (d.field.elem.Some? ==> d.field.elem.value in order)
  }

  /** The fields before the k-th were followed, so what a walk through it passes by is finished. */
  lemma PassedFields(types: Types, g: Graph<TypeId>, roots: seq<TypeId>, stack: seq<TypeId>, t: TypeId, k: nat, b: TypeId, order: seq<TypeId>)
    requires IsGraphOf(g, types) && stack != [] && stack[|stack| - 1] == t && LeftDone(g, roots, stack, order)
    requires k < |FieldsOfType(types, t)| && FieldsOfType(types, t)[k].field.elem == Some(b)
    requires Followed(FieldsOfType(types, t), k, order)
    ensures LeftDone(g, roots, stack + [b], order)
  {
    var ds := FieldsOfType(types, t);
    assert Offer(g, roots, stack, |stack|) == Below(ds);
    forall c | c in Ahead(Below(ds), b)
      ensures c in order
    {
      AheadOfField(ds, k, b, c);
      var j :| 0 <= j < k && ds[j].field.elem == Some(c);
      assert Fine(ds[j], order);
    }
    LeftDoneSnoc(g, roots, stack, b, order);
  }

  predicate RootsDone(roots: seq<Root>, i: nat, order: seq<TypeId>) {
    i <= |roots| && forall k :: 0 <= k < i ==> RootDone(roots[k], order)
  }

  predicate RootDone(r: Root, order: seq<TypeId>) {
    Deref(r.typ).Struct? ==> Deref(r.typ).id in order
  }

  lemma {:induction false} PassedRoot(roots: seq<Root>, i: nat, id: TypeId, order: seq<TypeId>, c: TypeId)
    requires i < |roots| && Deref(roots[i].typ) == Struct(id) && RootsDone(roots, i, order)
    requires c in Ahead(RootList(roots), id)
    ensures c in order
  {
    AheadOfRoot(roots, i, id, c);
    var k :| 0 <= k < i && Deref(roots[k].typ) == Struct(c);
    assert RootDone(roots[k], order);
  }

  lemma {:induction false} PassedRoots(g: Graph<TypeId>, list: seq<TypeId>, roots: seq<Root>, i: nat, id: TypeId, order: seq<TypeId>)
    requires list == RootList(roots) && i < |roots| && Deref(roots[i].typ) == Struct(id) && RootsDone(roots, i, order)
    ensures LeftDone(g, list, [id], order)
  {
    forall c | c in Ahead(list, id)
      ensures c in order
    {
      PassedRoot(roots, i, id, order, c);
    }
  }

  lemma Settles(types: Types, g: Graph<TypeId>, before: seq<TypeId>, order: seq<TypeId>, t: TypeId)
    requires IsGraphOf(g, types) && before <= order
    requires Followed(FieldsOfType(types, t), |FieldsOfType(types, t)|, order)
    requires forall i :: 0 <= i < |before| ==> before[i].name != t.name
    requires forall k :: |before| <= k < |order| ==> Reaches(g, t, order[k])
    ensures Settled(types, g, order, t)
  {
    forall i | 0 <= i < |order| && order[i].name == t.name
      ensures Reaches(g, t, order[i])
    {
      assert forall j :: 0 <= j < |before| ==> order[j] == before[j];
    }
  }

  lemma FollowedNext(ds: seq<Described>, i: nat, before: seq<TypeId>, order: seq<TypeId>)
    requires i < |ds| && Followed(ds, i, before) && before <= order && Fine(ds[i], order)
    ensures Followed(ds, i + 1, order)
  {
    PrefixKeeps(before, order);
    forall k | 0 <= k < i + 1
      ensures Fine(ds[k], order)
    {
      assert k < i ==> Fine(ds[k], before);
    }
  }
}
