/** The walk of buildModels (cmd/plugin-typescript/model.go) over the exposed struct types:
    what it visits, in which order, and what it reports. */
module Exposure {
  import opened Strings
  import opened Payloads
  import opened FieldTags
  import opened Walks
  import opened FirstWalks

  datatype Root = Root(typ: GoType, readonly: bool)

  /** Type.Field, one edge of a path through the types. */
  datatype Hop = Hop(owner: string, goName: string)

  datatype Mark = OnStack | Done

  datatype Problem =
    | CyclicGraph(path: seq<Hop>, name: string)
    | SharedName(prior: TypeId, typ: TypeId)
    | BadField(owner: TypeId, goName: string, fault: Fault)
    | SecretReachable(root: string, trail: seq<Hop>)

  // ----- the graph of types

  function FieldsOfType(types: Types, t: TypeId): seq<Described> {
    if t in types then Visible(types[t]) else []
  }

  /** The structs the fields lead to. */
  function Below(ds: seq<Described>): (r: seq<TypeId>)
    ensures forall k :: 0 <= k < |ds| && ds[k].field.elem.Some? ==> ds[k].field.elem.value in r
    ensures forall t :: t in r ==> exists k :: 0 <= k < |ds| && ds[k].field.elem == Some(t)
  {
    if ds == [] then []
    else
      assert ds == [ds[0]] + ds[1..];
      (if ds[0].field.elem.Some? then [ds[0].field.elem.value] else []) + Below(ds[1..])
  }

  function TypeGraph(types: Types): Graph<TypeId> {
    map t | t in types :: Below(Visible(types[t]))
  }

  /** Each type's edges are its fields'. */
  ghost predicate IsGraphOf(g: Graph<TypeId>, types: Types) {
    forall t {:trigger FieldsOfType(types, t)} :: Next(g, t) == Below(FieldsOfType(types, t))
  }

  lemma TypeGraphFollowsFields(types: Types)
    ensures IsGraphOf(TypeGraph(types), types)
  {
  }

  function RootTypes(roots: seq<Root>): set<TypeId> {
    set i | 0 <= i < |roots| && Deref(roots[i].typ).Struct? :: Deref(roots[i].typ).id
  }

  /** The same in the order of the roots. */
  function RootList(roots: seq<Root>): seq<TypeId> {
    if roots == [] then []
    else (match Deref(roots[0].typ) case Struct(id) => [id] case _ => []) + RootList(roots[1..])
  }

  function FieldsIn(ds: seq<Described>): seq<Field> {
    seq(|ds|, k requires 0 <= k < |ds| => ds[k].field)
  }

  function ModelOf(types: Types, t: TypeId): Model {
    Model(t.name, t, FieldsIn(FieldsOfType(types, t)))
  }

  /** The models of finished types, the later one standing when two share a name. */
  function ModelsOf(types: Types, order: seq<TypeId>): map<string, Model> {
    if order == [] then map[]
    else
      var t := order[|order| - 1];
      ModelsOf(types, order[..|order| - 1])[t.name := ModelOf(types, t)]
  }

  function NamesOf(order: seq<TypeId>): seq<string> {
    if order == [] then [] else NamesOf(order[..|order| - 1]) + [order[|order| - 1].name]
  }

  /** No field of the type is unclassified or without a wire kind. */
  predicate Faultless(ds: seq<Described>) {
    forall k :: 0 <= k < |ds| ==> ds[k].faults == []
  }

  ghost predicate Exposed(g: Graph<TypeId>, tops: set<TypeId>, t: TypeId) {
    exists r :: r in tops && Reaches(g, r, t)
  }

  // ----- what a reported problem means

  /** `h` names a field of `a` that leads to `b`. */
  predicate IsHop(types: Types, a: TypeId, h: Hop, b: TypeId) {
    h.owner == a.name && exists k :: 0 <= k < |FieldsOfType(types, a)| && LeadsOn(FieldsOfType(types, a)[k].field, h, b)
  }

  predicate LeadsOn(f: Field, h: Hop, b: TypeId) {
    f.goName == h.goName && f.elem == Some(b)
  }

  /** `path` names the fields along the types of `s`. */
  predicate Trace(types: Types, s: seq<TypeId>, path: seq<Hop>) {
    |s| == |path| + 1 && forall i {:trigger path[i]} :: 0 <= i < |path| ==> IsHop(types, s[i], path[i], s[i + 1])
  }

  /** A path from a root that comes back to a type it went through. */
  ghost predicate ComesBack(types: Types, tops: set<TypeId>, path: seq<Hop>, name: string) {
    exists s: seq<TypeId> :: Returns(types, tops, s, path) && s[|s| - 1].name == name
  }

  predicate Returns(types: Types, tops: set<TypeId>, s: seq<TypeId>, path: seq<Hop>) {
    |s| >= 2 && Trace(types, s, path) && s[0] in tops && s[|s| - 1] in s[..|s| - 1]
  }

  /** A walk from a root to `t` that stays inside `within`. */
  ghost predicate ReachedWithin(g: Graph<TypeId>, tops: set<TypeId>, within: set<TypeId>, t: TypeId) {
    exists w :: RunsWithin(g, tops, within, w) && w[|w| - 1] == t
  }

  predicate RunsWithin(g: Graph<TypeId>, tops: set<TypeId>, within: set<TypeId>, w: seq<TypeId>) {
    w != [] && w[0] in tops && IsWalk(g, w) && forall k :: 0 <= k < |w| ==> w[k] in within
  }

  /** Some root leads to `t` without passing `u`. */
  ghost predicate ReachedAvoiding(g: Graph<TypeId>, tops: set<TypeId>, t: TypeId, u: TypeId) {
    exists w :: Avoids(g, tops, w, u) && w[|w| - 1] == t
  }

  predicate Avoids(g: Graph<TypeId>, tops: set<TypeId>, w: seq<TypeId>, u: TypeId) {
    w != [] && w[0] in tops && IsWalk(g, w) && u !in w
  }

  predicate HasFault(ds: seq<Described>, goName: string, fault: Fault) {
    exists k :: 0 <= k < |ds| && ds[k].field.goName == goName && fault in ds[k].faults
  }

  /** What each problem of the walk says is so. */
  ghost predicate Genuine(types: Types, g: Graph<TypeId>, tops: set<TypeId>, p: Problem) {
    match p
    case CyclicGraph(path, name) => ComesBack(types, tops, path, name)
    case SharedName(prior, typ) =>
      && prior != typ && prior.name == typ.name
      && Exposed(g, tops, typ) && ReachedAvoiding(g, tops, prior, typ)
    case BadField(owner, goName, fault) =>
      Exposed(g, tops, owner) && HasFault(FieldsOfType(types, owner), goName, fault)
    case SecretReachable(_, _) => false
  }

  /** When a shared name is the first problem, neither type lies on the first walk to the other. */
  ghost predicate FirstIsDivided(g: Graph<TypeId>, roots: seq<TypeId>, problems: seq<Problem>) {
    problems != [] && problems[0].SharedName? ==> Divided(g, roots, problems[0].prior, problems[0].typ)
  }

  /** Of two types of one name, the later finished leads to the earlier. */
  ghost predicate NamesakesLead(g: Graph<TypeId>, order: seq<TypeId>) {
    forall i, j {:trigger Reaches(g, order[j], order[i])} :: 0 <= i < j < |order| && order[i].name == order[j].name ==> Reaches(g, order[j], order[i])
  }

  /** No type is finished twice. */
  predicate Once(order: seq<TypeId>) {
    order == [] || (order[|order| - 1] !in order[..|order| - 1] && Once(order[..|order| - 1]))
  }

  // ----- lemmas about the graph

  lemma {:induction false} RootListTypes(roots: seq<Root>)
    ensures forall t :: t in RootList(roots) <==> t in RootTypes(roots)
  {
    if roots != [] {
      RootListTypes(roots[1..]);
      assert roots == [roots[0]] + roots[1..];
      forall t
        ensures t in RootTypes(roots) <==> Deref(roots[0].typ) == Struct(t) || t in RootTypes(roots[1..])
      {
        RootTypesCons(roots, t);
      }
    }
  }

  lemma RootTypesCons(roots: seq<Root>, t: TypeId)
    requires roots != []
    ensures t in RootTypes(roots) <==> Deref(roots[0].typ) == Struct(t) || t in RootTypes(roots[1..])
  {
    if t in RootTypes(roots) {
      var i :| 0 <= i < |roots| && Deref(roots[i].typ) == Struct(t);
      assert i > 0 ==> roots[1..][i - 1] == roots[i];
    }
    if t in RootTypes(roots[1..]) {
      var i :| 0 <= i < |roots[1..]| && Deref(roots[1..][i].typ) == Struct(t);
      assert roots[i + 1] == roots[1..][i];
    }
  }

  lemma {:induction false} RootListConcat(a: seq<Root>, b: seq<Root>)
    ensures RootList(a + b) == RootList(a) + RootList(b)
  {
    if a == [] {
      assert a + b == b;
    } else {
      assert (a + b)[1..] == a[1..] + b;
      RootListConcat(a[1..], b);
    }
  }

  lemma RootListAt(roots: seq<Root>, i: nat, t: TypeId)
    requires i < |roots| && Deref(roots[i].typ) == Struct(t)
    ensures RootList(roots) == RootList(roots[..i]) + ([t] + RootList(roots[i + 1..]))
  {
    assert roots == roots[..i] + roots[i..];
    RootListConcat(roots[..i], roots[i..]);
    assert roots[i..][1..] == roots[i + 1..];
  }

  /** What stands before a root are earlier roots. */
  lemma AheadOfRoot(roots: seq<Root>, i: nat, t: TypeId, c: TypeId)
    requires i < |roots| && Deref(roots[i].typ) == Struct(t) && c in Ahead(RootList(roots), t)
    ensures exists k :: 0 <= k < i && Deref(roots[k].typ) == Struct(c)
  {
    RootListAt(roots, i, t);
    AheadIsBefore(RootList(roots[..i]), t, RootList(roots[i + 1..]), c);
    RootListTypes(roots[..i]);
    var k :| 0 <= k < i && Deref(roots[..i][k].typ) == Struct(c);
    assert roots[k] == roots[..i][k];
  }

  lemma {:induction false} BelowConcat(a: seq<Described>, b: seq<Described>)
    ensures Below(a + b) == Below(a) + Below(b)
  {
    if a == [] {
      assert a + b == b;
    } else {
      assert (a + b)[1..] == a[1..] + b;
      BelowConcat(a[1..], b);
    }
  }

  lemma BelowAt(ds: seq<Described>, i: nat, b: TypeId)
    requires i < |ds| && ds[i].field.elem == Some(b)
    ensures Below(ds) == Below(ds[..i]) + ([b] + Below(ds[i + 1..]))
  {
    assert ds == ds[..i] + ds[i..];
    BelowConcat(ds[..i], ds[i..]);
    assert ds[i..][1..] == ds[i + 1..];
  }

  /** What stands before a field's struct are structs of earlier fields. */
  lemma AheadOfField(ds: seq<Described>, i: nat, b: TypeId, c: TypeId)
    requires i < |ds| && ds[i].field.elem == Some(b) && c in Ahead(Below(ds), b)
    ensures exists k :: 0 <= k < i && ds[k].field.elem == Some(c)
  {
    BelowAt(ds, i, b);
    AheadIsBefore(Below(ds[..i]), b, Below(ds[i + 1..]), c);
    var k :| 0 <= k < i && ds[..i][k].field.elem == Some(c);
    assert ds[k] == ds[..i][k];
  }

  lemma HopIsEdge(types: Types, g: Graph<TypeId>, a: TypeId, h: Hop, b: TypeId)
    requires IsGraphOf(g, types) && IsHop(types, a, h, b)
    ensures b in Next(g, a)
  {
  }

  lemma TraceIsWalk(types: Types, g: Graph<TypeId>, s: seq<TypeId>, path: seq<Hop>)
    requires IsGraphOf(g, types) && Trace(types, s, path)
    ensures IsWalk(g, s)
  {
    forall i | 0 <= i < |s| - 1
      ensures s[i + 1] in Next(g, s[i])
    {
      HopIsEdge(types, g, s[i], path[i], s[i + 1]);
    }
  }

  lemma TraceSnoc(types: Types, s: seq<TypeId>, path: seq<Hop>, h: Hop, b: TypeId)
    requires Trace(types, s, path) && IsHop(types, s[|s| - 1], h, b)
    ensures Trace(types, s + [b], path + [h])
  {
  }

  lemma BackOnStack(types: Types, tops: set<TypeId>, stack: seq<TypeId>, path: seq<Hop>, t: TypeId)
    requires t in stack && Trace(types, stack + [t], path) && (stack + [t])[0] in tops
    ensures ComesBack(types, tops, path, t.name)
  {
    var s := stack + [t];
    assert s[..|s| - 1] == stack && s[|s| - 1] == t;
    assert Returns(types, tops, s, path);
  }

  /** A path that comes back closes a walk. */
  lemma ComesBackIsCycle(types: Types, tops: set<TypeId>, path: seq<Hop>, name: string)
    requires ComesBack(types, tops, path, name)
    ensures exists w :: ClosedWalk(TypeGraph(types), w) && Exposed(TypeGraph(types), tops, w[0])
  {
    var g := TypeGraph(types);
    var s: seq<TypeId> :| Returns(types, tops, s, path) && s[|s| - 1].name == name;
    TypeGraphFollowsFields(types);
    TraceIsWalk(types, g, s, path);
    var i :| 0 <= i < |s| - 1 && s[i] == s[|s| - 1];
    var w := ReturningWalk(g, s, i);
    assert Exposed(g, tops, w[0]);
  }

  lemma SnocNames(types: Types, order: seq<TypeId>, t: TypeId)
    ensures ModelsOf(types, order + [t]) == ModelsOf(types, order)[t.name := ModelOf(types, t)]
    ensures NamesOf(order + [t]) == NamesOf(order) + [t.name]
  {
    assert (order + [t])[..|order|] == order;
  }

  /** A name has a model just when a finished type has the name. */
  lemma {:induction false} ModelsOfKeys(types: Types, order: seq<TypeId>)
    ensures forall n :: n in ModelsOf(types, order) ==> ModelsOf(types, order)[n].typ in order
    ensures forall n :: n in ModelsOf(types, order) ==> ModelsOf(types, order)[n] == ModelOf(types, ModelsOf(types, order)[n].typ)
    ensures forall n :: n in ModelsOf(types, order) ==> ModelsOf(types, order)[n].name == n
    ensures forall t :: t in order ==> t.name in ModelsOf(types, order)
  {
    if order != [] {
      ModelsOfKeys(types, order[..|order| - 1]);
      assert order == order[..|order| - 1] + [order[|order| - 1]];
    }
  }

  lemma WithinGrows(g: Graph<TypeId>, tops: set<TypeId>, a: set<TypeId>, b: set<TypeId>, t: TypeId)
    requires ReachedWithin(g, tops, a, t) && a <= b
    ensures ReachedWithin(g, tops, b, t)
  {
    var w :| RunsWithin(g, tops, a, w) && w[|w| - 1] == t;
    assert RunsWithin(g, tops, b, w);
  }

  lemma WithinIsExposed(g: Graph<TypeId>, tops: set<TypeId>, within: set<TypeId>, t: TypeId)
    requires ReachedWithin(g, tops, within, t)
    ensures Exposed(g, tops, t)
  {
    var w :| RunsWithin(g, tops, within, w) && w[|w| - 1] == t;
    assert Leads(g, w, w[0], t);
  }

  lemma WithinAvoids(g: Graph<TypeId>, tops: set<TypeId>, within: set<TypeId>, t: TypeId, u: TypeId)
    requires ReachedWithin(g, tops, within, t) && u !in within
    ensures ReachedAvoiding(g, tops, t, u)
  {
    var w :| RunsWithin(g, tops, within, w) && w[|w| - 1] == t;
    assert Avoids(g, tops, w, u);
  }

  /** Nothing finished leads to something that is not. */
  lemma FinishedIsClosed(g: Graph<TypeId>, order: seq<TypeId>, a: TypeId, b: TypeId)
    requires Finished(g, order) && a in order && Reaches(g, a, b)
    ensures b in order
  {
    var s := set t | t in order;
    forall n, m | n in s && m in Next(g, n)
      ensures m in s
    {
      var i :| 0 <= i < |order| && order[i] == n;
      assert m in order[..i];
    }
    var w :| Leads(g, w, a, b);
    ClosedKeeps(g, s, w, a, b);
  }
}
