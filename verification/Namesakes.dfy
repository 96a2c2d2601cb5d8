/** Declarations over which buildModels (cmd/plugin-typescript/model.go) misses a secret: a type
    leads to a different type of its own name and takes that type's place in the model set. */
module Namesakes {
  import opened Strings
  import opened Payloads
  import opened FieldTags
  import opened Walks
  import opened FirstWalks
  import opened Exposure
  import opened ExposureWalk
  import opened SecretReach
  import opened ModelSet
  import opened StandingTypes

  /** One root with a single public field, which leads to its namesake with a secret. Types of
      one name are found in two packages, in two functions, and wherever an anonymous struct
      has another inside it: the name of both is empty then. */
  ghost predicate NamesakeUnder(types: Types, roots: seq<Root>, a: TypeId, b: TypeId) {
    && a != b && a.name == b.name
    && |roots| == 1 && roots[0].typ == Struct(a)
    && OnlyField(types, a) && PublicTo(FieldsOfType(types, a)[0], b)
    && OnlyField(types, b) && Secret(FieldsOfType(types, b)[0])
  }

  predicate OnlyField(types: Types, t: TypeId) {
    |FieldsOfType(types, t)| == 1
  }

  predicate PublicTo(d: Described, b: TypeId) {
    d.field.class_ != CLASS_SECRET && d.field.elem == Some(b) && d.faults == []
  }

  predicate Secret(d: Described) {
    d.field.class_ == CLASS_SECRET && d.field.elem == None && d.faults == []
  }

  lemma {:induction false} OneBelow(types: Types, t: TypeId)
    requires OnlyField(types, t)
    ensures Next(TypeGraph(types), t) ==
            if FieldsOfType(types, t)[0].field.elem.Some? then [FieldsOfType(types, t)[0].field.elem.value] else []
  {
    TypeGraphFollowsFields(types);
    var ds := FieldsOfType(types, t);
    assert Next(TypeGraph(types), t) == Below(ds) && ds[1..] == [];
  }

  lemma {:induction false} OneRootType(roots: seq<Root>, r: TypeId)
    requires |roots| == 1 && roots[0].typ == Struct(r)
    ensures RootTypes(roots) == {r} && RootList(roots) == [r]
  {
    assert Deref(roots[0].typ) == Struct(r) && roots[1..] == [];
  }

  lemma OneRoot(types: Types, roots: seq<Root>, r: TypeId, t: TypeId)
    requires RootTypes(roots) == {r}
    ensures IsExposed(types, roots, t) <==> Reaches(TypeGraph(types), r, t)
  {
    assert r in RootTypes(roots);
  }

  lemma {:induction false} Edges(types: Types, roots: seq<Root>, a: TypeId, b: TypeId)
    requires NamesakeUnder(types, roots, a, b)
    ensures Next(TypeGraph(types), a) == [b] && Next(TypeGraph(types), b) == []
    ensures RootTypes(roots) == {a}
  {
    OneBelow(types, a);
    OneBelow(types, b);
    OneRootType(roots, a);
  }

  lemma PairReaches(g: Graph<TypeId>, a: TypeId, b: TypeId, t: TypeId)
    requires Next(g, a) == [b] && Next(g, b) == []
    ensures Reaches(g, a, t) <==> t == a || t == b
  {
    ReachesSelf(g, a);
    ReachesOn(g, a, a, b);
    if w :| Leads(g, w, a, t) {
      ClosedKeeps(g, {a, b}, w, a, t);
    }
  }

  lemma ExposedTypes(types: Types, roots: seq<Root>, a: TypeId, b: TypeId)
    requires NamesakeUnder(types, roots, a, b)
    ensures forall t :: IsExposed(types, roots, t) <==> t == a || t == b
  {
    Edges(types, roots, a, b);
    forall t
      ensures IsExposed(types, roots, t) <==> t == a || t == b
    {
      PairReaches(TypeGraph(types), a, b, t);
      OneRoot(types, roots, a, t);
    }
  }

  /** Every walk to the inner type goes through the outer one. */
  lemma OnlyHidden(types: Types, roots: seq<Root>, a: TypeId, b: TypeId)
    requires NamesakeUnder(types, roots, a, b)
    ensures NamesakesHidden(types, roots)
  {
    ExposedTypes(types, roots, a, b);
    Edges(types, roots, a, b);
    assert Hides(types, roots, a, b);
  }

  lemma PairFinished(g: Graph<TypeId>, a: TypeId, b: TypeId)
    requires Next(g, a) == [b] && Next(g, b) == []
    ensures Finished(g, [b, a])
  {
    assert [b, a][..0] == [] && [b, a][..1] == [b];
  }

  lemma FinishedAcyclic(types: Types, roots: seq<Root>, order: seq<TypeId>)
    requires Finished(TypeGraph(types), order) && forall t :: IsExposed(types, roots, t) ==> t in order
    ensures Acyclic(types, roots)
  {
    forall w | ClosedWalk(TypeGraph(types), w)
      ensures !IsExposed(types, roots, w[0])
    {
      if w[0] in order {
        NoCycleThrough(TypeGraph(types), order, w);
      }
    }
  }

  lemma OneFaultless(ds: seq<Described>)
    requires |ds| == 1 && ds[0].faults == []
    ensures Faultless(ds)
  {
  }

  lemma NothingWrong(types: Types, roots: seq<Root>, a: TypeId, b: TypeId)
    requires NamesakeUnder(types, roots, a, b)
    ensures Acyclic(types, roots) && FaultFree(types, roots)
  {
    ExposedTypes(types, roots, a, b);
    Edges(types, roots, a, b);
    PairFinished(TypeGraph(types), a, b);
    FinishedAcyclic(types, roots, [b, a]);
    OneFaultless(FieldsOfType(types, a));
    OneFaultless(FieldsOfType(types, b));
  }

  /** The inner type does not stand: it does not lead back to the outer one. */
  lemma InnerIsHidden(types: Types, roots: seq<Root>, a: TypeId, b: TypeId)
    requires NamesakeUnder(types, roots, a, b)
    ensures !Stands(types, roots, b)
  {
    ExposedTypes(types, roots, a, b);
    Edges(types, roots, a, b);
    assert IsExposed(types, roots, a) && Namesake(types, roots, b, a);
    if Reaches(TypeGraph(types), b, a) {
      var w :| Leads(TypeGraph(types), w, b, a);
      ClosedKeeps(TypeGraph(types), {b}, w, b, a);
    }
  }

  lemma OnlyInnerHolds(types: Types, t: TypeId)
    requires OnlyField(types, t)
    ensures HoldsSecret(ModelOf(types, t)) <==> FieldsOfType(types, t)[0].field.class_ == CLASS_SECRET
  {
    assert ModelOf(types, t).fields[0] == FieldsOfType(types, t)[0].field;
  }

  lemma OnlyHiddenSecrets(types: Types, roots: seq<Root>, a: TypeId, b: TypeId)
    requires NamesakeUnder(types, roots, a, b)
    ensures forall t :: IsExposed(types, roots, t) && HoldsSecret(ModelOf(types, t)) ==> !Stands(types, roots, t)
    ensures SecretExposed(types, roots)
  {
    ExposedTypes(types, roots, a, b);
    InnerIsHidden(types, roots, a, b);
    OnlyInnerHolds(types, a);
    OnlyInnerHolds(types, b);
    assert IsExposed(types, roots, b);
  }

  /** The build succeeds, although a secret is reachable from the root. */
  lemma NamesakeHidesSecret(types: Types, roots: seq<Root>, a: TypeId, b: TypeId, result: BuildResult)
    requires NamesakeUnder(types, roots, a, b) && IsBuild(types, roots, result)
    ensures result.Built? && SecretExposed(types, roots)
  {
    NothingWrong(types, roots, a, b);
    OnlyHidden(types, roots, a, b);
    HiddenIsNested(types, roots);
    OnlyHiddenSecrets(types, roots, a, b);
    HiddenSecretsPass(types, roots, result);
  }

  // ----- the order of two fields decides

  /** One root with two public fields, to `x` and then to `y`: these are `a`, which leads to its
      namesake `b`, and `b`, which has a secret. */
  ghost predicate TwoFields(types: Types, roots: seq<Root>, r: TypeId, a: TypeId, b: TypeId, x: TypeId, y: TypeId) {
    && a != b && a.name == b.name && r.name != a.name && (x == a || x == b) && (y == a || y == b) && x != y
    && |roots| == 1 && roots[0].typ == Struct(r)
    && |FieldsOfType(types, r)| == 2 && PublicTo(FieldsOfType(types, r)[0], x) && PublicTo(FieldsOfType(types, r)[1], y)
    && OnlyField(types, a) && PublicTo(FieldsOfType(types, a)[0], b)
    && OnlyField(types, b) && Secret(FieldsOfType(types, b)[0])
  }

  lemma {:induction false} TwoBelow(types: Types, t: TypeId, ds: seq<Described>, x: TypeId, y: TypeId)
    requires ds == FieldsOfType(types, t) && |ds| == 2 && ds[0].field.elem == Some(x) && ds[1].field.elem == Some(y)
    ensures Next(TypeGraph(types), t) == [x, y]
  {
    TypeGraphFollowsFields(types);
    BelowTwo(ds, x, y);
  }

  lemma {:induction false} BelowTwo(ds: seq<Described>, x: TypeId, y: TypeId)
    requires |ds| == 2 && ds[0].field.elem == Some(x) && ds[1].field.elem == Some(y)
    ensures Below(ds) == [x, y]
  {
    var rest := ds[1..];
    assert rest[1..] == [];
    assert Below(rest) == [y];
  }

  lemma {:induction false} TwoEdges(types: Types, roots: seq<Root>, r: TypeId, a: TypeId, b: TypeId, x: TypeId, y: TypeId)
    requires TwoFields(types, roots, r, a, b, x, y)
    ensures Next(TypeGraph(types), r) == [x, y] && Next(TypeGraph(types), a) == [b] && Next(TypeGraph(types), b) == []
    ensures RootTypes(roots) == {r} && RootList(roots) == [r]
  {
    TwoBelow(types, r, FieldsOfType(types, r), x, y);
    OneBelow(types, a);
    OneBelow(types, b);
    OneRootType(roots, r);
  }

  /** The graph of such declarations. */
  predicate Triangle(g: Graph<TypeId>, r: TypeId, a: TypeId, b: TypeId, x: TypeId, y: TypeId) {
    Next(g, r) == [x, y] && Next(g, a) == [b] && Next(g, b) == [] && a != b && r != a && r != b && (x == a || x == b) && (y == a || y == b)
  }

  lemma TriangleReaches(g: Graph<TypeId>, r: TypeId, a: TypeId, b: TypeId, x: TypeId, y: TypeId, t: TypeId)
    requires Triangle(g, r, a, b, x, y) && x != y
    ensures Reaches(g, r, t) <==> t == r || t == a || t == b
  {
    ReachesSelf(g, r);
    ReachesOn(g, r, r, x);
    ReachesOn(g, r, r, y);
    if w :| Leads(g, w, r, t) {
      ClosedKeeps(g, {r, a, b}, w, r, t);
    }
  }

  lemma TriangleFinished(g: Graph<TypeId>, r: TypeId, a: TypeId, b: TypeId, x: TypeId, y: TypeId)
    requires Triangle(g, r, a, b, x, y)
    ensures Finished(g, [b, a, r])
  {
    var order := [b, a, r];
    assert order[..0] == [] && order[..1] == [b] && order[..2] == [b, a];
  }

  lemma InnerIsLast(g: Graph<TypeId>, a: TypeId, b: TypeId)
    requires Next(g, b) == [] && a != b
    ensures !Reaches(g, b, a)
  {
    if x :| Leads(g, x, b, a) {
      ClosedKeeps(g, {b}, x, b, a);
    }
  }

  /** The walk below the first field passes nothing by. */
  lemma FirstFieldFirst(g: Graph<TypeId>, r: TypeId, x: TypeId, y: TypeId)
    requires Next(g, r) == [x, y]
    ensures FirstTo(g, [r], [r, x], x)
  {
    assert Offer(g, [r], [r, x], 0) == [r] && Offer(g, [r], [r, x], 1) == [x, y];
    assert Ahead([r], r) == [] && Ahead([x, y], x) == [];
    assert forall k, c :: 0 <= k < 2 ==> !Passed(g, [r], [r, x], k, c);
  }

  lemma SecondFieldFirst(g: Graph<TypeId>, r: TypeId, x: TypeId, y: TypeId)
    requires Next(g, r) == [x, y] && x != y && !Reaches(g, x, y)
    ensures FirstTo(g, [r], [r, y], y)
  {
    var w := [r, y];
    assert Offer(g, [r], w, 0) == [r] && Offer(g, [r], w, 1) == [x, y];
    assert [x, y][1..] == [y] && Ahead([y], y) == [];
    assert Ahead([r], r) == [] && Ahead([x, y], y) == [x] + Ahead([y], y);
  }

  lemma ThroughFirstField(g: Graph<TypeId>, r: TypeId, a: TypeId, b: TypeId)
    requires Next(g, r) == [a, b] && Next(g, a) == [b]
    ensures FirstTo(g, [r], [r, a, b], b)
  {
    var w := [r, a, b];
    assert Offer(g, [r], w, 0) == [r] && Offer(g, [r], w, 1) == [a, b] && Offer(g, [r], w, 2) == [b];
    assert Ahead([r], r) == [] && Ahead([a, b], a) == [] && Ahead([b], b) == [];
    assert forall k, c :: 0 <= k < 3 ==> !Passed(g, [r], w, k, c);
  }

  lemma TriangleOuterFirst(g: Graph<TypeId>, r: TypeId, a: TypeId, b: TypeId)
    requires Triangle(g, r, a, b, a, b)
    ensures OnFirstWalk(g, [r], a, b)
  {
    ThroughFirstField(g, r, a, b);
    assert a in [r, a, b];
  }

  lemma TriangleInnerFirst(g: Graph<TypeId>, r: TypeId, a: TypeId, b: TypeId)
    requires Triangle(g, r, a, b, b, a)
    ensures Divided(g, [r], a, b)
  {
    InnerIsLast(g, a, b);
    FirstFieldFirst(g, r, b, a);
    SecondFieldFirst(g, r, b, a);
    assert b !in [r, a] && a !in [r, b];
  }

  lemma TwoIsTriangle(types: Types, roots: seq<Root>, r: TypeId, a: TypeId, b: TypeId, x: TypeId, y: TypeId)
    requires TwoFields(types, roots, r, a, b, x, y)
    ensures Triangle(TypeGraph(types), r, a, b, x, y)
  {
    TwoEdges(types, roots, r, a, b, x, y);
  }

  lemma TwoExposed(types: Types, roots: seq<Root>, r: TypeId, a: TypeId, b: TypeId, x: TypeId, y: TypeId)
    requires TwoFields(types, roots, r, a, b, x, y)
    ensures forall t :: IsExposed(types, roots, t) <==> t == r || t == a || t == b
  {
    TwoEdges(types, roots, r, a, b, x, y);
    TwoIsTriangle(types, roots, r, a, b, x, y);
    forall t
      ensures IsExposed(types, roots, t) <==> t == r || t == a || t == b
    {
      TriangleReaches(TypeGraph(types), r, a, b, x, y, t);
      OneRoot(types, roots, r, t);
    }
  }

  lemma TwoFaultless(ds: seq<Described>)
    requires |ds| == 2 && ds[0].faults == [] && ds[1].faults == []
    ensures Faultless(ds)
  {
  }

  lemma ThreeFaultless(types: Types, roots: seq<Root>, r: TypeId, a: TypeId, b: TypeId)
    requires forall t :: IsExposed(types, roots, t) ==> t == r || t == a || t == b
    requires Faultless(FieldsOfType(types, r)) && Faultless(FieldsOfType(types, a)) && Faultless(FieldsOfType(types, b))
    ensures FaultFree(types, roots)
  {
  }

  lemma TwoInOrder(types: Types, roots: seq<Root>, r: TypeId, a: TypeId, b: TypeId, x: TypeId, y: TypeId)
    requires TwoFields(types, roots, r, a, b, x, y)
    ensures Acyclic(types, roots) && FaultFree(types, roots)
  {
    TwoExposed(types, roots, r, a, b, x, y);
    TwoIsTriangle(types, roots, r, a, b, x, y);
    TriangleFinished(TypeGraph(types), r, a, b, x, y);
    FinishedAcyclic(types, roots, [b, a, r]);
    TwoFaultless(FieldsOfType(types, r));
    OneFaultless(FieldsOfType(types, a));
    OneFaultless(FieldsOfType(types, b));
    ThreeFaultless(types, roots, r, a, b);
  }

  lemma OnlyLastStandsNot(types: Types, roots: seq<Root>, a: TypeId, b: TypeId)
    requires IsExposed(types, roots, a) && a.name == b.name && !Reaches(TypeGraph(types), b, a)
    ensures !Stands(types, roots, b)
  {
    assert Namesake(types, roots, b, a);
  }

  lemma TwoPublic(ds: seq<Described>, x: TypeId, y: TypeId, m: Model)
    requires |ds| == 2 && PublicTo(ds[0], x) && PublicTo(ds[1], y) && m.fields == FieldsIn(ds)
    ensures !HoldsSecret(m)
  {
    assert m.fields[0] == ds[0].field && m.fields[1] == ds[1].field;
  }

  lemma TwoSecrets(types: Types, roots: seq<Root>, r: TypeId, a: TypeId, b: TypeId, x: TypeId, y: TypeId)
    requires TwoFields(types, roots, r, a, b, x, y)
    ensures HoldsSecret(ModelOf(types, b)) && !HoldsSecret(ModelOf(types, a)) && !HoldsSecret(ModelOf(types, r))
  {
    OnlyInnerHolds(types, a);
    OnlyInnerHolds(types, b);
    TwoPublic(FieldsOfType(types, r), x, y, ModelOf(types, r));
  }

  /** What the two orders have in common: the one secret is exposed and stands behind `a`. */
  lemma TwoHidden(types: Types, roots: seq<Root>, r: TypeId, a: TypeId, b: TypeId, x: TypeId, y: TypeId)
    requires TwoFields(types, roots, r, a, b, x, y)
    ensures SecretExposed(types, roots)
    ensures forall t :: IsExposed(types, roots, t) && HoldsSecret(ModelOf(types, t)) ==> !Stands(types, roots, t)
  {
    TwoExposed(types, roots, r, a, b, x, y);
    TwoSecrets(types, roots, r, a, b, x, y);
    TwoIsTriangle(types, roots, r, a, b, x, y);
    InnerIsLast(TypeGraph(types), a, b);
    OnlyLastStandsNot(types, roots, a, b);
    assert IsExposed(types, roots, b);
  }

  lemma OnePairNested(types: Types, roots: seq<Root>, r: TypeId, a: TypeId, b: TypeId)
    requires RootList(roots) == [r] && r.name != a.name && a.name == b.name
    requires forall t :: IsExposed(types, roots, t) <==> t == r || t == a || t == b
    ensures OnFirstWalk(TypeGraph(types), [r], a, b) ==> Nested(types, roots)
    ensures a != b && Nested(types, roots) ==> OnFirstWalk(TypeGraph(types), [r], a, b) || OnFirstWalk(TypeGraph(types), [r], b, a)
  {
    if a != b && Nested(types, roots) {
      assert IsExposed(types, roots, a) && IsExposed(types, roots, b);
      assert NestedPair(TypeGraph(types), RootList(roots), a, b);
    }
  }

  /** With the outer type first, both are met on the way into it: the build succeeds, and the
      secret is missed. */
  lemma OuterFieldFirst(types: Types, roots: seq<Root>, r: TypeId, a: TypeId, b: TypeId, result: BuildResult)
    requires TwoFields(types, roots, r, a, b, a, b) && IsBuild(types, roots, result)
    ensures result.Built? && SecretExposed(types, roots)
  {
    TwoEdges(types, roots, r, a, b, a, b);
    TwoInOrder(types, roots, r, a, b, a, b);
    TwoExposed(types, roots, r, a, b, a, b);
    TwoIsTriangle(types, roots, r, a, b, a, b);
    TriangleOuterFirst(TypeGraph(types), r, a, b);
    OnePairNested(types, roots, r, a, b);
    TwoHidden(types, roots, r, a, b, a, b);
    HiddenSecretsPass(types, roots, result);
  }

  /** With the inner type first, it is finished when the outer one is met: the shared name is
      reported. */
  lemma InnerFieldFirst(types: Types, roots: seq<Root>, r: TypeId, a: TypeId, b: TypeId, result: BuildResult)
    requires TwoFields(types, roots, r, a, b, b, a) && IsBuild(types, roots, result)
    ensures result.Failed? && WalkProblem(result.problems)
  {
    TwoEdges(types, roots, r, a, b, b, a);
    TwoInOrder(types, roots, r, a, b, b, a);
    TwoExposed(types, roots, r, a, b, b, a);
    TwoIsTriangle(types, roots, r, a, b, b, a);
    TriangleInnerFirst(TypeGraph(types), r, a, b);
    AcyclicIsNoCycle(types, roots);
    DividedAreApart(TypeGraph(types), [r], a, b);
    OnePairNested(types, roots, r, a, b);
    WalkFailsExactly(types, roots, result);
  }

  // ----- declarations of this kind

  /** A field without a JSON tag goes by its own name. */
  lemma Untagged(f: StructField)
    requires f.exported && f.json == "" && ClassFaults(TrimSpace(f.bd)) == []
    requires WireKind(f.typ, false).Wire?
    ensures |Visible([f])| == 1 && Visible([f])[0].faults == []
    ensures Visible([f])[0].field.class_ == TrimSpace(f.bd) && Visible([f])[0].field.elem == StructBelow(f.typ)
  {
    assert [f][1..] == [];
  }

  /** Any two struct types of one name can be declared so. */
  lemma SuchTypesExist(types: Types, a: TypeId, b: TypeId, f: StructField, g: StructField)
    requires a != b && a.name == b.name && b != TIME
    requires f.exported && f.json == "" && TrimSpace(f.bd) == CLASS_PUBLIC && f.typ == Struct(b)
    requires g.exported && g.json == "" && TrimSpace(g.bd) == CLASS_SECRET && g.typ.Scalar? && WireKind(g.typ, false).Wire?
    requires types == map[a := [f], b := [g]]
    ensures NamesakeUnder(types, [Root(Struct(a), false)], a, b)
  {
    Untagged(f);
    Untagged(g);
    assert CLASS_PUBLIC[0] != CLASS_SECRET[0];
  }
}
