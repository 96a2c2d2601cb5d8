/** Which type a name stands for after a walk without problems, and what the searches by name
    (cmd/plugin-typescript/model.go) therefore find: for every set of types, namesakes and all. */
module StandingTypes {
  import opened Strings
  import opened Sorting
  import opened Payloads
  import opened FieldTags
  import opened Walks
  import opened Exposure
  import opened ExposureWalk
  import opened SecretReach
  import opened ModelNames
  import opened ReadonlyMarks
  import opened ModelSet

  // ----- the type a name stands for

  /** `t` is exposed and leads to every exposed type of its name. */
  ghost predicate Stands(types: Types, roots: seq<Root>, t: TypeId) {
    IsExposed(types, roots, t) && forall u {:trigger Namesake(types, roots, t, u)} ::
      Namesake(types, roots, t, u) ==> Reaches(TypeGraph(types), t, u)
  }

  ghost predicate Namesake(types: Types, roots: seq<Root>, t: TypeId, u: TypeId) {
    IsExposed(types, roots, u) && u.name == t.name
  }

  /** Some field of `t` leads to a type called `n`. */
  ghost predicate LeadsToName(types: Types, t: TypeId, n: string) {
    exists b :: b in Next(TypeGraph(types), t) && b.name == n
  }

  /** A walk from standing type to standing type, each called as a field of the one before. */
  ghost predicate StandingWalk(types: Types, roots: seq<Root>, w: seq<TypeId>) {
    && w != []
    && (forall i :: 0 <= i < |w| ==> Stands(types, roots, w[i]))
    && forall i, j :: 0 <= i < |w| && j == i + 1 < |w| ==> LeadsToName(types, w[i], w[j].name)
  }

  /** `w` leads from the name `n` to `t`. */
  ghost predicate NameLeads(types: Types, roots: seq<Root>, w: seq<TypeId>, n: string, t: TypeId) {
    StandingWalk(types, roots, w) && w[0].name == n && w[|w| - 1] == t
  }

  /** Some root's name leads to `t`. */
  ghost predicate FoundByName(types: Types, roots: seq<Root>, t: TypeId) {
    exists i, w :: 0 <= i < |roots| && NameLeads(types, roots, w, NameOf(roots[i].typ), t)
  }

  /** A secret the search by name comes upon. */
  ghost predicate SecretFoundByName(types: Types, roots: seq<Root>) {
    exists t :: FoundByName(types, roots, t) && HoldsSecret(ModelOf(types, t))
  }

  // ----- it is one type, and the one the model set has

  lemma RoundTrip(g: Graph<TypeId>, t: TypeId, u: TypeId) returns (w: seq<TypeId>)
    requires Reaches(g, t, u) && Reaches(g, u, t) && t != u
    ensures ClosedWalk(g, w) && w[0] == t
  {
    var there :| Leads(g, there, t, u);
    var back :| Leads(g, back, u, t);
    w := there + back[1..];
    assert |there| > 1 && |back| > 1;
    forall i, j | 0 <= i < |w| && j == i + 1 < |w|
      ensures w[j] in Next(g, w[i])
    {
      if j >= |there| {
        assert w[j] == back[j - |there| + 1] && w[i] == back[i - |there| + 1];
      }
    }
  }

  /** No two types stand for one name. */
  lemma StandsAlone(types: Types, roots: seq<Root>, t: TypeId, u: TypeId)
    requires Acyclic(types, roots) && Stands(types, roots, t) && Stands(types, roots, u) && t.name == u.name
    ensures t == u
  {
    assert Namesake(types, roots, t, u) && Namesake(types, roots, u, t);
    if t != u {
      var w := RoundTrip(TypeGraph(types), t, u);
    }
  }

  /** The model a name has is that of the last type finished under it. */
  lemma {:induction false} LastHasModel(types: Types, order: seq<TypeId>, n: string) returns (k: nat)
    requires n in ModelsOf(types, order)
    ensures k < |order| && order[k].name == n && ModelsOf(types, order)[n].typ == order[k]
    ensures forall j :: k < j < |order| ==> order[j].name != n
  {
    var last := |order| - 1;
    if order[last].name == n {
      k := last;
    } else {
      k := LastHasModel(types, order[..last], n);
    }
  }

  /** The model set holds the standing types: which those are does not depend on the order. */
  lemma ModelStands(types: Types, roots: seq<Root>, order: seq<TypeId>, n: string)
    requires Walked(types, roots, order) && n in ModelsOf(types, order)
    ensures var m := ModelsOf(types, order)[n];
            Stands(types, roots, m.typ) && m.typ.name == n && m == ModelOf(types, m.typ)
  {
    ModelsOfKeys(types, order);
    var k := LastHasModel(types, order, n);
    var t := order[k];
    assert t in order;
    forall u | Namesake(types, roots, t, u)
      ensures Reaches(TypeGraph(types), t, u)
    {
      assert u in order;
      var j :| 0 <= j < |order| && order[j] == u;
      if j == k {
        ReachesSelf(TypeGraph(types), t);
      } else {
        assert Reaches(TypeGraph(types), order[k], order[j]);
      }
    }
  }

  lemma StandingModel(types: Types, roots: seq<Root>, order: seq<TypeId>, t: TypeId)
    requires Walked(types, roots, order) && Stands(types, roots, t)
    ensures t.name in ModelsOf(types, order) && ModelsOf(types, order)[t.name] == ModelOf(types, t)
  {
    ModelsOfKeys(types, order);
    assert t in order;
    ModelStands(types, roots, order, t.name);
    WalkedIsAcyclic(types, roots, order);
    StandsAlone(types, roots, t, ModelsOf(types, order)[t.name].typ);
  }

  // ----- searching by name is walking from standing type to standing type

  ghost predicate BelowHas(ds: seq<Described>, n: string) {
    exists b :: b in Below(ds) && b.name == n
  }

  lemma NamesBelowFields(ds: seq<Described>, n: string)
    ensures n in NamesBelow(FieldsIn(ds)) <==> BelowHas(ds, n)
  {
    var fs := FieldsIn(ds);
    if n in NamesBelow(fs) {
      var k :| 0 <= k < |fs| && fs[k].elem.Some? && fs[k].elem.value.name == n;
      assert ds[k].field.elem.value in Below(ds);
    }
    if BelowHas(ds, n) {
      var b :| b in Below(ds) && b.name == n;
      var k :| 0 <= k < |ds| && ds[k].field.elem == Some(b);
      assert fs[k].elem == Some(b);
    }
  }

  lemma NamesBelowModel(types: Types, t: TypeId, n: string)
    ensures n in NamesBelow(ModelOf(types, t).fields) <==> LeadsToName(types, t, n)
  {
    TypeGraphFollowsFields(types);
    var ds := FieldsOfType(types, t);
    NamesBelowFields(ds, n);
    assert Next(TypeGraph(types), t) == Below(ds);
    assert BelowHas(ds, n) <==> LeadsToName(types, t, n);
  }

  function TypesOf(ms: Models, nw: seq<string>): (w: seq<TypeId>)
    requires forall i :: 0 <= i < |nw| ==> nw[i] in ms
    ensures |w| == |nw| && forall i :: 0 <= i < |nw| ==> w[i] == ms[nw[i]].typ
  {
    seq(|nw|, i requires 0 <= i < |nw| => ms[nw[i]].typ)
  }

  lemma NameWalkHasModels(ms: Models, nw: seq<string>)
    requires nw != [] && IsWalk(NameGraph(ms), nw) && nw[|nw| - 1] in ms
    ensures forall i :: 0 <= i < |nw| ==> nw[i] in ms
  {
    forall i | 0 <= i < |nw|
      ensures nw[i] in ms
    {
      assert i + 1 < |nw| ==> nw[i + 1] in Next(NameGraph(ms), nw[i]);
    }
  }

  /** Between names with models, reachability by name is a standing walk. */
  lemma NamesReach(types: Types, roots: seq<Root>, order: seq<TypeId>, n: string, t: TypeId)
    requires Walked(types, roots, order) && Stands(types, roots, t)
    ensures Reaches(NameGraph(ModelsOf(types, order)), n, t.name) <==> exists w :: NameLeads(types, roots, w, n, t)
  {
    var ms := ModelsOf(types, order);
    StandingModel(types, roots, order, t);
    if Reaches(NameGraph(ms), n, t.name) {
      var nw :| Leads(NameGraph(ms), nw, n, t.name);
      var w := NameWalkUp(types, roots, order, nw);
      assert NameLeads(types, roots, w, n, t);
    }
    if w :| NameLeads(types, roots, w, n, t) {
      NameWalkDown(types, roots, order, w);
    }
  }

  lemma NameWalkUp(types: Types, roots: seq<Root>, order: seq<TypeId>, nw: seq<string>) returns (w: seq<TypeId>)
    requires Walked(types, roots, order)
    requires nw != [] && IsWalk(NameGraph(ModelsOf(types, order)), nw) && nw[|nw| - 1] in ModelsOf(types, order)
    ensures StandingWalk(types, roots, w) && w[0].name == nw[0]
    ensures w[|w| - 1] == ModelsOf(types, order)[nw[|nw| - 1]].typ
  {
    var ms := ModelsOf(types, order);
    NameWalkHasModels(ms, nw);
    w := TypesOf(ms, nw);
    forall i | 0 <= i < |w|
      ensures Stands(types, roots, w[i]) && w[i].name == nw[i] && ms[nw[i]] == ModelOf(types, w[i])
    {
      ModelStands(types, roots, order, nw[i]);
    }
    forall i, j | 0 <= i < |w| && j == i + 1 < |w|
      ensures LeadsToName(types, w[i], w[j].name)
    {
      assert nw[j] in Next(NameGraph(ms), nw[i]);
      NamesBelowModel(types, w[i], nw[j]);
    }
  }

  lemma NameWalkDown(types: Types, roots: seq<Root>, order: seq<TypeId>, w: seq<TypeId>)
    requires Walked(types, roots, order) && StandingWalk(types, roots, w)
    ensures Reaches(NameGraph(ModelsOf(types, order)), w[0].name, w[|w| - 1].name)
  {
    var ms := ModelsOf(types, order);
    var nw := seq(|w|, i requires 0 <= i < |w| => w[i].name);
    forall i, j | 0 <= i < |nw| && j == i + 1 < |nw|
      ensures nw[j] in Next(NameGraph(ms), nw[i])
    {
      StandingModel(types, roots, order, w[i]);
      NamesBelowModel(types, w[i], w[j].name);
    }
    assert Leads(NameGraph(ms), nw, w[0].name, w[|w| - 1].name);
  }

  /** A root's name leaks just when it leads to a standing type with a secret. */
  lemma RootLeak(types: Types, roots: seq<Root>, order: seq<TypeId>)
    requires Walked(types, roots, order)
    ensures (exists i :: 0 <= i < |roots| && Leaks(ModelsOf(types, order), NameOf(roots[i].typ))) <==> SecretFoundByName(types, roots)
  {
    var ms := ModelsOf(types, order);
    if i :| 0 <= i < |roots| && Leaks(ms, NameOf(roots[i].typ)) {
      var n := LeakEnds(ms, NameOf(roots[i].typ));
      ModelStands(types, roots, order, n);
      var t := ms[n].typ;
      NamesReach(types, roots, order, NameOf(roots[i].typ), t);
      var w :| NameLeads(types, roots, w, NameOf(roots[i].typ), t);
      assert FoundByName(types, roots, t);
    }
    if SecretFoundByName(types, roots) {
      var t :| FoundByName(types, roots, t) && HoldsSecret(ModelOf(types, t));
      var i, w :| 0 <= i < |roots| && NameLeads(types, roots, w, NameOf(roots[i].typ), t);
      StandingModel(types, roots, order, t);
      NamesReach(types, roots, order, NameOf(roots[i].typ), t);
      assert Leaks(ms, NameOf(roots[i].typ));
    }
  }

  // ----- what a build comes to, namesakes and all

  /** A build succeeds exactly when the declarations are in order and no root's name leads, by
      standing types, to a secret. */
  lemma BuiltExactly(types: Types, roots: seq<Root>, r: BuildResult)
    requires IsBuild(types, roots, r)
    ensures r.Built? <==> InOrder(types, roots) && !SecretFoundByName(types, roots)
  {
    var order: seq<TypeId> :| BuildSpec(types, roots, r, order);
    if InOrder(types, roots) {
      RootLeak(types, roots, order);
      if r.Failed? {
        var p := FailedReport(types, roots, r, order);
        ReportedLeak(ModelsOf(types, order), roots, p);
      }
    }
  }

  /** The walk reports something exactly when the declarations are out of order. */
  lemma WalkFailsExactly(types: Types, roots: seq<Root>, r: BuildResult)
    requires IsBuild(types, roots, r)
    ensures r.Failed? && WalkProblem(r.problems) <==> !InOrder(types, roots)
  {
    var order: seq<TypeId> :| BuildSpec(types, roots, r, order);
  }

  /** A reachable secret is missed exactly when the declarations are in order and every exposed
      type that holds one is led to by no root's name: it stands behind a namesake, or everything
      that leads to it does. */
  lemma SecretMissedExactly(types: Types, roots: seq<Root>, r: BuildResult)
    requires IsBuild(types, roots, r)
    ensures r.Built? && SecretExposed(types, roots) <==>
            && InOrder(types, roots) && SecretExposed(types, roots)
            && forall t :: IsExposed(types, roots, t) && HoldsSecret(ModelOf(types, t)) ==> !FoundByName(types, roots, t)
  {
    BuiltExactly(types, roots, r);
    forall t | FoundByName(types, roots, t)
      ensures IsExposed(types, roots, t)
    {
      var i, w :| 0 <= i < |roots| && NameLeads(types, roots, w, NameOf(roots[i].typ), t);
    }
  }

  /** So a build succeeds over any secrets that all stand behind a namesake. */
  lemma HiddenSecretsPass(types: Types, roots: seq<Root>, r: BuildResult)
    requires IsBuild(types, roots, r) && InOrder(types, roots)
    requires forall t :: IsExposed(types, roots, t) && HoldsSecret(ModelOf(types, t)) ==> !Stands(types, roots, t)
    ensures r.Built?
  {
    BuiltExactly(types, roots, r);
    forall t | FoundByName(types, roots, t)
      ensures Stands(types, roots, t) && IsExposed(types, roots, t)
    {
      var i, w :| 0 <= i < |roots| && NameLeads(types, roots, w, NameOf(roots[i].typ), t);
    }
  }

  /** Every type of a successful build has its name listed, and union drops a name of it just
      when some standing type holds a secret. */
  lemma UnionDrops(types: Types, roots: seq<Root>, r: BuildResult)
    requires IsBuild(types, roots, r) && r.Built?
    ensures forall n :: n in r.names <==> exists t :: IsExposed(types, roots, t) && t.name == n
    ensures (exists k :: 0 <= k < |r.names| && Leaks(r.byName, r.names[k])) <==>
            exists t :: Stands(types, roots, t) && HoldsSecret(ModelOf(types, t))
  {
    var order: seq<TypeId> :| BuildSpec(types, roots, r, order);
    NamesOfBuild(types, roots, r, order);
    if k :| 0 <= k < |r.names| && Leaks(r.byName, r.names[k]) {
      var n := LeakEnds(r.byName, r.names[k]);
      ModelStands(types, roots, order, n);
    }
    if t :| Stands(types, roots, t) && HoldsSecret(ModelOf(types, t)) {
      StandingModel(types, roots, order, t);
      ReachesSelf(NameGraph(r.byName), t.name);
      assert Leaks(r.byName, t.name) && t.name in r.names;
    }
  }

  /** Readonly are exactly the standing types that a readonly root's name leads to. */
  lemma ReadonlyExactly(types: Types, roots: seq<Root>, r: BuildResult, t: TypeId)
    requires IsBuild(types, roots, r) && r.Built? && Stands(types, roots, t)
    ensures t.name in r.readonly <==>
            exists i, w :: 0 <= i < |roots| && roots[i].readonly && NameLeads(types, roots, w, NameOf(roots[i].typ), t)
  {
    var order: seq<TypeId> :| BuildSpec(types, roots, r, order);
    StandingModel(types, roots, order, t);
    if FromReadonlyRoot(r.byName, roots, t.name) {
      var i :| 0 <= i < |roots| && roots[i].readonly && Reaches(NameGraph(r.byName), NameOf(roots[i].typ), t.name);
      NamesReach(types, roots, order, NameOf(roots[i].typ), t);
    }
    if i, w :| 0 <= i < |roots| && roots[i].readonly && NameLeads(types, roots, w, NameOf(roots[i].typ), t) {
      NamesReach(types, roots, order, NameOf(roots[i].typ), t);
    }
  }

  // ----- a build is determined by its declarations

  lemma {:induction false} OnceCounts(order: seq<TypeId>, t: TypeId)
    requires Once(order)
    ensures multiset(order)[t] == if t in order then 1 else 0
  {
    if order != [] {
      var n := |order| - 1;
      assert order == order[..n] + [order[n]];
      OnceCounts(order[..n], t);
    }
  }

  lemma OncePermuted(a: seq<TypeId>, b: seq<TypeId>)
    requires Once(a) && Once(b) && forall t :: t in a <==> t in b
    ensures multiset(a) == multiset(b)
  {
    forall t
      ensures multiset(a)[t] == multiset(b)[t]
    {
      OnceCounts(a, t);
      OnceCounts(b, t);
    }
  }

  lemma {:induction false} NamesOfConcat(a: seq<TypeId>, b: seq<TypeId>)
    ensures NamesOf(a + b) == NamesOf(a) + NamesOf(b)
  {
    if b == [] {
      assert a + b == a;
    } else {
      var n := |b| - 1;
      assert (a + b)[..|a + b| - 1] == a + b[..n];
      NamesOfConcat(a, b[..n]);
    }
  }

  lemma {:induction false} NamesOfAround(b: seq<TypeId>, k: nat)
    requires k < |b|
    ensures multiset(NamesOf(b)) == multiset(NamesOf(b[..k] + b[k + 1..])) + multiset{b[k].name}
    ensures multiset(b) == multiset(b[..k] + b[k + 1..]) + multiset{b[k]}
  {
    SplitAround(b, k);
    NamesOfThree(b[..k], b[k], b[k + 1..]);
  }

  lemma {:induction false} SplitAround(b: seq<TypeId>, k: nat)
    requires k < |b|
    ensures b == b[..k] + ([b[k]] + b[k + 1..])
    ensures multiset(b) == multiset(b[..k] + b[k + 1..]) + multiset{b[k]}
  {
    assert b == b[..k] + ([b[k]] + b[k + 1..]);
  }

  lemma {:induction false} NamesOfThree(x: seq<TypeId>, t: TypeId, y: seq<TypeId>)
    ensures multiset(NamesOf(x + ([t] + y))) == multiset(NamesOf(x + y)) + multiset{t.name}
  {
    NamesOfConcat(x, [t] + y);
    NamesOfConcat([t], y);
    NamesOfConcat(x, y);
    assert [t][..0] == [];
    assert NamesOf([t]) == [t.name];
  }

  lemma {:induction false} NamesOfPermuted(a: seq<TypeId>, b: seq<TypeId>)
    requires multiset(a) == multiset(b)
    ensures multiset(NamesOf(a)) == multiset(NamesOf(b))
    decreases |a|
  {
    assert |multiset(a)| == |a| && |multiset(b)| == |b|;
    if a != [] {
      var n := |a| - 1;
      var k := FindIn(a[n], a, b);
      LastAndOther(a, b, k);
      NamesOfAround(b, k);
      NamesOfPermuted(a[..n], b[..k] + b[k + 1..]);
    }
  }

  lemma {:induction false} FindIn(t: TypeId, a: seq<TypeId>, b: seq<TypeId>) returns (k: nat)
    requires multiset(a) == multiset(b) && t in a
    ensures k < |b| && b[k] == t
  {
    InMultiset(a, b);
    k :| 0 <= k < |b| && b[k] == t;
  }

  lemma {:induction false} LastAndOther(a: seq<TypeId>, b: seq<TypeId>, k: nat)
    requires multiset(a) == multiset(b) && a != [] && k < |b| && b[k] == a[|a| - 1]
    ensures multiset(a[..|a| - 1]) == multiset(b[..k] + b[k + 1..])
  {
    var n := |a| - 1;
    SplitAround(b, k);
    assert a == a[..n] + [a[n]];
    assert multiset(a[..n]) == multiset(a) - multiset{a[n]};
  }

  lemma SameModels(types: Types, roots: seq<Root>, a: seq<TypeId>, b: seq<TypeId>)
    requires Walked(types, roots, a) && Walked(types, roots, b)
    ensures ModelsOf(types, a) == ModelsOf(types, b)
  {
    forall n | n in ModelsOf(types, a) || n in ModelsOf(types, b)
      ensures n in ModelsOf(types, a) && n in ModelsOf(types, b) && ModelsOf(types, a)[n] == ModelsOf(types, b)[n]
    {
      SameModel(types, roots, a, b, n);
    }
  }

  lemma SameModel(types: Types, roots: seq<Root>, a: seq<TypeId>, b: seq<TypeId>, n: string)
    requires Walked(types, roots, a) && Walked(types, roots, b)
    requires n in ModelsOf(types, a) || n in ModelsOf(types, b)
    ensures n in ModelsOf(types, a) && n in ModelsOf(types, b) && ModelsOf(types, a)[n] == ModelsOf(types, b)[n]
  {
    if n in ModelsOf(types, a) {
      ModelStands(types, roots, a, n);
      StandingModel(types, roots, b, ModelsOf(types, a)[n].typ);
    } else {
      ModelStands(types, roots, b, n);
      StandingModel(types, roots, a, ModelsOf(types, b)[n].typ);
    }
  }

  /** Two successful builds of the same declarations are the same. */
  lemma BuiltAlike(types: Types, roots: seq<Root>, r: BuildResult, q: BuildResult)
    requires IsBuild(types, roots, r) && IsBuild(types, roots, q) && r.Built? && q.Built?
    ensures r == q
  {
    var a: seq<TypeId> :| BuildSpec(types, roots, r, a);
    var b: seq<TypeId> :| BuildSpec(types, roots, q, b);
    SameModels(types, roots, a, b);
    SameNames(types, roots, a, b);
    SameReadonly(r.byName, roots, r.readonly, q.readonly);
  }

  lemma SameNames(types: Types, roots: seq<Root>, a: seq<TypeId>, b: seq<TypeId>)
    requires Walked(types, roots, a) && Walked(types, roots, b)
    ensures Sort(NamesOf(a)) == Sort(NamesOf(b))
  {
    forall t
      ensures t in a <==> t in b
    {
      assert IsExposed(types, roots, t) <==> t in a;
    }
    OncePermuted(a, b);
    NamesOfPermuted(a, b);
    SortForgets(NamesOf(a), NamesOf(b));
  }

  lemma SameReadonly(ms: Models, roots: seq<Root>, a: set<string>, b: set<string>)
    requires forall n :: n in a <==> FromReadonlyRoot(ms, roots, n)
    requires forall n :: n in b <==> FromReadonlyRoot(ms, roots, n)
    ensures a == b
  {
  }
}
