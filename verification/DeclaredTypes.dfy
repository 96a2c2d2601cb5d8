/** The graph, the secrets and the faults that buildModels works on, read off the declared
    fields: their tags as text and their types as they are spelled. */
module DeclaredTypes {
  import opened Strings
  import opened Payloads
  import opened FieldTags
  import opened FieldTagLaws
  import opened Walks
  import opened Exposure
  import opened SecretReach
  import opened ModelSet

  /** Field `k` is a declared field of `t`. */
  predicate Declares(types: Types, t: TypeId, k: nat) {
    t in types && k < |types[t]|
  }

  /** A declared field of `t` leads to `u`. */
  ghost predicate DeclaredEdge(types: Types, t: TypeId, u: TypeId) {
    exists k: nat :: Declares(types, t, k) && FieldLeadsTo(types[t][k], u)
  }

  /** A field that is labelled secret, whatever its type. */
  ghost predicate SecretField(f: StructField) {
    InJson(f) && TrimSpace(f.bd) == "secret"
  }

  ghost predicate DeclaresSecret(types: Types, t: TypeId) {
    exists k: nat :: Declares(types, t, k) && SecretField(types[t][k])
  }

  /** A field with a known class, whose type crosses. */
  ghost predicate SoundField(f: StructField) {
    InJson(f) ==> KnownClass(TrimSpace(f.bd)) && exists w :: Crosses(f.typ, TagHas(f.json, "string"), w)
  }

  ghost predicate SoundType(types: Types, t: TypeId) {
    forall k: nat :: Declares(types, t, k) ==> SoundField(types[t][k])
  }

  // ----- the described fields are the declared ones

  lemma {:induction false} VisibleConcat(a: seq<StructField>, b: seq<StructField>)
    ensures Visible(a + b) == Visible(a) + Visible(b)
  {
    if a == [] {
      assert a + b == b;
    } else {
      assert (a + b)[1..] == a[1..] + b;
      VisibleConcat(a[1..], b);
    }
  }

  /** One field of a struct contributes its description, or nothing when it is not in JSON. */
  lemma VisibleOne(f: StructField)
    ensures Visible([f]) == if Describe(f).Some? then [Describe(f).value] else []
    ensures Describe(f).Some? <==> InJson(f)
  {
    InJsonExactly(f);
    assert [f][1..] == [];
  }

  function Descriptions(fs: seq<StructField>): (os: seq<Option<Described>>)
    ensures |os| == |fs| && forall k :: 0 <= k < |fs| ==> os[k] == Describe(fs[k])
  {
    seq(|fs|, k requires 0 <= k < |fs| => Describe(fs[k]))
  }

  function Present(os: seq<Option<Described>>): seq<Described> {
    if os == [] then [] else (if os[0].Some? then [os[0].value] else []) + Present(os[1..])
  }

  lemma {:induction false} VisibleIsPresent(fs: seq<StructField>)
    ensures Visible(fs) == Present(Descriptions(fs))
  {
    if fs != [] {
      VisibleIsPresent(fs[1..]);
      assert Descriptions(fs)[1..] == Descriptions(fs[1..]);
    }
  }

  lemma {:induction false} PresentExactly(os: seq<Option<Described>>, d: Described)
    ensures d in Present(os) <==> exists k :: 0 <= k < |os| && os[k] == Some(d)
  {
    if os != [] {
      PresentExactly(os[1..], d);
      assert os == [os[0]] + os[1..];
    }
  }

  lemma VisibleExactly(fs: seq<StructField>, d: Described)
    ensures d in Visible(fs) <==> exists k :: 0 <= k < |fs| && Describe(fs[k]) == Some(d)
  {
    var os := Descriptions(fs);
    VisibleIsPresent(fs);
    PresentExactly(os, d);
    if k :| 0 <= k < |os| && os[k] == Some(d) {
      assert Describe(fs[k]) == Some(d);
    }
    if k :| 0 <= k < |fs| && Describe(fs[k]) == Some(d) {
      assert os[k] == Some(d);
    }
  }

  /** A described field comes from a declared one. */
  lemma FromDeclared(types: Types, t: TypeId, i: nat) returns (k: nat)
    requires i < |FieldsOfType(types, t)|
    ensures Declares(types, t, k) && InJson(types[t][k]) && Describe(types[t][k]) == Some(FieldsOfType(types, t)[i])
  {
    var d := FieldsOfType(types, t)[i];
    assert d in Visible(types[t]);
    VisibleExactly(types[t], d);
    k :| 0 <= k < |types[t]| && Describe(types[t][k]) == Some(d);
    InJsonExactly(types[t][k]);
  }

  lemma ToDescribed(types: Types, t: TypeId, k: nat) returns (i: nat)
    requires Declares(types, t, k) && InJson(types[t][k])
    ensures i < |FieldsOfType(types, t)| && Describe(types[t][k]) == Some(FieldsOfType(types, t)[i])
  {
    InJsonExactly(types[t][k]);
    VisibleExactly(types[t], Describe(types[t][k]).value);
    var d := Describe(types[t][k]).value;
    assert d in Visible(types[t]);
    i :| 0 <= i < |Visible(types[t])| && Visible(types[t])[i] == d;
  }

  // ----- what the build works on

  /** The edges of the graph are the declared ones. */
  lemma EdgesExactly(types: Types, t: TypeId, u: TypeId)
    ensures u in Next(TypeGraph(types), t) <==> DeclaredEdge(types, t, u)
  {
    TypeGraphFollowsFields(types);
    var ds := FieldsOfType(types, t);
    assert Next(TypeGraph(types), t) == Below(ds);
    if u in Below(ds) {
      var i :| 0 <= i < |ds| && ds[i].field.elem == Some(u);
      var k := FromDeclared(types, t, i);
      DescribedType(types[t][k]);
      assert FieldLeadsTo(types[t][k], u);
    }
    if DeclaredEdge(types, t, u) {
      var k: nat :| Declares(types, t, k) && FieldLeadsTo(types[t][k], u);
      var i := ToDescribed(types, t, k);
      DescribedType(types[t][k]);
      assert ds[i].field.elem == Some(u);
    }
  }

  /** The roots are the structs below the given types' wrappers. */
  lemma RootsExactly(roots: seq<Root>, u: TypeId)
    ensures u in RootTypes(roots) <==> exists i :: 0 <= i < |roots| && Under(roots[i].typ, Struct(u))
  {
    forall i | 0 <= i < |roots|
      ensures Under(roots[i].typ, Struct(u)) <==> Deref(roots[i].typ) == Struct(u)
    {
      UnderExactly(roots[i].typ, Struct(u));
    }
  }

  /** The secrets are the fields labelled so. */
  lemma SecretsExactly(types: Types, t: TypeId)
    ensures HoldsSecret(ModelOf(types, t)) <==> DeclaresSecret(types, t)
  {
    var ds, fs := FieldsOfType(types, t), ModelOf(types, t).fields;
    assert |fs| == |ds| && forall i :: 0 <= i < |ds| ==> fs[i] == ds[i].field;
    if HoldsSecret(ModelOf(types, t)) {
      var i :| 0 <= i < |fs| && fs[i].class_ == CLASS_SECRET;
      var k := FromDeclared(types, t, i);
      DescribedTags(types[t][k]);
      assert SecretField(types[t][k]);
    }
    if DeclaresSecret(types, t) {
      var k: nat :| Declares(types, t, k) && SecretField(types[t][k]);
      var i := ToDescribed(types, t, k);
      DescribedTags(types[t][k]);
      assert fs[i].class_ == CLASS_SECRET;
    }
  }

  /** A type is faultless exactly when each of its fields is sound. */
  lemma FaultlessExactly(types: Types, t: TypeId)
    ensures Faultless(FieldsOfType(types, t)) <==> SoundType(types, t)
  {
    var ds := FieldsOfType(types, t);
    if Faultless(ds) {
      forall k: nat | Declares(types, t, k)
        ensures SoundField(types[t][k])
      {
        if InJson(types[t][k]) {
          var i := ToDescribed(types, t, k);
          DescribedTags(types[t][k]);
          DescribedFaults(types[t][k]);
        }
      }
    }
    if SoundType(types, t) {
      forall i | 0 <= i < |ds|
        ensures ds[i].faults == []
      {
        var k := FromDeclared(types, t, i);
        DescribedTags(types[t][k]);
        DescribedFaults(types[t][k]);
        assert SoundField(types[t][k]);
      }
    }
  }

  // ----- what a successful build says of the declarations

  /** A walk along declared fields, from below a root's wrappers. */
  ghost predicate DeclaredWalk(types: Types, roots: seq<Root>, w: seq<TypeId>) {
    && w != []
    && (exists i :: 0 <= i < |roots| && Under(roots[i].typ, Struct(w[0])))
    && forall i, j :: 0 <= i < |w| && j == i + 1 < |w| ==> DeclaredEdge(types, w[i], w[j])
  }

  lemma DeclaredIsExposed(types: Types, roots: seq<Root>, w: seq<TypeId>)
    requires DeclaredWalk(types, roots, w)
    ensures IsExposed(types, roots, w[|w| - 1])
  {
    var g := TypeGraph(types);
    RootsExactly(roots, w[0]);
    forall i, j | 0 <= i < |w| && j == i + 1 < |w|
      ensures w[j] in Next(g, w[i])
    {
      EdgesExactly(types, w[i], w[j]);
    }
    assert Leads(g, w, w[0], w[|w| - 1]);
  }

  lemma {:induction false} ExposedIsDeclared(types: Types, roots: seq<Root>, t: TypeId) returns (w: seq<TypeId>)
    requires IsExposed(types, roots, t)
    ensures DeclaredWalk(types, roots, w) && w[|w| - 1] == t
  {
    var g := TypeGraph(types);
    var r :| r in RootTypes(roots) && Reaches(g, r, t);
    w :| Leads(g, w, r, t);
    RootsExactly(roots, r);
    forall i, j | 0 <= i < |w| && j == i + 1 < |w|
      ensures DeclaredEdge(types, w[i], w[j])
    {
      EdgesExactly(types, w[i], w[j]);
    }
  }

  /** With distinct names, a build succeeds exactly when no declared walk comes back to where it
      was, none meets an unsound field and none leads to a field labelled secret. */
  lemma DeclarationsDecide(types: Types, roots: seq<Root>, r: BuildResult)
    requires IsBuild(types, roots, r) && NamesDiffer(types, roots)
    ensures r.Built? <==>
            && (forall w {:trigger DeclaredWalk(types, roots, w)} :: DeclaredWalk(types, roots, w) ==>
                  && (forall i :: 0 <= i < |w| - 1 ==> w[i] != w[|w| - 1])
                  && SoundType(types, w[|w| - 1]) && !DeclaresSecret(types, w[|w| - 1]))
  {
    BuildSucceedsExactly(types, roots, r);
    if r.Built? {
      forall w | DeclaredWalk(types, roots, w)
        ensures forall i :: 0 <= i < |w| - 1 ==> w[i] != w[|w| - 1]
        ensures SoundType(types, w[|w| - 1]) && !DeclaresSecret(types, w[|w| - 1])
      {
        DeclaredIsExposed(types, roots, w);
        FaultlessExactly(types, w[|w| - 1]);
        SecretsExactly(types, w[|w| - 1]);
        NeverBack(types, roots, w);
      }
    } else {
      var w := Refuted(types, roots);
      assert DeclaredWalk(types, roots, w);
    }
  }

  lemma NeverBack(types: Types, roots: seq<Root>, w: seq<TypeId>)
    requires DeclaredWalk(types, roots, w) && Acyclic(types, roots)
    ensures forall i :: 0 <= i < |w| - 1 ==> w[i] != w[|w| - 1]
  {
    var g := TypeGraph(types);
    forall k, j | 0 <= k < |w| && j == k + 1 < |w|
      ensures w[j] in Next(g, w[k])
    {
      EdgesExactly(types, w[k], w[j]);
    }
    DeclaredIsExposed(types, roots, w);
    forall i | 0 <= i < |w| - 1
      ensures w[i] != w[|w| - 1]
    {
      TailCloses(g, w, i);
    }
  }

  lemma TailCloses(g: Graph<TypeId>, w: seq<TypeId>, i: nat)
    requires IsWalk(g, w) && i < |w| - 1
    ensures w[i] == w[|w| - 1] ==> ClosedWalk(g, w[i..|w|]) && w[i..|w|][0] == w[|w| - 1]
  {
    WalkSlice(g, w, i, |w|);
  }

  /** What stands against a build: a walk that comes back, meets a fault or ends at a secret. */
  lemma Refuted(types: Types, roots: seq<Root>) returns (w: seq<TypeId>)
    requires !(Acyclic(types, roots) && FaultFree(types, roots) && !SecretExposed(types, roots))
    ensures DeclaredWalk(types, roots, w)
    ensures || (exists i :: 0 <= i < |w| - 1 && w[i] == w[|w| - 1])
            || !SoundType(types, w[|w| - 1]) || DeclaresSecret(types, w[|w| - 1])
  {
    if !Acyclic(types, roots) {
      w := ComesBackTo(types, roots);
    } else if !FaultFree(types, roots) {
      var t :| IsExposed(types, roots, t) && !Faultless(FieldsOfType(types, t));
      w := ExposedIsDeclared(types, roots, t);
      FaultlessExactly(types, t);
    } else {
      var t :| IsExposed(types, roots, t) && HoldsSecret(ModelOf(types, t));
      w := ExposedIsDeclared(types, roots, t);
      SecretsExactly(types, t);
    }
  }

  lemma ComesBackTo(types: Types, roots: seq<Root>) returns (w: seq<TypeId>)
    requires !Acyclic(types, roots)
    ensures DeclaredWalk(types, roots, w) && exists i :: 0 <= i < |w| - 1 && w[i] == w[|w| - 1]
  {
    var g := TypeGraph(types);
    var c :| ClosedWalk(g, c) && IsExposed(types, roots, c[0]);
    var x := ExposedIsDeclared(types, roots, c[0]);
    w := x + c[1..];
    forall i, j | 0 <= i < |w| && j == i + 1 < |w|
      ensures DeclaredEdge(types, w[i], w[j])
    {
      if j >= |x| {
        assert w[j] == c[j - |x| + 1] && w[i] == c[i - |x| + 1];
        assert c[j - |x| + 1] in Next(g, c[i - |x| + 1]);
        EdgesExactly(types, w[i], w[j]);
      }
    }
    assert w[|x| - 1] == c[0] == c[|c| - 1] == w[|w| - 1];
  }
}
