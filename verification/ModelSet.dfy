/** buildModels (cmd/plugin-typescript/model.go) as a whole: when it succeeds, and what its
    model set then is. */
module ModelSet {
  import opened Strings
  import opened Sorting
  import opened Payloads
  import opened FieldTags
  import opened Walks
  import opened FirstWalks
  import opened Exposure
  import opened ExposureWalk
  import opened SecretReach
  import opened ModelNames
  import opened ReadonlyMarks

  // ----- the contract of a set of payload types

  ghost predicate IsExposed(types: Types, roots: seq<Root>, t: TypeId) {
    Exposed(TypeGraph(types), RootTypes(roots), t)
  }

  ghost predicate Acyclic(types: Types, roots: seq<Root>) {
    forall w :: ClosedWalk(TypeGraph(types), w) ==> !IsExposed(types, roots, w[0])
  }

  ghost predicate FaultFree(types: Types, roots: seq<Root>) {
    forall t {:trigger IsExposed(types, roots, t)} :: IsExposed(types, roots, t) ==> Faultless(FieldsOfType(types, t))
  }

  ghost predicate SecretExposed(types: Types, roots: seq<Root>) {
    exists t :: IsExposed(types, roots, t) && HoldsSecret(ModelOf(types, t))
  }

  /** No two exposed types share a name. */
  ghost predicate NamesDiffer(types: Types, roots: seq<Root>) {
    forall t, u :: IsExposed(types, roots, t) && IsExposed(types, roots, u) && t.name == u.name ==> t == u
  }

  /** No exposed type leads to a different one of its own name. */
  ghost predicate NoNamesakeBelow(types: Types, roots: seq<Root>) {
    forall t: TypeId, u: TypeId :: IsExposed(types, roots, t) && t.name == u.name && Reaches(TypeGraph(types), t, u) ==> t == u
  }

  /** Of two exposed types of one name, one is reached only through the other. */
  ghost predicate NamesakesHidden(types: Types, roots: seq<Root>) {
    forall t, u :: IsExposed(types, roots, t) && IsExposed(types, roots, u) && t.name == u.name && t != u ==>
      Hides(types, roots, t, u) || Hides(types, roots, u, t)
  }

  /** Of two exposed types of one name, one lies on the first walk to the other, in the order of
      roots and fields. */
  ghost predicate Nested(types: Types, roots: seq<Root>) {
    forall t, u {:trigger NestedPair(TypeGraph(types), RootList(roots), t, u)} ::
      IsExposed(types, roots, t) && IsExposed(types, roots, u) ==> NestedPair(TypeGraph(types), RootList(roots), t, u)
  }

  /** Nothing for the walk to report: a condition on the declarations alone. */
  ghost predicate InOrder(types: Types, roots: seq<Root>) {
    Acyclic(types, roots) && FaultFree(types, roots) && Nested(types, roots)
  }

  /** Every walk from a root to `u` goes through `t`. */
  ghost predicate Hides(types: Types, roots: seq<Root>, t: TypeId, u: TypeId) {
    !ReachedAvoiding(TypeGraph(types), RootTypes(roots), u, t)
  }

  /** `order` holds the exposed types, each after what it leads to, and nothing is wrong with
      any of them. */
  ghost predicate Walked(types: Types, roots: seq<Root>, order: seq<TypeId>) {
    Sound(types, TypeGraph(types), order) && forall t {:trigger IsExposed(types, roots, t)} :: IsExposed(types, roots, t) <==> t in order
  }

  // ----- what a walk without problems has shown

  lemma WalkedAll(types: Types, roots: seq<Root>, order: seq<TypeId>)
    requires Sound(types, TypeGraph(types), order)
    requires forall t :: t in RootTypes(roots) ==> t in order
    requires forall t :: t in order ==> IsExposed(types, roots, t)
    ensures Walked(types, roots, order)
  {
    forall t | IsExposed(types, roots, t)
      ensures t in order
    {
      var r :| r in RootTypes(roots) && Reaches(TypeGraph(types), r, t);
      FinishedIsClosed(TypeGraph(types), order, r, t);
    }
  }

  lemma WalkedIsAcyclic(types: Types, roots: seq<Root>, order: seq<TypeId>)
    requires Walked(types, roots, order)
    ensures Acyclic(types, roots) && FaultFree(types, roots)
  {
    forall w | ClosedWalk(TypeGraph(types), w)
      ensures !IsExposed(types, roots, w[0])
    {
      if w[0] in order {
        NoCycleThrough(TypeGraph(types), order, w);
      }
    }
    forall t | IsExposed(types, roots, t)
      ensures Faultless(FieldsOfType(types, t))
    {
      assert t in order;
    }
  }

  /** After a walk without problems, two types share a name only when one leads to the other. */
  lemma SharersLead(types: Types, roots: seq<Root>, order: seq<TypeId>, t: TypeId, u: TypeId)
    requires Walked(types, roots, order) && t in order && u in order && t.name == u.name
    ensures Reaches(TypeGraph(types), t, u) || Reaches(TypeGraph(types), u, t)
  {
    var i, j := FirstIndex(order, t), FirstIndex(order, u);
    if t == u {
      ReachesSelf(TypeGraph(types), t);
    } else if i < j {
      assert Reaches(TypeGraph(types), order[j], order[i]);
    } else {
      assert Reaches(TypeGraph(types), order[i], order[j]);
    }
  }

  /** So the names of a successful build differ exactly when no type leads to a namesake. */
  lemma NamesDifferExactly(types: Types, roots: seq<Root>, order: seq<TypeId>)
    requires Walked(types, roots, order)
    ensures NamesDiffer(types, roots) <==> NoNamesakeBelow(types, roots)
    ensures NamesDiffer(types, roots) <==> OrderNames(order)
  {
    if NoNamesakeBelow(types, roots) {
      forall t, u | IsExposed(types, roots, t) && IsExposed(types, roots, u) && t.name == u.name
        ensures t == u
      {
        SharersLead(types, roots, order, t, u);
      }
    }
    if NamesDiffer(types, roots) {
      forall t: TypeId, u: TypeId | IsExposed(types, roots, t) && t.name == u.name && Reaches(TypeGraph(types), t, u)
        ensures t == u
      {
        FinishedIsClosed(TypeGraph(types), order, t, u);
        assert IsExposed(types, roots, u);
      }
    }
  }

  // ----- when the walk finds no problem

  lemma CycleBreaks(types: Types, roots: seq<Root>, path: seq<Hop>, name: string)
    requires ComesBack(types, RootTypes(roots), path, name)
    ensures !Acyclic(types, roots)
  {
    ComesBackIsCycle(types, RootTypes(roots), path, name);
    var w :| ClosedWalk(TypeGraph(types), w) && Exposed(TypeGraph(types), RootTypes(roots), w[0]);
    assert IsExposed(types, roots, w[0]);
  }

  lemma HiddenIsPassed(types: Types, roots: seq<Root>, w: seq<TypeId>, t: TypeId, u: TypeId)
    requires w != [] && w[0] in RootTypes(roots) && IsWalk(TypeGraph(types), w) && w[|w| - 1] == u
    ensures t in w || !Hides(types, roots, t, u)
  {
    if t !in w {
      assert Avoids(TypeGraph(types), RootTypes(roots), w, t);
    }
  }

  lemma AcyclicIsNoCycle(types: Types, roots: seq<Root>)
    requires Acyclic(types, roots)
    ensures NoCycle(TypeGraph(types), RootList(roots))
  {
    RootListTypes(roots);
    forall w, r | ClosedWalk(TypeGraph(types), w) && r in RootList(roots)
      ensures !Reaches(TypeGraph(types), r, w[0])
    {
      assert !IsExposed(types, roots, w[0]);
    }
  }

  /** Declarations that are in order give the walk no first problem. */
  lemma NoFirstProblem(types: Types, roots: seq<Root>, problems: seq<Problem>)
    requires Explained(types, TypeGraph(types), RootTypes(roots), RootList(roots), problems)
    requires InOrder(types, roots)
    ensures problems == []
  {
    var g, tops := TypeGraph(types), RootTypes(roots);
    if problems != [] {
      assert Genuine(types, g, tops, problems[0]);
      match problems[0] {
        case CyclicGraph(path, name) =>
          CycleBreaks(types, roots, path, name);
        case SharedName(prior, typ) =>
          SharedIsNotNested(types, roots, prior, typ);
        case BadField(owner, goName, fault) =>
          assert IsExposed(types, roots, owner);
        case SecretReachable(_, _) =>
      }
    }
  }

  lemma SharedIsNotNested(types: Types, roots: seq<Root>, prior: TypeId, typ: TypeId)
    requires Acyclic(types, roots)
    requires Genuine(types, TypeGraph(types), RootTypes(roots), SharedName(prior, typ))
    requires Divided(TypeGraph(types), RootList(roots), prior, typ)
    ensures !Nested(types, roots)
  {
    AvoidingIsExposed(types, roots, prior, typ);
    AcyclicIsNoCycle(types, roots);
    DividedAreApart(TypeGraph(types), RootList(roots), prior, typ);
    assert IsExposed(types, roots, prior) && IsExposed(types, roots, typ);
    assert !NestedPair(TypeGraph(types), RootList(roots), prior, typ);
  }

  /** Namesakes hidden one by the other are nested, whatever the order of roots and fields. */
  lemma HiddenIsNested(types: Types, roots: seq<Root>)
    requires Acyclic(types, roots) && NamesakesHidden(types, roots)
    ensures Nested(types, roots)
  {
    forall t, u | IsExposed(types, roots, t) && IsExposed(types, roots, u)
      ensures NestedPair(TypeGraph(types), RootList(roots), t, u)
    {
      if t.name == u.name && t != u {
        if Hides(types, roots, t, u) {
          HidesOnFirst(types, roots, t, u);
        } else {
          HidesOnFirst(types, roots, u, t);
        }
      }
    }
  }

  lemma HidesOnFirst(types: Types, roots: seq<Root>, t: TypeId, u: TypeId)
    requires Acyclic(types, roots) && IsExposed(types, roots, u) && Hides(types, roots, t, u)
    ensures OnFirstWalk(TypeGraph(types), RootList(roots), t, u)
  {
    var r :| r in RootTypes(roots) && Reaches(TypeGraph(types), r, u);
    RootListTypes(roots);
    AcyclicIsNoCycle(types, roots);
    var w := FirstExists(TypeGraph(types), RootList(roots), r, u);
    HiddenIsPassed(types, roots, w, t, u);
  }

  lemma AvoidingIsExposed(types: Types, roots: seq<Root>, t: TypeId, u: TypeId)
    requires ReachedAvoiding(TypeGraph(types), RootTypes(roots), t, u)
    ensures IsExposed(types, roots, t)
  {
    var w :| Avoids(TypeGraph(types), RootTypes(roots), w, u) && w[|w| - 1] == t;
    assert Leads(TypeGraph(types), w, w[0], t);
  }

  // ----- the build

  datatype BuildResult =
    | Built(byName: Models, names: seq<string>, readonly: set<string>)
    | Failed(problems: seq<Problem>)

  /** Every root's name was searched, and each trail found is reported for it. */
  ghost predicate SecretsReported(ms: Models, roots: seq<Root>, problems: seq<Problem>) {
    forall p :: p in problems ==> IsSecretReport(ms, roots, p)
  }

  ghost predicate IsSecretReport(ms: Models, roots: seq<Root>, p: Problem) {
    && p.SecretReachable? && SecretTrail(ms, p.root, p.trail)
    && exists i :: 0 <= i < |roots| && NameOf(roots[i].typ) == p.root
  }

  /** The last loop of buildModels: a problem just when some root's name leaks, whatever the
      names lead to. */
  method SearchSecrets(ms: Models, roots: seq<Root>) returns (problems: seq<Problem>)
    ensures SecretsReported(ms, roots, problems)
    ensures problems == [] <==> forall i :: 0 <= i < |roots| ==> !Leaks(ms, NameOf(roots[i].typ))
  {
    var search := new SecretSearch(ms);
    problems := [];
    for i := 0 to |roots|
      invariant search.Valid({}) && search.ms == ms && fresh(search)
      invariant SecretsReported(ms, roots, problems)
      invariant problems == [] ==> Trailed(search.memo) == {} && forall k :: 0 <= k < i ==> NameOf(roots[k].typ) in search.memo
    {
      ghost var before := search.memo;
      var trail := search.Search(NameOf(roots[i].typ), {}, ms.Keys);
      if trail != [] {
        var p := SecretReachable(NameOf(roots[i].typ), trail);
        assert IsSecretReport(ms, roots, p);
        problems := problems + [p];
      } else {
        StillVain(ms, before, search.memo, NameOf(roots[i].typ));
      }
    }
    if problems == [] {
      forall i | 0 <= i < |roots|
        ensures !Leaks(ms, NameOf(roots[i].typ))
      {
        VainIsSafe(ms, search.memo, NameOf(roots[i].typ));
      }
    } else {
      ReportedLeak(ms, roots, problems[0]);
    }
  }

  lemma ReportedLeak(ms: Models, roots: seq<Root>, p: Problem)
    requires IsSecretReport(ms, roots, p)
    ensures exists i :: 0 <= i < |roots| && Leaks(ms, NameOf(roots[i].typ))
  {
    TrailLeaks(ms, p.root, p.trail);
  }

  lemma WalkedIsNested(types: Types, roots: seq<Root>, order: seq<TypeId>, marked: set<TypeId>, stack: seq<TypeId>)
    requires Walked(types, roots, order) && Orderly(TypeGraph(types), RootList(roots), marked, stack, order)
    requires forall t :: t in order ==> t in marked
    ensures Nested(types, roots)
  {
    forall t, u | IsExposed(types, roots, t) && IsExposed(types, roots, u)
      ensures NestedPair(TypeGraph(types), RootList(roots), t, u)
    {
      assert t in order && u in order;
    }
  }

  /** The walk over all roots, from a fresh walker. */
  method WalkRoots(types: Types, roots: seq<Root>)
    returns (byName: Models, names: seq<string>, problems: seq<Problem>, ghost order: seq<TypeId>)
    ensures byName == ModelsOf(types, order) && names == NamesOf(order)
    ensures Explained(types, TypeGraph(types), RootTypes(roots), RootList(roots), problems)
    ensures problems == [] ==> Walked(types, roots, order) && Nested(types, roots)
  {
    var walker := new Walker(types, RootList(roots));
    RootListTypes(roots);
    assert walker.tops == RootTypes(roots);
    walker.VisitRoots(roots);
    order := walker.order;
    forall t | t in order
      ensures IsExposed(types, roots, t)
    {
      assert t in walker.state;
      WithinIsExposed(walker.g, walker.tops, walker.state.Keys, t);
    }
    if walker.problems == [] {
      WalkedAll(types, roots, order);
      WalkedIsNested(types, roots, order, walker.state.Keys, walker.stack);
    }
    return walker.byName, walker.names, walker.problems, order;
  }

  /** The walk itself reported something: a cycle, a shared name or a bad field. */
  predicate WalkProblem(problems: seq<Problem>) {
    exists i :: 0 <= i < |problems| && !problems[i].SecretReachable?
  }

  /** What a build comes to; `order` is the order in which the types were finished. */
  ghost predicate BuildSpec(types: Types, roots: seq<Root>, r: BuildResult, order: seq<TypeId>) {
    match r
    case Built(byName, names, readonly) =>
      && Walked(types, roots, order) && InOrder(types, roots)
      && byName == ModelsOf(types, order) && names == Sort(NamesOf(order))
      && (forall n :: n in readonly <==> FromReadonlyRoot(byName, roots, n))
      && (forall i :: 0 <= i < |roots| ==> !Leaks(byName, NameOf(roots[i].typ)))
    case Failed(problems) =>
      && problems != []
      && (forall i :: 0 <= i < |problems| ==> Justified(types, roots, order, problems[i]))
      && (!WalkProblem(problems) ==> Walked(types, roots, order) && SecretsReported(ModelsOf(types, order), roots, problems))
      && (WalkProblem(problems) <==> !InOrder(types, roots))
  }

  /** A reported problem is there. */
  ghost predicate Justified(types: Types, roots: seq<Root>, order: seq<TypeId>, p: Problem) {
    Genuine(types, TypeGraph(types), RootTypes(roots), p) || IsSecretReport(ModelsOf(types, order), roots, p)
  }

  lemma AllJustified(types: Types, roots: seq<Root>, order: seq<TypeId>, problems: seq<Problem>, secrets: seq<Problem>)
    requires Explained(types, TypeGraph(types), RootTypes(roots), RootList(roots), problems)
    requires SecretsReported(ModelsOf(types, order), roots, secrets)
    ensures forall i :: 0 <= i < |problems + secrets| ==> Justified(types, roots, order, (problems + secrets)[i])
  {
    forall i | 0 <= i < |problems + secrets|
      ensures Justified(types, roots, order, (problems + secrets)[i])
    {
      if i < |problems| {
        assert Genuine(types, TypeGraph(types), RootTypes(roots), problems[i]);
      } else {
        assert (problems + secrets)[i] == secrets[i - |problems|];
      }
    }
  }

  lemma WalkProblemsFirst(types: Types, roots: seq<Root>, problems: seq<Problem>, secrets: seq<Problem>, ms: Models)
    requires Explained(types, TypeGraph(types), RootTypes(roots), RootList(roots), problems) && SecretsReported(ms, roots, secrets)
    ensures WalkProblem(problems + secrets) <==> problems != []
    ensures problems == [] ==> SecretsReported(ms, roots, problems + secrets)
  {
    var all := problems + secrets;
    if problems != [] {
      assert Genuine(types, TypeGraph(types), RootTypes(roots), problems[0]);
      assert !all[0].SecretReachable?;
    } else {
      assert all == secrets;
      forall i | 0 <= i < |all|
        ensures all[i].SecretReachable?
      {
        assert all[i] in secrets && IsSecretReport(ms, roots, all[i]);
      }
    }
  }

  /** `r` is what a build comes to, for some order of finishing. */
  ghost predicate IsBuild(types: Types, roots: seq<Root>, r: BuildResult) {
    exists order :: BuildSpec(types, roots, r, order)
  }

  /** buildModels. */
  method BuildModels(types: Types, roots: seq<Root>) returns (r: BuildResult)
    ensures IsBuild(types, roots, r)
  {
    var byName, names, problems;
    ghost var order;
    byName, names, problems, order := WalkRoots(types, roots);
    names := Sort(names);
    var readonly := MarkReadonly(byName, roots);
    var secrets := SearchSecrets(byName, roots);
    if InOrder(types, roots) {
      NoFirstProblem(types, roots, problems);
    }
    if problems == [] {
      WalkedIsAcyclic(types, roots, order);
    }
    WalkProblemsFirst(types, roots, problems, secrets, byName);
    AllJustified(types, roots, order, problems, secrets);
    problems := problems + secrets;
    if problems != [] {
      r := Failed(problems);
    } else {
      r := Built(byName, names, readonly);
    }
    assert BuildSpec(types, roots, r, order);
  }

  // ----- what the build promises

  lemma WalkedIsNamed(types: Types, roots: seq<Root>, order: seq<TypeId>)
    requires Walked(types, roots, order) && NamesDiffer(types, roots)
    ensures Named(types, TypeGraph(types), order)
  {
    TypeGraphFollowsFields(types);
    NamesDifferExactly(types, roots, order);
  }

  lemma RootIsExposed(types: Types, roots: seq<Root>, r: TypeId)
    requires r in RootTypes(roots)
    ensures IsExposed(types, roots, r)
  {
    ReachesSelf(TypeGraph(types), r);
  }

  lemma RootIndex(roots: seq<Root>, r: TypeId) returns (i: nat)
    requires r in RootTypes(roots)
    ensures i < |roots| && NameOf(roots[i].typ) == r.name
  {
    i :| 0 <= i < |roots| && Deref(roots[i].typ) == Struct(r);
  }

  /** A secret below an exposed type is found by that type's name. */
  lemma SecretLeaks(types: Types, roots: seq<Root>, order: seq<TypeId>, r: TypeId, t: TypeId)
    requires Walked(types, roots, order) && NamesDiffer(types, roots) && r in order
    requires Reaches(TypeGraph(types), r, t) && HoldsSecret(ModelOf(types, t))
    ensures Leaks(ModelsOf(types, order), r.name)
  {
    WalkedIsNamed(types, roots, order);
    LeaksByType(types, TypeGraph(types), order, r);
  }

  /** An exposed secret is found from some root. */
  lemma SecretFound(types: Types, roots: seq<Root>, order: seq<TypeId>) returns (i: nat)
    requires Walked(types, roots, order) && NamesDiffer(types, roots) && SecretExposed(types, roots)
    ensures i < |roots| && Leaks(ModelsOf(types, order), NameOf(roots[i].typ))
  {
    var t :| IsExposed(types, roots, t) && HoldsSecret(ModelOf(types, t));
    var r :| r in RootTypes(roots) && Reaches(TypeGraph(types), r, t);
    RootIsExposed(types, roots, r);
    SecretLeaks(types, roots, order, r, t);
    i := RootIndex(roots, r);
  }

  /** A secret by name is a secret exposed. */
  lemma LeakIsSecret(types: Types, roots: seq<Root>, order: seq<TypeId>, n: string)
    requires Walked(types, roots, order) && NamesDiffer(types, roots)
    requires Leaks(ModelsOf(types, order), n) && n in ModelsOf(types, order)
    ensures SecretExposed(types, roots)
  {
    WalkedIsNamed(types, roots, order);
    ModelsOfKeys(types, order);
    var t := ModelsOf(types, order)[n].typ;
    LeaksByType(types, TypeGraph(types), order, t);
    var u :| Reaches(TypeGraph(types), t, u) && HoldsSecret(ModelOf(types, u));
    FinishedIsClosed(TypeGraph(types), order, t, u);
    assert IsExposed(types, roots, u);
  }

  /** A build that fails without a problem of the walk reports a secret. */
  lemma FailedReport(types: Types, roots: seq<Root>, r: BuildResult, order: seq<TypeId>) returns (p: Problem)
    requires BuildSpec(types, roots, r, order) && r.Failed? && !WalkProblem(r.problems)
    ensures Walked(types, roots, order) && IsSecretReport(ModelsOf(types, order), roots, p)
  {
    p := r.problems[0];
    assert p in r.problems;
  }

  lemma DifferentIsNested(types: Types, roots: seq<Root>)
    requires NamesDiffer(types, roots)
    ensures Nested(types, roots)
  {
  }

  lemma ExactlyWithOrder(types: Types, roots: seq<Root>, r: BuildResult, order: seq<TypeId>)
    requires BuildSpec(types, roots, r, order) && NamesDiffer(types, roots)
    ensures r.Built? <==> Acyclic(types, roots) && FaultFree(types, roots) && !SecretExposed(types, roots)
  {
    if r.Built? {
      WalkedIsAcyclic(types, roots, order);
      WalkedIsNamed(types, roots, order);
      if SecretExposed(types, roots) {
        var i := SecretFound(types, roots, order);
      }
    } else if Acyclic(types, roots) && FaultFree(types, roots) {
      DifferentIsNested(types, roots);
      var p := FailedReport(types, roots, r, order);
      TrailLeaks(ModelsOf(types, order), p.root, p.trail);
      LeakIsSecret(types, roots, order, p.root);
    }
  }

  /** With distinct names a build succeeds exactly when the exposed graph has no cycle, no
      faulty field and no secret. */
  lemma BuildSucceedsExactly(types: Types, roots: seq<Root>, r: BuildResult)
    requires IsBuild(types, roots, r) && NamesDiffer(types, roots)
    ensures r.Built? <==> Acyclic(types, roots) && FaultFree(types, roots) && !SecretExposed(types, roots)
  {
    var order: seq<TypeId> :| BuildSpec(types, roots, r, order);
    ExactlyWithOrder(types, roots, r, order);
  }

  /** Without a namesake below another, success also says that the names differ. */
  lemma BuildDecides(types: Types, roots: seq<Root>, r: BuildResult)
    requires IsBuild(types, roots, r) && NoNamesakeBelow(types, roots)
    ensures r.Built? <==>
            NamesDiffer(types, roots) && Acyclic(types, roots) && FaultFree(types, roots) && !SecretExposed(types, roots)
  {
    var order: seq<TypeId> :| BuildSpec(types, roots, r, order);
    if r.Built? {
      NamesDifferExactly(types, roots, order);
    }
    if NamesDiffer(types, roots) {
      ExactlyWithOrder(types, roots, r, order);
    }
  }

  lemma NamesOfBuild(types: Types, roots: seq<Root>, r: BuildResult, order: seq<TypeId>)
    requires BuildSpec(types, roots, r, order) && r.Built?
    ensures forall n :: n in r.names <==> exists t :: IsExposed(types, roots, t) && t.name == n
  {
    InMultiset(r.names, NamesOf(order));
    forall n
      ensures n in r.names <==> exists t :: IsExposed(types, roots, t) && t.name == n
    {
      NamesOfMembers(order, n);
      if HasName(order, n) {
        var i :| 0 <= i < |order| && order[i].name == n;
        assert IsExposed(types, roots, order[i]);
      }
      if t :| IsExposed(types, roots, t) && t.name == n {
        var i :| 0 <= i < |order| && order[i] == t;
        assert order[i].name == n;
      }
    }
  }

  /** Every type of a successful build is in the union. */
  lemma BuiltUnion(types: Types, roots: seq<Root>, r: BuildResult) returns (rank: string -> nat)
    requires IsBuild(types, roots, r) && r.Built? && NamesDiffer(types, roots)
    ensures SafeNames(r.byName, r.names) == r.names
    ensures Descends(rank, r.byName)
    ensures forall n :: n in r.names <==> exists t :: IsExposed(types, roots, t) && t.name == n
  {
    var order: seq<TypeId> :| BuildSpec(types, roots, r, order);
    rank := RankOf(order);
    WalkedIsNamed(types, roots, order);
    RankDescends(types, TypeGraph(types), order);
    ExactlyWithOrder(types, roots, r, order);
    NamesOfBuild(types, roots, r, order);
    InMultiset(r.names, NamesOf(order));
    ModelsOfKeys(types, order);
    forall k | 0 <= k < |r.names|
      ensures !Leaks(r.byName, r.names[k])
    {
      assert r.names[k] in r.names;
      if Leaks(r.byName, r.names[k]) {
        LeakIsSecret(types, roots, order, r.names[k]);
      }
    }
    AllSafe(r.byName, r.names);
  }

  /** With distinct names the readonly models are the exposed types reachable from a type a
      readonly root names. */
  lemma BuiltReadonly(types: Types, roots: seq<Root>, r: BuildResult, t: TypeId)
    requires IsBuild(types, roots, r) && r.Built? && NamesDiffer(types, roots) && IsExposed(types, roots, t)
    ensures t.name in r.readonly <==>
            exists i, u :: 0 <= i < |roots| && roots[i].readonly && IsExposed(types, roots, u) &&
                           u.name == NameOf(roots[i].typ) && Reaches(TypeGraph(types), u, t)
  {
    var order: seq<TypeId> :| BuildSpec(types, roots, r, order);
    WalkedIsNamed(types, roots, order);
    ReadonlyByType(types, TypeGraph(types), order, roots, t);
    assert forall u :: u in order <==> IsExposed(types, roots, u);
  }
}
