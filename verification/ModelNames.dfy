/** Why names may stand for types: with distinct names, the graph of model names is the
    graph of types. */
module ModelNames {
  import opened Strings
  import opened Payloads
  import opened FieldTags
  import opened Walks
  import opened Exposure
  import opened ExposureWalk
  import opened SecretReach
  import opened ReadonlyMarks

  /** No two of the types share a name. */
  ghost predicate OrderNames(order: seq<TypeId>) {
    forall t, u :: t in order && u in order && t.name == u.name ==> t == u
  }

  /** Finished types with distinct names. */
  ghost predicate Named(types: Types, g: Graph<TypeId>, order: seq<TypeId>) {
    IsGraphOf(g, types) && Finished(g, order) && OrderNames(order)
  }

  /** Each finished type keeps its model. */
  lemma OwnModel(types: Types, g: Graph<TypeId>, order: seq<TypeId>, t: TypeId)
    requires Named(types, g, order) && t in order
    ensures t.name in ModelsOf(types, order) && ModelsOf(types, order)[t.name] == ModelOf(types, t)
  {
    ModelsOfKeys(types, order);
    var m := ModelsOf(types, order)[t.name];
    assert m.name == m.typ.name;
  }

  lemma EdgeDown(types: Types, g: Graph<TypeId>, order: seq<TypeId>, t: TypeId, b: TypeId)
    requires Named(types, g, order) && t in order && b in Next(g, t)
    ensures b in order && b.name in Next(NameGraph(ModelsOf(types, order)), t.name)
  {
    OwnModel(types, g, order, t);
    var ds := FieldsOfType(types, t);
    assert b in Below(ds);
    var k :| 0 <= k < |ds| && ds[k].field.elem == Some(b);
    assert FieldsIn(ds)[k].elem == Some(b);
    var i :| 0 <= i < |order| && order[i] == t;
    assert b in order[..i];
  }

  lemma EdgeUp(types: Types, g: Graph<TypeId>, order: seq<TypeId>, t: TypeId, n: string) returns (b: TypeId)
    requires Named(types, g, order) && t in order && n in Next(NameGraph(ModelsOf(types, order)), t.name)
    ensures b in Next(g, t) && b in order && b.name == n
  {
    OwnModel(types, g, order, t);
    var ds := FieldsOfType(types, t);
    assert n in NamesBelow(FieldsIn(ds));
    var k :| 0 <= k < |ds| && FieldsIn(ds)[k].elem.Some? && FieldsIn(ds)[k].elem.value.name == n;
    b := ds[k].field.elem.value;
    assert b in Below(ds);
    var i :| 0 <= i < |order| && order[i] == t;
    assert b in order[..i];
  }

  lemma {:induction false} WalkDown(types: Types, g: Graph<TypeId>, order: seq<TypeId>, w: seq<TypeId>, t: TypeId, u: TypeId)
    requires Named(types, g, order) && t in order && Leads(g, w, t, u)
    ensures u in order && Reaches(NameGraph(ModelsOf(types, order)), t.name, u.name)
    decreases |w|
  {
    if |w| == 1 {
      ReachesSelf(NameGraph(ModelsOf(types, order)), t.name);
    } else {
      EdgeDown(types, g, order, t, w[1]);
      WalkTail(g, w);
      WalkDown(types, g, order, w[1..], w[1], u);
      ReachesVia(NameGraph(ModelsOf(types, order)), t.name, w[1].name, u.name);
    }
  }

  lemma {:induction false} WalkUp(types: Types, g: Graph<TypeId>, order: seq<TypeId>, w: seq<string>, t: TypeId, n: string)
    returns (u: TypeId)
    requires Named(types, g, order) && t in order && Leads(NameGraph(ModelsOf(types, order)), w, t.name, n)
    ensures u in order && u.name == n && Reaches(g, t, u)
    decreases |w|
  {
    if |w| == 1 {
      ReachesSelf(g, t);
      u := t;
    } else {
      var b := EdgeUp(types, g, order, t, w[1]);
      WalkTail(NameGraph(ModelsOf(types, order)), w);
      u := WalkUp(types, g, order, w[1..], b, n);
      ReachesVia(g, t, b, u);
    }
  }

  /** A secret can be reached by name just when it can be reached by type. */
  lemma LeaksByType(types: Types, g: Graph<TypeId>, order: seq<TypeId>, t: TypeId)
    requires Named(types, g, order) && t in order
    ensures Leaks(ModelsOf(types, order), t.name) <==> exists u :: Reaches(g, t, u) && HoldsSecret(ModelOf(types, u))
  {
    var ms := ModelsOf(types, order);
    if Leaks(ms, t.name) {
      var n :| Reaches(NameGraph(ms), t.name, n) && n in ms && HoldsSecret(ms[n]);
      var w :| Leads(NameGraph(ms), w, t.name, n);
      var u := WalkUp(types, g, order, w, t, n);
      OwnModel(types, g, order, u);
    }
    if u :| Reaches(g, t, u) && HoldsSecret(ModelOf(types, u)) {
      var w :| Leads(g, w, t, u);
      WalkDown(types, g, order, w, t, u);
      OwnModel(types, g, order, u);
    }
  }

  /** Names ranked by where their types were finished. */
  ghost function RankOf(order: seq<TypeId>): string -> nat {
    (n: string) => if HasName(order, n) then FirstNamed(order, n) else 0
  }

  predicate HasName(order: seq<TypeId>, n: string) {
    exists i :: 0 <= i < |order| && order[i].name == n
  }

  function FirstNamed(order: seq<TypeId>, n: string): (i: nat)
    requires HasName(order, n)
    ensures i < |order| && order[i].name == n
    ensures forall k :: 0 <= k < i ==> order[k].name != n
  {
    if order[0].name == n then 0
    else
      assert HasName(order[1..], n) by {
        var i :| 0 <= i < |order| && order[i].name == n;
        assert order[1..][i - 1].name == n;
      }
      assert forall k :: 1 <= k < |order| ==> order[k] == order[1..][k - 1];
      FirstNamed(order[1..], n) + 1
  }

  lemma RankDescends(types: Types, g: Graph<TypeId>, order: seq<TypeId>)
    requires Named(types, g, order)
    ensures Descends(RankOf(order), ModelsOf(types, order))
  {
    var ms, rank := ModelsOf(types, order), RankOf(order);
    forall n, m | n in ms && m in NamesBelow(ms[n].fields)
      ensures rank(m) < rank(n)
    {
      ModelsOfKeys(types, order);
      var t := ms[n].typ;
      var b := EdgeUp(types, g, order, t, m);
      var i := FirstNamed(order, n);
      assert order[i] == t;
      assert b in order[..i];
      var j :| 0 <= j < i && order[j] == b;
      assert FirstNamed(order, m) <= j;
    }
  }

  lemma {:induction false} NamesOfMembers(order: seq<TypeId>, n: string)
    ensures n in NamesOf(order) <==> HasName(order, n)
  {
    if order != [] {
      var k := |order| - 1;
      NamesOfMembers(order[..k], n);
      if HasName(order[..k], n) {
        var i :| 0 <= i < k && order[..k][i].name == n;
        assert order[i].name == n;
      }
      if HasName(order, n) {
        var i :| 0 <= i < |order| && order[i].name == n;
        assert i < k ==> order[..k][i].name == n;
      }
    }
  }

  /** Readonly by name is readonly by type. */
  lemma ReadonlyByType(types: Types, g: Graph<TypeId>, order: seq<TypeId>, roots: seq<Root>, t: TypeId)
    requires Named(types, g, order) && t in order
    ensures FromReadonlyRoot(ModelsOf(types, order), roots, t.name) <==>
            exists i, u :: 0 <= i < |roots| && roots[i].readonly && u in order && u.name == NameOf(roots[i].typ) && Reaches(g, u, t)
  {
    var ms := ModelsOf(types, order);
    OwnModel(types, g, order, t);
    if FromReadonlyRoot(ms, roots, t.name) {
      var i :| 0 <= i < |roots| && roots[i].readonly && Reaches(NameGraph(ms), NameOf(roots[i].typ), t.name);
      var w :| Leads(NameGraph(ms), w, NameOf(roots[i].typ), t.name);
      FromNamed(types, order, w, t);
      var k :| 0 <= k < |order| && order[k].name == w[0];
      var u := WalkUp(types, g, order, w, order[k], t.name);
    }
    if i, u :| 0 <= i < |roots| && roots[i].readonly && u in order && u.name == NameOf(roots[i].typ) && Reaches(g, u, t) {
      var w :| Leads(g, w, u, t);
      WalkDown(types, g, order, w, u, t);
    }
  }

  /** A walk by name to a finished type starts at a finished type's name. */
  lemma FromNamed(types: Types, order: seq<TypeId>, w: seq<string>, t: TypeId)
    requires w != [] && IsWalk(NameGraph(ModelsOf(types, order)), w) && w[|w| - 1] == t.name && t in order
    ensures HasName(order, w[0])
  {
    var ms := ModelsOf(types, order);
    ModelsOfKeys(types, order);
    if |w| > 1 {
      assert w[1] in Next(NameGraph(ms), w[0]);
    }
    assert w[0] in ms;
    var i :| 0 <= i < |order| && order[i] == ms[w[0]].typ;
    assert order[i].name == w[0];
  }
}
