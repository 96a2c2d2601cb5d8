/** What a schema id depends on: the contract, field for field, and neither the order of
    struct fields nor the names of Go types. */
module SchemaIdLaws {
  import opened Strings
  import opened Sorting
  import opened Netstrings
  import opened Payloads
  import opened SchemaId

  /** Operations whose bytes agree agree on everything a peer can see. */
  lemma SameBytesSameContract(ms: Models, op1: Operation, ns: Models, op2: Operation)
    requires Canonical(ms, op1).Ok? && Canonical(ns, op2).Ok?
    requires Encode(Canonical(ms, op1).value, CLOSE) == Encode(Canonical(ns, op2).value, CLOSE)
    ensures op1.kind == op2.kind && op1.name == op2.name && op1.rev == op2.rev
    ensures TypeSchema(ms, op1.req) == TypeSchema(ns, op2.req)
    ensures op1.kind == KIND_COMMAND ==> TypeSchema(ms, op1.resp) == TypeSchema(ns, op2.resp)
  {
    var resp1 := if op1.kind == KIND_COMMAND then Some(TypeSchema(ms, op1.resp).value) else None;
    var resp2 := if op2.kind == KIND_COMMAND then Some(TypeSchema(ns, op2.resp).value) else None;
    UniqueDecodability(op1, TypeSchema(ms, op1.req).value, resp1, op2, TypeSchema(ns, op2.req).value, resp2);
  }

  // ----- reordering fields and renaming types

  /** The same field under renamed Go types. */
  ghost predicate Twin(r: string -> string, f: Field, g: Field) {
    && Plain(f) == Plain(g)
    && (f.elem.Some? <==> g.elem.Some?)
    && (f.elem.Some? ==> g.elem.value.name == r(f.elem.value.name))
  }

  ghost predicate Twins(r: string -> string, fs: seq<Field>, gs: seq<Field>) {
    |fs| == |gs| && forall i :: 0 <= i < |fs| ==> Twin(r, fs[i], gs[i])
  }

  /** The same fields, renamed and in any order. */
  ghost predicate Rearranged(r: string -> string, fs: seq<Field>, gs: seq<Field>) {
    exists hs :: Twins(r, fs, hs) && multiset(hs) == multiset(gs)
  }

  predicate DistinctNames(fs: seq<Field>) {
    forall i, j :: 0 <= i < j < |fs| ==> fs[i].jsonName != fs[j].jsonName
  }

  ghost predicate Injective(r: string -> string) {
    forall a, b :: r(a) == r(b) ==> a == b
  }

  /** One model set is the other with its types renamed and their fields reordered. */
  ghost predicate SameShape(r: string -> string, ms: Models, ns: Models) {
    && Injective(r)
    && (forall n :: n in ms ==> r(n) in ns && Rearranged(r, ms[n].fields, ns[r(n)].fields) && DistinctNames(ms[n].fields))
    && (forall m :: m in ns ==> exists n :: n in ms && r(n) == m)
  }

  lemma TwinKeys(r: string -> string, f: Field, g: Field)
    requires Twin(r, f, g)
    ensures JsonKey(f) == JsonKey(g)
  {
    assert Plain(f).jsonName == f.jsonName && Plain(g).jsonName == g.jsonName;
  }

  lemma TwinsUncons(r: string -> string, fs: seq<Field>, gs: seq<Field>)
    requires Twins(r, fs, gs) && fs != []
    ensures Twin(r, fs[0], gs[0]) && Twins(r, fs[1..], gs[1..])
  {
    forall i | 0 <= i < |fs[1..]|
      ensures Twin(r, fs[1..][i], gs[1..][i])
    {
      assert Twin(r, fs[i + 1], gs[i + 1]);
    }
  }

  lemma SortTwins(r: string -> string, fs: seq<Field>, gs: seq<Field>)
    requires Twins(r, fs, gs)
    ensures Twins(r, ByJSONName(fs), ByJSONName(gs))
  {
    var twin := (f, g) => Twin(r, f, g);
    forall f, g | twin(f, g)
      ensures JsonKey(f) == JsonKey(g)
    {
      TwinKeys(r, f, g);
    }
    assert Paired(twin, fs, gs);
    SortPaired(twin, JsonKey, fs, gs);
    var a, b := ByJSONName(fs), ByJSONName(gs);
    forall i | 0 <= i < |a|
      ensures Twin(r, a[i], b[i])
    {
      assert twin(a[i], b[i]);
    }
  }

  lemma TwinNames(r: string -> string, fs: seq<Field>, hs: seq<Field>)
    requires Twins(r, fs, hs) && DistinctNames(fs)
    ensures KeyDetermines(JsonKey, hs)
  {
    forall x, y | x in hs && y in hs && JsonKey(x) == JsonKey(y)
      ensures x == y
    {
      var i :| 0 <= i < |hs| && hs[i] == x;
      var j :| 0 <= j < |hs| && hs[j] == y;
      assert Twin(r, fs[i], hs[i]) && Twin(r, fs[j], hs[j]);
      assert Plain(fs[i]).jsonName == fs[i].jsonName && Plain(fs[j]).jsonName == fs[j].jsonName;
      assert Plain(hs[i]).jsonName == hs[i].jsonName && Plain(hs[j]).jsonName == hs[j].jsonName;
    }
  }

  lemma SortRearranged(r: string -> string, fs: seq<Field>, gs: seq<Field>)
    requires Rearranged(r, fs, gs) && DistinctNames(fs)
    ensures Twins(r, ByJSONName(fs), ByJSONName(gs))
  {
    var hs :| Twins(r, fs, hs) && multiset(hs) == multiset(gs);
    TwinNames(r, fs, hs);
    SortTwins(r, fs, hs);
    SortForgetsOrder(JsonKey, hs, gs);
  }

  function Renamed(r: string -> string, path: seq<string>): (p: seq<string>)
    ensures |p| == |path| && forall i :: 0 <= i < |path| ==> p[i] == r(path[i])
  {
    seq(|path|, i requires 0 <= i < |path| => r(path[i]))
  }

  lemma RenamedMember(r: string -> string, path: seq<string>, n: string)
    requires Injective(r)
    ensures r(n) in Renamed(r, path) <==> n in path
    ensures Renamed(r, path + [n]) == Renamed(r, path) + [r(n)]
  {
    if n in path {
      var i :| 0 <= i < |path| && path[i] == n;
      assert Renamed(r, path)[i] == r(n);
    }
  }

  lemma RenamedExposed(r: string -> string, ms: Models, ns: Models, n: string)
    requires SameShape(r, ms, ns)
    ensures r(n) in ns <==> n in ms
  {
    if r(n) in ns {
      var k :| k in ms && r(k) == r(n);
    }
  }

  /** The schema a type stands for does not change. */
  lemma {:induction false} SchemaForgetsNames(r: string -> string, ms: Models, ns: Models, name: string, path: seq<string>)
    requires SameShape(r, ms, ns)
    ensures SchemaOf(ms, name, path).Ok? <==> SchemaOf(ns, r(name), Renamed(r, path)).Ok?
    ensures SchemaOf(ms, name, path).Ok? ==> SchemaOf(ms, name, path) == SchemaOf(ns, r(name), Renamed(r, path))
    decreases ms.Keys - PathSet(path), 0, 0
  {
    RenamedExposed(r, ms, ns, name);
    RenamedMember(r, path, name);
    if name in ms && name !in path {
      assert name in ms.Keys - PathSet(path) && name !in ms.Keys - PathSet(path + [name]);
      assert ms.Keys - PathSet(path + [name]) < ms.Keys - PathSet(path);
      SortRearranged(r, ms[name].fields, ns[r(name)].fields);
      FieldsForgetNames(r, ms, ns, ByJSONName(ms[name].fields), ByJSONName(ns[r(name)].fields), path + [name]);
    }
  }

  lemma {:induction false} FieldsForgetNames(
      r: string -> string, ms: Models, ns: Models, fs: seq<Field>, gs: seq<Field>, path: seq<string>)
    requires SameShape(r, ms, ns) && Twins(r, fs, gs)
    ensures FieldsOf(ms, fs, path).Ok? <==> FieldsOf(ns, gs, Renamed(r, path)).Ok?
    ensures FieldsOf(ms, fs, path).Ok? ==> FieldsOf(ms, fs, path) == FieldsOf(ns, gs, Renamed(r, path))
    decreases ms.Keys - PathSet(path), 2, |fs|
  {
    if fs != [] {
      TwinsUncons(r, fs, gs);
      if fs[0].elem.Some? {
        SchemaForgetsNames(r, ms, ns, fs[0].elem.value.name, path);
      }
      FieldsForgetNames(r, ms, ns, fs[1..], gs[1..], path);
    }
  }

  /** Reordering struct fields and renaming Go types leaves an operation's bytes as they are. */
  lemma BytesForgetNames(r: string -> string, ms: Models, op: Operation, ns: Models, op': Operation)
    requires SameShape(r, ms, ns)
    requires op.name == op'.name && op.kind == op'.kind && op.rev == op'.rev
    requires op.req.Some? && op'.req.Some? && NameOf(op'.req.value) == r(NameOf(op.req.value))
    requires op.kind == KIND_COMMAND ==> op.resp.Some? && op'.resp.Some? && NameOf(op'.resp.value) == r(NameOf(op.resp.value))
    ensures Canonical(ms, op).Ok? <==> Canonical(ns, op').Ok?
    ensures Canonical(ms, op).Ok? ==> Canonical(ms, op) == Canonical(ns, op')
  {
    assert Renamed(r, []) == [];
    SchemaForgetsNames(r, ms, ns, NameOf(op.req.value), []);
    if op.kind == KIND_COMMAND {
      SchemaForgetsNames(r, ms, ns, NameOf(op.resp.value), []);
    }
  }
}
