/** What the bytes behind a schema id say of the declared fields of the two model sets. */
module SchemaContracts {
  import opened Strings
  import opened Sorting
  import opened Netstrings
  import opened Payloads
  import opened SchemaId
  import opened SchemaIdLaws

  // ----- a schema and the model it was made from

  /** What a peer sees of a field, read off the field and the spelling of its type. */
  predicate Shows(f: Field, s: SchemaField) {
    && s.jsonName == f.jsonName
    && (s.optional <==> f.optional)
    && (s.nullable <==> !f.optional && (f.typ.Slice? || f.typ.Pointer?))
    && (s.list <==> f.typ.Slice?)
    && s.wire == f.wire
    && s.class_ == f.class_
  }

  /** The tree stands for the type called `name`: the type's fields, by JSON name, are shown one
      by one, and below each stands the tree of the struct it leads to, if it leads to one. */
  ghost predicate Shown(ms: Models, name: string, s: Schema)
    decreases s, 1
  {
    name in ms && ShownFields(ms, ByJSONName(ms[name].fields), s.fields)
  }

  ghost predicate ShownFields(ms: Models, fs: seq<Field>, ss: seq<SchemaField>)
    decreases ss, 0
  {
    |fs| == |ss| && forall i :: 0 <= i < |ss| ==> Shows(fs[i], ss[i]) && ShownBelow(ms, fs[i].elem, ss[i].elem)
  }

  ghost predicate ShownBelow(ms: Models, elem: Option<TypeId>, s: Option<Schema>)
    decreases s, 2
  {
    (elem.Some? <==> s.Some?) && (elem.Some? ==> Shown(ms, elem.value.name, s.value))
  }

  lemma ShownCons(ms: Models, f: Field, fs: seq<Field>, s: SchemaField, ss: seq<SchemaField>)
    requires Shows(f, s) && ShownBelow(ms, f.elem, s.elem) && ShownFields(ms, fs, ss)
    ensures ShownFields(ms, [f] + fs, [s] + ss)
  {
    var gs, ts := [f] + fs, [s] + ss;
    forall i | 0 <= i < |ts|
      ensures Shows(gs[i], ts[i]) && ShownBelow(ms, gs[i].elem, ts[i].elem)
    {
      if i > 0 {
        assert Shows(fs[i - 1], ss[i - 1]) && ShownBelow(ms, fs[i - 1].elem, ss[i - 1].elem);
      }
    }
  }

  /** The schema of a type stands for it. */
  lemma {:induction false} SchemaIsShown(ms: Models, name: string, path: seq<string>)
    requires SchemaOf(ms, name, path).Ok?
    ensures Shown(ms, name, SchemaOf(ms, name, path).value)
    decreases ms.Keys - PathSet(path), 0, 0
  {
    PathGrows(ms.Keys, path, name);
    FieldsAreShown(ms, ByJSONName(ms[name].fields), path + [name]);
  }

  lemma {:induction false} FieldsAreShown(ms: Models, fs: seq<Field>, path: seq<string>)
    requires FieldsOf(ms, fs, path).Ok?
    ensures ShownFields(ms, fs, FieldsOf(ms, fs, path).value)
    decreases ms.Keys - PathSet(path), 2, |fs|
  {
    if fs != [] {
      if fs[0].elem.Some? {
        SchemaIsShown(ms, fs[0].elem.value.name, path);
      }
      FieldsAreShown(ms, fs[1..], path);
      var elem, rest := ElemOf(ms, fs[0].elem, path).value, FieldsOf(ms, fs[1..], path).value;
      ShownCons(ms, fs[0], fs[1..], Plain(fs[0]).(elem := elem), rest);
      assert fs == [fs[0]] + fs[1..];
    }
  }

  /** `fs` are the fields of the type called `name`, in some order. */
  predicate InSomeOrder(ms: Models, name: string, fs: seq<Field>) {
    name in ms && multiset(fs) == multiset(ms[name].fields)
  }

  /** The fields of a schema are those of the model of its name, in ascending order of their
      JSON names, each shown as it is declared, with the tree of its struct below it. */
  lemma SchemaShowsFields(ms: Models, name: string, path: seq<string>) returns (fs: seq<Field>)
    requires SchemaOf(ms, name, path).Ok?
    ensures InSomeOrder(ms, name, fs) && ShownFields(ms, fs, SchemaOf(ms, name, path).value.fields)
    ensures forall i, j :: 0 <= i < j < |fs| ==> Leq(fs[i].jsonName, fs[j].jsonName)
  {
    SchemaIsShown(ms, name, path);
    fs := ByJSONName(ms[name].fields);
    SortSorted(JsonKey, ms[name].fields);
    forall i, j | 0 <= i < j < |fs|
      ensures Leq(fs[i].jsonName, fs[j].jsonName)
    {
      assert Leq(JsonKey(fs[i]), JsonKey(fs[j]));
    }
  }

  lemma ShownOnce(f: Field, s: SchemaField, t: SchemaField)
    requires Shows(f, s) && Shows(f, t) && s.elem == t.elem
    ensures s == t
  {
  }

  /** One tree at most stands for a type. */
  lemma {:induction false} ShownUnique(ms: Models, name: string, s: Schema, t: Schema)
    requires Shown(ms, name, s) && Shown(ms, name, t)
    ensures s == t
    decreases s
  {
    var fs := ByJSONName(ms[name].fields);
    forall i | 0 <= i < |fs|
      ensures s.fields[i] == t.fields[i]
    {
      assert ShownBelow(ms, fs[i].elem, s.fields[i].elem) && ShownBelow(ms, fs[i].elem, t.fields[i].elem);
      if fs[i].elem.Some? {
        ShownUnique(ms, fs[i].elem.value.name, s.fields[i].elem.value, t.fields[i].elem.value);
      }
      ShownOnce(fs[i], s.fields[i], t.fields[i]);
    }
    assert s.fields == t.fields;
  }

  /** The tree is strictly inside a tree of each type on the path. */
  ghost predicate Inside(ms: Models, s: Schema, path: seq<string>) {
    forall n <- path :: exists t :: Shown(ms, n, t) && s < t
  }

  lemma InsideField(ms: Models, name: string, s: Schema, path: seq<string>, i: nat)
    requires Shown(ms, name, s) && Inside(ms, s, path) && i < |s.fields| && s.fields[i].elem.Some?
    ensures Inside(ms, s.fields[i].elem.value, path + [name])
  {
    var below := s.fields[i].elem.value;
    assert below < s;
    forall n <- path + [name]
      ensures exists t :: Shown(ms, n, t) && below < t
    {
      if n in path {
        var t :| Shown(ms, n, t) && s < t;
        assert Shown(ms, n, t) && below < t;
      }
    }
  }

  /** A type that a tree stands for has it as its schema. */
  lemma {:induction false} ShownIsSchema(ms: Models, name: string, s: Schema, path: seq<string>)
    requires Shown(ms, name, s) && Inside(ms, s, path)
    ensures SchemaOf(ms, name, path) == Ok(s)
    decreases s, 0
  {
    if name in path {
      var t :| Shown(ms, name, t) && s < t;
      ShownUnique(ms, name, s, t);
    }
    PathGrows(ms.Keys, path, name);
    var fs := ByJSONName(ms[name].fields);
    forall i | 0 <= i < |fs|
      ensures ElemOf(ms, fs[i].elem, path + [name]) == Ok(s.fields[i].elem)
    {
      assert ShownBelow(ms, fs[i].elem, s.fields[i].elem);
      if fs[i].elem.Some? {
        InsideField(ms, name, s, path, i);
        ShownIsSchema(ms, fs[i].elem.value.name, s.fields[i].elem.value, path + [name]);
      }
    }
    ShownFieldsAre(ms, fs, s.fields, path + [name]);
  }

  lemma {:induction false} ShownFieldsAre(ms: Models, fs: seq<Field>, ss: seq<SchemaField>, path: seq<string>)
    requires ShownFields(ms, fs, ss)
    requires forall i :: 0 <= i < |fs| ==> ElemOf(ms, fs[i].elem, path) == Ok(ss[i].elem)
    ensures FieldsOf(ms, fs, path) == Ok(ss)
    decreases |fs|
  {
    if fs != [] {
      ShownTail(ms, fs, ss);
      forall i | 0 <= i < |fs[1..]|
        ensures ElemOf(ms, fs[1..][i].elem, path) == Ok(ss[1..][i].elem)
      {
        assert ElemOf(ms, fs[i + 1].elem, path) == Ok(ss[i + 1].elem);
      }
      ShownFieldsAre(ms, fs[1..], ss[1..], path);
      ShownOnce(fs[0], Plain(fs[0]).(elem := ss[0].elem), ss[0]);
      assert ss == [ss[0]] + ss[1..];
    }
  }

  lemma ShownTail(ms: Models, fs: seq<Field>, ss: seq<SchemaField>)
    requires ShownFields(ms, fs, ss) && fs != []
    ensures Shows(fs[0], ss[0]) && ShownFields(ms, fs[1..], ss[1..])
  {
    forall i | 0 <= i < |ss[1..]|
      ensures Shows(fs[1..][i], ss[1..][i]) && ShownBelow(ms, fs[1..][i].elem, ss[1..][i].elem)
    {
      assert Shows(fs[i + 1], ss[i + 1]) && ShownBelow(ms, fs[i + 1].elem, ss[i + 1].elem);
    }
  }

  /** A schema is the one finite tree that stands for its type. */
  lemma SchemaExactly(ms: Models, name: string, s: Schema)
    ensures SchemaOf(ms, name, []) == Ok(s) <==> Shown(ms, name, s)
  {
    if SchemaOf(ms, name, []) == Ok(s) {
      SchemaIsShown(ms, name, []);
    }
    if Shown(ms, name, s) {
      ShownIsSchema(ms, name, s, []);
    }
  }

  // ----- alike

  /** Two declared fields promise a peer the same. */
  predicate SameContract(f: Field, g: Field) {
    && f.jsonName == g.jsonName
    && f.wire == g.wire
    && f.class_ == g.class_
    && (f.optional <==> g.optional)
    && (f.typ.Slice? <==> g.typ.Slice?)
    && (f.optional || (f.typ.Pointer? <==> g.typ.Pointer?))
  }

  /** The two fields are alike, down to a depth. */
  ghost predicate AlikeField(ms: Models, f: Field, ns: Models, g: Field, depth: nat)
    decreases depth, 2
  {
    && SameContract(f, g)
    && (f.elem.Some? <==> g.elem.Some?)
    && (f.elem.Some? ==> Alike(ms, f.elem.value.name, ns, g.elem.value.name, depth))
  }

  ghost predicate AlikeFields(ms: Models, fs: seq<Field>, ns: Models, gs: seq<Field>, depth: nat)
    decreases depth, 3
  {
    |fs| == |gs| && forall i :: 0 <= i < |fs| ==> AlikeField(ms, fs[i], ns, gs[i], depth)
  }

  /** In these orders the fields of the two types are alike pair by pair, one level further down. */
  ghost predicate OrdersAlike(ms: Models, a: string, fs: seq<Field>, ns: Models, b: string, gs: seq<Field>, depth: nat)
    decreases depth, 0
  {
    depth > 0 && InSomeOrder(ms, a, fs) && InSomeOrder(ns, b, gs) && AlikeFields(ms, fs, ns, gs, depth - 1)
  }

  /** The two types have, each in some order, fields that are alike pair by pair, down to a depth. */
  ghost predicate Alike(ms: Models, a: string, ns: Models, b: string, depth: nat)
    decreases depth, 1
  {
    depth == 0 || exists fs, gs :: OrdersAlike(ms, a, fs, ns, b, gs, depth)
  }

  lemma ShownAlike(f: Field, g: Field, s: SchemaField)
    requires Shows(f, s) && Shows(g, s)
    ensures SameContract(f, g)
  {
  }

  lemma ListedFields(ms: Models, name: string, s: Schema) returns (fs: seq<Field>)
    requires Shown(ms, name, s)
    ensures InSomeOrder(ms, name, fs) && ShownFields(ms, fs, s.fields)
  {
    fs := ByJSONName(ms[name].fields);
  }

  /** Types that one tree stands for are alike, to every depth. */
  lemma {:induction false} OneTreeAlike(ms: Models, a: string, ns: Models, b: string, s: Schema, depth: nat)
    requires Shown(ms, a, s) && Shown(ns, b, s)
    ensures Alike(ms, a, ns, b, depth)
    decreases depth, 0
  {
    if depth > 0 {
      var fs := ListedFields(ms, a, s);
      var gs := ListedFields(ns, b, s);
      OneTreeFields(ms, fs, ns, gs, s.fields, depth - 1);
      assert OrdersAlike(ms, a, fs, ns, b, gs, depth);
    }
  }

  lemma {:induction false} OneTreeFields(
      ms: Models, fs: seq<Field>, ns: Models, gs: seq<Field>, ss: seq<SchemaField>, depth: nat)
    requires ShownFields(ms, fs, ss) && ShownFields(ns, gs, ss)
    ensures AlikeFields(ms, fs, ns, gs, depth)
    decreases depth, 1
  {
    forall i | 0 <= i < |fs|
      ensures AlikeField(ms, fs[i], ns, gs[i], depth)
    {
      ShownAlike(fs[i], gs[i], ss[i]);
      assert ShownBelow(ms, fs[i].elem, ss[i].elem) && ShownBelow(ns, gs[i].elem, ss[i].elem);
      if ss[i].elem.Some? {
        OneTreeAlike(ms, fs[i].elem.value.name, ns, gs[i].elem.value.name, ss[i].elem.value, depth);
      }
    }
  }

  /** No struct has two fields of one JSON name. */
  predicate NamesApart(ms: Models) {
    forall n <- ms :: DistinctNames(ms[n].fields)
  }

  lemma ApartDetermines(fs: seq<Field>)
    requires DistinctNames(fs)
    ensures KeyDetermines(JsonKey, fs)
  {
    forall f, g | f in fs && g in fs && JsonKey(f) == JsonKey(g)
      ensures f == g
    {
      var i :| 0 <= i < |fs| && fs[i] == f;
      var j :| 0 <= j < |fs| && fs[j] == g;
    }
  }

  lemma SortInSomeOrder(ms: Models, name: string, fs: seq<Field>)
    requires NamesApart(ms) && InSomeOrder(ms, name, fs)
    ensures SortBy(JsonKey, fs) == ByJSONName(ms[name].fields)
  {
    ApartDetermines(ms[name].fields);
    SortForgetsOrder(JsonKey, ms[name].fields, fs);
  }

  lemma SortAlike(ms: Models, fs: seq<Field>, ns: Models, gs: seq<Field>, depth: nat)
    requires AlikeFields(ms, fs, ns, gs, depth)
    ensures AlikeFields(ms, SortBy(JsonKey, fs), ns, SortBy(JsonKey, gs), depth)
  {
    var alike := (f, g) => AlikeField(ms, f, ns, g, depth);
    assert Paired(alike, fs, gs);
    SortPaired(alike, JsonKey, fs, gs);
    var a, b := SortBy(JsonKey, fs), SortBy(JsonKey, gs);
    forall i | 0 <= i < |a|
      ensures AlikeField(ms, a[i], ns, b[i], depth)
    {
      assert alike(a[i], b[i]);
    }
  }

  lemma SortedAlike(ms: Models, a: string, ns: Models, b: string, depth: nat)
    requires NamesApart(ms) && NamesApart(ns) && Alike(ms, a, ns, b, depth + 1)
    ensures a in ms && b in ns && AlikeFields(ms, ByJSONName(ms[a].fields), ns, ByJSONName(ns[b].fields), depth)
  {
    var fs, gs :| OrdersAlike(ms, a, fs, ns, b, gs, depth + 1);
    SortInSomeOrder(ms, a, fs);
    SortInSomeOrder(ns, b, gs);
    SortAlike(ms, fs, ns, gs, depth);
  }

  /** The two types are alike, however deep one looks. */
  ghost predicate AlikeThroughout(ms: Models, a: string, ns: Models, b: string) {
    forall depth: nat :: Alike(ms, a, ns, b, depth)
  }

  lemma AlikeShown(f: Field, g: Field, s: SchemaField, t: SchemaField)
    requires Shows(f, s) && Shows(g, t) && SameContract(f, g) && s.elem == t.elem
    ensures s == t
  {
  }

  /** Where types are alike throughout, one tree stands for both. */
  lemma {:induction false} AlikeOneTree(ms: Models, a: string, s: Schema, ns: Models, b: string, t: Schema)
    requires NamesApart(ms) && NamesApart(ns) && AlikeThroughout(ms, a, ns, b)
    requires Shown(ms, a, s) && Shown(ns, b, t)
    ensures s == t
    decreases s
  {
    var fs, gs := ByJSONName(ms[a].fields), ByJSONName(ns[b].fields);
    SortedAlike(ms, a, ns, b, 0);
    forall i | 0 <= i < |fs|
      ensures s.fields[i] == t.fields[i]
    {
      assert ShownBelow(ms, fs[i].elem, s.fields[i].elem) && ShownBelow(ns, gs[i].elem, t.fields[i].elem);
      assert AlikeField(ms, fs[i], ns, gs[i], 0);
      if fs[i].elem.Some? {
        AlikeBelow(ms, a, ns, b, i);
        AlikeOneTree(ms, fs[i].elem.value.name, s.fields[i].elem.value, ns, gs[i].elem.value.name, t.fields[i].elem.value);
      }
      AlikeShown(fs[i], gs[i], s.fields[i], t.fields[i]);
    }
    assert s.fields == t.fields;
  }

  lemma AlikeBelow(ms: Models, a: string, ns: Models, b: string, i: nat)
    requires NamesApart(ms) && NamesApart(ns) && AlikeThroughout(ms, a, ns, b)
    requires a in ms && b in ns && i < |ms[a].fields| && i < |ns[b].fields|
    requires ByJSONName(ms[a].fields)[i].elem.Some? && ByJSONName(ns[b].fields)[i].elem.Some?
    ensures AlikeThroughout(ms, ByJSONName(ms[a].fields)[i].elem.value.name, ns, ByJSONName(ns[b].fields)[i].elem.value.name)
  {
    var f, g := ByJSONName(ms[a].fields)[i], ByJSONName(ns[b].fields)[i];
    forall depth: nat
      ensures Alike(ms, f.elem.value.name, ns, g.elem.value.name, depth)
    {
      assert Alike(ms, a, ns, b, depth + 1);
      SortedAlike(ms, a, ns, b, depth);
      assert AlikeField(ms, f, ns, g, depth);
    }
  }

  // ----- equal bytes

  /** The types called so, where there are such, are alike throughout. */
  ghost predicate AlikeTypes(ms: Models, t: Option<GoType>, ns: Models, u: Option<GoType>) {
    t.Some? && u.Some? && AlikeThroughout(ms, NameOf(t.value), ns, NameOf(u.value))
  }

  /** The two operations declare the same, down to the last field. */
  ghost predicate SameOperation(ms: Models, op1: Operation, ns: Models, op2: Operation) {
    && op1.kind == op2.kind && op1.name == op2.name && op1.rev == op2.rev
    && AlikeTypes(ms, op1.req, ns, op2.req)
    && (op1.kind == "command" ==> AlikeTypes(ms, op1.resp, ns, op2.resp))
  }

  lemma SameTreeAlike(ms: Models, t: Option<GoType>, ns: Models, u: Option<GoType>)
    requires TypeSchema(ms, t).Ok? && TypeSchema(ms, t) == TypeSchema(ns, u)
    ensures AlikeTypes(ms, t, ns, u)
  {
    var s := TypeSchema(ms, t).value;
    SchemaIsShown(ms, NameOf(t.value), []);
    SchemaIsShown(ns, NameOf(u.value), []);
    forall depth: nat
      ensures Alike(ms, NameOf(t.value), ns, NameOf(u.value), depth)
    {
      OneTreeAlike(ms, NameOf(t.value), ns, NameOf(u.value), s, depth);
    }
  }

  lemma AlikeSameTree(ms: Models, t: Option<GoType>, ns: Models, u: Option<GoType>)
    requires NamesApart(ms) && NamesApart(ns) && AlikeTypes(ms, t, ns, u)
    requires TypeSchema(ms, t).Ok? && TypeSchema(ns, u).Ok?
    ensures TypeSchema(ms, t) == TypeSchema(ns, u)
  {
    SchemaIsShown(ms, NameOf(t.value), []);
    SchemaIsShown(ns, NameOf(u.value), []);
    AlikeOneTree(ms, NameOf(t.value), TypeSchema(ms, t).value, ns, NameOf(u.value), TypeSchema(ns, u).value);
  }

  /** The same bytes always mean the same operation: kind, name, revision, and field for field
      JSON name, optionality, list, pointer, wire kind and classification, at every depth. */
  lemma SameBytesSameFields(ms: Models, op1: Operation, ns: Models, op2: Operation)
    requires Canonical(ms, op1).Ok? && Canonical(ns, op2).Ok?
    requires Encode(Canonical(ms, op1).value, CLOSE) == Encode(Canonical(ns, op2).value, CLOSE)
    ensures SameOperation(ms, op1, ns, op2)
  {
    SameBytesSameContract(ms, op1, ns, op2);
    SameTreeAlike(ms, op1.req, ns, op2.req);
    if op1.kind == KIND_COMMAND {
      SameTreeAlike(ms, op1.resp, ns, op2.resp);
    }
  }

  /** With distinct JSON names in each struct, the bytes are the same just when the operations are. */
  lemma BytesExactly(ms: Models, op1: Operation, ns: Models, op2: Operation)
    requires NamesApart(ms) && NamesApart(ns)
    requires Canonical(ms, op1).Ok? && Canonical(ns, op2).Ok?
    ensures Encode(Canonical(ms, op1).value, CLOSE) == Encode(Canonical(ns, op2).value, CLOSE)
            <==> SameOperation(ms, op1, ns, op2)
  {
    if Encode(Canonical(ms, op1).value, CLOSE) == Encode(Canonical(ns, op2).value, CLOSE) {
      SameBytesSameFields(ms, op1, ns, op2);
    }
    if SameOperation(ms, op1, ns, op2) {
      AlikeSameTree(ms, op1.req, ns, op2.req);
      if op1.kind == KIND_COMMAND {
        AlikeSameTree(ms, op1.resp, ns, op2.resp);
      }
      assert Canonical(ms, op1) == Canonical(ns, op2);
    }
  }

  // ----- the layout

  /** The words a field is spelled with. */
  lemma FieldWords(f: Field)
    ensures |Header(Plain(f))| == 6
    ensures Header(Plain(f))[0] == f.jsonName && Header(Plain(f))[4] == f.wire && Header(Plain(f))[5] == f.class_
    ensures f.optional ==> Header(Plain(f))[1] == "optional" && Header(Plain(f))[2] == "nonnull"
    ensures !f.optional ==> Header(Plain(f))[1] == "required"
    ensures !f.optional ==> Header(Plain(f))[2] == if f.typ.Slice? || f.typ.Pointer? then "nullable" else "nonnull"
    ensures Header(Plain(f))[3] == if f.typ.Slice? then "list" else "single"
  {
  }

  lemma LeafSchema(ms: Models, name: string, f: Field)
    requires name in ms && ms[name].fields == [f] && f.elem == None
    ensures SchemaOf(ms, name, []) == Ok(Schema([Plain(f)]))
  {
    var fs := ByJSONName([f]);
    assert [f][1..] == [] && fs == [f];
    assert fs[1..] == [];
    PathGrows(ms.Keys, [], name);
    var path := [] + [name];
    assert FieldsOf(ms, [], path) == Ok([]);
    assert ElemOf(ms, f.elem, path) == Ok(None);
    assert Plain(f).(elem := None) == Plain(f);
    assert [Plain(f)] + [] == [Plain(f)];
  }

  lemma RenderLeaf(f: SchemaField)
    requires f.elem == None
    ensures Render(Schema([f])) == ["struct", "1"] + Header(f) + ["-"]
  {
    RenderFieldsCons(f, []);
    assert [f] + [] == [f];
    assert RenderFields([f]) == Header(f) + ["-"] + [] == Header(f) + ["-"];
    assert Itoa(1) == "1";
  }

  /** The atoms of a command with one plain field to ask and one to answer. */
  lemma LeafCommand(ms: Models, op: Operation, f: Field, g: Field)
    requires op.kind == KIND_COMMAND && f.elem == None && g.elem == None
    requires op.req.Some? && NameOf(op.req.value) in ms && ms[NameOf(op.req.value)].fields == [f]
    requires op.resp.Some? && NameOf(op.resp.value) in ms && ms[NameOf(op.resp.value)].fields == [g]
    ensures Canonical(ms, op) == Ok([ALGORITHM, op.kind, op.name, Itoa(op.rev)]
              + (["struct", "1"] + Header(Plain(f)) + ["-"] + (["struct", "1"] + Header(Plain(g)) + ["-"])))
  {
    LeafSchema(ms, NameOf(op.req.value), f);
    LeafSchema(ms, NameOf(op.resp.value), g);
    RenderLeaf(Plain(f));
    RenderLeaf(Plain(g));
  }

  lemma PlainWords(f: Field)
    requires !f.optional && f.typ.Scalar?
    ensures ["struct", "1"] + Header(Plain(f)) + ["-"]
         == ["struct", "1", f.jsonName, "required", "nonnull", "single", f.wire, f.class_, "-"]
  {
    FieldWords(f);
    assert Header(Plain(f)) == [f.jsonName, "required", "nonnull", "single", f.wire, f.class_];
  }

  /** The atoms schemas.json lists for cmd.desktop-applications.v1.quit. */
  lemma QuitAtoms(ms: Models, op: Operation, f: Field, g: Field)
    requires op.kind == "command" && op.name == "cmd.desktop-applications.v1.quit" && op.rev == 1
    requires op.req.Some? && NameOf(op.req.value) in ms && ms[NameOf(op.req.value)].fields == [f]
    requires op.resp.Some? && NameOf(op.resp.value) in ms && ms[NameOf(op.resp.value)].fields == [g]
    requires f.jsonName == "sessionId" && !f.optional && f.typ == Scalar("string", "string") && f.elem == None
    requires f.wire == "string" && f.class_ == "subject"
    requires g.jsonName == "ok" && !g.optional && g.typ == Scalar("bool", "bool") && g.elem == None
    requires g.wire == "bool" && g.class_ == "public"
    ensures Canonical(ms, op).Ok? && Canonical(ms, op).value == [
        "bd.schema-id.v1", "command", "cmd.desktop-applications.v1.quit", "1",
        "struct", "1", "sessionId", "required", "nonnull", "single", "string", "subject", "-",
        "struct", "1", "ok", "required", "nonnull", "single", "bool", "public", "-"]
  {
    LeafCommand(ms, op, f, g);
    PlainWords(f);
    PlainWords(g);
    assert Itoa(1) == "1";
  }
}
