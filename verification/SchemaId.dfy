/** The canonical form behind a schema id (cmd/plugin-typescript/schemaid.go): a payload's
    field tree printed as netstring atoms. */
module SchemaId {
  import opened Strings
  import opened Sorting
  import opened Netstrings
  import opened Payloads

  const ALGORITHM := "bd.schema-id.v1"
  const KIND_COMMAND := "command"
  const CLOSE := ';'

  datatype SchemaError = MissingType | NotExposed(name: string) | Cyclic(name: string)

  datatype Result<+T> = Ok(value: T) | Err(error: SchemaError)

  // ----- what a payload's schema is

  /** The tree a schema id stands for: field for field, without any Go name. */
  datatype Schema = Schema(fields: seq<SchemaField>)

  datatype SchemaField = SchemaField(
    jsonName: string,
    optional: bool,
    nullable: bool,
    list: bool,
    wire: string,
    class_: string,
    elem: Option<Schema>)

  function PathSet(path: seq<string>): set<string> {
    set n | n in path
  }

  lemma PathGrows(names: set<string>, path: seq<string>, name: string)
    requires name in names && name !in path
    ensures names - PathSet(path + [name]) < names - PathSet(path)
  {
    assert name in names - PathSet(path) && name !in names - PathSet(path + [name]);
  }

  /** The schema of the type called `name`, unless it is not exposed or already on the path. */
  function SchemaOf(ms: Models, name: string, path: seq<string>): Result<Schema>
    decreases ms.Keys - PathSet(path), 0, 0
  {
    if name !in ms then Err(NotExposed(name))
    else if name in path then Err(Cyclic(name))
    else
      PathGrows(ms.Keys, path, name);
      match FieldsOf(ms, ByJSONName(ms[name].fields), path + [name])
      case Ok(fields) => Ok(Schema(fields))
      case Err(e) => Err(e)
  }

  function ElemOf(ms: Models, elem: Option<TypeId>, path: seq<string>): Result<Option<Schema>>
    decreases ms.Keys - PathSet(path), 1, 0
  {
    match elem
    case None => Ok(None)
    case Some(id) =>
      match SchemaOf(ms, id.name, path)
      case Ok(s) => Ok(Some(s))
      case Err(e) => Err(e)
  }

  function FieldsOf(ms: Models, fields: seq<Field>, path: seq<string>): Result<seq<SchemaField>>
    decreases ms.Keys - PathSet(path), 2, |fields|
  {
    if fields == [] then Ok([])
    else
      var f := fields[0];
      match ElemOf(ms, f.elem, path)
      case Err(e) => Err(e)
      case Ok(elem) =>
        match FieldsOf(ms, fields[1..], path)
        case Err(e) => Err(e)
        case Ok(rest) => Ok([Plain(f).(elem := elem)] + rest)
  }

  // ----- how it is printed

  function Header(f: SchemaField): seq<string> {
    [
      f.jsonName,
      if f.optional then "optional" else "required",
      if f.nullable then "nullable" else "nonnull",
      if f.list then "list" else "single",
      f.wire,
      f.class_
    ]
  }

  function Render(s: Schema): seq<string>
    decreases s, 0
  {
    ["struct", Itoa(|s.fields|)] + RenderFields(s.fields)
  }

  function RenderFields(fs: seq<SchemaField>): seq<string>
    decreases fs, 0
  {
    if fs == [] then []
    else Header(fs[0]) + RenderElem(fs[0].elem) + RenderFields(fs[1..])
  }

  function RenderElem(elem: Option<Schema>): seq<string>
    decreases elem, 0
  {
    if elem.Some? then Render(elem.value) else ["-"]
  }

  datatype Operation = Operation(name: string, kind: string, rev: nat, req: Option<GoType>, resp: Option<GoType>)

  function Printed(op: Operation, req: Schema, resp: Option<Schema>): seq<string> {
    [ALGORITHM, op.kind, op.name, Itoa(op.rev)] + (Render(req) + RenderOptional(resp))
  }

  function RenderOptional(resp: Option<Schema>): seq<string> {
    if resp.Some? then Render(resp.value) else []
  }

  function TypeSchema(ms: Models, t: Option<GoType>): Result<Schema> {
    match t
    case None => Err(MissingType)
    case Some(t) => SchemaOf(ms, NameOf(t), [])
  }

  /** The atoms of an operation: a command has a response, an event has none. */
  function Canonical(ms: Models, op: Operation): Result<seq<string>> {
    match TypeSchema(ms, op.req)
    case Err(e) => Err(e)
    case Ok(req) =>
      if op.kind == KIND_COMMAND then
        match TypeSchema(ms, op.resp)
        case Err(e) => Err(e)
        case Ok(resp) => Ok(Printed(op, req, Some(resp)))
      else Ok(Printed(op, req, None))
  }

  // ----- the code

  /** The canonical atoms in order, and the path of type names being printed. */
  class Printer {
    var atoms: seq<string>
    var path: seq<string>
    ghost var plain: seq<string>

    constructor ()
      ensures Valid() && atoms == [] && plain == [] && path == []
    {
      atoms, path := [], [];
      plain := [];
    }

    /** Each atom is the netstring of its plain text. */
    ghost predicate Valid()
      reads this
    {
      |atoms| == |plain| && forall i :: 0 <= i < |atoms| ==> atoms[i] == Atom(plain[i], CLOSE)
    }

    method Add(s: string)
      requires Valid()
      modifies this`atoms, this`plain
      ensures Valid() && plain == old(plain) + [s]
    {
      atoms := atoms + [Itoa(|s|) + [':'] + s + [CLOSE]];
      plain := plain + [s];
    }

    method AddHeader(f: Field, ghost sf: SchemaField)
      requires Valid()
      requires sf == Plain(f)
      modifies this`atoms, this`plain
      ensures Valid() && plain == old(plain) + Header(sf)
    {
      Add(f.jsonName);
      AddEither(f.optional, "optional", "required");
      AddEither(f.Nullable(), "nullable", "nonnull");
      AddEither(f.List(), "list", "single");
      Add(f.wire);
      Add(f.class_);
    }

    method AddEither(flag: bool, yes: string, no: string)
      requires Valid()
      modifies this`atoms, this`plain
      ensures Valid() && plain == old(plain) + [if flag then yes else no]
    {
      if flag {
        Add(yes);
      } else {
        Add(no);
      }
    }

    /** canonicalSchema, on the dereferenced type's name. */
    method PrintSchema(ms: Models, name: string) returns (error: Option<SchemaError>)
      requires Valid()
      modifies this
      ensures Valid() && path == old(path)
      ensures match SchemaOf(ms, name, old(path))
              case Ok(s) => error == None && plain == old(plain) + Render(s)
              case Err(e) => error == Some(e)
      decreases ms.Keys - PathSet(path), 0, 0
    {
      if name !in ms {
        return Some(NotExposed(name));
      }
      if name in path {
        return Some(Cyclic(name));
      }
      ghost var below := path;
      path := path + [name];
      PathGrows(ms.Keys, below, name);
      error := PrintStruct(ms, ByJSONName(ms[name].fields));
      assert path[..|path| - 1] == below;
      path := path[..|path| - 1];
    }

    /** The type's own atoms, with its name on the path. */
    method PrintStruct(ms: Models, fields: seq<Field>) returns (error: Option<SchemaError>)
      requires Valid()
      modifies this
      ensures Valid() && path == old(path)
      ensures match FieldsOf(ms, fields, old(path))
              case Ok(fs) => error == None && plain == old(plain) + Render(Schema(fs))
              case Err(e) => error == Some(e)
      decreases ms.Keys - PathSet(path), 3, 0
    {
      Add("struct");
      Add(Itoa(|fields|));
      FieldsOfLength(ms, fields, path);
      error := PrintFields(ms, fields);
    }

    /** The loop over a type's fields. */
    method PrintFields(ms: Models, fields: seq<Field>) returns (error: Option<SchemaError>)
      requires Valid()
      modifies this
      ensures Valid() && path == old(path)
      ensures match FieldsOf(ms, fields, old(path))
              case Ok(fs) => error == None && plain == old(plain) + RenderFields(fs)
              case Err(e) => error == Some(e)
      decreases ms.Keys - PathSet(path), 2, 0
    {
      assert fields[0..] == fields;
      for i := 0 to |fields|
        invariant Valid() && path == old(path)
        invariant Append(plain, FieldsOf(ms, fields[i..], path)) == Append(old(plain), FieldsOf(ms, fields, path))
      {
        assert fields[i..][1..] == fields[i + 1..];
        AppendStep(plain, ms, fields[i..], path);
        error := PrintField(ms, fields[i]);
        if error.Some? {
          return;
        }
      }
      return None;
    }

    method PrintField(ms: Models, f: Field) returns (error: Option<SchemaError>)
      requires Valid()
      modifies this
      ensures Valid() && path == old(path)
      ensures match ElemOf(ms, f.elem, old(path))
              case Ok(s) => error == None && plain == old(plain) + Header(Plain(f)) + RenderElem(s)
              case Err(e) => error == Some(e)
      decreases ms.Keys - PathSet(path), 1, 1
    {
      AddHeader(f, Plain(f));
      error := PrintElem(ms, f.elem);
    }

    method PrintElem(ms: Models, elem: Option<TypeId>) returns (error: Option<SchemaError>)
      requires Valid()
      modifies this
      ensures Valid() && path == old(path)
      ensures match ElemOf(ms, elem, old(path))
              case Ok(s) => error == None && plain == old(plain) + RenderElem(s)
              case Err(e) => error == Some(e)
      decreases ms.Keys - PathSet(path), 1, 0
    {
      match elem {
        case None =>
          Add("-");
          return None;
        case Some(id) =>
          error := PrintSchema(ms, id.name);
      }
    }

    /** canonicalOperation. */
    method PrintOperation(ms: Models, op: Operation) returns (error: Option<SchemaError>)
      requires Valid() && path == [] && plain == []
      modifies this
      ensures Valid()
      ensures match Canonical(ms, op)
              case Ok(all) => error == None && plain == all
              case Err(e) => error == Some(e)
    {
      AddOperation(op);
      ghost var head := plain;
      error := PrintType(ms, op.req);
      if error.Some? {
        return;
      }
      ghost var req := Render(TypeSchema(ms, op.req).value);
      if op.kind == KIND_COMMAND {
        error := PrintType(ms, op.resp);
        if error == None {
          Associate(head, req, Render(TypeSchema(ms, op.resp).value));
        }
      } else {
        Associate(head, req, []);
      }
    }

    method AddOperation(op: Operation)
      requires Valid() && plain == []
      modifies this`atoms, this`plain
      ensures Valid() && plain == [ALGORITHM, op.kind, op.name, Itoa(op.rev)]
    {
      Add(ALGORITHM);
      Add(op.kind);
      Add(op.name);
      Add(Itoa(op.rev));
    }

    method PrintType(ms: Models, t: Option<GoType>) returns (error: Option<SchemaError>)
      requires Valid() && path == []
      modifies this
      ensures Valid() && path == []
      ensures match TypeSchema(ms, t)
              case Ok(s) => error == None && plain == old(plain) + Render(s)
              case Err(e) => error == Some(e)
    {
      if t == None {
        return Some(MissingType);
      }
      error := PrintSchema(ms, NameOf(t.value));
    }
  }

  /** A field's own facts, without what it leads to. */
  function Plain(f: Field): SchemaField {
    SchemaField(f.jsonName, f.optional, f.Nullable(), f.List(), f.wire, f.class_, None)
  }

  /** The atoms after a run, given what is still to be printed. */
  function Append(plain: seq<string>, rest: Result<seq<SchemaField>>): Result<seq<string>> {
    match rest
    case Ok(fs) => Ok(plain + RenderFields(fs))
    case Err(e) => Err(e)
  }

  lemma AppendStep(plain: seq<string>, ms: Models, fields: seq<Field>, path: seq<string>)
    requires fields != []
    ensures Append(plain, FieldsOf(ms, fields, path)) ==
            match ElemOf(ms, fields[0].elem, path)
            case Err(e) => Err(e)
            case Ok(s) => Append(plain + Header(Plain(fields[0])) + RenderElem(s), FieldsOf(ms, fields[1..], path))
  {
    var elem, rest := ElemOf(ms, fields[0].elem, path), FieldsOf(ms, fields[1..], path);
    if elem.Ok? && rest.Ok? {
      var field := Plain(fields[0]).(elem := elem.value);
      RenderFieldsCons(field, rest.value);
      assert Header(field) == Header(Plain(fields[0]));
      assert plain + (Header(field) + RenderElem(elem.value) + RenderFields(rest.value))
          == plain + Header(field) + RenderElem(elem.value) + RenderFields(rest.value);
    }
  }

  lemma Associate(a: seq<string>, b: seq<string>, c: seq<string>)
    ensures a + b + c == a + (b + c) && (c == [] ==> a + b == a + (b + c))
  {
    assert c == [] ==> b + c == b;
  }

  lemma RenderFieldsCons(f: SchemaField, rest: seq<SchemaField>)
    ensures RenderFields([f] + rest) == Header(f) + RenderElem(f.elem) + RenderFields(rest)
  {
    assert ([f] + rest)[1..] == rest;
  }

  /** What the hash is taken over: the atoms run together. */
  function Concat(atoms: seq<string>): string {
    if atoms == [] then "" else atoms[0] + Concat(atoms[1..])
  }

  lemma {:induction false} ConcatAtoms(atoms: seq<string>, plain: seq<string>)
    requires |atoms| == |plain| && forall i :: 0 <= i < |atoms| ==> atoms[i] == Atom(plain[i], CLOSE)
    ensures Concat(atoms) == Encode(plain, CLOSE)
  {
    if atoms != [] {
      ConcatAtoms(atoms[1..], plain[1..]);
    }
  }

  /** The bytes behind an operation's schema id. */
  method CanonicalBytes(ms: Models, op: Operation) returns (r: Result<string>)
    ensures match Canonical(ms, op)
            case Ok(all) => r == Ok(Encode(all, ';'))
            case Err(e) => r == Err(e)
  {
    var printer := new Printer();
    var error := printer.PrintOperation(ms, op);
    if error.Some? {
      return Err(error.value);
    }
    ConcatAtoms(printer.atoms, printer.plain);
    return Ok(Concat(printer.atoms));
  }

  lemma {:induction false} FieldsOfLength(ms: Models, fields: seq<Field>, path: seq<string>)
    ensures FieldsOf(ms, fields, path).Ok? ==> |FieldsOf(ms, fields, path).value| == |fields|
    decreases |fields|
  {
    if fields != [] {
      FieldsOfLength(ms, fields[1..], path);
    }
  }

  // ----- unique decodability

  /** The front of a printed field list, field count known, can be read in one way only. */
  lemma {:induction false} RenderFieldsUnique(fs: seq<SchemaField>, gs: seq<SchemaField>, x: seq<string>, y: seq<string>)
    requires |fs| == |gs| && RenderFields(fs) + x == RenderFields(gs) + y
    ensures fs == gs && x == y
    decreases fs, 0
  {
    if fs == [] {
      assert [] + x == x && [] + y == y;
    } else {
      var f, g := fs[0], gs[0];
      var a := RenderElem(f.elem) + (RenderFields(fs[1..]) + x);
      var b := RenderElem(g.elem) + (RenderFields(gs[1..]) + y);
      assert RenderFields(fs) + x == Header(f) + a;
      assert RenderFields(gs) + y == Header(g) + b;
      HeaderUnique(f, g, a, b);
      RenderElemUnique(f.elem, g.elem, RenderFields(fs[1..]) + x, RenderFields(gs[1..]) + y);
      RenderFieldsUnique(fs[1..], gs[1..], x, y);
      assert fs == [f] + fs[1..] && gs == [g] + gs[1..];
    }
  }

  lemma HeaderUnique(f: SchemaField, g: SchemaField, a: seq<string>, b: seq<string>)
    requires Header(f) + a == Header(g) + b
    ensures a == b && f.(elem := None) == g.(elem := None)
  {
    var x, y := Header(f) + a, Header(g) + b;
    assert x[0] == f.jsonName && y[0] == g.jsonName && x[4] == f.wire && y[4] == g.wire && x[5] == f.class_ && y[5] == g.class_;
    assert x[1] == Header(f)[1] && y[1] == Header(g)[1] && x[2] == Header(f)[2] && y[2] == Header(g)[2];
    assert x[3] == Header(f)[3] && y[3] == Header(g)[3];
    assert |"optional"| == |"required"| && "optional"[0] != "required"[0];
    assert "nullable"[1] != "nonnull"[1] && "list"[0] != "single"[0];
    assert a == x[6..] && b == y[6..];
  }

  lemma {:induction false} RenderElemUnique(e: Option<Schema>, d: Option<Schema>, x: seq<string>, y: seq<string>)
    requires RenderElem(e) + x == RenderElem(d) + y
    ensures e == d && x == y
    decreases e, 0
  {
    assert (RenderElem(e) + x)[0] == RenderElem(e)[0] && (RenderElem(d) + y)[0] == RenderElem(d)[0];
    assert "struct"[0] != "-"[0];
    if e.Some? {
      RenderUnique(e.value, d.value, x, y);
    } else {
      assert x == (RenderElem(e) + x)[1..] && y == (RenderElem(d) + y)[1..];
    }
  }

  /** The front of a printed schema can be read in one way only. */
  lemma {:induction false} RenderUnique(s: Schema, t: Schema, x: seq<string>, y: seq<string>)
    requires Render(s) + x == Render(t) + y
    ensures s == t && x == y
    decreases s, 0
  {
    var a, b := Render(s) + x, Render(t) + y;
    assert a[1] == Itoa(|s.fields|) && b[1] == Itoa(|t.fields|);
    ItoaInjective(|s.fields|, |t.fields|);
    assert a[2..] == RenderFields(s.fields) + x && b[2..] == RenderFields(t.fields) + y;
    RenderFieldsUnique(s.fields, t.fields, x, y);
  }

  /** Two operations with one schema preimage are the same kind, name and revision, with the
      same request and response trees, field for field. */
  lemma UniqueDecodability(op1: Operation, req1: Schema, resp1: Option<Schema>, op2: Operation, req2: Schema, resp2: Option<Schema>)
    requires resp1.Some? <==> op1.kind == KIND_COMMAND
    requires resp2.Some? <==> op2.kind == KIND_COMMAND
    requires Encode(Printed(op1, req1, resp1), CLOSE) == Encode(Printed(op2, req2, resp2), CLOSE)
    ensures op1.kind == op2.kind && op1.name == op2.name && op1.rev == op2.rev
    ensures req1 == req2 && resp1 == resp2
  {
    var x, y := Render(req1) + RenderOptional(resp1), Render(req2) + RenderOptional(resp2);
    EncodeInjective(Printed(op1, req1, resp1), Printed(op2, req2, resp2), CLOSE);
    PrintedHead(op1, x, op2, y);
    RenderUnique(req1, req2, RenderOptional(resp1), RenderOptional(resp2));
    RenderOptionalUnique(resp1, resp2);
  }

  lemma PrintedHead(op1: Operation, x: seq<string>, op2: Operation, y: seq<string>)
    requires [ALGORITHM, op1.kind, op1.name, Itoa(op1.rev)] + x == [ALGORITHM, op2.kind, op2.name, Itoa(op2.rev)] + y
    ensures op1.kind == op2.kind && op1.name == op2.name && op1.rev == op2.rev && x == y
  {
    var a, b := [ALGORITHM, op1.kind, op1.name, Itoa(op1.rev)] + x, [ALGORITHM, op2.kind, op2.name, Itoa(op2.rev)] + y;
    assert a[1] == op1.kind && b[1] == op2.kind && a[2] == op1.name && b[2] == op2.name;
    assert a[3] == Itoa(op1.rev) && b[3] == Itoa(op2.rev);
    ItoaInjective(op1.rev, op2.rev);
    assert a[4..] == x && b[4..] == y;
  }

  lemma RenderOptionalUnique(r: Option<Schema>, s: Option<Schema>)
    requires r.Some? == s.Some? && RenderOptional(r) == RenderOptional(s)
    ensures r == s
  {
    if r.Some? {
      RenderUnique(r.value, s.value, [], []);
    }
  }
}
