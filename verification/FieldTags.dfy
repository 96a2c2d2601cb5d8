/** How the generator reads one struct field (cmd/plugin-typescript/model.go): JSON tag,
    classification and wire kind. */
module FieldTags {
  import opened Strings
  import opened Payloads

  /** A declared struct field with its two tags. */
  datatype StructField = StructField(goName: string, exported: bool, json: string, bd: string, typ: GoType)

  type Types = map<TypeId, seq<StructField>>

  /** Whether encoding/json would write the field at all. */
  predicate IsVisible(f: StructField) {
    f.exported && Split(f.json, ',')[0] != "-"
  }

  /** The field's JSON name: its tag's, or else its own. */
  function JsonName(f: StructField): string {
    var name := Split(f.json, ',')[0];
    if name == "" then f.goName else name
  }

  datatype WireError = TimeHasNoKind | NeedsString(kind: string) | Unsupported(kind: string)

  datatype Wire = Wire(kind: string) | NoWire(error: WireError)

  datatype Fault = Unclassified | UnknownClass(class_: string) | BadWire(error: WireError)

  /** A JSON-visible field and what is wrong with it. */
  datatype Described = Described(field: Field, faults: seq<Fault>)

  const TIME := TypeId("time", "Time")
  const OBJECT := "object"
  const STRING_SUFFIX := ".string"

  function BaseWireKind(t: GoType, asString: bool): Wire {
    match t
    case Pointer(elem) => BaseWireKind(elem, asString)
    case Slice(elem) => BaseWireKind(elem, asString)
    case Array(_) => NoWire(Unsupported("array"))
    case Struct(id) => if id == TIME then NoWire(TimeHasNoKind) else Wire(OBJECT)
    case Scalar(kind, _) =>
      if kind == "string" || kind == "bool" || kind == "uint32" then Wire(kind)
      else if kind == "int" || kind == "int32" then Wire("int32")
      else if kind == "int64" || kind == "uint64" then
        if asString then Wire(kind + STRING_SUFFIX) else NoWire(NeedsString(kind))
      else NoWire(Unsupported(kind))
  }

  function WireKind(t: GoType, asString: bool): Wire {
    match BaseWireKind(t, asString)
    case NoWire(e) => NoWire(e)
    case Wire(base) =>
      if asString && base != OBJECT && !HasSuffix(base, STRING_SUFFIX) then Wire(base + STRING_SUFFIX) else Wire(base)
  }

  /** The closed set of scalar wire kinds: a 64-bit integer crosses only as a string. */
  function ScalarKinds(asString: bool): seq<string> {
    if asString then ["string.string", "bool.string", "int32.string", "uint32.string", "int64.string", "uint64.string"]
    else ["string", "bool", "int32", "uint32"]
  }

  lemma {:induction false} KindOfDeref(t: GoType, asString: bool)
    ensures BaseWireKind(t, asString) == BaseWireKind(Deref(t), asString)
  {
    match t {
      case Pointer(elem) => KindOfDeref(elem, asString);
      case Slice(elem) => KindOfDeref(elem, asString);
      case _ =>
    }
  }

  lemma {:induction false} DerefIsLast(t: GoType)
    ensures Deref(t).Struct? || Deref(t).Scalar? || Deref(t).Array?
  {
    match t {
      case Pointer(elem) => DerefIsLast(elem);
      case Slice(elem) => DerefIsLast(elem);
      case _ =>
    }
  }

  lemma Suffixed(base: string)
    requires base in ["string", "bool", "int32", "uint32"]
    ensures !HasSuffix(base, STRING_SUFFIX) && base + STRING_SUFFIX in ScalarKinds(true)
  {
    assert |base| < |STRING_SUFFIX|;
    assert "string" + STRING_SUFFIX == "string.string" && "bool" + STRING_SUFFIX == "bool.string";
    assert "int32" + STRING_SUFFIX == "int32.string" && "uint32" + STRING_SUFFIX == "uint32.string";
  }

  lemma WideSuffixed(base: string)
    requires base in ["int64", "uint64"]
    ensures HasSuffix(base + STRING_SUFFIX, STRING_SUFFIX) && base + STRING_SUFFIX in ScalarKinds(true)
  {
    assert "int64" + STRING_SUFFIX == "int64.string" && "uint64" + STRING_SUFFIX == "uint64.string";
    assert (base + STRING_SUFFIX)[|base|..] == STRING_SUFFIX;
  }

  lemma ObjectIsNoScalar(kind: string, asString: bool)
    requires kind in ScalarKinds(asString)
    ensures kind != OBJECT
  {
    assert kind[0] != OBJECT[0];
  }

  lemma ScalarWire(kind: string, name: string, asString: bool)
    ensures var r := WireKind(Scalar(kind, name), asString); r.NoWire? || r.kind in ScalarKinds(asString)
  {
    var base := BaseWireKind(Scalar(kind, name), asString);
    if kind == "int64" || kind == "uint64" {
      WideSuffixed(kind);
    } else if base.Wire? {
      assert base.kind in ["string", "bool", "int32", "uint32"];
      Suffixed(base.kind);
      ObjectIsNoScalar(base.kind, false);
    }
  }

  /** Every wire kind is a scalar of the closed set or an object, and exactly the structs
      other than time.Time cross as objects. */
  lemma WireKindClosed(t: GoType, asString: bool)
    ensures WireKind(t, asString).NoWire? || WireKind(t, asString).kind == OBJECT || WireKind(t, asString).kind in ScalarKinds(asString)
    ensures WireKind(t, asString) == Wire(OBJECT) <==> Deref(t).Struct? && Deref(t).id != TIME
  {
    KindOfDeref(t, asString);
    DerefIsLast(t);
    var last := Deref(t);
    if last.Scalar? {
      ScalarWire(last.kind, last.name, asString);
      assert WireKind(t, asString) == WireKind(last, asString);
      if WireKind(t, asString).Wire? {
        ObjectIsNoScalar(WireKind(t, asString).kind, asString);
      }
    }
  }

  function ClassFaults(class_: string): seq<Fault> {
    if class_ == CLASS_PUBLIC || class_ == CLASS_SUBJECT || class_ == CLASS_SECRET then []
    else if class_ == "" then [Unclassified]
    else [UnknownClass(class_)]
  }

  predicate Optional(options: seq<string>) {
    "omitempty" in options || "omitzero" in options
  }

  /** The struct a field leads to, when its type has a wire kind. */
  function StructBelow(t: GoType): Option<TypeId> {
    if Deref(t).Struct? then Some(Deref(t).id) else None
  }

  function Describe(f: StructField): Option<Described> {
    if !IsVisible(f) then None
    else
      var options := Split(f.json, ',')[1..];
      var asString := "string" in options;
      var class_ := TrimSpace(f.bd);
      var wire := WireKind(f.typ, asString);
      Some(match wire
           case Wire(kind) =>
             Described(
               Field(f.goName, JsonName(f), Optional(options), asString, class_, f.typ, StructBelow(f.typ), kind),
               ClassFaults(class_))
           case NoWire(e) =>
             Described(
               Field(f.goName, JsonName(f), Optional(options), asString, class_, f.typ, None, ""),
               ClassFaults(class_) + [BadWire(e)]))
  }

  /** The loop over the options of a JSON tag. */
  method ReadOptions(options: seq<string>) returns (optional: bool, asString: bool)
    ensures optional == Optional(options) && asString == ("string" in options)
  {
    optional, asString := false, false;
    for i := 0 to |options|
      invariant optional == Optional(options[..i]) && asString == ("string" in options[..i])
    {
      assert options[..i + 1] == options[..i] + [options[i]];
      if options[i] == "omitempty" || options[i] == "omitzero" {
        optional := true;
      } else if options[i] == "string" {
        asString := true;
      }
    }
    assert options[..|options|] == options;
  }

  /** One turn of the field loop of buildModels, before it follows the field. */
  method DescribeField(f: StructField) returns (r: Option<Described>)
    ensures r == Describe(f)
  {
    if !f.exported {
      return None;
    }
    var parts := Split(f.json, ',');
    if parts[0] == "-" {
      return None;
    }
    var jsonName := parts[0];
    if jsonName == "" {
      jsonName := f.goName;
    }
    var optional, asString := ReadOptions(parts[1..]);
    var class_ := TrimSpace(f.bd);
    var faults := ClassFaults(class_);
    match WireKind(f.typ, asString) {
      case NoWire(e) =>
        faults := faults + [BadWire(e)];
        return Some(Described(Field(f.goName, jsonName, optional, asString, class_, f.typ, None, ""), faults));
      case Wire(kind) =>
        return Some(Described(Field(f.goName, jsonName, optional, asString, class_, f.typ, StructBelow(f.typ), kind), faults));
    }
  }

  /** The JSON-visible fields of a struct, in declaration order. */
  function Visible(fs: seq<StructField>): seq<Described> {
    if fs == [] then []
    else
      match Describe(fs[0])
      case None => Visible(fs[1..])
      case Some(d) => [d] + Visible(fs[1..])
  }

  /** The field loop of buildModels, without what it does with a visible field. */
  method DescribeFields(fs: seq<StructField>) returns (ds: seq<Described>)
    ensures ds == Visible(fs)
  {
    ds := [];
    assert fs[0..] == fs;
    for i := 0 to |fs|
      invariant ds + Visible(fs[i..]) == Visible(fs)
    {
      var d := DescribeField(fs[i]);
      assert fs[i..][1..] == fs[i + 1..];
      if d.Some? {
        ds := ds + [d.value];
      }
    }
  }
}
