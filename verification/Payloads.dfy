/** The exposed payload types of the generator (cmd/plugin-typescript/model.go), as an
    abstract field graph: Go types without reflection. */
module Payloads {
  import opened Strings
  import opened Sorting

  /** A struct type. `name` is its Name(), empty for an anonymous struct; `origin` is the rest
      of its identity: the package, and the place of declaration for local and anonymous ones. */
  datatype TypeId = TypeId(origin: string, name: string)

  datatype GoType =
    | Pointer(elem: GoType)
    | Slice(elem: GoType)
    | Array(elem: GoType)
    | Struct(id: TypeId)
    | Scalar(kind: string, name: string)

  const CLASS_PUBLIC := "public"
  const CLASS_SUBJECT := "subject"
  const CLASS_SECRET := "secret"

  /** One JSON-visible field; `elem` is the struct reached through pointers and slices. */
  datatype Field = Field(
    goName: string,
    jsonName: string,
    optional: bool,
    asString: bool,
    class_: string,
    typ: GoType,
    elem: Option<TypeId>,
    wire: string)
  {
    predicate List() {
      typ.Slice?
    }

    predicate Nullable() {
      !optional && (List() || typ.Pointer?)
    }
  }

  /** One exposed struct type, its fields in declaration order. */
  datatype Model = Model(name: string, typ: TypeId, fields: seq<Field>)

  type Models = map<string, Model>

  function Deref(t: GoType): GoType {
    match t
    case Pointer(e) => Deref(e)
    case Slice(e) => Deref(e)
    case _ => t
  }

  /** reflect.Type.Name() of a type without pointers and slices. */
  function NameOf(t: GoType): string {
    match Deref(t)
    case Struct(id) => id.name
    case Scalar(_, name) => name
    case _ => ""
  }

  function JsonKey(f: Field): string {
    f.jsonName
  }

  /** byJSONName: the fields sorted for the canonical form. */
  function ByJSONName(fields: seq<Field>): (sorted: seq<Field>)
    ensures |sorted| == |fields|
    ensures multiset(sorted) == multiset(fields)
  {
    SortBy(JsonKey, fields)
  }
}
