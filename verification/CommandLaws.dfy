/** What strict decoding takes, in terms of the declared fields: which keys an object may have,
    which type each stands for, and which values a type takes. */
module CommandLaws {
  import opened Payloads
  import opened FieldTags
  import opened FieldTagLaws
  import opened JsonValues
  import opened TypedValidation

  // ----- keys

  /** Field `i` is the last that encoding/json writes under the name `n`. */
  ghost predicate LastNamed(fs: seq<StructField>, i: nat, n: string) {
    i < |fs| && NamedInJson(fs[i], n) && forall j :: i < j < |fs| ==> !NamedInJson(fs[j], n)
  }

  lemma CalledIsNamed(f: StructField, n: string)
    ensures Called(f, n) <==> NamedInJson(f, n)
  {
    NameExactly(f, n);
  }

  lemma {:induction false} SomeLast(fs: seq<StructField>, n: string, k: nat) returns (i: nat)
    requires k <= |fs| && exists j :: 0 <= j < k && NamedInJson(fs[j], n)
    requires forall j :: k <= j < |fs| ==> !NamedInJson(fs[j], n)
    ensures LastNamed(fs, i, n)
  {
    if NamedInJson(fs[k - 1], n) {
      i := k - 1;
    } else {
      i := SomeLast(fs, n, k - 1);
    }
  }

  lemma OneLast(fs: seq<StructField>, n: string, i: nat, j: nat)
    requires LastNamed(fs, i, n) && LastNamed(fs, j, n)
    ensures i == j
  {
  }

  lemma LastGives(fs: seq<StructField>, i: nat, n: string)
    ensures LastNamed(fs, i, n) <==> Gives(fs, i, n)
  {
    forall j | 0 <= j < |fs|
      ensures Called(fs[j], n) <==> NamedInJson(fs[j], n)
    {
      CalledIsNamed(fs[j], n);
    }
  }

  /** A key is known with a type exactly when the last field of that JSON name has the type. */
  lemma KnownDeclared(fs: seq<StructField>, n: string, t: GoType)
    ensures n in KnownFields(fs) && KnownFields(fs)[n] == t <==> exists i: nat :: LastNamed(fs, i, n) && fs[i].typ == t
  {
    KnownExactly(fs, n);
    if n in KnownFields(fs) {
      var j :| 0 <= j < |fs| && Called(fs[j], n);
      CalledIsNamed(fs[j], n);
      var i := SomeLast(fs, n, |fs|);
      LastGives(fs, i, n);
      assert KnownFields(fs)[n] == fs[i].typ;
    }
    if i: nat :| LastNamed(fs, i, n) && fs[i].typ == t {
      LastGives(fs, i, n);
    }
  }

  // ----- values

  function Pointers(n: nat, t: GoType): GoType {
    if n == 0 then t else Pointer(Pointers(n - 1, t))
  }

  lemma {:induction false} StripsPointers(n: nat, t: GoType)
    requires !t.Pointer?
    ensures StripPointers(Pointers(n, t)) == t
  {
    if n > 0 {
      StripsPointers(n - 1, t);
    }
  }

  lemma {:induction false} PointersBefore(t: GoType) returns (n: nat)
    ensures t == Pointers(n, StripPointers(t)) && !StripPointers(t).Pointer?
  {
    if t.Pointer? {
      var k := PointersBefore(t.elem);
      n := k + 1;
    } else {
      n := 0;
    }
  }

  /** `t` is `base` under pointers. */
  ghost predicate PointsTo(t: GoType, base: GoType) {
    exists n :: t == Pointers(n, base)
  }

  lemma PointsToExactly(t: GoType, base: GoType)
    requires !base.Pointer?
    ensures PointsTo(t, base) <==> StripPointers(t) == base
  {
    var k := PointersBefore(t);
    if n :| t == Pointers(n, base) {
      StripsPointers(n, base);
    }
  }

  /** null is taken by pointers and slices. */
  lemma NullTaken(types: Types, t: GoType)
    ensures Conforms(types, t, JNull) <==> exists e :: t == Pointer(e) || t == Slice(e)
  {
    if t.Pointer? {
      assert t == Pointer(t.elem);
    }
    if t.Slice? {
      assert t == Slice(t.elem);
    }
  }

  /** Strings, numbers and booleans are taken by scalars, also behind pointers. */
  lemma ScalarTaken(types: Types, t: GoType, s: string)
    ensures Conforms(types, t, JText(s)) <==> exists kind, name :: PointsTo(t, Scalar(kind, name))
    ensures Conforms(types, t, JLiteral(s)) <==> exists kind, name :: PointsTo(t, Scalar(kind, name))
  {
    var base := StripPointers(t);
    var k := PointersBefore(t);
    if base.Scalar? {
      PointsToExactly(t, Scalar(base.kind, base.name));
    }
    forall kind, name | PointsTo(t, Scalar(kind, name))
      ensures base == Scalar(kind, name)
    {
      PointsToExactly(t, Scalar(kind, name));
    }
  }

  /** A list is taken by a slice or an array, also behind pointers, whose element type takes
      each item. */
  lemma ListTaken(types: Types, t: GoType, items: seq<Json>)
    ensures Conforms(types, t, JArray(items)) <==>
            exists e :: (PointsTo(t, Slice(e)) || PointsTo(t, Array(e))) && forall i :: 0 <= i < |items| ==> Conforms(types, e, items[i])
  {
    var base := StripPointers(t);
    if base.Slice? {
      PointsToExactly(t, Slice(base.elem));
    }
    if base.Array? {
      PointsToExactly(t, Array(base.elem));
    }
    forall e | PointsTo(t, Slice(e)) || PointsTo(t, Array(e))
      ensures (base.Slice? || base.Array?) && base.elem == e
    {
      PointsToExactly(t, Slice(e));
      PointsToExactly(t, Array(e));
    }
  }

  /** The member's key names a field, the last of that name, and its type takes the value. */
  ghost predicate MemberTaken(types: Types, id: TypeId, m: Member) {
    id in types && exists i: nat :: LastNamed(types[id], i, m.key) && Conforms(types, types[id][i].typ, m.value)
  }

  lemma MemberTakenExactly(types: Types, id: TypeId, m: Member)
    ensures MemberConforms(types, FieldTypes(types, id), m) <==> MemberTaken(types, id, m)
  {
    var fields := FieldTypes(types, id);
    if m.key in fields {
      KnownDeclared(types[id], m.key, fields[m.key]);
    }
    if id in types {
      forall i: nat | LastNamed(types[id], i, m.key)
        ensures m.key in fields && fields[m.key] == types[id][i].typ
      {
        KnownDeclared(types[id], m.key, types[id][i].typ);
      }
    }
  }

  /** An object is taken by a struct, also behind pointers, when no key repeats and each member
      is taken. */
  lemma ObjectTaken(types: Types, t: GoType, ms: seq<Member>)
    ensures Conforms(types, t, JObject(ms)) <==>
            exists id :: PointsTo(t, Struct(id)) && DistinctKeys(ms) && forall i :: 0 <= i < |ms| ==> MemberTaken(types, id, ms[i])
  {
    var base := StripPointers(t);
    if base.Struct? {
      PointsToExactly(t, Struct(base.id));
      MembersTaken(types, base.id, ms);
    }
    forall id | PointsTo(t, Struct(id))
      ensures base == Struct(id)
    {
      PointsToExactly(t, Struct(id));
    }
  }

  lemma MembersTaken(types: Types, id: TypeId, ms: seq<Member>)
    ensures (forall i :: 0 <= i < |ms| ==> MemberConforms(types, FieldTypes(types, id), ms[i])) <==>
            forall i :: 0 <= i < |ms| ==> MemberTaken(types, id, ms[i])
  {
    forall i | 0 <= i < |ms|
      ensures MemberConforms(types, FieldTypes(types, id), ms[i]) <==> MemberTaken(types, id, ms[i])
    {
      MemberTakenExactly(types, id, ms[i]);
    }
  }

  // ----- commands

  /** A command of one member is read to its end exactly when the last field of that JSON name
      takes the value. */
  lemma OneMember(types: Types, id: TypeId, key: string, v: Json)
    ensures ReadValue(types, Struct(id), [OpenObject, Text(key)] + Tokens(v) + [CloseObject]) == Done([]) <==>
            MemberTaken(types, id, Member(key, v))
  {
    var m := Member(key, v);
    var input := [OpenObject, Text(key)] + Tokens(v) + [CloseObject];
    OneMemberTokens(key, v);
    assert Tokens(JObject([m])) + [] == input;
    RecognisesExactly(types, Struct(id), JObject([m]), []);
    StructOfOne(types, id, m);
  }

  lemma OneMemberTokens(key: string, v: Json)
    ensures Tokens(JObject([Member(key, v)])) == [OpenObject, Text(key)] + Tokens(v) + [CloseObject]
  {
    var m := Member(key, v);
    assert [m][1..] == [];
    assert MemberTokens([m]) == [Text(key)] + Tokens(v) + MemberTokens([]);
  }

  lemma StructOfOne(types: Types, id: TypeId, m: Member)
    ensures Conforms(types, Struct(id), JObject([m])) <==> MemberTaken(types, id, m)
  {
    ObjectConforms(types, Struct(id), [m]);
    MemberTakenExactly(types, id, m);
    assert [m][0] == m;
  }

  /** A field whose tag is a name, with options or without, is decoded under this name and no
      other. */
  lemma TaggedMember(types: Types, id: TypeId, f: StructField, name: string, rest: string, key: string, v: Json)
    requires id in types && types[id] == [f]
    requires f.exported && name != "" && name != "-" && ',' !in name && (f.json == name || f.json == name + "," + rest)
    ensures MemberTaken(types, id, Member(key, v)) <==> key == name && Conforms(types, f.typ, v)
  {
    TaggedName(f, name, rest);
    OneField(types, id, f, key, v);
  }

  /** A field without a name in its tag is decoded under its own. */
  lemma UntaggedMember(types: Types, id: TypeId, f: StructField, rest: string, key: string, v: Json)
    requires id in types && types[id] == [f]
    requires f.exported && (f.json == "" || f.json == "," + rest)
    ensures MemberTaken(types, id, Member(key, v)) <==> key == f.goName && Conforms(types, f.typ, v)
  {
    UntaggedName(f, rest);
    OneField(types, id, f, key, v);
  }

  /** A hidden field is decoded under none. */
  lemma HiddenMember(types: Types, id: TypeId, f: StructField, rest: string, key: string, v: Json)
    requires id in types && types[id] == [f]
    requires f.json == "-" || f.json == "-," + rest || !f.exported
    ensures !MemberTaken(types, id, Member(key, v))
  {
    HiddenName(f, rest);
    OneField(types, id, f, key, v);
  }

  lemma OneField(types: Types, id: TypeId, f: StructField, key: string, v: Json)
    requires id in types && types[id] == [f]
    ensures MemberTaken(types, id, Member(key, v)) <==> NamedInJson(f, key) && Conforms(types, f.typ, v)
  {
    if NamedInJson(f, key) {
      assert LastNamed(types[id], 0, key);
    }
  }

  /** The strict decoder over a struct and one member: at most 64 KiB, and a member that the
      declared field takes. */
  method DecodeOneMember(size: nat, types: Types, id: TypeId, key: string, v: Json, unmarshals: bool) returns (ok: bool)
    ensures ok <==> size <= 65536 && unmarshals && MemberTaken(types, id, Member(key, v))
  {
    OneMember(types, id, key, v);
    ok := DecodeCommand(size, [OpenObject, Text(key)] + Tokens(v) + [CloseObject], types, Struct(id), true, unmarshals);
  }
}
