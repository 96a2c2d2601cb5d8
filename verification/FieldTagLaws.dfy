/** What a declared field means, in terms of the text of its tags and of the shape of its type
    rather than of the functions that read them. */
module FieldTagLaws {
  import opened Strings
  import opened Payloads
  import opened FieldTags

  // ----- the text of a JSON tag

  /** `name` is all of the tag, or all of it before the first comma. */
  ghost predicate TagNamed(tag: string, name: string) {
    ',' !in name && (tag == name || exists rest :: tag == name + "," + rest)
  }

  predicate StandsIn(tag: string, before: string, o: string, after: string) {
    tag == before + "," + o + after && (after == "" || after[0] == ',')
  }

  /** `o` stands in the tag behind a comma, up to the next comma or the end. */
  ghost predicate TagHas(tag: string, o: string) {
    ',' !in o && exists before, after :: StandsIn(tag, before, o, after)
  }

  lemma NamedFurther(c: char, tag: string, name: string)
    requires c != ',' && TagNamed(tag, name)
    ensures TagNamed([c] + tag, [c] + name)
  {
    if tag != name {
      var rest :| tag == name + "," + rest;
      assert [c] + tag == [c] + name + "," + rest;
    }
  }

  lemma NamedNothing(tag: string)
    requires tag == "" || tag[0] == ','
    ensures TagNamed(tag, "")
  {
    if tag != "" {
      assert tag == "" + "," + tag[1..];
    }
  }

  lemma {:induction false} HeadOfSplit(tag: string)
    ensures TagNamed(tag, Split(tag, ',')[0])
  {
    if tag == "" || tag[0] == ',' {
      NamedNothing(tag);
    } else {
      HeadOfSplit(tag[1..]);
      NamedFurther(tag[0], tag[1..], Split(tag[1..], ',')[0]);
      assert [tag[0]] + tag[1..] == tag;
    }
  }

  lemma OneName(tag: string, a: string, b: string)
    requires TagNamed(tag, a) && TagNamed(tag, b)
    ensures a == b
  {
    assert a <= tag && b <= tag;
    assert |a| < |tag| ==> tag[|a|] == ',';
    assert |b| < |tag| ==> tag[|b|] == ',';
    assert forall i :: 0 <= i < |a| ==> tag[i] == a[i];
    assert forall i :: 0 <= i < |b| ==> tag[i] == b[i];
    assert |a| == |b|;
    assert a == tag[..|a|] == b;
  }

  /** The first part of a split tag is its name, and there is one name only. */
  lemma TagName(tag: string, name: string)
    ensures Split(tag, ',')[0] == name <==> TagNamed(tag, name)
  {
    HeadOfSplit(tag);
    if TagNamed(tag, name) {
      OneName(tag, name, Split(tag, ',')[0]);
    }
  }

  lemma {:induction false} LaterParts(tag: string, o: string)
    requires o in Split(tag, ',')[1..]
    ensures TagHas(tag, o)
    decreases |tag|
  {
    JoinSplit(tag, ',');
    if tag != "" {
      var more := Split(tag[1..], ',');
      if o in more[1..] {
        LaterParts(tag[1..], o);
        var before, after :| StandsIn(tag[1..], before, o, after);
        FurtherIn(tag, before, o, after);
      } else {
        assert tag[0] == ',' && o == more[0];
        HeadOfSplit(tag[1..]);
        Behind(tag, o);
      }
    }
  }

  lemma FurtherIn(tag: string, before: string, o: string, after: string)
    requires tag != "" && StandsIn(tag[1..], before, o, after)
    ensures StandsIn(tag, [tag[0]] + before, o, after)
  {
    assert tag == [tag[0]] + tag[1..];
  }

  lemma Behind(tag: string, o: string)
    requires tag != "" && tag[0] == ',' && TagNamed(tag[1..], o)
    ensures TagHas(tag, o)
  {
    if tag[1..] == o {
      assert tag == [tag[0]] + tag[1..];
      assert StandsIn(tag, "", o, "");
    } else {
      var rest :| tag[1..] == o + "," + rest;
      assert tag == [tag[0]] + tag[1..];
      assert StandsIn(tag, "", o, "," + rest);
    }
  }

  lemma PartsOf(tag: string, before: string, o: string, after: string)
    requires ',' !in o && StandsIn(tag, before, o, after)
    ensures o in Split(tag, ',')[1..]
  {
    assert tag == before + [','] + (o + after);
    SplitConcat(before, ',', o + after);
    SplitFree(o, ',');
    if after == "" {
      assert o + after == o;
    } else {
      assert o + after == o + [','] + after[1..];
      SplitConcat(o, ',', after[1..]);
    }
    var all, n := Split(tag, ','), |Split(before, ',')|;
    assert all[n] == o;
    assert all[1..][n - 1] == o;
  }

  /** The later parts of a split tag are the options that stand in it. */
  lemma TagOption(tag: string, o: string)
    ensures o in Split(tag, ',')[1..] <==> TagHas(tag, o)
  {
    if o in Split(tag, ',')[1..] {
      LaterParts(tag, o);
    }
    if TagHas(tag, o) {
      var before, after :| StandsIn(tag, before, o, after);
      PartsOf(tag, before, o, after);
    }
  }

  // ----- the names a field is known by

  /** encoding/json writes the field, under this name. */
  ghost predicate NamedInJson(f: StructField, n: string) {
    f.exported && !TagNamed(f.json, "-") &&
    if TagNamed(f.json, "") then n == f.goName else TagNamed(f.json, n)
  }

  lemma NameExactly(f: StructField, n: string)
    ensures NamedInJson(f, n) <==> IsVisible(f) && JsonName(f) == n
    ensures IsVisible(f) <==> f.exported && !TagNamed(f.json, "-")
  {
    var head := Split(f.json, ',')[0];
    TagName(f.json, "-");
    TagName(f.json, "");
    TagName(f.json, n);
    TagName(f.json, head);
  }

  /** A tag of a name alone, or of a name and options, names the field so. */
  lemma TaggedName(f: StructField, name: string, rest: string)
    requires f.exported && name != "" && name != "-" && ',' !in name
    requires f.json == name || f.json == name + "," + rest
    ensures forall n :: NamedInJson(f, n) <==> n == name
  {
    forall n
      ensures NamedInJson(f, n) <==> n == name
    {
      OnlyName(f.json, name, rest, n);
      OnlyName(f.json, name, rest, "");
      OnlyName(f.json, name, rest, "-");
    }
  }

  lemma OnlyName(tag: string, name: string, rest: string, n: string)
    requires ',' !in name && (tag == name || tag == name + "," + rest)
    ensures TagNamed(tag, n) <==> n == name
  {
    assert TagNamed(tag, name);
    if TagNamed(tag, n) {
      OneName(tag, n, name);
    }
  }

  /** Without a name in its tag a field goes by its own. */
  lemma UntaggedName(f: StructField, rest: string)
    requires f.exported && (f.json == "" || f.json == "," + rest)
    ensures forall n :: NamedInJson(f, n) <==> n == f.goName
  {
    assert f.json == "" || f.json == "" + "," + rest;
    OnlyName(f.json, "", rest, "-");
    OnlyName(f.json, "", rest, "");
  }

  /** A dash hides the field, with options or without, and so does a lower-case Go name. */
  lemma HiddenName(f: StructField, rest: string)
    requires f.json == "-" || f.json == "-," + rest || !f.exported
    ensures forall n :: !NamedInJson(f, n)
  {
    if f.exported {
      assert f.json == "-" || f.json == "-" + "," + rest by {
        assert "-" + "," == "-,";
      }
      OnlyName(f.json, "-", rest, "-");
    }
  }

  // ----- the shape of a type

  datatype Wrapper = ByPointer | BySlice

  /** A type under any number of pointers and slices. */
  function Wrap(ws: seq<Wrapper>, t: GoType): GoType {
    if ws == [] then t
    else if ws[0] == ByPointer then Pointer(Wrap(ws[1..], t))
    else Slice(Wrap(ws[1..], t))
  }

  lemma {:induction false} DerefWrap(ws: seq<Wrapper>, t: GoType)
    requires !t.Pointer? && !t.Slice?
    ensures Deref(Wrap(ws, t)) == t
  {
    if ws != [] {
      DerefWrap(ws[1..], t);
    }
  }

  lemma {:induction false} Unwrap(t: GoType) returns (ws: seq<Wrapper>)
    ensures t == Wrap(ws, Deref(t)) && !Deref(t).Pointer? && !Deref(t).Slice?
  {
    match t {
      case Pointer(e) =>
        var more := Unwrap(e);
        ws := [ByPointer] + more;
        assert ws[1..] == more;
      case Slice(e) =>
        var more := Unwrap(e);
        ws := [BySlice] + more;
        assert ws[1..] == more;
      case _ =>
        ws := [];
    }
  }

  /** `base` stands in `t` under pointers and slices only. */
  ghost predicate Under(t: GoType, base: GoType) {
    exists ws :: t == Wrap(ws, base)
  }

  lemma UnderExactly(t: GoType, base: GoType)
    requires !base.Pointer? && !base.Slice?
    ensures Under(t, base) <==> Deref(t) == base
  {
    var ws := Unwrap(t);
    if vs :| t == Wrap(vs, base) {
      DerefWrap(vs, base);
    }
  }

  /** The name a type is exposed under: that of the struct or scalar below its wrappers. */
  lemma NameUnder(t: GoType)
    ensures forall u :: Under(t, Struct(u)) ==> NameOf(t) == u.name
    ensures forall kind, name :: Under(t, Scalar(kind, name)) ==> NameOf(t) == name
  {
    forall u | Under(t, Struct(u))
      ensures NameOf(t) == u.name
    {
      UnderExactly(t, Struct(u));
    }
    forall kind, name | Under(t, Scalar(kind, name))
      ensures NameOf(t) == name
    {
      UnderExactly(t, Scalar(kind, name));
    }
  }

  // ----- the wire kind

  /** The kinds a scalar crosses as, plain and under the "string" option. */
  predicate ScalarCrosses(kind: string, asString: bool, w: string) {
    || (kind == "string" && w == if asString then "string.string" else "string")
    || (kind == "bool" && w == if asString then "bool.string" else "bool")
    || (kind == "uint32" && w == if asString then "uint32.string" else "uint32")
    || (kind == "int" && w == if asString then "int32.string" else "int32")
    || (kind == "int32" && w == if asString then "int32.string" else "int32")
    || (kind == "int64" && asString && w == "int64.string")
    || (kind == "uint64" && asString && w == "uint64.string")
  }

  /** What crosses, and as what: scalars by their kind and structs other than time.Time as
      objects, under pointers and slices; arrays do not. */
  ghost predicate Crosses(t: GoType, asString: bool, w: string) {
    || (exists u :: Under(t, Struct(u)) && u != TypeId("time", "Time") && w == "object")
    || (exists kind, name :: Under(t, Scalar(kind, name)) && ScalarCrosses(kind, asString, w))
  }

  lemma PlainCrosses(kind: string, name: string, w: string)
    ensures WireKind(Scalar(kind, name), false) == Wire(w) <==> ScalarCrosses(kind, false, w)
  {
  }

  lemma SuffixOnce(base: string)
    requires base in ["string", "bool", "int32", "uint32"]
    ensures base != OBJECT && !HasSuffix(base, STRING_SUFFIX)
  {
    Suffixed(base);
    ObjectIsNoScalar(base, false);
  }

  lemma SuffixedCrosses(kind: string, name: string, w: string)
    ensures WireKind(Scalar(kind, name), true) == Wire(w) <==> ScalarCrosses(kind, true, w)
  {
    assert "string" + STRING_SUFFIX == "string.string" && "bool" + STRING_SUFFIX == "bool.string";
    assert "int32" + STRING_SUFFIX == "int32.string" && "uint32" + STRING_SUFFIX == "uint32.string";
    assert "int64" + STRING_SUFFIX == "int64.string" && "uint64" + STRING_SUFFIX == "uint64.string";
    if kind == "int64" || kind == "uint64" {
      WideSuffixed(kind);
    } else if kind == "string" || kind == "bool" || kind == "uint32" {
      SuffixOnce(kind);
    } else {
      SuffixOnce("int32");
    }
  }

  lemma ScalarExactly(kind: string, name: string, asString: bool, w: string)
    ensures WireKind(Scalar(kind, name), asString) == Wire(w) <==> ScalarCrosses(kind, asString, w)
  {
    if asString {
      SuffixedCrosses(kind, name, w);
    } else {
      PlainCrosses(kind, name, w);
    }
  }

  lemma WireOfDeref(t: GoType, asString: bool)
    ensures WireKind(t, asString) == WireKind(Deref(t), asString)
  {
    KindOfDeref(t, asString);
    var ws := Unwrap(t);
    DerefWrap([], Deref(t));
    KindOfDeref(Deref(t), asString);
  }

  lemma BaseExactly(base: GoType, asString: bool, w: string)
    requires !base.Pointer? && !base.Slice?
    ensures WireKind(base, asString) == Wire(w) <==>
            || (base.Struct? && base.id != TIME && w == OBJECT)
            || (base.Scalar? && ScalarCrosses(base.kind, asString, w))
  {
    if base.Scalar? {
      ScalarExactly(base.kind, base.name, asString, w);
    }
  }

  /** A type has a wire kind exactly when it crosses as that. */
  lemma WireExactly(t: GoType, asString: bool, w: string)
    ensures WireKind(t, asString) == Wire(w) <==> Crosses(t, asString, w)
  {
    var base := Deref(t);
    var ws := Unwrap(t);
    WireOfDeref(t, asString);
    BaseExactly(base, asString, w);
    assert Under(t, base);
    if base.Scalar? {
      assert base == Scalar(base.kind, base.name);
    }
    if base.Struct? {
      assert base == Struct(base.id);
    }
    forall u | Under(t, Struct(u))
      ensures base == Struct(u)
    {
      UnderExactly(t, Struct(u));
    }
    forall kind, name | Under(t, Scalar(kind, name))
      ensures base == Scalar(kind, name)
    {
      UnderExactly(t, Scalar(kind, name));
    }
  }

  // ----- a field as it is described

  predicate KnownClass(class_: string) {
    class_ == "public" || class_ == "subject" || class_ == "secret"
  }

  /** encoding/json writes the field at all. */
  ghost predicate InJson(f: StructField) {
    f.exported && !TagNamed(f.json, "-")
  }

  /** The field leads to the struct type `u`. */
  ghost predicate FieldLeadsTo(f: StructField, u: TypeId) {
    InJson(f) && Under(f.typ, Struct(u)) && u != TypeId("time", "Time")
  }

  lemma InJsonExactly(f: StructField)
    ensures Describe(f).Some? <==> InJson(f)
  {
    NameExactly(f, "");
  }

  /** What the description takes from the tags. */
  lemma DescribedTags(f: StructField)
    requires InJson(f)
    ensures Describe(f).Some?
    ensures var d := Describe(f).value.field;
            && d.goName == f.goName && d.typ == f.typ && d.class_ == TrimSpace(f.bd) && NamedInJson(f, d.jsonName)
            && (d.optional <==> TagHas(f.json, "omitempty") || TagHas(f.json, "omitzero"))
            && (d.asString <==> TagHas(f.json, "string"))
  {
    InJsonExactly(f);
    NameExactly(f, JsonName(f));
    TagOption(f.json, "omitempty");
    TagOption(f.json, "omitzero");
    TagOption(f.json, "string");
  }

  /** What it takes from the type. */
  lemma DescribedType(f: StructField)
    requires InJson(f)
    ensures Describe(f).Some?
    ensures var d := Describe(f).value.field;
            && (forall w :: Crosses(f.typ, d.asString, w) ==> d.wire == w)
            && (forall u :: d.elem == Some(u) <==> FieldLeadsTo(f, u))
  {
    InJsonExactly(f);
    var d := Describe(f).value.field;
    forall w | Crosses(f.typ, d.asString, w)
      ensures d.wire == w
    {
      WireExactly(f.typ, d.asString, w);
    }
    forall u
      ensures d.elem == Some(u) <==> FieldLeadsTo(f, u)
    {
      UnderExactly(f.typ, Struct(u));
      WireKindClosed(f.typ, d.asString);
      if Deref(f.typ).Struct? {
        StructHasKind(f.typ, d.asString);
      }
    }
  }

  lemma StructHasKind(t: GoType, asString: bool)
    requires Deref(t).Struct?
    ensures WireKind(t, asString) == if Deref(t).id == TIME then NoWire(TimeHasNoKind) else Wire(OBJECT)
  {
    WireOfDeref(t, asString);
  }

  /** The faults: a class that is missing or unknown, and a type that does not cross. */
  lemma DescribedFaults(f: StructField)
    requires InJson(f)
    ensures Describe(f).Some?
    ensures var d := Describe(f).value;
            && (d.faults == [] <==> KnownClass(TrimSpace(f.bd)) && exists w :: Crosses(f.typ, d.field.asString, w))
            && (Unclassified in d.faults <==> TrimSpace(f.bd) == "")
            && (forall c :: UnknownClass(c) in d.faults <==> c == TrimSpace(f.bd) && c != "" && !KnownClass(c))
            && ((exists e :: BadWire(e) in d.faults) <==> !exists w :: Crosses(f.typ, d.field.asString, w))
  {
    InJsonExactly(f);
    var d := Describe(f).value;
    var class_, wire := TrimSpace(f.bd), WireKind(f.typ, d.field.asString);
    ClassFaultsExactly(class_);
    if wire.Wire? {
      WireExactly(f.typ, d.field.asString, wire.kind);
      assert d.faults == ClassFaults(class_);
    } else {
      forall w
        ensures !Crosses(f.typ, d.field.asString, w)
      {
        WireExactly(f.typ, d.field.asString, w);
      }
      assert d.faults == ClassFaults(class_) + [BadWire(wire.error)];
      assert BadWire(wire.error) in d.faults;
    }
  }

  lemma ClassFaultsExactly(c: string)
    ensures ClassFaults(c) == [] <==> KnownClass(c)
    ensures Unclassified in ClassFaults(c) <==> c == ""
    ensures forall x :: UnknownClass(x) in ClassFaults(c) <==> x == c && c != "" && !KnownClass(c)
    ensures forall e :: BadWire(e) !in ClassFaults(c)
  {
    assert KnownClass(c) ==> c != "";
  }
}
