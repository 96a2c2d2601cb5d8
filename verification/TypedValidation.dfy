/** The strict check in front of json.Unmarshal (v2/plugin/typed_validation.go): recursive
    descent over a decoder's tokens, directed by a Go type. */
module TypedValidation {
  import opened Payloads
  import opened FieldTags
  import opened JsonValues
  import Strings

  const MAX_COMMAND := 65536

  // ----- which values a type accepts

  function StripPointers(t: GoType): GoType {
    match t
    case Pointer(elem) => StripPointers(elem)
    case _ => t
  }

  /** The JSON names of a struct and their types; a later field takes an earlier one's name. */
  function KnownFields(fs: seq<StructField>): map<string, GoType> {
    if fs == [] then map[]
    else
      var known := KnownFields(fs[..|fs| - 1]);
      var f := fs[|fs| - 1];
      if IsVisible(f) then known[JsonName(f) := f.typ] else known
  }

  /** Field `i` is the last visible one called `n`. */
  predicate Gives(fs: seq<StructField>, i: nat, n: string) {
    && i < |fs| && Called(fs[i], n)
    && forall j :: i < j < |fs| ==> !Called(fs[j], n)
  }

  predicate Called(f: StructField, n: string) {
    IsVisible(f) && JsonName(f) == n
  }

  /** A known name stands for the last visible field called so, and there is one. */
  lemma {:induction false} KnownExactly(fs: seq<StructField>, n: string)
    ensures n in KnownFields(fs) <==> exists i :: 0 <= i < |fs| && Called(fs[i], n)
    ensures forall i: nat :: Gives(fs, i, n) ==> n in KnownFields(fs) && KnownFields(fs)[n] == fs[i].typ
  {
    if fs != [] {
      var k := |fs| - 1;
      KnownExactly(fs[..k], n);
      forall i: nat | Gives(fs, i, n)
        ensures n in KnownFields(fs) && KnownFields(fs)[n] == fs[i].typ
      {
        if i < k {
          assert !Called(fs[k], n);
          assert Gives(fs[..k], i, n);
        }
      }
      if n in KnownFields(fs) && !Called(fs[k], n) {
        var i :| 0 <= i < k && Called(fs[..k][i], n);
        assert Called(fs[i], n);
      }
      if i :| 0 <= i < |fs| && Called(fs[i], n) {
        if i < k {
          assert Called(fs[..k][i], n);
        }
      }
    }
  }

  function FieldTypes(types: Types, id: TypeId): map<string, GoType> {
    if id in types then KnownFields(types[id]) else map[]
  }

  predicate DistinctKeys(ms: seq<Member>) {
    forall i, j :: 0 <= i < j < |ms| ==> ms[i].key != ms[j].key
  }

  /** null only for a pointer or a slice, objects only for structs and with known, unrepeated
      keys, arrays only for slices and arrays, and scalars for none of these. */
  predicate Conforms(types: Types, t: GoType, v: Json)
    decreases v
  {
    var base := StripPointers(t);
    match v
    case JNull => t.Pointer? || t.Slice?
    case JText(_) => !base.Struct? && !base.Slice? && !base.Array?
    case JLiteral(_) => !base.Struct? && !base.Slice? && !base.Array?
    case JArray(items) =>
      (base.Slice? || base.Array?) && forall i :: 0 <= i < |items| ==> Conforms(types, base.elem, items[i])
    case JObject(ms) =>
      base.Struct? && DistinctKeys(ms) &&
      forall i :: 0 <= i < |ms| ==> MemberConforms(types, FieldTypes(types, base.id), ms[i])
  }

  predicate MemberConforms(types: Types, fields: map<string, GoType>, m: Member)
    decreases m
  {
    m.key in fields && Conforms(types, fields[m.key], m.value)
  }

  /** Members that may follow keys already seen. */
  ghost predicate MembersConform(types: Types, fields: map<string, GoType>, seen: set<string>, ms: seq<Member>) {
    && DistinctKeys(ms)
    && forall i :: 0 <= i < |ms| ==> ms[i].key !in seen && MemberConforms(types, fields, ms[i])
  }

  lemma ObjectConforms(types: Types, t: GoType, ms: seq<Member>)
    ensures Conforms(types, t, JObject(ms)) <==>
            StripPointers(t).Struct? && MembersConform(types, FieldTypes(types, StripPointers(t).id), {}, ms)
  {
    if StripPointers(t).Struct? && MembersConform(types, FieldTypes(types, StripPointers(t).id), {}, ms) {
      forall i | 0 <= i < |ms|
        ensures MemberConforms(types, FieldTypes(types, StripPointers(t).id), ms[i])
      {
      }
    }
  }

  lemma MembersConformCons(types: Types, fields: map<string, GoType>, seen: set<string>, ms: seq<Member>)
    requires ms != []
    ensures MembersConform(types, fields, seen, ms) <==>
            ms[0].key !in seen && MemberConforms(types, fields, ms[0]) && MembersConform(types, fields, seen + {ms[0].key}, ms[1..])
  {
    var tail := ms[1..];
    assert forall i :: 1 <= i < |ms| ==> ms[i] == tail[i - 1];
    if ms[0].key !in seen && MemberConforms(types, fields, ms[0]) && MembersConform(types, fields, seen + {ms[0].key}, tail) {
      forall i | 0 <= i < |ms|
        ensures ms[i].key !in seen && MemberConforms(types, fields, ms[i])
      {
      }
    }
  }

  // ----- what the check reads

  datatype Read = Done(rest: seq<Token>) | Refused

  function ReadValue(types: Types, t: GoType, ts: seq<Token>): (r: Read)
    ensures r.Done? ==> |r.rest| < |ts|
    decreases |ts|, 0
  {
    if ts == [] then Refused
    else
      var base := StripPointers(t);
      match ts[0]
      case Null => if t.Pointer? || t.Slice? then Done(ts[1..]) else Refused
      case OpenObject => if base.Struct? then ReadMembers(types, FieldTypes(types, base.id), {}, ts[1..]) else Refused
      case OpenArray => if base.Slice? || base.Array? then ReadItems(types, base.elem, ts[1..]) else Refused
      case Text(_) => if base.Struct? || base.Slice? || base.Array? then Refused else Done(ts[1..])
      case Literal(_) => if base.Struct? || base.Slice? || base.Array? then Refused else Done(ts[1..])
      case _ => Refused
  }

  function ReadItems(types: Types, elem: GoType, ts: seq<Token>): (r: Read)
    ensures r.Done? ==> |r.rest| < |ts|
    decreases |ts|, 1
  {
    if ts == [] || ts[0] == CloseObject then Refused
    else if ts[0] == CloseArray then Done(ts[1..])
    else
      match ReadValue(types, elem, ts)
      case Refused => Refused
      case Done(rest) => ReadItems(types, elem, rest)
  }

  function ReadMembers(types: Types, fields: map<string, GoType>, seen: set<string>, ts: seq<Token>): (r: Read)
    ensures r.Done? ==> |r.rest| < |ts|
    decreases |ts|, 1
  {
    if ts == [] then Refused
    else
      match ts[0]
      case CloseObject => Done(ts[1..])
      case Text(key) =>
        if key !in fields || key in seen then Refused
        else
          (match ReadValue(types, fields[key], ts[1..])
           case Refused => Refused
           case Done(rest) => ReadMembers(types, fields, seen + {key}, rest))
      case _ => Refused
  }

  // ----- it reads exactly the conforming values

  lemma {:induction false} ReadsConforming(types: Types, t: GoType, v: Json, rest: seq<Token>)
    requires Conforms(types, t, v)
    ensures ReadValue(types, t, Tokens(v) + rest) == Done(rest)
    decreases v, 0
  {
    var base := StripPointers(t);
    match v {
      case JArray(items) =>
        ArrayTokens(items, rest);
        assert (Tokens(v) + rest)[1..] == ItemTokens(items) + ([CloseArray] + rest);
        ReadsItems(types, base.elem, items, rest);
      case JObject(ms) =>
        ObjectTokens(ms, rest);
        ObjectConforms(types, t, ms);
        assert (Tokens(v) + rest)[1..] == MemberTokens(ms) + ([CloseObject] + rest);
        ReadsMembers(types, FieldTypes(types, base.id), {}, ms, rest);
      case _ =>
        assert (Tokens(v) + rest)[1..] == rest;
    }
  }

  lemma {:induction false} ReadsItems(types: Types, elem: GoType, items: seq<Json>, rest: seq<Token>)
    requires forall i :: 0 <= i < |items| ==> Conforms(types, elem, items[i])
    ensures ReadItems(types, elem, ItemTokens(items) + ([CloseArray] + rest)) == Done(rest)
    decreases items, 0
  {
    var more := [CloseArray] + rest;
    if items == [] {
      assert ItemTokens(items) + more == more && more[1..] == rest;
    } else {
      ItemsCons(items, more);
      FirstToken(items[0], ItemTokens(items[1..]) + more);
      ReadsConforming(types, elem, items[0], ItemTokens(items[1..]) + more);
      ReadsItems(types, elem, items[1..], rest);
    }
  }

  lemma {:induction false} ReadsMembers(types: Types, fields: map<string, GoType>, seen: set<string>, ms: seq<Member>, rest: seq<Token>)
    requires MembersConform(types, fields, seen, ms)
    ensures ReadMembers(types, fields, seen, MemberTokens(ms) + ([CloseObject] + rest)) == Done(rest)
    decreases ms, 0
  {
    var more := [CloseObject] + rest;
    if ms == [] {
      assert MemberTokens(ms) + more == more && more[1..] == rest;
    } else {
      MembersCons(ms, more);
      MembersConformCons(types, fields, seen, ms);
      var key, after := ms[0].key, MemberTokens(ms[1..]) + more;
      assert (MemberTokens(ms) + more)[0] == Text(key) && (MemberTokens(ms) + more)[1..] == Tokens(ms[0].value) + after;
      assert ms[0].value < ms[0];
      ReadsConforming(types, fields[key], ms[0].value, after);
      ReadsMembers(types, fields, seen + {key}, ms[1..], rest);
    }
  }

  lemma {:induction false} ReadIsConforming(types: Types, t: GoType, ts: seq<Token>) returns (v: Json)
    requires ReadValue(types, t, ts).Done?
    ensures Conforms(types, t, v) && ts == Tokens(v) + ReadValue(types, t, ts).rest
    decreases |ts|, 0
  {
    var base, rest := StripPointers(t), ReadValue(types, t, ts).rest;
    assert ts == [ts[0]] + ts[1..];
    match ts[0] {
      case Null =>
        v := JNull;
      case Text(s) =>
        v := JText(s);
      case Literal(s) =>
        v := JLiteral(s);
      case OpenArray =>
        var items := ReadItemsConform(types, base.elem, ts[1..]);
        v := JArray(items);
        ArrayTokens(items, rest);
      case OpenObject =>
        var ms := ReadMembersConform(types, FieldTypes(types, base.id), {}, ts[1..]);
        v := JObject(ms);
        ObjectTokens(ms, rest);
        ObjectConforms(types, t, ms);
    }
  }

  lemma {:induction false} ReadItemsConform(types: Types, elem: GoType, ts: seq<Token>) returns (items: seq<Json>)
    requires ReadItems(types, elem, ts).Done?
    ensures forall i :: 0 <= i < |items| ==> Conforms(types, elem, items[i])
    ensures ts == ItemTokens(items) + ([CloseArray] + ReadItems(types, elem, ts).rest)
    decreases |ts|, 1
  {
    if ts[0] == CloseArray {
      items := [];
      assert ts == [CloseArray] + ts[1..];
      assert [] + ts == ts;
    } else {
      var rest := ReadValue(types, elem, ts).rest;
      var first := ReadIsConforming(types, elem, ts);
      var others := ReadItemsConform(types, elem, rest);
      items := [first] + others;
      assert items[1..] == others;
      ItemsCons(items, [CloseArray] + ReadItems(types, elem, ts).rest);
    }
  }

  lemma {:induction false} ReadMembersConform(types: Types, fields: map<string, GoType>, seen: set<string>, ts: seq<Token>)
    returns (ms: seq<Member>)
    requires ReadMembers(types, fields, seen, ts).Done?
    ensures MembersConform(types, fields, seen, ms)
    ensures ts == MemberTokens(ms) + ([CloseObject] + ReadMembers(types, fields, seen, ts).rest)
    decreases |ts|, 1
  {
    var end := ReadMembers(types, fields, seen, ts).rest;
    assert ts == [ts[0]] + ts[1..];
    if ts[0] == CloseObject {
      ms := [];
      assert [] + ts == ts;
    } else {
      var key := ts[0].text;
      var rest := ReadValue(types, fields[key], ts[1..]).rest;
      var first := ReadIsConforming(types, fields[key], ts[1..]);
      var others := ReadMembersConform(types, fields, seen + {key}, rest);
      ms := [Member(key, first)] + others;
      assert ms[1..] == others;
      MembersCons(ms, [CloseObject] + end);
      MembersConformCons(types, fields, seen, ms);
    }
  }

  /** On a value's tokens followed by anything, the check succeeds just when the value conforms,
      and it then leaves exactly what followed. */
  lemma RecognisesExactly(types: Types, t: GoType, v: Json, rest: seq<Token>)
    ensures ReadValue(types, t, Tokens(v) + rest) == if Conforms(types, t, v) then Done(rest) else Refused
  {
    var r := ReadValue(types, t, Tokens(v) + rest);
    if r.Done? {
      var w := ReadIsConforming(types, t, Tokens(v) + rest);
      TokensUnique(v, w, rest, r.rest);
    }
    if Conforms(types, t, v) {
      ReadsConforming(types, t, v, rest);
    }
  }

  /** The input is one conforming value and nothing else. */
  ghost predicate OneConforming(types: Types, t: GoType, input: seq<Token>) {
    exists v :: input == Tokens(v) && Conforms(types, t, v)
  }

  /** The check reads an input to its end just when it is one conforming value. */
  lemma ReadsWhole(types: Types, t: GoType, input: seq<Token>)
    ensures ReadValue(types, t, input) == Done([]) <==> OneConforming(types, t, input)
  {
    if OneConforming(types, t, input) {
      var v :| input == Tokens(v) && Conforms(types, t, v);
      assert Tokens(v) + [] == input;
      ReadsConforming(types, t, v, []);
    }
    if ReadValue(types, t, input) == Done([]) {
      var v := ReadIsConforming(types, t, input);
      assert Tokens(v) + [] == Tokens(v);
    }
  }

  // ----- the decoder

  /** Where in its nesting a decoder stands. */
  datatype Frame = InArray | AtKey | AtValue

  /** A decoder: the tokens still to be read, and its nesting. */
  class Decoder {
    var rest: seq<Token>
    var frames: seq<Frame>

    constructor (input: seq<Token>)
      ensures rest == input && frames == []
    {
      rest, frames := input, [];
    }

    function Top(): Strings.Option<Frame>
      reads this
    {
      if frames == [] then Strings.None else Strings.Some(frames[|frames| - 1])
    }

    /** Decoder.More. */
    predicate More()
      reads this
    {
      rest != [] && rest[0] != CloseArray && rest[0] != CloseObject
    }

    /** Decoder.Token: the next token, or None for the end of the input and for every token
        the grammar of JSON does not have in this place. */
    method Token() returns (r: Strings.Option<JsonValues.Token>)
      modifies this
      ensures r == if Allowed(old(Top()), old(rest)) then Strings.Some(old(rest)[0]) else Strings.None
      ensures r.Some? ==> rest == old(rest)[1..] && frames == Step(old(frames), r.value)
    {
      if !Allowed(Top(), rest) {
        return Strings.None;
      }
      var t := rest[0];
      rest := rest[1..];
      frames := Step(frames, t);
      return Strings.Some(t);
    }
  }

  /** Whether the grammar has the first of `ts` in a place with this frame on top. */
  predicate Allowed(top: Strings.Option<Frame>, ts: seq<Token>) {
    ts != [] &&
    match ts[0]
    case Malformed => false
    case CloseArray => top == Strings.Some(InArray)
    case CloseObject => top == Strings.Some(AtKey)
    case Text(_) => true
    case _ => top != Strings.Some(AtKey)
  }

  function Step(frames: seq<Frame>, t: Token): seq<Frame> {
    match t
    case OpenObject => frames + [AtKey]
    case OpenArray => frames + [InArray]
    case CloseObject => if frames == [] then [] else Completed(frames[..|frames| - 1])
    case CloseArray => if frames == [] then [] else Completed(frames[..|frames| - 1])
    case _ =>
      if frames != [] && frames[|frames| - 1] == AtKey then frames[..|frames| - 1] + [AtValue] else Completed(frames)
  }

  /** The frames once a value is read. */
  function Completed(frames: seq<Frame>): seq<Frame> {
    if frames != [] && frames[|frames| - 1] == AtValue then frames[..|frames| - 1] + [AtKey] else frames
  }

  // ----- the check

  /** The table of field names and types. */
  method FieldTable(fs: seq<StructField>) returns (fields: map<string, GoType>)
    ensures fields == KnownFields(fs)
  {
    fields := map[];
    for i := 0 to |fs|
      invariant fields == KnownFields(fs[..i])
    {
      assert fs[..i + 1][..i] == fs[..i];
      if IsVisible(fs[i]) {
        fields := fields[JsonName(fs[i]) := fs[i].typ];
      }
    }
    assert fs[..|fs|] == fs;
  }

  /** checkJSONValue. */
  method CheckValue(d: Decoder, types: Types, t: GoType) returns (ok: bool)
    requires d.Top() != Strings.Some(AtKey)
    modifies d
    ensures ok == ReadValue(types, t, old(d.rest)).Done?
    ensures ok ==> d.rest == ReadValue(types, t, old(d.rest)).rest && d.frames == Completed(old(d.frames))
    decreases |d.rest|, 0
  {
    var tok := d.Token();
    if tok == Strings.None {
      return false;
    }
    if tok.value == Null {
      return t.Pointer? || t.Slice?;
    }
    var typ := t;
    while typ.Pointer?
      invariant StripPointers(typ) == StripPointers(t)
      decreases typ
    {
      typ := typ.elem;
    }
    match tok.value {
      case OpenObject =>
        if !typ.Struct? {
          return false;
        }
        var fields := map[];
        if typ.id in types {
          fields := FieldTable(types[typ.id]);
        }
        ok := CheckMembers(d, types, fields);
      case OpenArray =>
        if !typ.Slice? && !typ.Array? {
          return false;
        }
        ok := CheckItems(d, types, typ.elem);
      case CloseObject =>
        return false;
      case CloseArray =>
        return false;
      case _ =>
        return !typ.Struct? && !typ.Slice? && !typ.Array?;
    }
  }

  /** An object's members up to its closing bracket. */
  method CheckMembers(d: Decoder, types: Types, fields: map<string, GoType>) returns (ok: bool)
    requires d.Top() == Strings.Some(AtKey)
    modifies d
    ensures ok == ReadMembers(types, fields, {}, old(d.rest)).Done?
    ensures ok ==> d.rest == ReadMembers(types, fields, {}, old(d.rest)).rest
    ensures ok ==> d.frames == Completed(old(d.frames)[..|old(d.frames)| - 1])
    decreases |d.rest|, 1
  {
    var seen: set<string> := {};
    while d.More()
      invariant d.frames == old(d.frames) && |d.rest| <= |old(d.rest)|
      invariant ReadMembers(types, fields, seen, d.rest) == ReadMembers(types, fields, {}, old(d.rest))
      decreases |d.rest|
    {
      var key := d.Token();
      if key == Strings.None {
        return false;
      }
      if !key.value.Text? || key.value.text !in fields || key.value.text in seen {
        return false;
      }
      seen := seen + {key.value.text};
      ok := CheckValue(d, types, fields[key.value.text]);
      if !ok {
        return false;
      }
    }
    var end := d.Token();
    return end.Some?;
  }

  /** An array's items up to its closing bracket. */
  method CheckItems(d: Decoder, types: Types, elem: GoType) returns (ok: bool)
    requires d.Top() == Strings.Some(InArray)
    modifies d
    ensures ok == ReadItems(types, elem, old(d.rest)).Done?
    ensures ok ==> d.rest == ReadItems(types, elem, old(d.rest)).rest
    ensures ok ==> d.frames == Completed(old(d.frames)[..|old(d.frames)| - 1])
    decreases |d.rest|, 1
  {
    while d.More()
      invariant d.frames == old(d.frames) && |d.rest| <= |old(d.rest)|
      invariant ReadItems(types, elem, d.rest) == ReadItems(types, elem, old(d.rest))
      decreases |d.rest|
    {
      ok := CheckValue(d, types, elem);
      if !ok {
        return false;
      }
    }
    var end := d.Token();
    return end.Some?;
  }

  /** decodeCommand: `unmarshals` is what json.Unmarshal answers. */
  method DecodeCommand(size: nat, input: seq<Token>, types: Types, t: GoType, strict: bool, unmarshals: bool) returns (ok: bool)
    ensures !strict ==> ok == unmarshals
    ensures strict ==> (ok <==> size <= 65536 && unmarshals && ReadValue(types, t, input) == Done([]))
  {
    if !strict {
      return unmarshals;
    }
    if size > MAX_COMMAND {
      return false;
    }
    var d := new Decoder(input);
    ok := CheckValue(d, types, t);
    if !ok {
      return false;
    }
    if d.rest != [] {
      return false;
    }
    return unmarshals;
  }
}
