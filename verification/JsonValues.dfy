/** JSON values and the token streams a decoder reads them from. */
module JsonValues {

  /** What Decoder.Token yields. Commas, colons and white space are gone; where the text is no
      JSON the next token is Malformed. */
  datatype Token =
    | OpenObject
    | CloseObject
    | OpenArray
    | CloseArray
    | Null
    | Text(text: string)
    | Literal(text: string)
    | Malformed

  /** A literal is a number, true or false. */
  datatype Json =
    | JNull
    | JText(text: string)
    | JLiteral(text: string)
    | JArray(items: seq<Json>)
    | JObject(members: seq<Member>)

  datatype Member = Member(key: string, value: Json)

  function Tokens(v: Json): (ts: seq<Token>)
    ensures ts != []
    decreases v, 0
  {
    match v
    case JNull => [Null]
    case JText(s) => [Text(s)]
    case JLiteral(s) => [Literal(s)]
    case JArray(items) => [OpenArray] + ItemTokens(items) + [CloseArray]
    case JObject(members) => [OpenObject] + MemberTokens(members) + [CloseObject]
  }

  function ItemTokens(items: seq<Json>): seq<Token>
    decreases items, 0
  {
    if items == [] then [] else Tokens(items[0]) + ItemTokens(items[1..])
  }

  function MemberTokens(ms: seq<Member>): seq<Token>
    decreases ms, 0
  {
    if ms == [] then []
    else
      assert ms[0].value < ms[0];
      [Text(ms[0].key)] + Tokens(ms[0].value) + MemberTokens(ms[1..])
  }

  // ----- a value's tokens, split where a reader splits them

  lemma ArrayTokens(items: seq<Json>, rest: seq<Token>)
    ensures Tokens(JArray(items)) + rest == [OpenArray] + (ItemTokens(items) + ([CloseArray] + rest))
  {
  }

  lemma ObjectTokens(ms: seq<Member>, rest: seq<Token>)
    ensures Tokens(JObject(ms)) + rest == [OpenObject] + (MemberTokens(ms) + ([CloseObject] + rest))
  {
  }

  lemma ItemsCons(items: seq<Json>, rest: seq<Token>)
    requires items != []
    ensures ItemTokens(items) + rest == Tokens(items[0]) + (ItemTokens(items[1..]) + rest)
  {
  }

  lemma MembersCons(ms: seq<Member>, rest: seq<Token>)
    requires ms != []
    ensures MemberTokens(ms) + rest == [Text(ms[0].key)] + (Tokens(ms[0].value) + (MemberTokens(ms[1..]) + rest))
  {
  }

  lemma Uncons<T>(a: T, x: seq<T>, b: T, y: seq<T>)
    requires [a] + x == [b] + y
    ensures a == b && x == y
  {
    assert ([a] + x)[0] == a && ([b] + y)[0] == b;
    assert ([a] + x)[1..] == x && ([b] + y)[1..] == y;
  }

  /** No value's tokens start with a closing bracket. */
  lemma FirstToken(v: Json, rest: seq<Token>)
    ensures Tokens(v) + rest != [] && !(Tokens(v) + rest)[0].CloseArray? && !(Tokens(v) + rest)[0].CloseObject?
    ensures !(Tokens(v) + rest)[0].Malformed?
  {
    match v {
      case JArray(items) => ArrayTokens(items, rest);
      case JObject(ms) => ObjectTokens(ms, rest);
      case _ =>
    }
  }

  /** A stream starts with the tokens of one value at most. */
  lemma {:induction false} TokensUnique(v: Json, w: Json, x: seq<Token>, y: seq<Token>)
    requires Tokens(v) + x == Tokens(w) + y
    ensures v == w && x == y
    decreases v, 0
  {
    FirstToken(v, x);
    FirstToken(w, y);
    match v {
      case JArray(items) =>
        ArrayTokens(items, x);
        assert (Tokens(w) + y)[0] == OpenArray;
        SameKind(w, y);
        ArrayTokens(w.items, y);
        Uncons(OpenArray, ItemTokens(items) + ([CloseArray] + x), OpenArray, ItemTokens(w.items) + ([CloseArray] + y));
        ItemsUnique(items, w.items, x, y);
      case JObject(ms) =>
        ObjectTokens(ms, x);
        assert (Tokens(w) + y)[0] == OpenObject;
        SameKind(w, y);
        ObjectTokens(w.members, y);
        Uncons(OpenObject, MemberTokens(ms) + ([CloseObject] + x), OpenObject, MemberTokens(w.members) + ([CloseObject] + y));
        MembersUnique(ms, w.members, x, y);
      case _ =>
        SameKind(v, x);
        SameKind(w, y);
        Uncons(Tokens(v)[0], x, Tokens(w)[0], y);
    }
  }

  /** The first token says which kind of value it is. */
  lemma SameKind(w: Json, y: seq<Token>)
    ensures (Tokens(w) + y)[0].OpenArray? <==> w.JArray?
    ensures (Tokens(w) + y)[0].OpenObject? <==> w.JObject?
    ensures !w.JArray? && !w.JObject? ==> Tokens(w) == [Tokens(w)[0]] && (Tokens(w) + y)[0] == Tokens(w)[0]
  {
    match w {
      case JArray(items) => ArrayTokens(items, y);
      case JObject(ms) => ObjectTokens(ms, y);
      case _ =>
    }
  }

  lemma {:induction false} ItemsUnique(a: seq<Json>, b: seq<Json>, x: seq<Token>, y: seq<Token>)
    requires ItemTokens(a) + ([CloseArray] + x) == ItemTokens(b) + ([CloseArray] + y)
    ensures a == b && x == y
    decreases a, 0
  {
    var s, t := [CloseArray] + x, [CloseArray] + y;
    assert [] + s == s && [] + t == t;
    if a != [] {
      ItemsCons(a, s);
      FirstToken(a[0], ItemTokens(a[1..]) + s);
    }
    if b != [] {
      ItemsCons(b, t);
      FirstToken(b[0], ItemTokens(b[1..]) + t);
    }
    if a == [] {
      assert (ItemTokens(b) + t)[0] == CloseArray;
      Uncons(CloseArray, x, CloseArray, y);
    } else {
      assert b != [];
      TokensUnique(a[0], b[0], ItemTokens(a[1..]) + s, ItemTokens(b[1..]) + t);
      ItemsUnique(a[1..], b[1..], x, y);
      assert a == [a[0]] + a[1..] && b == [b[0]] + b[1..];
    }
  }

  lemma {:induction false} MembersUnique(a: seq<Member>, b: seq<Member>, x: seq<Token>, y: seq<Token>)
    requires MemberTokens(a) + ([CloseObject] + x) == MemberTokens(b) + ([CloseObject] + y)
    ensures a == b && x == y
    decreases a, 0
  {
    var s, t := [CloseObject] + x, [CloseObject] + y;
    assert [] + s == s && [] + t == t;
    if a != [] {
      MembersCons(a, s);
      assert (MemberTokens(a) + s)[0] == Text(a[0].key);
    }
    if b != [] {
      MembersCons(b, t);
      assert (MemberTokens(b) + t)[0] == Text(b[0].key);
    }
    if a == [] {
      assert (MemberTokens(a) + s)[0] == CloseObject;
      Uncons(CloseObject, x, CloseObject, y);
    } else {
      assert b == [] ==> MemberTokens(b) + t == [] + t;
      assert b != [];
      var p, q := Tokens(a[0].value) + (MemberTokens(a[1..]) + s), Tokens(b[0].value) + (MemberTokens(b[1..]) + t);
      Uncons(Text(a[0].key), p, Text(b[0].key), q);
      assert a[0].value < a[0];
      TokensUnique(a[0].value, b[0].value, MemberTokens(a[1..]) + s, MemberTokens(b[1..]) + t);
      MembersUnique(a[1..], b[1..], x, y);
      assert a == [a[0]] + a[1..] && b == [b[0]] + b[1..];
    }
  }
}
