/** What the byte tests of Utf8 mean for the code points that are written (RFC 3629, section 3). */
module Utf8Laws {
  import opened Utf8

  /** A Unicode scalar value: any code point but the surrogates. */
  predicate Scalar(cp: int) {
    0 <= cp < 0xD800 || 0xE000 <= cp < 0x110000
  }

  /** The bytes of a code point, by RFC 3629. */
  function Encoding(cp: int): (s: string)
    requires Scalar(cp)
    ensures 1 <= |s| <= 4
  {
    if cp < 0x80 then [cp as char]
    else if cp < 0x800 then [(0xC0 + cp / 0x40) as char, (0x80 + cp % 0x40) as char]
    else if cp < 0x10000 then
      [(0xE0 + cp / 0x1000) as char, (0x80 + cp / 0x40 % 0x40) as char, (0x80 + cp % 0x40) as char]
    else
      [(0xF0 + cp / 0x40000) as char, (0x80 + cp / 0x1000 % 0x40) as char, (0x80 + cp / 0x40 % 0x40) as char,
       (0x80 + cp % 0x40) as char]
  }

  function EncodingOf(cps: seq<int>): string
    requires forall cp <- cps :: Scalar(cp)
  {
    if cps == [] then "" else Encoding(cps[0]) + EncodingOf(cps[1..])
  }

  lemma OneByte(cp: int, s: string)
    requires 0 <= cp < 0x80 && Encoding(cp) <= s
    ensures RuneWidth(s) == 1
  {
  }

  lemma TwoBytes(cp: int, s: string)
    requires 0x80 <= cp < 0x800 && Encoding(cp) <= s
    ensures RuneWidth(s) == 2
  {
    assert 2 <= cp / 0x40 < 0x20;
    assert s[0] == Encoding(cp)[0] && s[1] == Encoding(cp)[1];
  }

  lemma ThreeBytes(cp: int, s: string)
    requires Scalar(cp) && 0x800 <= cp < 0x10000 && Encoding(cp) <= s
    ensures RuneWidth(s) == 3
  {
    var hi, mid := cp / 0x1000, cp / 0x40 % 0x40;
    assert 0 <= hi < 0x10 && (hi == 0 ==> mid >= 0x20) && (hi == 0xD ==> mid < 0x20);
    assert s[0] == Encoding(cp)[0] && s[1] == Encoding(cp)[1] && s[2] == Encoding(cp)[2];
  }

  lemma FourBytes(cp: int, s: string)
    requires Scalar(cp) && 0x10000 <= cp && Encoding(cp) <= s
    ensures RuneWidth(s) == 4
  {
    var hi, mid := cp / 0x40000, cp / 0x1000 % 0x40;
    assert 0 <= hi <= 4 && (hi == 0 ==> mid >= 0x10) && (hi == 4 ==> mid < 0x10);
    assert s[0] == Encoding(cp)[0] && s[1] == Encoding(cp)[1] && s[2] == Encoding(cp)[2] && s[3] == Encoding(cp)[3];
  }

  lemma WidthOfEncoding(cp: int, s: string)
    requires Scalar(cp) && Encoding(cp) <= s
    ensures RuneWidth(s) == |Encoding(cp)|
  {
    if cp < 0x80 {
      OneByte(cp, s);
    } else if cp < 0x800 {
      TwoBytes(cp, s);
    } else if cp < 0x10000 {
      ThreeBytes(cp, s);
    } else {
      FourBytes(cp, s);
    }
  }

  /** The code point the first `n` bytes spell. */
  function Decoding(s: string, n: nat): int
    requires 1 <= n <= |s| && n <= 4
  {
    if n == 1 then s[0] as int
    else if n == 2 then 0x40 * (s[0] as int - 0xC0) + (s[1] as int - 0x80)
    else if n == 3 then 0x1000 * (s[0] as int - 0xE0) + 0x40 * (s[1] as int - 0x80) + (s[2] as int - 0x80)
    else 0x40000 * (s[0] as int - 0xF0) + 0x1000 * (s[1] as int - 0x80) + 0x40 * (s[2] as int - 0x80) + (s[3] as int - 0x80)
  }

  lemma Digits(a: int, b: int)
    requires 0 <= b < 0x40
    ensures (0x40 * a + b) / 0x40 == a && (0x40 * a + b) % 0x40 == b
  {
  }

  lemma DecodesTwo(s: string)
    requires RuneWidth(s) == 2
    ensures Scalar(Decoding(s, 2)) && Encoding(Decoding(s, 2)) == s[..2]
  {
    Digits(s[0] as int - 0xC0, s[1] as int - 0x80);
  }

  lemma DecodesThree(s: string)
    requires RuneWidth(s) == 3
    ensures Scalar(Decoding(s, 3)) && Encoding(Decoding(s, 3)) == s[..3]
  {
    var a, b, c := s[0] as int - 0xE0, s[1] as int - 0x80, s[2] as int - 0x80;
    Digits(0x40 * a + b, c);
    Digits(a, b);
    var cp := Decoding(s, 3);
    assert cp == 0x40 * (0x40 * a + b) + c;
    assert cp / 0x40 == 0x40 * a + b && cp / 0x1000 == a;
    assert 0x800 <= cp < 0x10000;
  }

  lemma DecodesFour(s: string)
    requires RuneWidth(s) == 4
    ensures Scalar(Decoding(s, 4)) && Encoding(Decoding(s, 4)) == s[..4]
  {
    var a, b, c, d := s[0] as int - 0xF0, s[1] as int - 0x80, s[2] as int - 0x80, s[3] as int - 0x80;
    Digits(0x40 * (0x40 * a + b) + c, d);
    Digits(0x40 * a + b, c);
    Digits(a, b);
    var cp := Decoding(s, 4);
    assert cp == 0x40 * (0x40 * (0x40 * a + b) + c) + d;
    assert cp / 0x40 == 0x40 * (0x40 * a + b) + c && cp / 0x1000 == 0x40 * a + b && cp / 0x40000 == a;
    assert 0x10000 <= cp < 0x110000;
  }

  /** A rune is read exactly where the encoding of a scalar value stands, and is as wide. */
  lemma RuneExactly(s: string)
    ensures forall cp :: Scalar(cp) && Encoding(cp) <= s ==> RuneWidth(s) == |Encoding(cp)|
    ensures RuneWidth(s) > 0 ==> Scalar(Decoding(s, RuneWidth(s))) && Encoding(Decoding(s, RuneWidth(s))) == s[..RuneWidth(s)]
  {
    forall cp | Scalar(cp) && Encoding(cp) <= s
      ensures RuneWidth(s) == |Encoding(cp)|
    {
      WidthOfEncoding(cp, s);
    }
    if RuneWidth(s) == 2 {
      DecodesTwo(s);
    } else if RuneWidth(s) == 3 {
      DecodesThree(s);
    } else if RuneWidth(s) == 4 {
      DecodesFour(s);
    }
  }

  lemma {:induction false} EncodingValid(cps: seq<int>)
    requires forall cp <- cps :: Scalar(cp)
    ensures ValidString(EncodingOf(cps))
  {
    if cps != [] {
      var s := EncodingOf(cps);
      WidthOfEncoding(cps[0], s);
      assert s[RuneWidth(s)..] == EncodingOf(cps[1..]);
      EncodingValid(cps[1..]);
    }
  }

  lemma EncodingCons(cp: int, cps: seq<int>)
    requires Scalar(cp) && forall c <- cps :: Scalar(c)
    ensures forall c <- [cp] + cps :: Scalar(c)
    ensures EncodingOf([cp] + cps) == Encoding(cp) + EncodingOf(cps)
  {
    assert ([cp] + cps)[1..] == cps;
  }

  lemma {:induction false} ValidEncoding(s: string) returns (cps: seq<int>)
    requires ValidString(s)
    ensures forall cp <- cps :: Scalar(cp)
    ensures EncodingOf(cps) == s
  {
    if s == "" {
      cps := [];
    } else {
      RuneExactly(s);
      var n := RuneWidth(s);
      var rest := ValidEncoding(s[n..]);
      EncodingCons(Decoding(s, n), rest);
      cps := [Decoding(s, n)] + rest;
      assert s == s[..n] + s[n..];
    }
  }

  /** utf8.ValidString holds exactly for the encodings of scalar values, one after the other. */
  lemma ValidExactly(s: string)
    ensures ValidString(s) <==> exists cps: seq<int> :: (forall cp <- cps :: Scalar(cp)) && EncodingOf(cps) == s
  {
    if ValidString(s) {
      var cps := ValidEncoding(s);
    }
    if cps: seq<int> :| (forall cp <- cps :: Scalar(cp)) && EncodingOf(cps) == s {
      EncodingValid(cps);
    }
  }

  /** unicode.IsControl. */
  predicate Control(cp: int) {
    0 <= cp < 0x20 || 0x7F <= cp < 0xA0
  }

  lemma StartsExactly(cp: int, s: string)
    requires Scalar(cp) && Encoding(cp) <= s
    ensures StartsWithControl(s) <==> Control(cp)
  {
    WidthOfEncoding(cp, s);
    assert s[0] == Encoding(cp)[0];
    if 0x80 <= cp < 0x800 {
      assert s[1] == Encoding(cp)[1];
      assert cp == 0x40 * (cp / 0x40) + cp % 0x40;
    }
  }

  /** Of code points written out, a control is found exactly where there is one. */
  lemma {:induction false} ControlExactly(cps: seq<int>)
    requires forall cp <- cps :: Scalar(cp)
    ensures ContainsControl(EncodingOf(cps)) <==> exists cp <- cps :: Control(cp)
  {
    if cps != [] {
      var s := EncodingOf(cps);
      StartsExactly(cps[0], s);
      WidthOfEncoding(cps[0], s);
      assert s[RuneWidth(s)..] == EncodingOf(cps[1..]);
      ControlExactly(cps[1..]);
      assert cps == [cps[0]] + cps[1..];
    }
  }
}
