/** Length-delimited atoms, "<len>:<bytes>" and a closing byte: no run of atoms can be read
    as another. Both canonical encodings of the repository are made of them. */
module Netstrings {

  // ----- decimal integers

  function DigitOf(d: nat): char
    requires d < 10
  {
    ('0' as int + d) as char
  }

  /** strconv.Itoa of a non-negative integer. */
  function Itoa(n: nat): (s: string)
    ensures s != "" && forall i :: 0 <= i < |s| ==> '0' <= s[i] <= '9'
  {
    if n < 10 then [DigitOf(n)] else Itoa(n / 10) + [DigitOf(n % 10)]
  }

  /** fmt.Sprint of an integer. */
  function Sprint(n: int): string {
    if n < 0 then "-" + Itoa(-n) else Itoa(n)
  }

  lemma {:induction false} ItoaInjective(a: nat, b: nat)
    requires Itoa(a) == Itoa(b)
    ensures a == b
  {
    var s := Itoa(a);
    assert s[|s| - 1] == DigitOf(a % 10) && s[|s| - 1] == DigitOf(b % 10);
    assert a % 10 == b % 10;
    if a >= 10 && b >= 10 {
      assert s[..|s| - 1] == Itoa(a / 10) && s[..|s| - 1] == Itoa(b / 10);
      ItoaInjective(a / 10, b / 10);
    } else {
      assert |Itoa(a / 10)| >= 1 && |Itoa(b / 10)| >= 1;
    }
  }

  lemma SprintInjective(a: int, b: int)
    requires Sprint(a) == Sprint(b)
    ensures a == b
  {
    assert a < 0 <==> Sprint(a)[0] == '-';
    assert b < 0 <==> Sprint(b)[0] == '-';
    if a < 0 {
      assert Sprint(a)[1..] == Itoa(-a) && Sprint(b)[1..] == Itoa(-b);
      ItoaInjective(-a, -b);
    } else {
      ItoaInjective(a, b);
    }
  }

  // ----- atoms

  function Atom(s: string, close: char): string {
    Itoa(|s|) + [':'] + s + [close]
  }

  function Encode(atoms: seq<string>, close: char): string {
    if atoms == [] then "" else Atom(atoms[0], close) + Encode(atoms[1..], close)
  }

  lemma {:induction false} EncodeConcat(a: seq<string>, b: seq<string>, close: char)
    ensures Encode(a + b, close) == Encode(a, close) + Encode(b, close)
  {
    if a == [] {
      assert a + b == b;
    } else {
      assert (a + b)[1..] == a[1..] + b;
      EncodeConcat(a[1..], b, close);
    }
  }

  /** A decimal prefix ended by a colon is read in one way only. */
  lemma {:induction false} PrefixUnique(p: string, q: string, x: string, y: string)
    requires forall i :: 0 <= i < |p| ==> p[i] != ':'
    requires forall i :: 0 <= i < |q| ==> q[i] != ':'
    requires p + [':'] + x == q + [':'] + y
    ensures p == q && x == y
  {
    var s := p + [':'] + x;
    assert s[|p|] == ':' && forall i :: 0 <= i < |p| ==> s[i] == p[i] != ':';
    assert s[|q|] == ':' && forall i :: 0 <= i < |q| ==> s[i] == q[i] != ':';
    assert p == s[..|p|] == q;
    assert x == s[|p| + 1..] == y;
  }

  /** One atom can be read off the front of a text in one way only. */
  lemma AtomUnique(a: string, b: string, x: string, y: string, close: char)
    requires Atom(a, close) + x == Atom(b, close) + y
    ensures a == b && x == y
  {
    var s, t := a + [close] + x, b + [close] + y;
    assert Atom(a, close) + x == Itoa(|a|) + [':'] + s;
    assert Atom(b, close) + y == Itoa(|b|) + [':'] + t;
    PrefixUnique(Itoa(|a|), Itoa(|b|), s, t);
    ItoaInjective(|a|, |b|);
    assert a == s[..|a|] == b;
    assert x == s[|a| + 1..] == y;
  }

  /** Equal encodings are encodings of equal lists of atoms. */
  lemma {:induction false} EncodeInjective(a: seq<string>, b: seq<string>, close: char)
    requires Encode(a, close) == Encode(b, close)
    ensures a == b
  {
    assert a != [] ==> Encode(a, close) != "";
    assert b != [] ==> Encode(b, close) != "";
    if a != [] && b != [] {
      AtomUnique(a[0], b[0], Encode(a[1..], close), Encode(b[1..], close), close);
      EncodeInjective(a[1..], b[1..], close);
      assert a == [a[0]] + a[1..] && b == [b[0]] + b[1..];
    }
  }
}
