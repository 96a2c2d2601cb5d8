/** What the library functions on strings mean: alphabets, prefixes, the order of bytes, and white
    space by its code points. */
module StringLaws {
  import opened Strings
  import opened Sorting
  import opened Utf8
  import opened Utf8Laws

  // ----- alphabets

  const SMALL := "abcdefghijklmnopqrstuvwxyz"
  const CAPITAL := "ABCDEFGHIJKLMNOPQRSTUVWXYZ"
  const DIGITS := "0123456789"

  lemma SmallAt(i: nat)
    requires i < 26
    ensures SMALL[i] as int == 'a' as int + i
  {
  }

  lemma CapitalAt(i: nat)
    requires i < 26
    ensures CAPITAL[i] as int == 'A' as int + i
  {
  }

  lemma DigitAt(i: nat)
    requires i < 10
    ensures DIGITS[i] as int == '0' as int + i
  {
  }

  lemma SmallExactly(c: char)
    ensures 'a' <= c <= 'z' <==> c in SMALL
  {
    if 'a' <= c <= 'z' {
      SmallAt(c as int - 'a' as int);
    }
    if i :| 0 <= i < 26 && SMALL[i] == c {
      SmallAt(i);
    }
  }

  lemma CapitalExactly(c: char)
    ensures 'A' <= c <= 'Z' <==> c in CAPITAL
  {
    if 'A' <= c <= 'Z' {
      CapitalAt(c as int - 'A' as int);
    }
    if i :| 0 <= i < 26 && CAPITAL[i] == c {
      CapitalAt(i);
    }
  }

  lemma DigitExactly(c: char)
    ensures '0' <= c <= '9' <==> c in DIGITS
  {
    if '0' <= c <= '9' {
      DigitAt(c as int - '0' as int);
    }
    if i :| 0 <= i < 10 && DIGITS[i] == c {
      DigitAt(i);
    }
  }

  // ----- prefixes and order

  lemma PrefixExactly(s: string, prefix: string)
    ensures HasPrefix(s, prefix) <==> exists rest :: s == prefix + rest
  {
    if HasPrefix(s, prefix) {
      assert s == prefix + s[|prefix|..];
    }
  }

  lemma SuffixExactly(s: string, suffix: string)
    ensures HasSuffix(s, suffix) <==> exists front :: s == front + suffix
  {
    if HasSuffix(s, suffix) {
      assert s == s[..|s| - |suffix|] + suffix;
    }
  }

  /** Byte `k` is the first in which the texts differ, and `a` has the smaller one. */
  predicate LessAt(a: string, b: string, k: nat) {
    k < |a| && k < |b| && a[..k] == b[..k] && a[k] < b[k]
  }

  /** The order is that of the first different byte; a text comes before its continuations. */
  lemma {:induction false} LeqExactly(a: string, b: string)
    ensures Leq(a, b) <==> a <= b || exists k :: LessAt(a, b, k)
  {
    if a != "" && b != "" {
      LeqExactly(a[1..], b[1..]);
      if a[0] == b[0] {
        assert a[1..] <= b[1..] <==> a <= b;
        forall k: nat
          ensures LessAt(a[1..], b[1..], k) <==> LessAt(a, b, k + 1)
        {
          LessLater(a, b, k);
        }
        if k: nat :| LessAt(a, b, k) {
          assert k > 0;
          assert LessAt(a[1..], b[1..], k - 1);
        }
      } else if a[0] < b[0] {
        assert LessAt(a, b, 0);
      } else {
        NotLess(a, b);
      }
    }
  }

  lemma LessLater(a: string, b: string, k: nat)
    requires a != "" && b != "" && a[0] == b[0]
    ensures LessAt(a[1..], b[1..], k) <==> LessAt(a, b, k + 1)
  {
    if k + 1 <= |a| && k + 1 <= |b| {
      assert a[..k + 1] == [a[0]] + a[1..][..k] && b[..k + 1] == [b[0]] + b[1..][..k];
      assert a[..k + 1][1..] == a[1..][..k] && b[..k + 1][1..] == b[1..][..k];
    }
  }

  lemma NotLess(a: string, b: string)
    requires a != "" && b != "" && a[0] > b[0]
    ensures !(a <= b) && forall k: nat :: !LessAt(a, b, k)
  {
    forall k: nat
      ensures !LessAt(a, b, k)
    {
      if k > 0 && k <= |a| && k <= |b| {
        assert a[..k][0] != b[..k][0];
      }
    }
  }

  // ----- white space

  /** unicode.IsSpace. */
  predicate Space(cp: int) {
    9 <= cp <= 13 || 0x2000 <= cp <= 0x200A || cp in {0x20, 0x85, 0xA0, 0x1680, 0x2028, 0x2029, 0x202F, 0x205F, 0x3000}
  }

  /** The text is a space and nothing else. */
  ghost predicate OneSpace(s: string) {
    exists cp :: Space(cp) && Encoding(cp) == s
  }

  lemma WideSpaces(cp: int)
    requires Space(cp) && cp >= 0x80
    ensures IsWideSpace(Encoding(cp))
  {
  }

  lemma ThreeByteSpace(s: string)
    requires IsWideSpace(s) && |s| == 3 && s[..2] == "\U{E2}\U{80}"
    ensures OneSpace(s)
  {
    var cp := 0x2000 + (s[2] as int - 0x80);
    assert s[0] == '\U{E2}' && s[1] == '\U{80}' by {
      assert s[..2][0] == s[0] && s[..2][1] == s[1];
    }
    assert Space(cp) && Encoding(cp) == s;
  }

  lemma WideIsSpace(s: string)
    requires IsWideSpace(s)
    ensures OneSpace(s)
  {
    if |s| == 3 && s[..2] == "\U{E2}\U{80}" {
      ThreeByteSpace(s);
    } else {
      assert Encoding(0x85) == "\U{C2}\U{85}" && Encoding(0xA0) == "\U{C2}\U{A0}";
      assert Encoding(0x1680) == "\U{E1}\U{9A}\U{80}" && Encoding(0x205F) == "\U{E2}\U{81}\U{9F}" && Encoding(0x3000) == "\U{E3}\U{80}\U{80}";
      assert Space(0x85) && Space(0xA0) && Space(0x1680) && Space(0x205F) && Space(0x3000);
    }
  }

  lemma NarrowIsSpace(c: char)
    requires c == ' ' || '\U{09}' <= c <= '\U{0D}'
    ensures OneSpace([c])
  {
    assert Space(c as int) && Encoding(c as int) == [c];
  }

  /** What is taken off the front is one space. */
  lemma LeadingIsSpace(s: string)
    requires LeadingSpace(s) > 0
    ensures OneSpace(s[..LeadingSpace(s)])
  {
    var n := LeadingSpace(s);
    if n == 1 {
      NarrowIsSpace(s[0]);
      assert s[..1] == [s[0]];
    } else {
      WideIsSpace(s[..n]);
    }
  }

  /** Where a space stands at the front, one is taken off. */
  lemma SpaceLeads(s: string, cp: int)
    requires Space(cp) && Encoding(cp) <= s
    ensures LeadingSpace(s) > 0
  {
    var e := Encoding(cp);
    assert e == s[..|e|];
    if cp >= 0x80 {
      WideSpaces(cp);
    }
  }

  ghost predicate EndsIn(s: string, e: string) {
    |e| <= |s| && s[|s| - |e|..] == e
  }

  lemma TrailingNarrow(s: string)
    requires TrailingSpace(s) == 1
    ensures OneSpace([s[|s| - 1]])
  {
    NarrowIsSpace(s[|s| - 1]);
  }

  lemma TrailingWide(s: string)
    requires TrailingSpace(s) > 1
    ensures IsWideSpace(s[|s| - TrailingSpace(s)..])
  {
  }

  lemma LastByte(s: string)
    requires s != ""
    ensures s[|s| - 1..] == [s[|s| - 1]]
  {
  }

  /** The same at the end. */
  lemma TrailingIsSpace(s: string, tail: string)
    requires TrailingSpace(s) > 0 && tail == s[|s| - TrailingSpace(s)..]
    ensures OneSpace(tail)
  {
    if TrailingSpace(s) == 1 {
      TrailingNarrow(s);
      LastByte(s);
    } else {
      TrailingWide(s);
      WideIsSpace(tail);
    }
  }

  lemma WideTrails(s: string, e: string)
    requires IsWideSpace(e) && |e| <= |s| && s[|s| - |e|..] == e
    ensures TrailingSpace(s) > 0
  {
  }

  lemma SpaceTrails(s: string, cp: int)
    requires Space(cp) && EndsIn(s, Encoding(cp))
    ensures TrailingSpace(s) > 0
  {
    if cp >= 0x80 {
      WideSpaces(cp);
      WideTrails(s, Encoding(cp));
    } else {
      assert s[|s| - 1] == s[|s| - 1..][0] == cp as char;
    }
  }

  /** A text of spaces only. */
  ghost predicate Blank(s: string) {
    exists cps: seq<int> :: (forall cp <- cps :: Scalar(cp) && Space(cp)) && EncodingOf(cps) == s
  }

  lemma {:induction false} EncodingConcat(a: seq<int>, b: seq<int>)
    requires (forall cp <- a :: Scalar(cp)) && forall cp <- b :: Scalar(cp)
    ensures forall cp <- a + b :: Scalar(cp)
    ensures EncodingOf(a + b) == EncodingOf(a) + EncodingOf(b)
  {
    if a == [] {
      assert a + b == b;
    } else {
      EncodingConcat(a[1..], b);
      assert (a + b)[1..] == a[1..] + b;
    }
  }

  lemma NoSpaces()
    ensures Blank("")
  {
    assert EncodingOf([]) == "";
  }

  lemma BlankOne(s: string)
    requires OneSpace(s)
    ensures Blank(s)
  {
    var cp :| Space(cp) && Encoding(cp) == s;
    assert [cp][1..] == [];
    assert EncodingOf([cp]) == Encoding(cp) + "" == s;
  }

  lemma BlankConcat(s: string, t: string)
    requires Blank(s) && Blank(t)
    ensures Blank(s + t)
  {
    var a: seq<int> :| (forall cp <- a :: Scalar(cp) && Space(cp)) && EncodingOf(a) == s;
    var b: seq<int> :| (forall cp <- b :: Scalar(cp) && Space(cp)) && EncodingOf(b) == t;
    EncodingConcat(a, b);
    assert forall cp <- a + b :: Scalar(cp) && Space(cp);
  }

  lemma FrontStep(s: string, n: nat, more: string, rest: string)
    requires n <= |s| && OneSpace(s[..n]) && Blank(more) && s[n..] == more + rest
    ensures Blank(s[..n] + more) && s == s[..n] + more + rest
  {
    BlankOne(s[..n]);
    BlankConcat(s[..n], more);
    assert s == s[..n] + s[n..];
  }

  lemma {:induction false} LeftTrimmed(s: string) returns (front: string)
    ensures Blank(front) && s == front + TrimLeftSpace(s)
    decreases |s|
  {
    if LeadingSpace(s) == 0 {
      front := "";
      NoSpaces();
    } else {
      LeadingIsSpace(s);
      var n := LeadingSpace(s);
      var more := LeftTrimmed(s[n..]);
      FrontStep(s, n, more, TrimLeftSpace(s[n..]));
      front := s[..n] + more;
    }
  }

  lemma BackStep(s: string, k: nat, more: string, rest: string)
    requires k <= |s| && OneSpace(s[k..]) && Blank(more) && s[..k] == rest + more
    ensures Blank(more + s[k..]) && s == rest + (more + s[k..])
  {
    BlankOne(s[k..]);
    BlankConcat(more, s[k..]);
    assert s == s[..k] + s[k..];
  }

  lemma {:induction false} RightTrimmed(s: string) returns (back: string)
    ensures Blank(back) && s == TrimRightSpace(s) + back
    decreases |s|
  {
    if TrailingSpace(s) == 0 {
      back := "";
      NoSpaces();
    } else {
      var k := |s| - TrailingSpace(s);
      TrailingIsSpace(s, s[k..]);
      var more := RightTrimmed(s[..k]);
      BackStep(s, k, more, TrimRightSpace(s[..k]));
      back := more + s[k..];
    }
  }

  lemma NoSpaceLeft(s: string)
    requires LeadingSpace(s) == 0 && TrailingSpace(s) == 0
    ensures forall cp :: Space(cp) ==> !(Encoding(cp) <= s) && !EndsIn(s, Encoding(cp))
  {
    forall cp | Space(cp)
      ensures !(Encoding(cp) <= s) && !EndsIn(s, Encoding(cp))
    {
      if Encoding(cp) <= s {
        SpaceLeads(s, cp);
      }
      if EndsIn(s, Encoding(cp)) {
        SpaceTrails(s, cp);
      }
    }
  }

  lemma BothEnds(s: string, front: string, t: string, u: string, back: string)
    requires s == front + t && t == u + back
    ensures s == front + u + back
  {
  }

  /** strings.TrimSpace takes spaces off both ends, and leaves none there. */
  lemma TrimExactly(s: string) returns (front: string, back: string)
    ensures Blank(front) && Blank(back) && s == front + TrimSpace(s) + back
    ensures forall cp :: Space(cp) ==> !(Encoding(cp) <= TrimSpace(s)) && !EndsIn(TrimSpace(s), Encoding(cp))
  {
    front := LeftTrimmed(s);
    back := RightTrimmed(TrimLeftSpace(s));
    BothEnds(s, front, TrimLeftSpace(s), TrimSpace(s), back);
    TrimLeftResult(s);
    TrimRightResult(TrimLeftSpace(s));
    NoSpaceLeft(TrimSpace(s));
  }
}
