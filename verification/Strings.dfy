/** Go strings as the modelled code uses them: one `char` stands for one byte, and
    `strings.Split`, `strings.Join`, `strings.HasPrefix` are plain functions on them. */
module Strings {

  datatype Option<+T> = None | Some(value: T)

  predicate HasPrefix(s: string, prefix: string) {
    prefix <= s
  }

  predicate HasSuffix(s: string, suffix: string) {
    |suffix| <= |s| && s[|s| - |suffix|..] == suffix
  }

  predicate Digit(c: char) {
    '0' <= c <= '9'
  }

  /** No element occurs twice. */
  predicate NoRepeats<T(==)>(s: seq<T>) {
    forall i, j :: 0 <= i < j < |s| ==> s[i] != s[j]
  }

  /** strings.Split(s, sep) for a one-byte separator: always at least one part. */
  function Split(s: string, sep: char): (parts: seq<string>)
    ensures |parts| >= 1
  {
    if s == "" then [""]
    else
      var rest := Split(s[1..], sep);
      if s[0] == sep then [""] + rest else [[s[0]] + rest[0]] + rest[1..]
  }

  /** strings.Join(parts, sep). */
  function Join(parts: seq<string>, sep: char): string {
    if |parts| == 0 then ""
    else if |parts| == 1 then parts[0]
    else parts[0] + [sep] + Join(parts[1..], sep)
  }

  /** No part mentions the separator. */
  predicate FreeOf(parts: seq<string>, sep: char) {
    forall i :: 0 <= i < |parts| ==> sep !in parts[i]
  }

  lemma {:induction false} JoinSplit(s: string, sep: char)
    ensures Join(Split(s, sep), sep) == s
    ensures FreeOf(Split(s, sep), sep)
  {
    if s != "" {
      var rest := Split(s[1..], sep);
      JoinSplit(s[1..], sep);
      if s[0] == sep {
        assert ([""] + rest)[1..] == rest;
        assert Join([""] + rest, sep) == "" + [sep] + Join(rest, sep);
      } else {
        var parts := [[s[0]] + rest[0]] + rest[1..];
        assert parts[1..] == rest[1..];
        assert Join(parts, sep) == [s[0]] + Join(rest, sep);
        assert forall i :: 1 <= i < |parts| ==> parts[i] == rest[i];
      }
    }
  }

  lemma {:induction false} SplitFree(s: string, sep: char)
    requires sep !in s
    ensures Split(s, sep) == [s]
  {
    if s != "" {
      SplitFree(s[1..], sep);
      assert [s[0]] + s[1..] == s;
    }
  }

  lemma SplitCons(c: char, s: string, sep: char)
    requires c != sep
    ensures Split([c] + s, sep) == [[c] + Split(s, sep)[0]] + Split(s, sep)[1..]
  {
    assert ([c] + s)[1..] == s;
  }

  lemma SplitSep(s: string, sep: char)
    ensures Split([sep] + s, sep) == [""] + Split(s, sep)
  {
    assert ([sep] + s)[1..] == s;
  }

  lemma SplitConcatStep(c: char, u: string, t: string, sep: char, bt: seq<string>)
    requires Split(u, sep) == Split(t, sep) + bt
    ensures Split([c] + u, sep) == Split([c] + t, sep) + bt
  {
    if c == sep {
      SplitSep(t, sep);
      SplitSep(u, sep);
    } else {
      SplitCons(c, t, sep);
      SplitCons(c, u, sep);
    }
  }

  lemma {:induction false} SplitConcat(a: string, sep: char, b: string)
    ensures Split(a + [sep] + b, sep) == Split(a, sep) + Split(b, sep)
  {
    if a == "" {
      SplitSep(b, sep);
      assert a + [sep] + b == [sep] + b;
    } else {
      SplitConcat(a[1..], sep, b);
      SplitConcatStep(a[0], a[1..] + [sep] + b, a[1..], sep, Split(b, sep));
      assert [a[0]] + a[1..] == a;
      assert [a[0]] + (a[1..] + [sep] + b) == a + [sep] + b;
    }
  }

  lemma {:induction false} JoinConcat(a: seq<string>, b: seq<string>, sep: char)
    requires a != [] && b != []
    ensures Join(a + b, sep) == Join(a, sep) + [sep] + Join(b, sep)
  {
    assert (a + b)[1..] == a[1..] + b;
    if |a| > 1 {
      JoinConcat(a[1..], b, sep);
    }
  }

  lemma {:induction false} SplitJoin(parts: seq<string>, sep: char)
    requires |parts| >= 1
    requires FreeOf(parts, sep)
    ensures Split(Join(parts, sep), sep) == parts
  {
    SplitFree(parts[0], sep);
    if |parts| > 1 {
      SplitJoin(parts[1..], sep);
      SplitConcat(parts[0], sep, Join(parts[1..], sep));
    }
  }

  /** Joined lists of separator-free parts are equal only when the lists are. */
  lemma JoinInjective(a: seq<string>, b: seq<string>, sep: char)
    requires |a| >= 1 && |b| >= 1
    requires FreeOf(a, sep) && FreeOf(b, sep)
    requires Join(a, sep) == Join(b, sep)
    ensures a == b
  {
    SplitJoin(a, sep);
    SplitJoin(b, sep);
  }

  /** The number of bytes of the white-space rune `s` starts with, 0 when it starts with
      none: the code points of unicode.IsSpace in their UTF-8 spelling. */
  function LeadingSpace(s: string): (n: nat)
    ensures n <= |s|
  {
    if |s| >= 1 && (s[0] == ' ' || '\U{09}' <= s[0] <= '\U{0D}') then 1
    else if |s| >= 2 && IsWideSpace(s[..2]) then 2
    else if |s| >= 3 && IsWideSpace(s[..3]) then 3
    else 0
  }

  function TrailingSpace(s: string): (n: nat)
    ensures n <= |s|
  {
    if |s| >= 1 && (s[|s| - 1] == ' ' || '\U{09}' <= s[|s| - 1] <= '\U{0D}') then 1
    else if |s| >= 2 && IsWideSpace(s[|s| - 2..]) then 2
    else if |s| >= 3 && IsWideSpace(s[|s| - 3..]) then 3
    else 0
  }

  /** U+0085, U+00A0, U+1680, U+2000-200A, U+2028, U+2029, U+202F, U+205F, U+3000. */
  predicate IsWideSpace(b: string) {
    || b == "\U{C2}\U{85}"
    || b == "\U{C2}\U{A0}"
    || b == "\U{E1}\U{9A}\U{80}"
    || (|b| == 3 && b[..2] == "\U{E2}\U{80}" && ('\U{80}' <= b[2] <= '\U{8A}' || b[2] in "\U{A8}\U{A9}\U{AF}"))
    || b == "\U{E2}\U{81}\U{9F}"
    || b == "\U{E3}\U{80}\U{80}"
  }

  function TrimLeftSpace(s: string): string {
    var n := LeadingSpace(s);
    if n == 0 then s else TrimLeftSpace(s[n..])
  }

  function TrimRightSpace(s: string): string {
    var n := TrailingSpace(s);
    if n == 0 then s else TrimRightSpace(s[..|s| - n])
  }

  /** strings.TrimSpace. */
  function TrimSpace(s: string): string {
    TrimRightSpace(TrimLeftSpace(s))
  }

  lemma SpacePrefix(s: string, r: string)
    requires r <= s && LeadingSpace(s) == 0
    ensures LeadingSpace(r) == 0
  {
    if |r| >= 3 {
      assert r[..3] == s[..3];
    }
    if |r| >= 2 {
      assert r[..2] == s[..2];
    }
  }

  lemma {:induction false} TrimLeftResult(s: string)
    ensures LeadingSpace(TrimLeftSpace(s)) == 0
  {
    if LeadingSpace(s) != 0 {
      TrimLeftResult(s[LeadingSpace(s)..]);
    }
  }

  lemma {:induction false} TrimRightEnd(s: string)
    ensures TrailingSpace(TrimRightSpace(s)) == 0
  {
    if TrailingSpace(s) != 0 {
      TrimRightEnd(s[..|s| - TrailingSpace(s)]);
    }
  }

  lemma {:induction false} TrimRightPrefix(s: string)
    ensures TrimRightSpace(s) <= s
  {
    if TrailingSpace(s) != 0 {
      TrimRightPrefix(s[..|s| - TrailingSpace(s)]);
    }
  }

  lemma TrimRightResult(s: string)
    requires LeadingSpace(s) == 0
    ensures LeadingSpace(TrimRightSpace(s)) == 0 && TrailingSpace(TrimRightSpace(s)) == 0
  {
    TrimRightEnd(s);
    TrimRightPrefix(s);
    SpacePrefix(s, TrimRightSpace(s));
  }

  /** Trimming twice is trimming once. */
  lemma TrimIdempotent(s: string)
    ensures TrimSpace(TrimSpace(s)) == TrimSpace(s)
  {
    TrimLeftResult(s);
    TrimRightResult(TrimLeftSpace(s));
  }
}
