/** Exact decimal normalisation (v2/aidecision/contract.go): a JSON number is rewritten as a
    plain decimal by moving its point through its digits. */
module Decimal {
  import opened Strings

  predicate AllDigits(s: string) {
    forall i :: 0 <= i < |s| ==> Digit(s[i])
  }

  predicate IsE(c: char) {
    c == 'e' || c == 'E'
  }

  // ----- what digits mean

  function DigitValue(c: char): int {
    if Digit(c) then c as int - '0' as int else 0
  }

  /** The integer a digit string spells. */
  function Int(ds: string): int {
    if ds == "" then 0 else 10 * Int(ds[..|ds| - 1]) + DigitValue(ds[|ds| - 1])
  }

  /** The fraction 0.ds */
  function Frac(ds: string): real {
    if ds == "" then 0.0 else (DigitValue(ds[0]) as real + Frac(ds[1..])) / 10.0
  }

  /** x times ten to the k. */
  function Shift(x: real, k: int): real
    decreases if k < 0 then -k else k
  {
    if k == 0 then x else if k > 0 then 10.0 * Shift(x, k - 1) else Shift(x, k + 1) / 10.0
  }

  lemma ShiftStep(x: real, k: int)
    ensures Shift(x, k + 1) == 10.0 * Shift(x, k)
  {
  }

  lemma {:induction false} ShiftShift(x: real, a: int, b: int)
    ensures Shift(Shift(x, a), b) == Shift(x, a + b)
    decreases if b < 0 then -b else b
  {
    if b > 0 {
      ShiftShift(x, a, b - 1);
      ShiftStep(x, a + (b - 1));
    } else if b < 0 {
      ShiftShift(x, a, b + 1);
      ShiftStep(x, a + b);
    }
  }

  lemma ShiftTenth(x: real, k: int)
    ensures Shift(x / 10.0, k + 1) == Shift(x, k)
  {
    assert Shift(x, -1) == Shift(x, 0) / 10.0 == x / 10.0;
    ShiftShift(x, -1, k + 1);
  }

  // ----- the grammar of section 6 of RFC 8259

  /** The index of the first exponent letter, or the length. */
  function FirstE(s: string): (k: nat)
    ensures k <= |s|
    ensures forall i :: 0 <= i < k ==> !IsE(s[i])
    ensures k < |s| ==> IsE(s[k])
  {
    if s == "" || IsE(s[0]) then 0 else 1 + FirstE(s[1..])
  }

  /** The index of the first point, or the length. */
  function FirstDot(s: string): (k: nat)
    ensures k <= |s|
    ensures forall i :: 0 <= i < k ==> s[i] != '.'
    ensures k < |s| ==> s[k] == '.'
  {
    if s == "" || s[0] == '.' then 0 else 1 + FirstDot(s[1..])
  }

  predicate Dotless(s: string) {
    forall i :: 0 <= i < |s| ==> s[i] != '.'
  }

  function Whole(m: string): string {
    m[..FirstDot(m)]
  }

  function Fraction(m: string): string {
    if FirstDot(m) < |m| then m[FirstDot(m) + 1..] else ""
  }

  predicate IsWhole(w: string) {
    w != "" && AllDigits(w) && (w[0] == '0' ==> |w| == 1)
  }

  /** (0|[1-9][0-9]*)(\.[0-9]+)? */
  predicate IsPlain(m: string) {
    IsWhole(Whole(m)) && AllDigits(Fraction(m)) && (FirstDot(m) < |m| ==> Fraction(m) != "")
  }

  function SignLength(x: string): (n: nat)
    ensures n <= |x|
  {
    if x != "" && (x[0] == '+' || x[0] == '-') then 1 else 0
  }

  predicate IsExponent(x: string) {
    SignLength(x) < |x| && AllDigits(x[SignLength(x)..])
  }

  function ExponentValue(x: string): int {
    if x != "" && x[0] == '-' then -Int(x[1..]) else Int(x[SignLength(x)..])
  }

  function Mantissa(raw: string): string {
    raw[..FirstE(raw)]
  }

  /** The exponent behind a mantissa of `k` bytes. */
  function ExponentAt(raw: string, k: nat): int {
    if k < |raw| then ExponentValue(raw[k + 1..]) else 0
  }

  function Exponent(raw: string): int {
    ExponentAt(raw, FirstE(raw))
  }

  predicate MayEnd(raw: string, k: nat) {
    k < |raw| ==> IsExponent(raw[k + 1..])
  }

  predicate IsNonnegative(raw: string) {
    IsPlain(Mantissa(raw)) && MayEnd(raw, FirstE(raw))
  }

  predicate IsNumber(raw: string) {
    IsNonnegative(raw) || (raw != "" && raw[0] == '-' && IsNonnegative(raw[1..]))
  }

  predicate NumberByte(c: char) {
    Digit(c) || c == '.' || c == '+' || c == '-' || IsE(c)
  }

  /** What json.Valid says of the texts that have only number bytes in them: those are
      valid exactly when they are a number. Of other texts nothing is assumed. */
  predicate JsonVerdict(raw: string, valid: bool) {
    (forall i :: 0 <= i < |raw| ==> NumberByte(raw[i])) ==> (valid <==> IsNumber(raw))
  }

  /** mantissa times ten to the exponent. */
  function Value(raw: string): real {
    var m := Mantissa(raw);
    Shift(Int(Whole(m) + Fraction(m)) as real, Exponent(raw) - |Fraction(m)|)
  }

  /** The wire form: a plain decimal without a redundant trailing zero. */
  predicate Canonical(d: string) {
    IsPlain(d) && NoTrailingZero(Fraction(d))
  }

  predicate NoTrailingZero(f: string) {
    f != "" ==> f[|f| - 1] != '0'
  }

  // ----- library functions

  /** strings.FieldsFunc with the exponent letters: the non-empty runs between them. */
  function Fields(s: string): seq<string>
    decreases |s|
  {
    if s == "" then []
    else if IsE(s[0]) then Fields(s[1..])
    else [s[..FirstE(s)]] + Fields(s[FirstE(s)..])
  }

  /** strconv.Atoi, unbounded: its overflow error falls in the range check of the caller. */
  function Atoi(x: string): Option<int> {
    if IsExponent(x) then Some(ExponentValue(x)) else None
  }

  function Zeros(n: nat): (z: string)
    ensures |z| == n && forall i :: 0 <= i < n ==> z[i] == '0'
  {
    seq(n, i => '0')
  }

  /** strings.ReplaceAll(s, ".", ""). */
  function RemoveDots(s: string): string {
    if s == "" then "" else (if s[0] == '.' then "" else [s[0]]) + RemoveDots(s[1..])
  }

  function TrimLeftZeros(s: string): string {
    if s != "" && s[0] == '0' then TrimLeftZeros(s[1..]) else s
  }

  function TrimRightZeros(s: string): string {
    if s != "" && s[|s| - 1] == '0' then TrimRightZeros(s[..|s| - 1]) else s
  }

  // ----- the code

  /** ParseDecimal: whether the text is a decimal of the wire. */
  predicate ParsesDecimal(value: string) {
    |value| <= 64 && IsPlain(value)
  }

  /** The point-shifting part: digits and point as the source rewrites them. */
  method Expand(mantissa: string, exponent: int) returns (out: string)
    ensures out == Expanded(RemoveDots(mantissa), FirstDot(mantissa) + exponent)
  {
    var point: int := FirstDot(mantissa);
    var digits := RemoveDots(mantissa);
    point := point + exponent;
    if point <= 0 {
      digits := Zeros(1 - point) + digits;
      point := 1;
    }
    if point >= |digits| {
      digits := digits + Zeros(point - |digits|);
      point := |digits|;
    }
    assert Padded(RemoveDots(mantissa), FirstDot(mantissa) + exponent) == (digits, point);
    var whole := TrimLeftZeros(digits[..point]);
    if whole == "" {
      whole := "0";
    }
    var fraction := TrimRightZeros(digits[point..]);
    out := whole;
    if fraction != "" {
      out := out + "." + fraction;
    }
  }

  /** Digits around a point, padded so that the point lies inside them. */
  function Padded(digits: string, point: int): (r: (string, nat))
    ensures 1 <= r.1 <= |r.0|
  {
    var (d, p) := if point <= 0 then (Zeros(1 - point) + digits, 1) else (digits, point);
    if p >= |d| then (d + Zeros(p - |d|), p) else (d, p)
  }

  function Assemble(digits: string, point: nat): string
    requires point <= |digits|
  {
    var whole := TrimLeftZeros(digits[..point]);
    var fraction := TrimRightZeros(digits[point..]);
    (if whole == "" then "0" else whole) + (if fraction == "" then "" else "." + fraction)
  }

  function Expanded(digits: string, point: int): string {
    Assemble(Padded(digits, point).0, Padded(digits, point).1)
  }

  // ----- the value survives

  lemma {:induction false} FracZeros(n: nat, ds: string)
    ensures Shift(Frac(Zeros(n) + ds), n) == Frac(ds)
  {
    if n == 0 {
      assert Zeros(0) + ds == ds;
    } else {
      var z := Zeros(n) + ds;
      assert z[1..] == Zeros(n - 1) + ds;
      assert Frac(z) == Frac(z[1..]) / 10.0;
      FracZeros(n - 1, ds);
      ShiftTenth(Frac(z[1..]), n - 1);
    }
  }

  lemma {:induction false} FracAppendZeros(ds: string, n: nat)
    ensures Frac(ds + Zeros(n)) == Frac(ds)
  {
    if ds != "" {
      assert (ds + Zeros(n))[1..] == ds[1..] + Zeros(n);
      FracAppendZeros(ds[1..], n);
    } else if n > 0 {
      assert ("" + Zeros(n))[1..] == "" + Zeros(n - 1);
      FracAppendZeros(ds, n - 1);
    } else {
      assert "" + Zeros(0) == "";
    }
  }

  /** Moving the point by k splits a fraction into an integer and a fraction. */
  lemma {:induction false} SplitValue(ds: string, k: nat)
    requires k <= |ds|
    ensures Shift(Frac(ds), k) == Int(ds[..k]) as real + Frac(ds[k..])
  {
    if k == 0 {
      assert ds[0..] == ds;
    } else {
      SplitValue(ds, k - 1);
      var before, rest := ds[..k - 1], ds[k - 1..];
      assert ds[..k][..k - 1] == before && rest[1..] == ds[k..];
      assert Int(ds[..k]) == 10 * Int(before) + DigitValue(ds[k - 1]);
      assert Frac(rest) == (DigitValue(ds[k - 1]) as real + Frac(ds[k..])) / 10.0;
    }
  }

  lemma IntValue(ds: string)
    ensures Int(ds) as real == Shift(Frac(ds), |ds|)
  {
    SplitValue(ds, |ds|);
    assert ds[..|ds|] == ds && ds[|ds|..] == "";
  }

  lemma {:induction false} IntTrimLeft(ds: string)
    ensures Int(TrimLeftZeros(ds)) == Int(ds)
  {
    if ds != "" && ds[0] == '0' {
      IntTrimLeft(ds[1..]);
      IntLeadingZero(ds[1..]);
      assert ds == "0" + ds[1..];
    }
  }

  lemma {:induction false} IntLeadingZero(ds: string)
    ensures Int("0" + ds) == Int(ds)
  {
    if ds == "" {
      assert "0" + ds == "0" && "0"[..0] == "";
    } else {
      var n := |ds| - 1;
      assert ("0" + ds)[..n + 1] == "0" + ds[..n];
      IntLeadingZero(ds[..n]);
    }
  }

  lemma {:induction false} FracTrimRight(ds: string)
    ensures Frac(TrimRightZeros(ds)) == Frac(ds)
  {
    if ds != "" && ds[|ds| - 1] == '0' {
      var n := |ds| - 1;
      FracTrimRight(ds[..n]);
      FracAppendZeros(ds[..n], 1);
      assert ds == ds[..n] + Zeros(1);
    }
  }

  lemma {:induction false} TrimLeftShape(ds: string)
    ensures var t := TrimLeftZeros(ds);
            |t| <= |ds| && t == ds[|ds| - |t|..] && (t != "" ==> t[0] != '0')
  {
    if ds != "" && ds[0] == '0' {
      TrimLeftShape(ds[1..]);
    }
  }

  lemma {:induction false} TrimRightShape(ds: string)
    ensures var t := TrimRightZeros(ds); t <= ds && (t != "" ==> t[|t| - 1] != '0')
  {
    if ds != "" && ds[|ds| - 1] == '0' {
      TrimRightShape(ds[..|ds| - 1]);
    }
  }

  lemma {:induction false} NoExponent(s: string)
    requires forall i :: 0 <= i < |s| ==> !IsE(s[i])
    ensures FirstE(s) == |s|
  {
    if s != "" {
      NoExponent(s[1..]);
    }
  }

  lemma {:induction false} DotAt(w: string, rest: string)
    requires Dotless(w) && (rest == "" || rest[0] == '.')
    ensures FirstDot(w + rest) == |w|
  {
    if w != "" {
      assert (w + rest)[1..] == w[1..] + rest;
      DotAt(w[1..], rest);
    }
  }

  lemma PartsBytes(m: string, w: string, f: string, k: nat)
    requires k <= |m| && w == m[..k] && (k < |m| ==> m[k] == '.' && f == m[k + 1..])
    requires AllDigits(w) && AllDigits(f)
    ensures forall i :: 0 <= i < |m| ==> Digit(m[i]) || m[i] == '.'
  {
    forall i | 0 <= i < |m|
      ensures Digit(m[i]) || m[i] == '.'
    {
      if i < k {
        assert w[i] == m[i];
      } else if i > k {
        assert f[i - k - 1] == m[i];
      }
    }
  }

  lemma PlainBytes(m: string)
    requires IsPlain(m)
    ensures forall i :: 0 <= i < |m| ==> Digit(m[i]) || m[i] == '.'
    ensures FirstE(m) == |m| && Mantissa(m) == m
  {
    PartsBytes(m, Whole(m), Fraction(m), FirstDot(m));
    NoExponent(m);
  }

  /** A plain decimal is its whole part plus its fraction. */
  lemma PlainValue(m: string)
    requires IsPlain(m)
    ensures Value(m) == Int(Whole(m)) as real + Frac(Fraction(m))
  {
    PlainBytes(m);
    var w, f := Whole(m), Fraction(m);
    var ds := w + f;
    SplitValue(ds, |w|);
    assert ds[..|w|] == w && ds[|w|..] == f;
    IntValue(ds);
    ShiftShift(Frac(ds), |ds|, -|f|);
  }

  lemma PaddedValue(digits: string, point: int)
    requires AllDigits(digits)
    ensures var (d, p) := Padded(digits, point);
            AllDigits(d) && Shift(Frac(d), p) == Shift(Frac(digits), point)
  {
    var (d, p) := if point <= 0 then (Zeros(1 - point) + digits, 1) else (digits, point);
    if point <= 0 {
      FracZeros(1 - point, digits);
      ShiftShift(Frac(d), 1 - point, point);
    }
    if p >= |d| {
      FracAppendZeros(d, p - |d|);
    }
  }

  lemma JoinedShape(w: string, f: string)
    requires IsWhole(w) && AllDigits(f) && NoTrailingZero(f)
    ensures var out := w + if f == "" then "" else "." + f;
            Canonical(out) && Whole(out) == w && Fraction(out) == f
  {
    var rest := if f == "" then "" else "." + f;
    DotAt(w, rest);
    var out := w + rest;
    assert out[..|w|] == w;
    if f != "" {
      assert out[|w| + 1..] == f;
    }
  }

  lemma AssembleShape(digits: string, point: nat)
    requires AllDigits(digits) && point <= |digits|
    ensures var out := Assemble(digits, point);
            && Canonical(out)
            && Whole(out) == (if TrimLeftZeros(digits[..point]) == "" then "0" else TrimLeftZeros(digits[..point]))
            && Fraction(out) == TrimRightZeros(digits[point..])
  {
    var a, b := digits[..point], digits[point..];
    assert AllDigits(a) && AllDigits(b);
    TrimLeftDigits(a);
    TrimRightDigits(b);
    JoinedShape(if TrimLeftZeros(a) == "" then "0" else TrimLeftZeros(a), TrimRightZeros(b));
  }

  lemma TrimLeftDigits(a: string)
    requires AllDigits(a)
    ensures IsWhole(if TrimLeftZeros(a) == "" then "0" else TrimLeftZeros(a))
  {
    TrimLeftShape(a);
    var t := TrimLeftZeros(a);
    assert forall i :: 0 <= i < |t| ==> t[i] == a[|a| - |t| + i];
  }

  lemma TrimRightDigits(b: string)
    requires AllDigits(b)
    ensures AllDigits(TrimRightZeros(b)) && NoTrailingZero(TrimRightZeros(b))
  {
    TrimRightShape(b);
    var t := TrimRightZeros(b);
    assert forall i :: 0 <= i < |t| ==> t[i] == b[i];
  }

  lemma ExpandedValue(digits: string, point: int)
    requires AllDigits(digits)
    ensures Canonical(Expanded(digits, point)) && Value(Expanded(digits, point)) == Shift(Frac(digits), point)
  {
    var (d, p) := Padded(digits, point);
    PaddedValue(digits, point);
    AssembleShape(d, p);
    PlainValue(Assemble(d, p));
    IntTrimLeft(d[..p]);
    FracTrimRight(d[p..]);
    assert Int("0") == 0 by {
      assert "0"[..0] == "";
    }
    SplitValue(d, p);
  }

  lemma {:induction false} RemoveDotsConcat(a: string, b: string)
    ensures RemoveDots(a + b) == RemoveDots(a) + RemoveDots(b)
  {
    if a == "" {
      assert a + b == b;
    } else {
      assert (a + b)[1..] == a[1..] + b;
      RemoveDotsConcat(a[1..], b);
    }
  }

  lemma {:induction false} RemoveNoDots(a: string)
    requires Dotless(a)
    ensures RemoveDots(a) == a
  {
    if a != "" {
      RemoveNoDots(a[1..]);
    }
  }

  lemma RemoveFirstDot(f: string)
    ensures RemoveDots(['.'] + f) == RemoveDots(f)
  {
    assert (['.'] + f)[1..] == f;
  }

  lemma RemoveParts(w: string, f: string)
    requires Dotless(w) && Dotless(f)
    ensures RemoveDots(w + (['.'] + f)) == w + f && RemoveDots(w) == w
  {
    RemoveNoDots(w);
    RemoveNoDots(f);
    RemoveFirstDot(f);
    RemoveDotsConcat(w, ['.'] + f);
  }

  lemma PlainDigits(m: string)
    requires IsPlain(m)
    ensures RemoveDots(m) == Whole(m) + Fraction(m) && AllDigits(RemoveDots(m))
  {
    var w, f, k := Whole(m), Fraction(m), FirstDot(m);
    RemoveParts(w, f);
    if k < |m| {
      assert m == w + (['.'] + f);
    } else {
      assert m == w && w + f == w;
    }
  }

  /** The value of a JSON number, read off its digits and its shifted point. */
  lemma NumberValue(raw: string)
    requires IsNonnegative(raw)
    ensures var m := Mantissa(raw);
            AllDigits(RemoveDots(m)) && Value(raw) == Shift(Frac(RemoveDots(m)), FirstDot(m) + Exponent(raw))
  {
    var m, e := Mantissa(raw), Exponent(raw);
    var f, ds := Fraction(m), RemoveDots(m);
    PlainDigits(m);
    IntValue(ds);
    ShiftShift(Frac(ds), |ds|, e - |f|);
    assert |ds| + (e - |f|) == FirstDot(m) + e;
  }

  // ----- canonical decimals are unique

  lemma {:induction false} IntBounds(ds: string)
    requires AllDigits(ds)
    ensures Int(ds) >= 0
    ensures ds != "" && ds[0] != '0' ==> Int(ds) >= 1
  {
    if ds != "" {
      var n := |ds| - 1;
      IntBounds(ds[..n]);
    }
  }

  lemma {:induction false} WholeUnique(a: string, b: string)
    requires IsWhole(a) && IsWhole(b) && Int(a) == Int(b)
    ensures a == b
    decreases |a|
  {
    var m, n := |a| - 1, |b| - 1;
    IntBounds(a[..m]);
    IntBounds(b[..n]);
    assert Int(a) == 10 * Int(a[..m]) + DigitValue(a[m]) && Int(b) == 10 * Int(b[..n]) + DigitValue(b[n]);
    assert Int(a[..m]) == Int(b[..n]) && a[m] == b[n];
    if m > 0 && n > 0 {
      WholeUnique(a[..m], b[..n]);
    }
    assert a == a[..m] + [a[m]] && b == b[..n] + [b[n]];
  }

  lemma {:induction false} FracBounds(ds: string)
    requires AllDigits(ds)
    ensures 0.0 <= Frac(ds) < 1.0
    ensures ds != "" && ds[|ds| - 1] != '0' ==> Frac(ds) > 0.0
  {
    if ds != "" {
      FracBounds(ds[1..]);
      if |ds| > 1 {
        assert ds[1..][|ds| - 2] == ds[|ds| - 1];
      }
    }
  }

  lemma PlainNonnegative(m: string)
    requires IsPlain(m)
    ensures Value(m) >= 0.0
  {
    PlainValue(m);
    IntBounds(Whole(m));
    FracBounds(Fraction(m));
  }

  lemma {:induction false} FracUnique(a: string, b: string)
    requires AllDigits(a) && AllDigits(b) && NoTrailingZero(a) && NoTrailingZero(b)
    requires Frac(a) == Frac(b)
    ensures a == b
  {
    FracBounds(a);
    FracBounds(b);
    if a != "" && b != "" {
      FracBounds(a[1..]);
      FracBounds(b[1..]);
      var x, y := DigitValue(a[0]), DigitValue(b[0]);
      assert x as real + Frac(a[1..]) == y as real + Frac(b[1..]);
      DigitsAgree(x, y, Frac(a[1..]), Frac(b[1..]));
      FracUnique(a[1..], b[1..]);
      assert a == [a[0]] + a[1..] && b == [b[0]] + b[1..];
    }
  }

  lemma DigitsAgree(x: int, y: int, f: real, g: real)
    requires x as real + f == y as real + g && 0.0 <= f < 1.0 && 0.0 <= g < 1.0
    ensures x == y && f == g
  {
  }

  /** Canonical decimals of one value are one string. */
  lemma CanonicalUnique(a: string, b: string)
    requires Canonical(a) && Canonical(b) && Value(a) == Value(b)
    ensures a == b
  {
    PlainValue(a);
    PlainValue(b);
    FracBounds(Fraction(a));
    FracBounds(Fraction(b));
    DigitsAgree(Int(Whole(a)), Int(Whole(b)), Frac(Fraction(a)), Frac(Fraction(b)));
    WholeUnique(Whole(a), Whole(b));
    FracUnique(Fraction(a), Fraction(b));
    PlainSpelling(a);
    PlainSpelling(b);
  }

  lemma PlainSpelling(m: string)
    requires IsPlain(m)
    ensures m == Whole(m) + if Fraction(m) == "" then "" else "." + Fraction(m)
  {
    if FirstDot(m) < |m| {
      assert m == Whole(m) + "." + Fraction(m);
    }
  }

  // ----- what is accepted is a number

  lemma {:induction false} FieldsCover(s: string, i: nat)
    requires i < |s| && !IsE(s[i])
    ensures exists k :: 0 <= k < |Fields(s)| && s[i] in Fields(s)[k]
    decreases |s|
  {
    if IsE(s[0]) {
      FieldsCover(s[1..], i - 1);
      assert Fields(s) == Fields(s[1..]);
    } else {
      var k := FirstE(s);
      var rest := Fields(s[k..]);
      if i < k {
        assert s[..k][i] == s[i] && s[i] in Fields(s)[0];
      } else {
        FieldsCover(s[k..], i - k);
        var j :| 0 <= j < |rest| && s[i] in rest[j];
        assert Fields(s)[j + 1] == rest[j];
      }
    }
  }

  lemma FieldsOne(m: string)
    requires m != "" && FirstE(m) == |m|
    ensures Fields(m) == [m]
  {
    assert m[..|m|] == m && m[|m|..] == "";
  }

  lemma {:induction false} FirstEAt(m: string, rest: string)
    requires FirstE(m) == |m| && rest != "" && IsE(rest[0])
    ensures FirstE(m + rest) == |m|
  {
    if m != "" {
      assert (m + rest)[1..] == m[1..] + rest;
      FirstEAt(m[1..], rest);
    }
  }

  lemma FieldsTwo(m: string, e: char, x: string)
    requires m != "" && FirstE(m) == |m| && IsE(e) && x != "" && FirstE(x) == |x|
    ensures Fields(m + [e] + x) == [m, x]
  {
    var rest := [e] + x;
    assert m + [e] + x == m + rest;
    FirstEAt(m, rest);
    assert (m + rest)[..|m|] == m && (m + rest)[|m|..] == rest;
    assert rest[1..] == x;
    FieldsOne(x);
  }

  lemma DigitsBehind(x: string, n: nat)
    requires n <= |x| && AllDigits(x[n..])
    ensures forall i :: n <= i < |x| ==> Digit(x[i])
  {
    forall i | n <= i < |x|
      ensures Digit(x[i])
    {
      assert x[n..][i - n] == x[i];
    }
  }

  lemma SignedBytes(x: string, n: nat)
    requires n == SignLength(x) && forall i :: n <= i < |x| ==> Digit(x[i])
    ensures forall i :: 0 <= i < |x| ==> Digit(x[i]) || x[i] == '+' || x[i] == '-'
  {
  }

  lemma ExponentBytes(x: string)
    requires IsExponent(x)
    ensures forall i :: 0 <= i < |x| ==> Digit(x[i]) || x[i] == '+' || x[i] == '-'
    ensures FirstE(x) == |x|
  {
    var n := SignLength(x);
    DigitsBehind(x, n);
    SignedBytes(x, n);
    NoExponent(x);
  }

  lemma CutAt(raw: string, k: nat)
    requires k < |raw|
    ensures raw == raw[..k] + [raw[k]] + raw[k + 1..]
  {
  }

  lemma FirstEBefore(raw: string)
    ensures FirstE(raw[..FirstE(raw)]) == FirstE(raw)
  {
    NoExponent(raw[..FirstE(raw)]);
  }

  lemma FieldsAtE(raw: string, k: nat)
    requires k == FirstE(raw) && 0 < k && k + 1 < |raw| && FirstE(raw[k + 1..]) == |raw| - k - 1
    ensures Fields(raw) == [raw[..k], raw[k + 1..]]
  {
    FirstEBefore(raw);
    CutAt(raw, k);
    FieldsTwo(raw[..k], raw[k], raw[k + 1..]);
  }

  lemma FieldsWhole(raw: string)
    requires FirstE(raw) == |raw| && raw != ""
    ensures Fields(raw) == [raw[..|raw|]]
  {
    FieldsOne(raw);
    assert raw[..|raw|] == raw;
  }

  /** A number splits into its mantissa and, if it has one, its exponent. */
  lemma NumberFields(raw: string)
    requires IsNonnegative(raw)
    ensures Fields(raw) == if FirstE(raw) < |raw| then [Mantissa(raw), raw[FirstE(raw) + 1..]] else [Mantissa(raw)]
  {
    var k := FirstE(raw);
    PlainNonEmpty(raw[..k]);
    if k < |raw| {
      ExponentBytes(raw[k + 1..]);
      FieldsAtE(raw, k);
    } else {
      FieldsWhole(raw);
    }
  }

  lemma PlainNonEmpty(m: string)
    requires IsPlain(m)
    ensures m != "" && Digit(m[0]) && FirstE(m) == |m|
  {
    PlainBytes(m);
    assert Whole(m)[0] == m[0];
  }

  /** A number has number bytes only, the first of them a digit. */
  lemma NumberBytes(raw: string)
    requires IsNonnegative(raw)
    ensures raw != "" && raw[0] != '-'
    ensures forall i :: 0 <= i < |raw| ==> NumberByte(raw[i])
  {
    var m, k := Mantissa(raw), FirstE(raw);
    PlainNonEmpty(m);
    PlainBytes(m);
    assert m[0] == raw[0];
    if k < |raw| {
      ExponentBytes(raw[k + 1..]);
    }
    forall i | 0 <= i < |raw|
      ensures NumberByte(raw[i])
    {
      if i < k {
        assert m[i] == raw[i];
      } else if i > k {
        assert raw[k + 1..][i - k - 1] == raw[i];
      }
    }
  }

  lemma {:induction false} RemoveDotsKeeps(m: string, c: char)
    requires c in m && c != '.'
    ensures c in RemoveDots(m)
  {
    if m[0] != c {
      assert m == [m[0]] + m[1..];
      RemoveDotsKeeps(m[1..], c);
    }
  }

  lemma {:induction false} TrimsKeep(s: string, c: char)
    requires c in s && c != '0'
    ensures c in TrimLeftZeros(s) && c in TrimRightZeros(s)
    decreases |s|
  {
    if s[0] == '0' {
      assert s == [s[0]] + s[1..];
      TrimsKeep(s[1..], c);
    }
    var n := |s| - 1;
    if s[n] == '0' {
      assert s == s[..n] + [s[n]];
      TrimsKeep(s[..n], c);
    }
  }

  /** A byte that is no digit stays in the text, so the text is no decimal. */
  lemma ExpandedKeeps(digits: string, point: int, c: char)
    requires c in digits && c != '0'
    ensures c in Expanded(digits, point)
  {
    var (d, p) := Padded(digits, point);
    assert c in d;
    assert d == d[..p] + d[p..];
    if c in d[..p] {
      TrimsKeep(d[..p], c);
    } else {
      TrimsKeep(d[p..], c);
    }
  }

  lemma PlainMantissaBytes(mantissa: string, point: int, c: char)
    requires IsPlain(Expanded(RemoveDots(mantissa), point)) && c in mantissa
    ensures Digit(c) || c == '.'
  {
    var out := Expanded(RemoveDots(mantissa), point);
    PlainBytes(out);
    if c != '.' && c != '0' {
      RemoveDotsKeeps(mantissa, c);
      ExpandedKeeps(RemoveDots(mantissa), point, c);
    }
    if '.' in RemoveDots(mantissa) {
      NoDotsLeft(mantissa);
    }
  }

  lemma {:induction false} NoDotsLeft(m: string)
    ensures '.' !in RemoveDots(m)
  {
    if m != "" {
      NoDotsLeft(m[1..]);
    }
  }

  // ----- the reading, step by step

  function ReadExponentOf(parts: seq<string>): Option<int> {
    if |parts| == 1 then Some(0)
    else if |parts| == 2 then
      match Atoi(parts[1])
      case Some(e) => if -64 <= e <= 64 then Some(e) else None
      case None => None
    else None
  }

  function Checked(out: string): Option<string> {
    if ParsesDecimal(out) then Some(out) else None
  }

  /** What is made of a text that json.Valid accepts. */
  function Reading(raw: string): Option<string> {
    ReadingOf(Fields(raw))
  }

  function ReadingOf(parts: seq<string>): Option<string> {
    match ReadExponentOf(parts)
    case None => None
    case Some(e) => PointShifted(parts[0], e)
  }

  function PointShifted(mantissa: string, e: int): Option<string> {
    Checked(Expanded(RemoveDots(mantissa), FirstDot(mantissa) + e))
  }

  lemma InExponent(x: string, c: char)
    requires IsExponent(x) && c in x
    ensures NumberByte(c)
  {
    ExponentBytes(x);
    var i :| 0 <= i < |x| && x[i] == c;
  }

  lemma ReadExponentIs(parts: seq<string>)
    requires ReadExponentOf(parts).Some?
    ensures 1 <= |parts| <= 2 && (|parts| == 2 ==> IsExponent(parts[1]))
  {
  }

  lemma ReadBytes(parts: seq<string>, c: char)
    requires ReadingOf(parts).Some?
    requires exists k :: 0 <= k < |parts| && c in parts[k]
    ensures NumberByte(c)
  {
    var k :| 0 <= k < |parts| && c in parts[k];
    if k == 0 {
      PlainMantissaBytes(parts[0], FirstDot(parts[0]) + ReadExponentOf(parts).value, c);
    } else {
      ReadExponentIs(parts);
      InExponent(parts[1], c);
    }
  }

  /** Whatever is read has number bytes only, so json.Valid vouches for its grammar. */
  lemma ReadingByte(raw: string, i: nat)
    requires Reading(raw).Some? && i < |raw|
    ensures NumberByte(raw[i])
  {
    if !IsE(raw[i]) {
      FieldsCover(raw, i);
      ReadBytes(Fields(raw), raw[i]);
    }
  }

  lemma ReadingIsNumber(raw: string)
    requires Reading(raw).Some?
    ensures forall i :: 0 <= i < |raw| ==> NumberByte(raw[i])
  {
    forall i | 0 <= i < |raw|
      ensures NumberByte(raw[i])
    {
      ReadingByte(raw, i);
    }
  }

  /** The text the code arrives at for a number. */
  function Normal(raw: string): string {
    Expanded(RemoveDots(Mantissa(raw)), FirstDot(Mantissa(raw)) + Exponent(raw))
  }

  ghost predicate HasWireForm(raw: string) {
    exists d :: Canonical(d) && |d| <= 64 && Value(d) == Value(raw)
  }

  lemma NormalValue(raw: string)
    requires IsNonnegative(raw)
    ensures Canonical(Normal(raw)) && Value(Normal(raw)) == Value(raw)
  {
    NumberValue(raw);
    TextDenotes(RemoveDots(Mantissa(raw)), FirstDot(Mantissa(raw)) + Exponent(raw), Normal(raw), Value(raw));
  }

  lemma TextDenotes(digits: string, point: int, n: string, x: real)
    requires AllDigits(digits) && n == Expanded(digits, point) && x == Shift(Frac(digits), point)
    ensures Canonical(n) && Value(n) == x
  {
    ExpandedValue(digits, point);
  }

  lemma WireUnique(raw: string, n: string)
    requires Canonical(n) && Value(n) == Value(raw)
    ensures HasWireForm(raw) <==> |n| <= 64
  {
    if HasWireForm(raw) {
      var d :| Canonical(d) && |d| <= 64 && Value(d) == Value(raw);
      CanonicalUnique(d, n);
    }
  }

  lemma NumberExponent(raw: string)
    requires IsNonnegative(raw)
    ensures var parts := Fields(raw);
            && 1 <= |parts| && parts[0] == Mantissa(raw)
            && ReadExponentOf(parts) == if -64 <= Exponent(raw) <= 64 then Some(Exponent(raw)) else None
  {
    NumberFields(raw);
  }

  /** A number within the limits is read as its normal text, and only such a number. */
  lemma ReadingOfNumber(raw: string)
    requires IsNonnegative(raw)
    ensures Reading(raw) == if -64 <= Exponent(raw) <= 64 then Checked(Normal(raw)) else None
  {
    NumberExponent(raw);
    ReadingOfParts(Fields(raw), Mantissa(raw), Exponent(raw));
  }

  lemma ReadingOfParts(parts: seq<string>, m: string, e: int)
    requires 1 <= |parts| && parts[0] == m && ReadExponentOf(parts) == if -64 <= e <= 64 then Some(e) else None
    ensures ReadingOf(parts) == if -64 <= e <= 64 then PointShifted(m, e) else None
  {
  }

  /** The part of the source before the point is shifted: the exponent, when it is in bounds. */
  method ReadExponent(parts: seq<string>) returns (r: Option<int>)
    ensures r == ReadExponentOf(parts)
  {
    var exponent := 0;
    if |parts| == 2 {
      var parsed := Atoi(parts[1]);
      if parsed == None || parsed.value < -64 || parsed.value > 64 {
        return None;
      }
      exponent := parsed.value;
    }
    if |parts| == 0 || |parts| > 2 {
      return None;
    }
    return Some(exponent);
  }

  /** The last check: the text is a decimal of the wire. */
  method Check(out: string) returns (r: Option<string>)
    ensures r == Checked(out)
  {
    if !ParsesDecimal(out) {
      return None;
    }
    return Some(out);
  }

  method ShiftPoint(mantissa: string, exponent: int) returns (r: Option<string>)
    ensures r == PointShifted(mantissa, exponent)
  {
    var out := Expand(mantissa, exponent);
    r := Check(out);
  }

  method Normalize(raw: string) returns (r: Option<string>)
    ensures r == Reading(raw)
  {
    var parts := Fields(raw);
    var exponent := ReadExponent(parts);
    if exponent == None {
      return None;
    }
    r := ShiftPoint(parts[0], exponent.value);
  }

  /** Some canonical decimal of at most 64 bytes has the number's value. */
  lemma ReadingMeaning(raw: string, valid: bool)
    requires JsonVerdict(raw, valid) && valid && raw != "" && raw[0] != '-'
    ensures Reading(raw).Some? ==>
              IsNonnegative(raw) && Canonical(Reading(raw).value) && |Reading(raw).value| <= 64 && Value(Reading(raw).value) == Value(raw)
    ensures Reading(raw).Some? <==> IsNonnegative(raw) && -64 <= Exponent(raw) <= 64 && HasWireForm(raw)
  {
    if Reading(raw).Some? {
      ReadingIsNumber(raw);
    }
    if IsNonnegative(raw) {
      ReadingOfNumber(raw);
      NormalValue(raw);
      WireUnique(raw, Normal(raw));
    }
  }

  /** DecimalFromJSONNumber; `valid` is json.Valid's verdict on the text. What is returned is
      the one canonical decimal of the number's exact value, and it is returned whenever the
      text, its exponent and that decimal are within their limits. */
  method DecimalFromJSONNumber(raw: string, valid: bool) returns (r: Option<string>)
    requires JsonVerdict(raw, valid)
    ensures r.Some? ==> Canonical(r.value) && |r.value| <= 64 && IsNonnegative(raw) && Value(r.value) == Value(raw)
    ensures r.Some? <==> |raw| <= 64 && IsNonnegative(raw) && -64 <= Exponent(raw) <= 64 && HasWireForm(raw)
  {
    if |raw| > 64 || raw == "" || raw[0] == '-' || !valid {
      if IsNonnegative(raw) {
        NumberBytes(raw);
      }
      return None;
    }
    ReadingMeaning(raw, valid);
    r := Normalize(raw);
  }

  /** Numbers of one value are given one string, however they were spelled. */
  lemma EqualValuesEqualStrings(a: string, b: string)
    requires Reading(a).Some? && Reading(b).Some? && IsNonnegative(a) && IsNonnegative(b)
    requires Value(a) == Value(b)
    ensures Reading(a) == Reading(b)
  {
    ReadingOfNumber(a);
    ReadingOfNumber(b);
    NormalValue(a);
    NormalValue(b);
    CanonicalUnique(Normal(a), Normal(b));
  }

  /** A canonical decimal of the wire is read as itself. */
  lemma ReadingIdempotent(d: string)
    requires Canonical(d) && |d| <= 64
    ensures IsNonnegative(d) && Reading(d) == Some(d)
  {
    PlainBytes(d);
    ReadingOfNumber(d);
    NormalValue(d);
    CanonicalUnique(Normal(d), d);
  }
}
