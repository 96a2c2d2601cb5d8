/** Decimal numbers as they are written: what the digits, the point and the exponent of a JSON
    number (section 6 of RFC 8259) come to. */
module DecimalLaws {
  import opened Strings
  import opened StringLaws
  import opened Netstrings
  import opened Decimal

  // ----- digits

  lemma DigitsOnly(v: nat)
    requires v < 10
    ensures Digit(DIGITS[v]) && DigitValue(DIGITS[v]) == v && DigitOf(v) == DIGITS[v]
  {
  }

  /** A digit string is one digit, or another one with a digit behind it: ten times as much, and
      the digit. */
  lemma IntMeaning(ds: string, v: nat)
    requires v < 10
    ensures Int("") == 0 && Int(ds + [DIGITS[v]]) == 10 * Int(ds) + v
  {
    DigitsOnly(v);
    assert (ds + [DIGITS[v]])[..|ds|] == ds;
  }

  lemma {:induction false} NoLeadingZero(n: nat)
    requires n > 0
    ensures Itoa(n)[0] != '0'
  {
    if n >= 10 {
      NoLeadingZero(n / 10);
    }
  }

  lemma {:induction false} ItoaDigits(n: nat)
    ensures Int(Itoa(n)) == n
  {
    DigitsOnly(n % 10);
    if n < 10 {
      IntMeaning("", n);
      assert Itoa(n) == "" + [DIGITS[n]];
    } else {
      ItoaDigits(n / 10);
      IntMeaning(Itoa(n / 10), n % 10);
    }
  }

  /** What strconv.Itoa writes comes to the number. */
  lemma IntItoa(n: nat)
    ensures Int(Itoa(n)) == n && IsWhole(Itoa(n))
  {
    ItoaDigits(n);
    if n > 0 {
      NoLeadingZero(n);
    }
  }

  /** The text of a number is the only one, without a leading zero, that comes to it. */
  lemma ItoaExactly(n: nat, s: string)
    ensures s == Itoa(n) <==> IsWhole(s) && Int(s) == n
  {
    IntItoa(n);
    if IsWhole(s) && Int(s) == n {
      WholeUnique(s, Itoa(n));
    }
  }

  lemma {:induction false} LeadingZeros(k: nat, ds: string)
    ensures Int(Zeros(k) + ds) == Int(ds)
  {
    if k == 0 {
      assert Zeros(0) + ds == ds;
    } else {
      LeadingZeros(k - 1, ds);
      IntLeadingZero(Zeros(k - 1) + ds);
      assert "0" + (Zeros(k - 1) + ds) == Zeros(k) + ds;
    }
  }

  // ----- shifting

  /** Shifting by one is multiplying by ten, in both directions, and shifting back undoes it. */
  lemma ShiftMeaning(x: real, k: int)
    ensures Shift(x, 0) == x && Shift(x, k + 1) == 10.0 * Shift(x, k) && Shift(Shift(x, k), -k) == x
  {
    ShiftStep(x, k);
    ShiftShift(x, k, -k);
  }

  // ----- plain decimals

  lemma PlainParts(w: string, f: string)
    requires AllDigits(w) && w != "" && AllDigits(f)
    ensures Whole(w) == w && Fraction(w) == ""
    ensures Whole(w + "." + f) == w && Fraction(w + "." + f) == f && FirstDot(w + "." + f) == |w|
  {
    DotAt(w, "");
    assert w + "" == w;
    AroundDot(w, f);
  }

  lemma AroundDot(w: string, f: string)
    requires AllDigits(w)
    ensures Whole(w + "." + f) == w && Fraction(w + "." + f) == f && FirstDot(w + "." + f) == |w|
  {
    var m := w + ("." + f);
    DotAt(w, "." + f);
    assert w + "." + f == m;
    assert m[..|w|] == w && m[|w| + 1..] == f;
  }

  /** A plain decimal is a whole number without a leading zero, or that, a point and digits. */
  lemma PlainExactly(m: string)
    ensures IsPlain(m) <==>
            exists w, f :: AllDigits(w) && w != "" && (w[0] == '0' ==> w == "0") && AllDigits(f) && m == Dotted(w, f)
  {
    if IsPlain(m) {
      PlainSpelling(m);
      assert m == Dotted(Whole(m), Fraction(m));
    }
    if w, f :| AllDigits(w) && w != "" && (w[0] == '0' ==> w == "0") && AllDigits(f) && m == Dotted(w, f) {
      PlainParts(w, f);
      DotAt(w, "");
      assert w + "" == w;
    }
  }

  function Dotted(w: string, f: string): string {
    if f == "" then w else w + "." + f
  }

  /** Moving the point behind the last digit leaves the integer of all its digits. */
  lemma PlainComesTo(w: string, f: string)
    requires AllDigits(w) && w != "" && (w[0] == '0' ==> w == "0") && AllDigits(f)
    ensures IsPlain(Dotted(w, f)) && Shift(Value(Dotted(w, f)), |f|) == Int(w + f) as real
  {
    var m := Dotted(w, f);
    PlainExactly(m);
    PlainParts(w, f);
    assert Whole(m) == w && Fraction(m) == f;
    PlainBytes(m);
    ShiftShift(Int(w + f) as real, -|f|, |f|);
  }

  // ----- exponents

  /** What may stand behind the exponent letter. */
  predicate Signed(x: string, sign: string, ds: string) {
    sign in ["", "+", "-"] && ds != "" && AllDigits(ds) && x == sign + ds
  }

  lemma SignedValue(x: string, sign: string, ds: string)
    requires Signed(x, sign, ds)
    ensures IsExponent(x) && ExponentValue(x) == if sign == "-" then -Int(ds) else Int(ds)
  {
    if sign == "" {
      assert x == ds && Digit(x[0]);
      assert x[0..] == ds;
    } else {
      assert x[0] == sign[0] && x[1..] == ds;
    }
  }

  lemma ExponentSplits(x: string)
    ensures IsExponent(x) <==> Signed(x, x[..SignLength(x)], x[SignLength(x)..])
  {
    var n := SignLength(x);
    assert x == x[..n] + x[n..];
    assert n == 1 ==> x[..n] == [x[0]];
    assert x[..n] == "" || x[..n] == "+" || x[..n] == "-";
  }

  /** m, the letter, and the exponent. */
  function Scientific(m: string, e: char, x: string): string {
    m + [e] + x
  }

  lemma ScientificParts(m: string, e: char, x: string)
    requires IsPlain(m) && IsE(e)
    ensures Mantissa(Scientific(m, e, x)) == m && FirstE(Scientific(m, e, x)) == |m|
    ensures Scientific(m, e, x)[|m| + 1..] == x
  {
    PlainBytes(m);
    assert Scientific(m, e, x) == m + ([e] + x);
    FirstEAt(m, [e] + x);
  }

  lemma ScientificValue(m: string, e: char, x: string)
    requires IsPlain(m) && IsE(e) && IsExponent(x)
    ensures IsNonnegative(Scientific(m, e, x)) && Exponent(Scientific(m, e, x)) == ExponentValue(x)
    ensures Value(Scientific(m, e, x)) == Shift(Value(m), ExponentValue(x))
  {
    ScientificParts(m, e, x);
    BehindE(Scientific(m, e, x), |m|, x);
    ValueAt(Scientific(m, e, x), m, ExponentValue(x));
  }

  lemma BehindE(raw: string, k: nat, x: string)
    requires k < |raw| && raw[k + 1..] == x
    ensures ExponentAt(raw, k) == ExponentValue(x)
    ensures MayEnd(raw, k) <==> IsExponent(x)
  {
  }

  lemma ValueAt(raw: string, m: string, k: int)
    requires IsPlain(m) && Mantissa(raw) == m && Exponent(raw) == k
    ensures Value(raw) == Shift(Value(m), k)
  {
    PlainBytes(m);
    MovedPoint(m, k);
  }

  lemma MovedPoint(m: string, k: int)
    requires IsPlain(m) && Mantissa(m) == m && FirstE(m) == |m|
    ensures Shift(Int(Whole(m) + Fraction(m)) as real, k - |Fraction(m)|) == Shift(Value(m), k)
  {
    ShiftShift(Int(Whole(m) + Fraction(m)) as real, -|Fraction(m)|, k);
  }

  predicate Written(raw: string, m: string, e: char, x: string, sign: string, ds: string) {
    IsPlain(m) && IsE(e) && Signed(x, sign, ds) && raw == m + [e] + x
  }

  ghost predicate HasExponent(raw: string) {
    exists m, e, x, sign, ds :: Written(raw, m, e, x, sign, ds)
  }

  lemma WrittenOut(raw: string, k: nat, m: string)
    requires k < |raw| && IsE(raw[k]) && m == raw[..k]
    ensures IsPlain(m) && MayEnd(raw, k) ==> HasExponent(raw)
  {
    var x := raw[k + 1..];
    ExponentSplits(x);
    CutAt(raw, k);
    if IsPlain(m) && MayEnd(raw, k) {
      assert Written(raw, m, raw[k], x, x[..SignLength(x)], x[SignLength(x)..]) == true;
    }
  }

  lemma WithExponent(raw: string)
    requires FirstE(raw) < |raw|
    ensures IsNonnegative(raw) ==> HasExponent(raw)
  {
    WrittenOut(raw, FirstE(raw), Mantissa(raw));
  }

  lemma WithoutExponent(raw: string)
    requires FirstE(raw) == |raw|
    ensures IsNonnegative(raw) <==> IsPlain(raw)
  {
    assert Mantissa(raw) == raw;
  }

  lemma WrittenIsNumber(raw: string, m: string, e: char, x: string, sign: string, ds: string)
    requires Written(raw, m, e, x, sign, ds)
    ensures IsNonnegative(raw)
  {
    SignedValue(x, sign, ds);
    ScientificValue(m, e, x);
  }

  /** A nonnegative number is a plain decimal, alone or with an exponent: one of the two letters,
      a sign or none, and digits. */
  lemma NumberExactly(raw: string)
    ensures IsNonnegative(raw) <==> IsPlain(raw) || HasExponent(raw)
  {
    if IsPlain(raw) {
      PlainBytes(raw);
    }
    if FirstE(raw) == |raw| {
      WithoutExponent(raw);
    } else {
      WithExponent(raw);
    }
    if m, e, x, sign, ds :| Written(raw, m, e, x, sign, ds) {
      WrittenIsNumber(raw, m, e, x, sign, ds);
    }
  }

  function By(sign: string, n: int): int {
    if sign == "-" then -n else n
  }

  lemma SignedComesTo(m: string, e: char, sign: string, ds: string, x: string)
    requires IsPlain(m) && IsE(e) && Signed(x, sign, ds)
    ensures var raw := Scientific(m, e, x);
            IsNonnegative(raw) && Exponent(raw) == By(sign, Int(ds)) && Value(raw) == Shift(Value(m), By(sign, Int(ds)))
  {
    SignedValue(x, sign, ds);
    ScientificValue(m, e, x);
  }

  lemma Signs(n: int)
    ensures By("", n) == n && By("+", n) == n && By("-", n) == -n
  {
  }

  lemma ShiftedBack(x: real, k: int, y: real)
    ensures y == Shift(x, k) <==> Shift(y, -k) == x
  {
    ShiftShift(x, k, -k);
    ShiftShift(y, -k, k);
  }

  lemma SignedBy(m: string, e: char, sign: string, ds: string, x: string, k: int)
    requires IsPlain(m) && e in "eE" && ds != "" && AllDigits(ds) && sign in ["", "+", "-"]
    requires x == sign + ds && k == By(sign, Int(ds))
    ensures Value(m + [e] + x) == Shift(Value(m), k)
  {
    SignedComesTo(m, e, sign, ds, x);
  }

  /** The exponent moves the point: up by its digits, or down by them behind a "-". Shifting back
      by as much gives the plain decimal again. */
  lemma ScientificComesTo(m: string, e: char, ds: string, plus: string, minus: string)
    requires IsPlain(m) && e in "eE" && ds != "" && AllDigits(ds) && plus == "+" + ds && minus == "-" + ds
    ensures Shift(Value(m + [e] + minus), Int(ds)) == Value(m)
    ensures Value(m + [e] + ds) == Value(m + [e] + plus) == Shift(Value(m), Int(ds))
  {
    SignedBy(m, e, "", ds, ds, Int(ds));
    SignedBy(m, e, "+", ds, plus, Int(ds));
    SignedBy(m, e, "-", ds, minus, -Int(ds));
    ShiftedBack(Value(m), -Int(ds), Value(Scientific(m, e, minus)));
  }

  lemma ReadShifted(raw: string, x: real, k: int, d: string)
    requires IsNonnegative(raw) && Exponent(raw) == k && Value(raw) == Shift(x, k)
    ensures Reading(raw) == Some(d) <==>
            -64 <= k <= 64 && Canonical(d) && |d| <= 64 && Shift(Value(d), -k) == x
  {
    ReadingOfNumber(raw);
    NormalValue(raw);
    ReadExactly(raw, Normal(raw), d);
    ShiftedBack(x, k, Value(d));
  }

  lemma ReadExactly(raw: string, normal: string, d: string)
    requires Canonical(normal) && Value(normal) == Value(raw)
    ensures Checked(normal) == Some(d) <==> Canonical(d) && |d| <= 64 && Value(d) == Value(raw)
  {
    if Canonical(d) && Value(d) == Value(raw) {
      CanonicalUnique(d, normal);
    }
  }

  /** What a number with an exponent is read as: within the limits, the one canonical decimal
      from which shifting the point back by the exponent gives the mantissa's value. */
  lemma ScientificRead(m: string, e: char, sign: string, ds: string, x: string, d: string)
    requires IsPlain(m) && e in "eE" && Signed(x, sign, ds)
    ensures Reading(m + [e] + x) == Some(d) <==>
            Int(ds) <= 64 && Canonical(d) && |d| <= 64 && Shift(Value(d), -By(sign, Int(ds))) == Value(m)
  {
    SignedComesTo(m, e, sign, ds, x);
    IntBounds(ds);
    ReadShifted(Scientific(m, e, x), Value(m), By(sign, Int(ds)), d);
  }
}
