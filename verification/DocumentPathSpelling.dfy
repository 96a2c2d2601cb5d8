/** How patterns and pathnames are written: the escaped spellings of every segment are matched
    and bound to it, and nothing else is. */
module DocumentPathSpelling {
  import opened Strings
  import opened StringLaws
  import opened DocumentPaths
  import opened DocumentPathLaws
  import opened Utf8Laws
  import Utf8

  // ----- percent encoding

  const LOWER := "0123456789abcdef"
  const UPPER := "0123456789ABCDEF"

  /** `c` is the hex digit of value `v`, lower or upper case. */
  predicate HexDigit(c: char, v: nat) {
    v < 16 && (c == LOWER[v] || c == UPPER[v])
  }

  predicate IsEscape(u: string) {
    |u| == 3 && u[0] == '%'
  }

  /** "%" and the two hex digits of the byte, the high one first. */
  predicate Escapes(u: string, hi: nat, lo: nat, c: char) {
    IsEscape(u) && HexDigit(u[1], hi) && HexDigit(u[2], lo) && c as int == 16 * hi + lo
  }

  /** `u` writes the byte `c`: as itself, unless it is "%", or escaped. */
  ghost predicate Writes(u: string, c: char) {
    (u == [c] && c != '%') || exists hi, lo :: Escapes(u, hi, lo, c)
  }

  /** `s` writes `d`, byte by byte. */
  ghost predicate Spells(s: string, d: string) {
    if d == "" then s == ""
    else exists n :: 1 <= n <= |s| && Writes(s[..n], d[0]) && Spells(s[n..], d[1..])
  }

  lemma HexDigits()
    ensures forall v: nat :: v < 10 ==> LOWER[v] as int == '0' as int + v && UPPER[v] as int == '0' as int + v
    ensures forall v: nat :: 10 <= v < 16 ==> LOWER[v] as int == 'a' as int + (v - 10) && UPPER[v] as int == 'A' as int + (v - 10)
  {
  }

  lemma HexExactly(c: char, v: nat)
    ensures HexDigit(c, v) <==> Hex(c) && HexValue(c) == v
  {
    HexDigits();
  }

  lemma EscapeExactly(u: string, c: char)
    requires IsEscape(u)
    ensures (exists hi, lo :: Escapes(u, hi, lo, c)) <==>
            Hex(u[1]) && Hex(u[2]) && c == (16 * HexValue(u[1]) + HexValue(u[2])) as char
  {
    if hi, lo :| Escapes(u, hi, lo, c) {
      HexExactly(u[1], hi);
      HexExactly(u[2], lo);
    }
    if Hex(u[1]) && Hex(u[2]) && c == (16 * HexValue(u[1]) + HexValue(u[2])) as char {
      HexExactly(u[1], HexValue(u[1]));
      HexExactly(u[2], HexValue(u[2]));
      assert Escapes(u, HexValue(u[1]), HexValue(u[2]), c);
    }
  }

  lemma OneWrites(s: string, n: nat, c: char)
    requires 1 <= n <= |s| && Writes(s[..n], c)
    ensures n == if s[0] == '%' then 3 else 1
    ensures s[0] == '%' ==> Hex(s[1]) && Hex(s[2]) && c == (16 * HexValue(s[1]) + HexValue(s[2])) as char
    ensures s[0] != '%' ==> c == s[0]
  {
    if IsEscape(s[..n]) {
      EscapeExactly(s[..n], c);
    }
  }

  /** Decoding inverts every spelling, and what it accepts is a spelling. */
  lemma {:induction false} UnescapeExactly(s: string, d: string)
    ensures PathUnescape(s) == Some(d) <==> Spells(s, d)
    decreases |s|
  {
    if s != "" {
      var n := if s[0] == '%' then 3 else 1;
      if n <= |s| && d != "" {
        UnescapeExactly(s[n..], d[1..]);
        assert d == [d[0]] + d[1..];
      }
      if Spells(s, d) {
        var m :| 1 <= m <= |s| && Writes(s[..m], d[0]) && Spells(s[m..], d[1..]);
        OneWrites(s, m, d[0]);
      }
      if PathUnescape(s) == Some(d) {
        if n == 3 {
          EscapeExactly(s[..3], d[0]);
        }
        assert Writes(s[..n], d[0]);
      }
    }
  }

  predicate Bytes(d: string) {
    forall i :: 0 <= i < |d| ==> d[i] as int < 256
  }

  /** Every byte as "%" and its two digits. */
  function Escaped(d: string, digits: string): string
    requires Bytes(d) && |digits| == 16
  {
    if d == "" then ""
    else ['%', digits[d[0] as int / 16], digits[d[0] as int % 16]] + Escaped(d[1..], digits)
  }

  lemma EscapeOf(c: char, digits: string)
    requires c as int < 256 && digits in [LOWER, UPPER]
    ensures Writes(['%', digits[c as int / 16], digits[c as int % 16]], c)
  {
    assert Escapes(['%', digits[c as int / 16], digits[c as int % 16]], c as int / 16, c as int % 16, c);
  }

  lemma {:induction false} EscapedSpells(d: string, digits: string)
    requires Bytes(d) && digits in [LOWER, UPPER]
    ensures Spells(Escaped(d, digits), d)
  {
    if d != "" {
      EscapedSpells(d[1..], digits);
      EscapeOf(d[0], digits);
      var s := Escaped(d, digits);
      assert s[..3] == ['%', digits[d[0] as int / 16], digits[d[0] as int % 16]] && s[3..] == Escaped(d[1..], digits);
    }
  }

  /** Decoding an escaped byte string gives it back, in either case of digits. */
  lemma EscapeRoundTrip(d: string)
    requires Bytes(d)
    ensures PathUnescape(Escaped(d, "0123456789abcdef")) == Some(d)
    ensures PathUnescape(Escaped(d, "0123456789ABCDEF")) == Some(d)
  {
    EscapedSpells(d, LOWER);
    EscapedSpells(d, UPPER);
    UnescapeExactly(Escaped(d, LOWER), d);
    UnescapeExactly(Escaped(d, UPPER), d);
  }

  // ----- pathnames

  /** A segment a page may be given: a text without separators and controls, in UTF-8, that is
      no traversal. */
  ghost predicate Safe(d: string) {
    && d !in ["", ".", ".."] && '/' !in d && '\\' !in d
    && exists cps: seq<int> :: PlainText(cps) && EncodingOf(cps) == d
  }

  predicate PlainText(cps: seq<int>) {
    forall cp <- cps :: Utf8Laws.Scalar(cp) && !Control(cp)
  }

  lemma SafeExactly(d: string)
    ensures SafeSegment(d) <==> Safe(d)
  {
    if Utf8.ValidString(d) {
      var cps := ValidEncoding(d);
      ControlExactly(cps);
      if !Utf8.ContainsControl(d) {
        assert PlainText(cps);
      }
    }
    if cps: seq<int> :| PlainText(cps) && EncodingOf(cps) == d {
      EncodingValid(cps);
      ControlExactly(cps);
    }
  }

  /** Each part spells its safe segment. */
  ghost predicate SpellsAll(parts: seq<string>, ds: seq<string>) {
    |parts| == |ds| && forall i :: 0 <= i < |ds| ==> Spells(parts[i], ds[i]) && Safe(ds[i])
  }

  lemma DecodesExactly(part: string, d: string)
    ensures Decodes(part) && DecodePart(part) == d <==> Spells(part, d) && Safe(d)
  {
    UnescapeExactly(part, d);
    SafeExactly(d);
  }

  lemma AllDecodeExactly(parts: seq<string>, ds: seq<string>)
    ensures AllDecode(parts) && DecodedOf(parts) == ds <==> SpellsAll(parts, ds)
  {
    if AllDecode(parts) && DecodedOf(parts) == ds {
      forall i | 0 <= i < |ds|
        ensures Spells(parts[i], ds[i]) && Safe(ds[i])
      {
        DecodesExactly(parts[i], ds[i]);
      }
    }
    if SpellsAll(parts, ds) {
      forall i | 0 <= i < |parts|
        ensures Decodes(parts[i]) && DecodePart(parts[i]) == ds[i]
      {
        DecodesExactly(parts[i], ds[i]);
      }
      assert DecodedOf(parts) == ds;
    }
  }

  predicate Written(path: string, parts: seq<string>) {
    parts != [] && FreeOf(parts, '/') && path == "/" + Join(parts, '/')
  }

  lemma WrittenExactly(path: string, parts: seq<string>)
    ensures Written(path, parts) <==> path != "" && path[0] == '/' && parts == Split(path[1..], '/')
  {
    if Written(path, parts) {
      assert path[1..] == Join(parts, '/');
      SplitJoin(parts, '/');
    }
    if path != "" && path[0] == '/' && parts == Split(path[1..], '/') {
      JoinSplit(path[1..], '/');
      assert path == "/" + path[1..];
    }
  }

  /** A pathname decodes to these segments exactly when, part by part, it spells them. */
  lemma PathnameExactly(path: string, ds: seq<string>)
    ensures IsPathname(path) && Decoded(path) == ds <==>
            '?' !in path && '#' !in path && '\\' !in path && exists parts :: Written(path, parts) && SpellsAll(parts, ds)
  {
    if path != "" && path[0] == '/' {
      var parts := Split(path[1..], '/');
      WrittenExactly(path, parts);
      AllDecodeExactly(parts, ds);
    }
    if parts :| Written(path, parts) && SpellsAll(parts, ds) {
      WrittenExactly(path, parts);
      AllDecodeExactly(parts, ds);
    }
  }

  // ----- patterns

  /** How a segment is written in a pattern. */
  function Spelled(seg: Segment): string {
    match seg.kind
    case Literal => seg.value
    case Param => ":" + seg.value
    case CatchAll => "*" + seg.value
  }

  function AllSpelled(segs: seq<Segment>): (parts: seq<string>)
    ensures |parts| == |segs| && forall i :: 0 <= i < |segs| ==> parts[i] == Spelled(segs[i])
  {
    seq(|segs|, i requires 0 <= i < |segs| => Spelled(segs[i]))
  }

  predicate Letter(c: char) {
    c in SMALL || c in CAPITAL
  }

  lemma LetterExactly(c: char)
    ensures DocumentLetter(c) <==> Letter(c)
  {
    SmallExactly(c);
    CapitalExactly(c);
  }

  predicate NameByte(c: char) {
    Letter(c) || c in DIGITS || c == '_'
  }

  predicate LiteralByte(c: char) {
    Letter(c) || c in DIGITS || c in "._~-"
  }

  lemma BytesExactly(c: char)
    ensures GoodNameByte(c) <==> NameByte(c)
    ensures GoodLiteralByte(c) <==> LiteralByte(c)
  {
    LetterExactly(c);
    DigitExactly(c);
  }

  /** A name: a letter, and then letters, digits and underscores. */
  predicate Name(n: string) {
    n != "" && Letter(n[0]) && forall j :: 1 <= j < |n| ==> NameByte(n[j])
  }

  /** A literal: letters, digits and ". _ ~ -", no traversal. */
  predicate Word(v: string) {
    v !in ["", ".", ".."] && forall j :: 0 <= j < |v| ==> LiteralByte(v[j])
  }

  lemma NameExactly(n: string)
    ensures GoodName(n) <==> Name(n)
  {
    if n != "" {
      LetterExactly(n[0]);
    }
    forall j | 0 <= j < |n|
      ensures GoodNameByte(n[j]) <==> NameByte(n[j])
    {
      BytesExactly(n[j]);
    }
  }

  lemma WordExactly(v: string)
    ensures GoodLiteral(v) <==> Word(v)
  {
    forall j | 0 <= j < |v|
      ensures GoodLiteralByte(v[j]) <==> LiteralByte(v[j])
    {
      BytesExactly(v[j]);
    }
  }

  /** Segments a pattern may have: words and names, a catch-all only at the end, no name twice. */
  predicate Sound(segs: seq<Segment>) {
    && segs != []
    && (forall i :: 0 <= i < |segs| ==> if segs[i].kind == Literal then Word(segs[i].value) else Name(segs[i].value))
    && (forall i :: 0 <= i < |segs| && segs[i].kind == CatchAll ==> i == |segs| - 1)
    && (forall i, j :: 0 <= i < j < |segs| && segs[i].kind != Literal && segs[j].kind != Literal ==> segs[i].value != segs[j].value)
  }

  lemma SoundExactly(segs: seq<Segment>)
    ensures Sound(segs) <==> segs != [] && GoodSegments(segs)
  {
    forall i | 0 <= i < |segs|
      ensures GoodName(segs[i].value) <==> Name(segs[i].value)
      ensures GoodLiteral(segs[i].value) <==> Word(segs[i].value)
    {
      NameExactly(segs[i].value);
      WordExactly(segs[i].value);
    }
    if Sound(segs) {
      forall i | 0 <= i < |segs|
        ensures GoodSegment(segs[i], i == |segs| - 1)
      {
      }
    }
    if GoodSegments(segs) {
      forall i | 0 <= i < |segs|
        ensures segs[i].kind == CatchAll ==> i == |segs| - 1
        ensures if segs[i].kind == Literal then Word(segs[i].value) else Name(segs[i].value)
      {
        assert GoodSegment(segs[i], i == |segs| - 1);
      }
    }
  }

  lemma SpelledBack(seg: Segment)
    requires seg.kind == Literal ==> GoodLiteral(seg.value)
    ensures SegmentOf(Spelled(seg)) == seg
  {
    if seg.kind == Literal {
      assert GoodLiteralByte(seg.value[0]);
    }
  }

  lemma ReadBack(part: string)
    ensures Spelled(SegmentOf(part)) == part
  {
  }

  lemma SpelledFree(segs: seq<Segment>)
    requires GoodSegments(segs)
    ensures FreeOf(AllSpelled(segs), '/')
  {
    forall i | 0 <= i < |segs|
      ensures '/' !in Spelled(segs[i])
    {
      assert GoodSegment(segs[i], i == |segs| - 1);
    }
  }

  /** A pattern parses to these segments exactly when it is how they are written. */
  lemma PatternExactly(pattern: string, segs: seq<Segment>)
    ensures IsDocumentPath(pattern) && Segments(pattern) == segs <==>
            Sound(segs) && pattern == "/" + Join(AllSpelled(segs), '/')
  {
    SoundExactly(segs);
    if IsDocumentPath(pattern) && Segments(pattern) == segs {
      var parts := Split(pattern[1..], '/');
      forall i | 0 <= i < |parts|
        ensures Spelled(segs[i]) == parts[i]
      {
        ReadBack(parts[i]);
      }
      assert AllSpelled(segs) == parts;
      WrittenExactly(pattern, parts);
    }
    if Sound(segs) && pattern == "/" + Join(AllSpelled(segs), '/') {
      SpelledFree(segs);
      WrittenExactly(pattern, AllSpelled(segs));
      forall i | 0 <= i < |segs|
        ensures SegmentOf(AllSpelled(segs)[i]) == segs[i]
      {
        assert GoodSegment(segs[i], i == |segs| - 1);
        SpelledBack(segs[i]);
      }
      assert SegmentsOf(AllSpelled(segs)) == segs;
    }
  }

  // ----- matching

  /** Every parameter has a value. */
  predicate Gives(params: map<string, string>, segs: seq<Segment>) {
    forall i :: 0 <= i < |segs| && segs[i].kind != Literal ==> segs[i].value in params
  }

  lemma {:induction false} SubstitutedFits(segs: seq<Segment>, params: map<string, string>)
    requires Gives(params, segs) && forall i :: 0 <= i < |segs| - 1 ==> segs[i].kind != CatchAll
    ensures Fits(segs, Substitute(segs, params))
  {
    if segs != [] {
      var rest := segs[1..];
      SubstitutedFits(rest, params);
      var ds := Substitute(segs, params);
      if segs[0].kind == CatchAll {
        assert rest == [] && Substitute(rest, params) == [];
      } else {
        assert ds[1..] == Substitute(rest, params);
        assert EndsOpen(segs) == EndsOpen(rest);
        forall i | 0 <= i < |segs| && segs[i].kind == Literal
          ensures segs[i].value == ds[i]
        {
          if i > 0 {
            assert rest[i - 1] == segs[i] && ds[i] == ds[1..][i - 1];
          }
        }
      }
    }
  }

  /** A pattern matches a pathname exactly when some values for its parameters, put in their
      places, make it. */
  lemma MatchExactly(pattern: string, path: string)
    requires IsDocumentPath(pattern) && IsPathname(path)
    ensures MatchesPath(pattern, path) <==>
            exists params :: Gives(params, Segments(pattern)) && Substitute(Segments(pattern), params) == Decoded(path)
  {
    var segs := Segments(pattern);
    OneCatchAll(segs);
    if MatchesPath(pattern, path) {
      MatchInvertible(pattern, path);
      assert Gives(Bindings(segs, Decoded(path), |segs|), segs);
    }
    if params :| Gives(params, segs) && Substitute(segs, params) == Decoded(path) {
      SubstitutedFits(segs, params);
    }
  }

  /** The pattern of one parameter. */
  function OneParameter(x: string): string {
    "/:" + x
  }

  lemma OneParameterParses(x: string)
    requires Name(x)
    ensures IsDocumentPath(OneParameter(x)) && Segments(OneParameter(x)) == [Segment(x, Param)]
  {
    var segs := [Segment(x, Param)];
    assert AllSpelled(segs) == [":" + x] && OneParameter(x) == "/" + Join(AllSpelled(segs), '/');
    PatternExactly(OneParameter(x), segs);
  }

  lemma OneSegmentDecodes(s: string, d: string, path: string)
    requires Safe(d) && Spells(s, d) && path == "/" + s
    requires '/' !in s && '?' !in s && '#' !in s && '\\' !in s
    ensures IsPathname(path) && Decoded(path) == [d]
  {
    assert SpellsAll([s], [d]) && Written(path, [s]);
    PathnameExactly(path, [d]);
  }

  lemma OneBinding(x: string, d: string)
    ensures Fits([Segment(x, Param)], [d]) && Bindings([Segment(x, Param)], [d], 1) == map[x := d]
  {
    assert Bindings([Segment(x, Param)], [d], 0) == map[];
  }

  /** The parameter is what is bound, and to this. */
  predicate BindsTo(x: string, path: string, d: string) {
    MatchesPath(OneParameter(x), path) &&
    Bindings(Segments(OneParameter(x)), Decoded(path), |Segments(OneParameter(x))|) == map[x := d]
  }

  lemma ParsedBinds(x: string, path: string, d: string)
    requires IsDocumentPath(OneParameter(x)) && Segments(OneParameter(x)) == [Segment(x, Param)]
    requires IsPathname(path) && Decoded(path) == [d]
    ensures BindsTo(x, path, d)
  {
    OneBinding(x, d);
  }

  /** A parameter is bound to the safe segment that the pathname spells there, however it
      spells it. */
  lemma ParameterBinds(x: string, s: string, d: string)
    requires Name(x) && Safe(d) && Spells(s, d)
    requires '/' !in s && '?' !in s && '#' !in s && '\\' !in s
    ensures BindsTo(x, "/" + s, d)
  {
    OneParameterParses(x);
    OneSegmentDecodes(s, d, "/" + s);
    ParsedBinds(x, "/" + s, d);
  }

  lemma {:induction false} EscapedAvoids(d: string, digits: string, c: char)
    requires Bytes(d) && |digits| == 16 && c != '%' && c !in digits
    ensures c !in Escaped(d, digits)
  {
    if d != "" {
      EscapedAvoids(d[1..], digits, c);
    }
  }

  lemma EscapedPlain(d: string, digits: string)
    requires Bytes(d) && digits in [LOWER, UPPER]
    ensures '/' !in Escaped(d, digits) && '?' !in Escaped(d, digits) && '#' !in Escaped(d, digits) && '\\' !in Escaped(d, digits)
  {
    EscapedAvoids(d, digits, '/');
    EscapedAvoids(d, digits, '?');
    EscapedAvoids(d, digits, '#');
    EscapedAvoids(d, digits, '\\');
  }

  /** So it is to the segment itself when every byte of it is escaped, in either case. */
  lemma EscapedBinds(x: string, d: string, digits: string)
    requires Name(x) && Safe(d) && Bytes(d) && digits in ["0123456789abcdef", "0123456789ABCDEF"]
    ensures BindsTo(x, "/" + Escaped(d, digits), d)
  {
    EscapedSpells(d, digits);
    EscapedPlain(d, digits);
    ParameterBinds(x, Escaped(d, digits), d);
  }
}
