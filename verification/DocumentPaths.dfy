/** Shell document paths (v2/plugin/validate.go, and in v1 plugin/document_paths.go): the
    pattern parser, the matcher over escaped pathnames and the overlap test. */
module DocumentPaths {
  import opened Strings
  import Utf8

  datatype Kind = Literal | Param | CatchAll

  datatype Segment = Segment(value: string, kind: Kind)

  predicate DocumentLetter(c: char) {
    'a' <= c <= 'z' || 'A' <= c <= 'Z'
  }

  // ----- the pattern grammar

  function SegmentOf(part: string): Segment {
    if part != "" && part[0] == ':' then Segment(part[1..], Param)
    else if part != "" && part[0] == '*' then Segment(part[1..], CatchAll)
    else Segment(part, Literal)
  }

  predicate GoodNameByte(c: char) {
    DocumentLetter(c) || Digit(c) || c == '_'
  }

  predicate GoodName(name: string) {
    name != "" && DocumentLetter(name[0]) && forall j :: 1 <= j < |name| ==> GoodNameByte(name[j])
  }

  predicate GoodLiteralByte(c: char) {
    DocumentLetter(c) || Digit(c) || c in "._~-"
  }

  predicate GoodLiteral(part: string) {
    part != "" && part != "." && part != ".." && forall j :: 0 <= j < |part| ==> GoodLiteralByte(part[j])
  }

  predicate GoodSegment(seg: Segment, last: bool) {
    if seg.kind == Literal then GoodLiteral(seg.value)
    else GoodName(seg.value) && (seg.kind == CatchAll ==> last)
  }

  predicate GoodSegments(segs: seq<Segment>) {
    && (forall i :: 0 <= i < |segs| ==> GoodSegment(segs[i], i == |segs| - 1))
    && (forall i, j :: 0 <= i < j < |segs| && segs[i].kind != Literal && segs[j].kind != Literal ==>
                         segs[i].value != segs[j].value)
  }

  function SegmentsOf(parts: seq<string>): (segs: seq<Segment>)
    ensures |segs| == |parts|
    ensures forall i :: 0 <= i < |parts| ==> segs[i] == SegmentOf(parts[i])
  {
    seq(|parts|, i requires 0 <= i < |parts| => SegmentOf(parts[i]))
  }

  function Segments(pattern: string): (segs: seq<Segment>)
    requires pattern != ""
    ensures |segs| >= 1
  {
    SegmentsOf(Split(pattern[1..], '/'))
  }

  predicate IsDocumentPath(pattern: string) {
    HasPrefix(pattern, "/") && GoodSegments(Segments(pattern))
  }

  method GoodNameTail(name: string) returns (ok: bool)
    ensures ok <==> forall j :: 1 <= j < |name| ==> GoodNameByte(name[j])
  {
    var j := 1;
    while j < |name|
      invariant 1 <= j
      invariant forall k :: 1 <= k < j && k < |name| ==> GoodNameByte(name[k])
    {
      if !DocumentLetter(name[j]) && !('0' <= name[j] <= '9') && name[j] != '_' {
        return false;
      }
      j := j + 1;
    }
    return true;
  }

  method GoodLiteralBytes(part: string) returns (ok: bool)
    ensures ok <==> forall j :: 0 <= j < |part| ==> GoodLiteralByte(part[j])
  {
    for j := 0 to |part|
      invariant forall k :: 0 <= k < j ==> GoodLiteralByte(part[k])
    {
      var c := part[j];
      if !DocumentLetter(c) && !('0' <= c <= '9') && c !in "._~-" {
        return false;
      }
    }
    return true;
  }

  /** One part of a pattern, given the parameter names seen before it. */
  method ParsePart(part: string, last: bool, names: set<string>) returns (r: Option<Segment>)
    ensures r == if GoodSegment(SegmentOf(part), last) && (SegmentOf(part).kind != Literal ==> SegmentOf(part).value !in names)
                 then Some(SegmentOf(part)) else None
  {
    if part == "" || part == "." || part == ".." {
      return None;
    }
    var segment := Segment(part, Literal);
    if part[0] == ':' || part[0] == '*' {
      segment := Segment(part[1..], if part[0] == ':' then Param else CatchAll);
      var name := segment.value;
      if name == "" || !DocumentLetter(name[0]) || name in names || (segment.kind == CatchAll && !last) {
        return None;
      }
      var ok := GoodNameTail(name);
      if !ok {
        return None;
      }
    } else {
      var ok := GoodLiteralBytes(part);
      if !ok {
        return None;
      }
    }
    return Some(segment);
  }

  /** The parameter names among some segments. */
  function Names(segs: seq<Segment>): set<string> {
    set i | 0 <= i < |segs| && segs[i].kind != Literal :: segs[i].value
  }

  /** parseDocumentPath. */
  method ParseDocumentPath(pattern: string) returns (r: Option<seq<Segment>>)
    ensures r == if IsDocumentPath(pattern) then Some(Segments(pattern)) else None
  {
    if !HasPrefix(pattern, "/") || pattern == "/" {
      if pattern == "/" {
        assert !GoodSegment(Segments(pattern)[0], 0 == |Segments(pattern)| - 1);
      }
      return None;
    }
    var parts := Split(pattern[1..], '/');
    var segments: seq<Segment> := [];
    var names: set<string> := {};
    ghost var all := SegmentsOf(parts);
    for i := 0 to |parts|
      invariant segments == all[..i]
      invariant names == Names(segments)
      invariant forall k :: 0 <= k < i ==> GoodSegment(all[k], k == |all| - 1)
      invariant forall k, l :: 0 <= k < l < i && all[k].kind != Literal && all[l].kind != Literal ==> all[k].value != all[l].value
    {
      var segment := ParsePart(parts[i], i == |parts| - 1, names);
      if segment == None {
        if GoodSegment(all[i], i == |all| - 1) {
          var k :| 0 <= k < |segments| && segments[k].kind != Literal && segments[k].value == all[i].value;
          assert all[k] == segments[k];
        }
        return None;
      }
      if segment.value.kind != Literal {
        forall k | 0 <= k < i && all[k].kind != Literal
          ensures all[k].value != all[i].value
        {
          assert segments[k] == all[k];
        }
        names := names + {segment.value.value};
      }
      NamesSnoc(segments, segment.value);
      segments := segments + [segment.value];
    }
    assert all[..|parts|] == all;
    return Some(segments);
  }

  lemma NamesSnoc(segs: seq<Segment>, seg: Segment)
    ensures Names(segs + [seg]) == Names(segs) + if seg.kind != Literal then {seg.value} else {}
  {
    var more := segs + [seg];
    forall n | n in Names(segs) + if seg.kind != Literal then {seg.value} else {}
      ensures n in Names(more)
    {
      if n in Names(segs) {
        var i :| 0 <= i < |segs| && segs[i].kind != Literal && segs[i].value == n;
        assert more[i] == segs[i];
      } else {
        assert more[|segs|] == seg;
      }
    }
  }

  // ----- percent decoding

  predicate Hex(c: char) {
    Digit(c) || 'a' <= c <= 'f' || 'A' <= c <= 'F'
  }

  function HexValue(c: char): (v: int)
    requires Hex(c)
    ensures 0 <= v < 16
  {
    if Digit(c) then c as int - '0' as int
    else if 'a' <= c <= 'f' then c as int - 'a' as int + 10
    else c as int - 'A' as int + 10
  }

  /** url.PathUnescape: section 2.1 of RFC 3986, one pass, "+" left alone. */
  function PathUnescape(s: string): Option<string> {
    if s == "" then Some("")
    else if s[0] == '%' then
      if |s| < 3 || !Hex(s[1]) || !Hex(s[2]) then None
      else
        match PathUnescape(s[3..])
        case Some(rest) => Some([(16 * HexValue(s[1]) + HexValue(s[2])) as char] + rest)
        case None => None
    else
      match PathUnescape(s[1..])
      case Some(rest) => Some([s[0]] + rest)
      case None => None
  }

  /** What a decoded segment may be: data that is neither empty, nor a traversal, nor able
      to smuggle a separator or a control. */
  predicate SafeSegment(d: string) {
    && d != "" && d != "." && d != ".."
    && Utf8.ValidString(d)
    && '/' !in d && '\\' !in d
    && !Utf8.ContainsControl(d)
  }

  predicate PathBytes(path: string) {
    HasPrefix(path, "/") && '?' !in path && '#' !in path && '\\' !in path
  }

  predicate Decodes(part: string) {
    PathUnescape(part).Some? && SafeSegment(PathUnescape(part).value)
  }

  predicate AllDecode(parts: seq<string>) {
    forall i :: 0 <= i < |parts| ==> Decodes(parts[i])
  }

  /** An escaped pathname every one of whose segments decodes to a safe one. */
  predicate IsPathname(path: string) {
    PathBytes(path) && AllDecode(Split(path[1..], '/'))
  }

  function DecodePart(part: string): (d: string)
    requires Decodes(part)
    ensures SafeSegment(d)
  {
    PathUnescape(part).value
  }

  function DecodedOf(parts: seq<string>): (ds: seq<string>)
    requires AllDecode(parts)
    ensures |ds| == |parts|
    ensures forall i :: 0 <= i < |parts| ==> ds[i] == DecodePart(parts[i])
  {
    seq(|parts|, i requires 0 <= i < |parts| => DecodePart(parts[i]))
  }

  /** The once-decoded segments of a pathname. */
  function Decoded(path: string): (ds: seq<string>)
    requires IsPathname(path)
    ensures |ds| >= 1
    ensures forall i :: 0 <= i < |ds| ==> SafeSegment(ds[i])
  {
    DecodedOf(Split(path[1..], '/'))
  }

  // ----- matching

  predicate EndsOpen(segs: seq<Segment>) {
    segs != [] && segs[|segs| - 1].kind == CatchAll
  }

  /** Segment for segment, with one or more decoded segments for a final catch-all. */
  predicate Fits(segs: seq<Segment>, ds: seq<string>) {
    && |segs| <= |ds|
    && (!EndsOpen(segs) ==> |segs| == |ds|)
    && (forall i :: 0 <= i < |segs| && segs[i].kind == Literal ==> segs[i].value == ds[i])
  }

  predicate MatchesPath(pattern: string, path: string) {
    IsDocumentPath(pattern) && IsPathname(path) && Fits(Segments(pattern), Decoded(path))
  }

  /** What the parameters of the first `n` segments are bound to. */
  function Bindings(segs: seq<Segment>, ds: seq<string>, n: nat): map<string, string>
    requires n <= |segs| <= |ds|
  {
    if n == 0 then map[]
    else
      var before := Bindings(segs, ds, n - 1);
      var seg := segs[n - 1];
      match seg.kind
      case Param => before[seg.value := ds[n - 1]]
      case CatchAll => before[seg.value := Join(ds[n - 1..], '/')]
      case Literal => before
  }

  /** The decoding loop: every part, or nothing. */
  method DecodeParts(raw: seq<string>) returns (r: Option<seq<string>>)
    ensures r == if AllDecode(raw) then Some(DecodedOf(raw)) else None
  {
    var parts := raw;
    for i := 0 to |parts|
      invariant |parts| == |raw|
      invariant forall k :: 0 <= k < i ==> Decodes(raw[k]) && parts[k] == DecodePart(raw[k])
      invariant forall k :: i <= k < |raw| ==> parts[k] == raw[k]
    {
      var decoded := PathUnescape(parts[i]);
      if decoded == None || decoded.value == "" || decoded.value == "." || decoded.value == ".." ||
         !Utf8.ValidString(decoded.value) || '/' in decoded.value || '\\' in decoded.value ||
         Utf8.ContainsControl(decoded.value)
      {
        assert !Decodes(raw[i]);
        return None;
      }
      parts := parts[i := decoded.value];
    }
    assert parts == DecodedOf(raw);
    return Some(parts);
  }

  /** The matching loop over decoded segments. */
  method Bind(segments: seq<Segment>, parts: seq<string>) returns (r: Option<map<string, string>>)
    requires |segments| <= |parts|
    requires EndsOpen(segments) || |segments| == |parts|
    ensures r == if Fits(segments, parts) then Some(Bindings(segments, parts, |segments|)) else None
  {
    var params: map<string, string> := map[];
    for i := 0 to |segments|
      invariant params == Bindings(segments, parts, i)
      invariant forall k :: 0 <= k < i && segments[k].kind == Literal ==> segments[k].value == parts[k]
    {
      var segment := segments[i];
      match segment.kind {
        case Param => params := params[segment.value := parts[i]];
        case CatchAll => params := params[segment.value := Join(parts[i..], '/')];
        case Literal =>
          if segment.value != parts[i] {
            return None;
          }
      }
    }
    return Some(params);
  }

  /** MatchDocumentPath. */
  method MatchDocumentPath(pattern: string, escapedPath: string) returns (r: Option<map<string, string>>)
    ensures r == if MatchesPath(pattern, escapedPath)
                 then Some(Bindings(Segments(pattern), Decoded(escapedPath), |Segments(pattern)|)) else None
  {
    var parsed := ParseDocumentPath(pattern);
    if parsed == None || !HasPrefix(escapedPath, "/") || '?' in escapedPath || '#' in escapedPath || '\\' in escapedPath {
      return None;
    }
    var segments := parsed.value;
    var parts := Split(escapedPath[1..], '/');
    if |parts| < |segments| || (segments[|segments| - 1].kind != CatchAll && |parts| != |segments|) {
      return None;
    }
    var decoded := DecodeParts(parts);
    if decoded == None {
      return None;
    }
    r := Bind(segments, decoded.value);
  }

  // ----- overlap

  /** No position before a catch-all holds two different literals. */
  predicate Compatible(left: seq<Segment>, right: seq<Segment>) {
    if left == [] || right == [] then true
    else if left[0].kind == CatchAll || right[0].kind == CatchAll then true
    else (left[0].kind == Literal && right[0].kind == Literal ==> left[0].value == right[0].value)
         && Compatible(left[1..], right[1..])
  }

  predicate SegmentsOverlap(left: seq<Segment>, right: seq<Segment>) {
    && (!EndsOpen(left) ==> |left| >= |right|)
    && (!EndsOpen(right) ==> |right| >= |left|)
    && Compatible(left, right)
  }

  predicate PathsOverlap(a: string, b: string) {
    IsDocumentPath(a) && IsDocumentPath(b) && SegmentsOverlap(Segments(a), Segments(b))
  }

  /** DocumentPathsOverlap; None is the error for an invalid declaration. */
  method DocumentPathsOverlap(a: string, b: string) returns (r: Option<bool>)
    ensures r == if IsDocumentPath(a) && IsDocumentPath(b) then Some(PathsOverlap(a, b)) else None
  {
    var left := ParseDocumentPath(a);
    if left == None {
      return None;
    }
    var right := ParseDocumentPath(b);
    if right == None {
      return None;
    }
    var overlap := CompareSegments(left.value, right.value);
    return Some(overlap);
  }

  /** The comparison of two parsed patterns. */
  method CompareSegments(l: seq<Segment>, t: seq<Segment>) returns (r: bool)
    requires l != [] && t != []
    ensures r == SegmentsOverlap(l, t)
  {
    if (l[|l| - 1].kind != CatchAll && |l| < |t|) || (t[|t| - 1].kind != CatchAll && |t| < |l|) {
      return false;
    }
    var i := 0;
    while i < |l| && i < |t|
      invariant i <= |l| && i <= |t|
      invariant Compatible(l, t) <==> Compatible(l[i..], t[i..])
    {
      assert l[i..][1..] == l[i + 1..] && t[i..][1..] == t[i + 1..];
      if l[i].kind == CatchAll || t[i].kind == CatchAll {
        return true;
      }
      if l[i].kind == Literal && t[i].kind == Literal && l[i].value != t[i].value {
        return false;
      }
      i := i + 1;
    }
    return true;
  }
}
