/** The overlap test is exact and a match can be undone. */
module DocumentPathLaws {
  import opened Strings
  import opened DocumentPaths
  import Utf8

  // ----- a literal spells itself, escaped or not

  lemma {:induction false} UnescapePlain(s: string)
    requires '%' !in s
    ensures PathUnescape(s) == Some(s)
  {
    if s != "" {
      UnescapePlain(s[1..]);
      assert [s[0]] + s[1..] == s;
    }
  }

  lemma LiteralDecodes(s: string)
    requires GoodLiteral(s)
    ensures Decodes(s) && DecodePart(s) == s
    ensures '/' !in s && '\\' !in s && '?' !in s && '#' !in s
  {
    forall j | 0 <= j < |s|
      ensures s[j] != '%' && s[j] != '/' && s[j] != '\\' && s[j] != '?' && s[j] != '#' && Utf8.Within(s[j], 0x20, 0x7E)
    {
      assert GoodLiteralByte(s[j]);
    }
    UnescapePlain(s);
    Utf8.PlainAscii(s);
  }

  predicate PlainParts(parts: seq<string>) {
    |parts| >= 1 && forall i :: 0 <= i < |parts| ==> GoodLiteral(parts[i])
  }

  lemma {:induction false} JoinAvoids(parts: seq<string>, c: char)
    requires c != '/' && forall i :: 0 <= i < |parts| ==> c !in parts[i]
    ensures c !in Join(parts, '/')
  {
    if |parts| > 1 {
      JoinAvoids(parts[1..], c);
    }
  }

  /** A pathname written from plain parts decodes back to them. */
  lemma SpellPathname(parts: seq<string>)
    requires PlainParts(parts)
    ensures IsPathname("/" + Join(parts, '/'))
    ensures Decoded("/" + Join(parts, '/')) == parts
  {
    var path := "/" + Join(parts, '/');
    assert path[1..] == Join(parts, '/');
    forall i | 0 <= i < |parts|
      ensures Decodes(parts[i]) && DecodePart(parts[i]) == parts[i]
      ensures '/' !in parts[i] && '\\' !in parts[i] && '?' !in parts[i] && '#' !in parts[i]
    {
      LiteralDecodes(parts[i]);
    }
    SplitJoin(parts, '/');
    JoinAvoids(parts, '\\');
    JoinAvoids(parts, '?');
    JoinAvoids(parts, '#');
    assert DecodedOf(parts) == parts;
  }

  // ----- overlap is a common pathname

  /** A part both segments admit, where they are compatible. */
  function CommonPart(left: seq<Segment>, right: seq<Segment>, i: nat): string {
    if i < |left| && left[i].kind == Literal then left[i].value
    else if i < |right| && right[i].kind == Literal then right[i].value
    else "a"
  }

  function CommonParts(left: seq<Segment>, right: seq<Segment>): (parts: seq<string>)
    ensures |parts| == if |left| >= |right| then |left| else |right|
    ensures forall i :: 0 <= i < |parts| ==> parts[i] == CommonPart(left, right, i)
  {
    seq(if |left| >= |right| then |left| else |right|, i requires 0 <= i => CommonPart(left, right, i))
  }

  /** Compatible, read position by position. */
  lemma {:induction false} CompatibleAt(left: seq<Segment>, right: seq<Segment>)
    requires forall i :: 0 <= i < |left| - 1 ==> left[i].kind != CatchAll
    requires forall i :: 0 <= i < |right| - 1 ==> right[i].kind != CatchAll
    ensures Compatible(left, right) <==>
            forall i :: 0 <= i < |left| && i < |right| && left[i].kind == Literal && right[i].kind == Literal ==>
                          left[i].value == right[i].value
  {
    if left != [] && right != [] && left[0].kind != CatchAll && right[0].kind != CatchAll {
      CompatibleAt(left[1..], right[1..]);
      if forall i :: 0 <= i < |left[1..]| && i < |right[1..]| && left[1..][i].kind == Literal && right[1..][i].kind == Literal ==>
                       left[1..][i].value == right[1..][i].value
      {
        forall i | 1 <= i < |left| && i < |right| && left[i].kind == Literal && right[i].kind == Literal
          ensures left[i].value == right[i].value
        {
          assert left[1..][i - 1] == left[i] && right[1..][i - 1] == right[i];
        }
      }
    }
  }

  lemma OneCatchAll(segs: seq<Segment>)
    requires GoodSegments(segs)
    ensures forall i :: 0 <= i < |segs| - 1 ==> segs[i].kind != CatchAll
  {
    forall i | 0 <= i < |segs| - 1
      ensures segs[i].kind != CatchAll
    {
      assert GoodSegment(segs[i], i == |segs| - 1);
    }
  }

  lemma CommonPartsFit(left: seq<Segment>, right: seq<Segment>)
    requires GoodSegments(left) && GoodSegments(right) && |left| >= 1
    requires SegmentsOverlap(left, right)
    ensures Fits(left, CommonParts(left, right)) && Fits(right, CommonParts(left, right))
    ensures PlainParts(CommonParts(left, right))
  {
    OneCatchAll(left);
    OneCatchAll(right);
    CompatibleAt(left, right);
    var parts := CommonParts(left, right);
    forall i | 0 <= i < |parts|
      ensures GoodLiteral(parts[i])
    {
      if i < |left| {
        assert GoodSegment(left[i], i == |left| - 1);
      }
      if i < |right| {
        assert GoodSegment(right[i], i == |right| - 1);
      }
    }
  }

  /** DocumentPathsOverlap holds exactly when some pathname is matched by both patterns. */
  lemma DocumentOverlapExact(a: string, b: string)
    requires IsDocumentPath(a) && IsDocumentPath(b)
    ensures PathsOverlap(a, b) <==> exists path :: MatchesPath(a, path) && MatchesPath(b, path)
  {
    var left, right := Segments(a), Segments(b);
    if PathsOverlap(a, b) {
      var parts := CommonParts(left, right);
      CommonPartsFit(left, right);
      SpellPathname(parts);
      assert MatchesPath(a, "/" + Join(parts, '/'));
    } else if path :| MatchesPath(a, path) && MatchesPath(b, path) {
      OneCatchAll(left);
      OneCatchAll(right);
      CompatibleAt(left, right);
    }
  }

  lemma DocumentOverlapSymmetric(a: string, b: string)
    ensures PathsOverlap(a, b) <==> PathsOverlap(b, a)
  {
    if IsDocumentPath(a) && IsDocumentPath(b) {
      OneCatchAll(Segments(a));
      OneCatchAll(Segments(b));
      CompatibleAt(Segments(a), Segments(b));
      CompatibleAt(Segments(b), Segments(a));
    }
  }

  // ----- a match is invertible

  /** What the binding of segment `i` is. */
  function Bound(segs: seq<Segment>, ds: seq<string>, i: nat): string
    requires i < |segs| <= |ds|
  {
    if segs[i].kind == CatchAll then Join(ds[i..], '/') else ds[i]
  }

  lemma {:induction false} BindingsAt(segs: seq<Segment>, ds: seq<string>, n: nat)
    requires n <= |segs| <= |ds| && GoodSegments(segs)
    ensures Bindings(segs, ds, n).Keys == Names(segs[..n])
    ensures forall i :: 0 <= i < n && segs[i].kind != Literal ==>
                          segs[i].value in Bindings(segs, ds, n) && Bindings(segs, ds, n)[segs[i].value] == Bound(segs, ds, i)
  {
    if n > 0 {
      BindingsAt(segs, ds, n - 1);
      assert segs[..n] == segs[..n - 1] + [segs[n - 1]];
      NamesSnoc(segs[..n - 1], segs[n - 1]);
    }
  }

  /** The segments a pattern stands for once its parameters are substituted. */
  function Substitute(segs: seq<Segment>, params: map<string, string>): seq<string>
    requires forall i :: 0 <= i < |segs| && segs[i].kind != Literal ==> segs[i].value in params
  {
    if segs == [] then []
    else
      (match segs[0].kind
       case Literal => [segs[0].value]
       case Param => [params[segs[0].value]]
       case CatchAll => Split(params[segs[0].value], '/'))
      + Substitute(segs[1..], params)
  }

  lemma {:induction false} SubstituteRebuilds(segs: seq<Segment>, ds: seq<string>, i: nat, params: map<string, string>)
    requires i <= |segs| && GoodSegments(segs) && Fits(segs, ds)
    requires forall k :: 0 <= k < |segs| && segs[k].kind != Literal ==>
                           segs[k].value in params && params[segs[k].value] == Bound(segs, ds, k)
    requires FreeOf(ds, '/')
    ensures Substitute(segs[i..], params) == if i == |segs| && EndsOpen(segs) then [] else ds[i..]
    decreases |segs| - i
  {
    if i < |segs| {
      assert segs[i..][0] == segs[i] && segs[i..][1..] == segs[i + 1..];
      assert GoodSegment(segs[i], i == |segs| - 1);
      SubstituteRebuilds(segs, ds, i + 1, params);
      if segs[i].kind == CatchAll {
        SplitJoin(ds[i..], '/');
      } else {
        assert [ds[i]] + ds[i + 1..] == ds[i..];
      }
    }
  }

  /** The parameters of a match name exactly the pattern's parameters, and substituting
      them, the catch-all split on "/", gives back the once-decoded pathname. */
  lemma MatchInvertible(pattern: string, path: string)
    requires MatchesPath(pattern, path)
    ensures var segs := Segments(pattern);
            var params := Bindings(segs, Decoded(path), |segs|);
            && params.Keys == Names(segs)
            && (forall i :: 0 <= i < |segs| && segs[i].kind != Literal ==> segs[i].value in params)
            && Substitute(segs, params) == Decoded(path)
  {
    var segs, ds := Segments(pattern), Decoded(path);
    BindingsAt(segs, ds, |segs|);
    assert segs[..|segs|] == segs && segs[0..] == segs && ds[0..] == ds;
    SubstituteRebuilds(segs, ds, 0, Bindings(segs, ds, |segs|));
  }

  /** A pathname is determined, segment by segment, by the pattern and the parameters. */
  lemma MatchDetermines(pattern: string, p1: string, p2: string)
    requires MatchesPath(pattern, p1) && MatchesPath(pattern, p2)
    requires Bindings(Segments(pattern), Decoded(p1), |Segments(pattern)|) == Bindings(Segments(pattern), Decoded(p2), |Segments(pattern)|)
    ensures Decoded(p1) == Decoded(p2)
  {
    MatchInvertible(pattern, p1);
    MatchInvertible(pattern, p2);
  }
}
