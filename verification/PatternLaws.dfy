/** What Matches, Covers and patternsOverlap mean as questions about sets of subjects:
    membership, containment and non-empty intersection. */
module PatternLaws {
  import opened Strings
  import opened Subjects

  // ----- concrete instances of a pattern

  /** A token that is spelled `t`, or "a" where `t` is a wildcard. */
  function Instance(t: string): string {
    if t == STAR || t == TAIL then "a" else t
  }

  /** The shortest subject `p` addresses. */
  function Instances(p: seq<string>): (s: seq<string>)
    ensures |s| == |p|
  {
    if p == [] then [] else [Instance(p[0])] + Instances(p[1..])
  }

  /** A one-byte token other than `t`. */
  function Other(t: string): string {
    if t == "a" then "b" else "a"
  }

  lemma {:induction false} InstancesAt(p: seq<string>, i: nat)
    requires i < |p|
    ensures Instances(p)[i] == Instance(p[i])
  {
    if i > 0 {
      InstancesAt(p[1..], i - 1);
    }
  }

  lemma GoodTail(p: seq<string>, substrate: bool, wildcards: bool)
    requires p != [] && GoodTokens(p, substrate, wildcards)
    ensures GoodTokens(p[1..], substrate, wildcards)
    ensures p[0] == TAIL ==> |p| == 1
  {
    forall i | 0 <= i < |p[1..]|
      ensures GoodToken(p[1..][i], substrate, wildcards, i == |p[1..]| - 1)
    {
      assert GoodToken(p[i + 1], substrate, wildcards, i + 1 == |p| - 1);
    }
    assert GoodToken(p[0], substrate, wildcards, 0 == |p| - 1);
  }

  lemma GoodCons(t: string, s: seq<string>, substrate: bool)
    requires GoodToken(t, substrate, false, true)
    requires GoodTokens(s, substrate, false)
    ensures GoodTokens([t] + s, substrate, false)
  {
    var all := [t] + s;
    forall i | 0 <= i < |all|
      ensures GoodToken(all[i], substrate, false, i == |all| - 1)
    {
      if i > 0 {
        assert GoodToken(s[i - 1], substrate, false, i - 1 == |s| - 1);
      }
    }
  }

  lemma {:induction false} InstancesGood(p: seq<string>, substrate: bool)
    requires GoodTokens(p, substrate, true)
    ensures GoodTokens(Instances(p), substrate, false)
    ensures MatchesTokens(p, Instances(p))
  {
    if p != [] {
      GoodTail(p, substrate, true);
      InstancesGood(p[1..], substrate);
      assert GoodToken(p[0], substrate, true, 0 == |p| - 1);
      GoodCons(Instance(p[0]), Instances(p[1..]), substrate);
      assert Instances(p)[1..] == Instances(p[1..]);
    }
  }

  // ----- Covers is containment

  /** Containment, sound for every token list, well formed or not. */
  lemma {:induction false} CoversSound(p: seq<string>, q: seq<string>, s: seq<string>)
    requires CoversTokens(p, q) && MatchesTokens(q, s)
    ensures MatchesTokens(p, s)
  {
    if p != [] && p[0] != TAIL {
      CoversSound(p[1..], q[1..], s[1..]);
    }
  }

  /** A subject `q` addresses and `p` does not, when `p` does not cover `q`. */
  function Escape(p: seq<string>, q: seq<string>): seq<string> {
    if p == [] || q == [] || p[0] == TAIL then Instances(q)
    else if q[0] == TAIL then
      if |p| > 1 then ["a"]
      else if p[0] == STAR then ["a", "a"]
      else [Other(p[0])]
    else if p[0] == STAR || p[0] == q[0] then [Instance(q[0])] + Escape(p[1..], q[1..])
    else if q[0] == STAR then [Other(p[0])] + Instances(q[1..])
    else Instances(q)
  }

  lemma NotMatchedHead(p: seq<string>, s: seq<string>)
    requires p != [] && s != [] && p[0] != TAIL && p[0] != STAR && p[0] != s[0]
    ensures !MatchesTokens(p, s)
  {
  }

  lemma {:induction false} EscapeEscapes(p: seq<string>, q: seq<string>, substrate: bool)
    requires GoodTokens(p, true, true) && GoodTokens(q, substrate, true)
    requires !CoversTokens(p, q)
    ensures MatchesTokens(q, Escape(p, q)) && !MatchesTokens(p, Escape(p, q))
    ensures GoodTokens(Escape(p, q), substrate, false)
  {
    InstancesGood(q, substrate);
    if p == [] || q == [] || p[0] == TAIL {
    } else {
      GoodTail(p, true, true);
      GoodTail(q, substrate, true);
      assert GoodToken(q[0], substrate, true, 0 == |q| - 1);
      if q[0] == TAIL {
        if |p| > 1 {
          assert p[1..][0] == p[1];
          assert ["a"][1..] == [];
        } else if p[0] == STAR {
          assert ["a", "a"][1..] == ["a"];
        }
      } else if p[0] == STAR || p[0] == q[0] {
        EscapeEscapes(p[1..], q[1..], substrate);
        var e := Escape(p, q);
        assert e[1..] == Escape(p[1..], q[1..]);
        GoodCons(Instance(q[0]), Escape(p[1..], q[1..]), substrate);
      } else if q[0] == STAR {
        InstancesGood(q[1..], substrate);
        var e := Escape(p, q);
        assert e[1..] == Instances(q[1..]);
        GoodCons(Other(p[0]), Instances(q[1..]), substrate);
        NotMatchedHead(p, e);
      } else {
        assert Instances(q)[0] == Instance(q[0]);
        NotMatchedHead(p, Instances(q));
      }
    }
  }

  lemma EscapeIsSubject(p: seq<string>, q: seq<string>)
    requires IsPatternTokens(p) && IsPatternTokens(q) && !CoversTokens(p, q)
    ensures IsSubjectTokens(Escape(p, q))
    ensures MatchesTokens(q, Escape(p, q)) && !MatchesTokens(p, Escape(p, q))
  {
    var substrate := IsReservedToken(q[0]);
    GoodAnywhere(p, IsReservedToken(p[0]), true);
    EscapeEscapes(p, q, substrate);
    var e := Escape(p, q);
    assert e != [];
    if substrate {
      assert e[0] == q[0];
    }
    if IsReservedToken(e[0]) {
      GoodAnywhere(e, substrate, false);
    }
  }

  lemma GoodAnywhere(s: seq<string>, substrate: bool, wildcards: bool)
    requires GoodTokens(s, substrate, wildcards)
    ensures GoodTokens(s, true, wildcards)
  {
    forall i | 0 <= i < |s|
      ensures GoodToken(s[i], true, wildcards, i == |s| - 1)
    {
      assert GoodToken(s[i], substrate, wildcards, i == |s| - 1);
    }
  }

  /** Covers is exactly containment over subjects of any length. */
  lemma CoversExact(p: seq<string>, q: seq<string>)
    requires IsPatternTokens(p) && IsPatternTokens(q)
    ensures CoversTokens(p, q) <==>
            forall s :: IsSubjectTokens(s) && MatchesTokens(q, s) ==> MatchesTokens(p, s)
  {
    if CoversTokens(p, q) {
      forall s | IsSubjectTokens(s) && MatchesTokens(q, s)
        ensures MatchesTokens(p, s)
      {
        CoversSound(p, q, s);
      }
    } else {
      EscapeIsSubject(p, q);
    }
  }

  lemma {:induction false} CoversReflexive(p: seq<string>)
    requires GoodTokens(p, true, true)
    ensures CoversTokens(p, p)
  {
    if p != [] {
      GoodTail(p, true, true);
      CoversReflexive(p[1..]);
    }
  }

  lemma {:induction false} CoversTransitive(p: seq<string>, q: seq<string>, r: seq<string>)
    requires CoversTokens(p, q) && CoversTokens(q, r)
    ensures CoversTokens(p, r)
  {
    if p != [] && p[0] != TAIL {
      CoversTransitive(p[1..], q[1..], r[1..]);
    }
  }

  /** On a list without ">", covering is matching: a subject is its own pattern. */
  lemma {:induction false} CoversIsMatches(p: seq<string>, s: seq<string>)
    requires forall i :: 0 <= i < |s| ==> s[i] != TAIL
    ensures CoversTokens(p, s) <==> MatchesTokens(p, s)
  {
    if p != [] && s != [] {
      CoversIsMatches(p[1..], s[1..]);
    }
  }

  // ----- patternsOverlap is non-empty intersection

  /** The shortest subject two overlapping patterns share. */
  function Common(a: seq<string>, b: seq<string>): seq<string> {
    if a == [] || b == [] then []
    else if a[0] == TAIL then Instances(b)
    else if b[0] == TAIL then Instances(a)
    else [if a[0] == STAR then Instance(b[0]) else a[0]] + Common(a[1..], b[1..])
  }

  /** Two patterns that share a subject overlap, whatever their spelling. */
  lemma {:induction false} OverlapComplete(a: seq<string>, b: seq<string>, s: seq<string>)
    requires MatchesTokens(a, s) && MatchesTokens(b, s)
    ensures OverlapsTokens(a, b)
  {
    if a != [] && b != [] && a[0] != TAIL && b[0] != TAIL {
      OverlapComplete(a[1..], b[1..], s[1..]);
    }
  }

  lemma {:induction false} InstancesMatch(p: seq<string>)
    ensures MatchesTokens(p, Instances(p))
  {
    if p != [] {
      InstancesMatch(p[1..]);
      assert Instances(p)[1..] == Instances(p[1..]);
    }
  }

  lemma {:induction false} CommonMatches(a: seq<string>, b: seq<string>)
    requires OverlapsTokens(a, b)
    ensures MatchesTokens(a, Common(a, b)) && MatchesTokens(b, Common(a, b))
    ensures |Common(a, b)| <= |a| || |Common(a, b)| <= |b|
  {
    if a != [] && b != [] {
      InstancesMatch(a);
      InstancesMatch(b);
      if a[0] != TAIL && b[0] != TAIL {
        CommonMatches(a[1..], b[1..]);
        assert Common(a, b)[1..] == Common(a[1..], b[1..]);
      }
    }
  }

  predicate InBoth(a: seq<string>, b: seq<string>, s: seq<string>) {
    MatchesTokens(a, s) && MatchesTokens(b, s)
  }

  ghost predicate Intersect(a: seq<string>, b: seq<string>) {
    exists s :: InBoth(a, b, s)
  }

  /** Overlap is non-empty intersection for every two token lists, well formed or not. */
  lemma OverlapTotal(a: seq<string>, b: seq<string>)
    ensures OverlapsTokens(a, b) <==> Intersect(a, b)
  {
    if OverlapsTokens(a, b) {
      CommonMatches(a, b);
      assert InBoth(a, b, Common(a, b));
    } else if s :| InBoth(a, b, s) {
      OverlapComplete(a, b, s);
    }
  }

  lemma {:induction false} CommonGood(a: seq<string>, b: seq<string>, substrate: bool)
    requires GoodTokens(a, substrate, true) && GoodTokens(b, substrate, true)
    requires OverlapsTokens(a, b)
    ensures GoodTokens(Common(a, b), substrate, false)
  {
    if a != [] && b != [] {
      GoodTail(a, substrate, true);
      GoodTail(b, substrate, true);
      assert GoodToken(a[0], substrate, true, 0 == |a| - 1);
      assert GoodToken(b[0], substrate, true, 0 == |b| - 1);
      if a[0] == TAIL {
        InstancesGood(b, substrate);
      } else if b[0] == TAIL {
        InstancesGood(a, substrate);
      } else {
        CommonGood(a[1..], b[1..], substrate);
        GoodCons(Common(a, b)[0], Common(a[1..], b[1..]), substrate);
      }
    }
  }

  lemma CommonIsSubject(a: seq<string>, b: seq<string>)
    requires IsPatternTokens(a) && IsPatternTokens(b) && OverlapsTokens(a, b)
    ensures IsSubjectTokens(Common(a, b))
    ensures MatchesTokens(a, Common(a, b)) && MatchesTokens(b, Common(a, b))
    ensures |Common(a, b)| <= |a| || |Common(a, b)| <= |b|
  {
    var subA, subB := IsReservedToken(a[0]), IsReservedToken(b[0]);
    var c := Common(a, b);
    CommonMatches(a, b);
    if subA || subB {
      GoodAnywhere(a, subA, true);
      GoodAnywhere(b, subB, true);
      CommonGood(a, b, true);
      assert IsReservedToken(c[0]) by {
        if a[0] == TAIL {
          InstancesAt(b, 0);
        } else if b[0] == TAIL {
          InstancesAt(a, 0);
        }
      }
    } else {
      CommonGood(a, b, false);
      if IsReservedToken(c[0]) {
        GoodAnywhere(c, false, false);
      }
    }
  }

  /** patternsOverlap holds exactly when some subject (of any length) matches both. */
  lemma OverlapExact(a: seq<string>, b: seq<string>)
    requires IsPatternTokens(a) && IsPatternTokens(b)
    ensures OverlapsTokens(a, b) <==>
            exists s :: IsSubjectTokens(s) && MatchesTokens(a, s) && MatchesTokens(b, s)
  {
    if OverlapsTokens(a, b) {
      CommonIsSubject(a, b);
    } else if s :| IsSubjectTokens(s) && MatchesTokens(a, s) && MatchesTokens(b, s) {
      OverlapComplete(a, b, s);
    }
  }

  lemma {:induction false} OverlapSymmetric(a: seq<string>, b: seq<string>)
    ensures OverlapsTokens(a, b) <==> OverlapsTokens(b, a)
  {
    if a != [] && b != [] {
      OverlapSymmetric(a[1..], b[1..]);
    }
  }

  lemma {:induction false} CoversOverlaps(p: seq<string>, q: seq<string>)
    requires CoversTokens(p, q)
    ensures OverlapsTokens(p, q)
  {
    if p != [] && p[0] != TAIL {
      CoversOverlaps(p[1..], q[1..]);
    }
  }
}
