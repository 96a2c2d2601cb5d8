/** The pattern questions asked of addresses that really parse, with the caps of 16 tokens
    and 255 bytes. The caps make both answers conservative on a family of patterns; the
    lemmas here say exactly which. */
module PatternCaps {
  import opened Strings
  import opened Subjects
  import opened PatternLaws

  function Bytes(toks: seq<string>): nat {
    |Join(toks, '.')|
  }

  lemma BytesCons(t: string, rest: seq<string>)
    ensures Bytes([t] + rest) == |t| + if rest == [] then 0 else 1 + Bytes(rest)
  {
    assert ([t] + rest)[1..] == rest;
  }

  lemma BytesSplit(toks: seq<string>)
    requires toks != []
    ensures Bytes(toks) == |toks[0]| + if |toks| == 1 then 0 else 1 + Bytes(toks[1..])
  {
    assert [toks[0]] + toks[1..] == toks;
    BytesCons(toks[0], toks[1..]);
  }

  lemma FreeCons(t: string, s: seq<string>)
    requires '.' !in t && FreeOf(s, '.')
    ensures FreeOf([t] + s, '.')
  {
  }

  lemma {:induction false} InstancesBytes(p: seq<string>)
    requires FreeOf(p, '.')
    ensures Bytes(Instances(p)) == Bytes(p)
    ensures FreeOf(Instances(p), '.')
  {
    if p != [] {
      InstancesBytes(p[1..]);
      BytesSplit(p);
      BytesCons(Instance(p[0]), Instances(p[1..]));
      FreeCons(Instance(p[0]), Instances(p[1..]));
    }
  }

  /** An address spelled from its tokens: it splits back and parses when the caps allow. */
  lemma SpellSubject(toks: seq<string>)
    requires IsSubjectTokens(toks) && FreeOf(toks, '.')
    requires |toks| <= MAX_TOKENS && Bytes(toks) <= MAX_LEN
    ensures Tokens(Join(toks, '.')) == toks && IsSubject(Join(toks, '.'))
  {
    SplitJoin(toks, '.');
  }

  /** The tokens of a string: joined they are the string again, and none has a dot. */
  lemma TokensSpell(s: string)
    ensures Bytes(Tokens(s)) == |s| && FreeOf(Tokens(s), '.')
  {
    JoinSplit(s, '.');
  }

  predicate NonEmpty(s: seq<string>) {
    forall i :: 0 <= i < |s| ==> s[i] != ""
  }

  lemma SubjectNonEmpty(s: seq<string>)
    requires IsSubjectTokens(s)
    ensures NonEmpty(s)
  {
    forall i | 0 <= i < |s|
      ensures s[i] != ""
    {
      assert GoodToken(s[i], IsReservedToken(s[0]), false, i == |s| - 1);
    }
  }

  lemma {:induction false} BytesAtLeast(s: seq<string>)
    requires NonEmpty(s) && s != []
    ensures Bytes(s) >= 2 * |s| - 1
  {
    BytesSplit(s);
    if |s| > 1 {
      BytesAtLeast(s[1..]);
    }
  }

  // ----- Covers

  /** p covers q up to the last token, where q has ">" and p only "*". */
  predicate StarForTail(p: seq<string>, q: seq<string>) {
    && p != [] && q != []
    && if q[0] == TAIL then p == [STAR]
       else p[0] != TAIL && (p[0] == STAR || p[0] == q[0]) && StarForTail(p[1..], q[1..])
  }

  /** The caps leave q no subject with more tokens than its own. */
  predicate Full(q: string) {
    |Tokens(q)| == MAX_TOKENS || |q| + 2 > MAX_LEN
  }

  lemma {:induction false} EscapeBytes(p: seq<string>, q: seq<string>)
    requires GoodTokens(p, true, true) && GoodTokens(q, true, true)
    requires FreeOf(q, '.')
    requires !CoversTokens(p, q)
    ensures FreeOf(Escape(p, q), '.')
    ensures if StarForTail(p, q) then |Escape(p, q)| == |q| + 1 && Bytes(Escape(p, q)) == Bytes(q) + 2
            else |Escape(p, q)| == |q| && Bytes(Escape(p, q)) <= Bytes(q)
  {
    InstancesBytes(q);
    if p != [] && q != [] && p[0] != TAIL {
      GoodTail(p, true, true);
      GoodTail(q, true, true);
      BytesSplit(q);
      if q[0] == TAIL {
        BytesCons("a", ["a"]);
        assert ["a"] + ["a"] == ["a", "a"];
      } else if p[0] == STAR || p[0] == q[0] {
        EscapeBytes(p[1..], q[1..]);
        BytesCons(Instance(q[0]), Escape(p[1..], q[1..]));
        FreeCons(Instance(q[0]), Escape(p[1..], q[1..]));
      } else {
        InstancesBytes(q[1..]);
        BytesCons(Other(p[0]), Instances(q[1..]));
        FreeCons(Other(p[0]), Instances(q[1..]));
      }
    }
  }

  /** A subject `q` addresses is at least as long as `q`. */
  lemma {:induction false} MatchBytes(q: seq<string>, s: seq<string>)
    requires MatchesTokens(q, s) && NonEmpty(s) && GoodTokens(q, true, true)
    ensures |s| >= |q|
    ensures Bytes(s) >= Bytes(q) + 2 * (|s| - |q|)
  {
    if q != [] {
      GoodTail(q, true, true);
      BytesSplit(q);
      BytesSplit(s);
      if q[0] == TAIL {
        BytesAtLeast(s);
      } else {
        MatchBytes(q[1..], s[1..]);
      }
    }
  }

  lemma {:induction false} StarForTailMatches(p: seq<string>, q: seq<string>, s: seq<string>)
    requires StarForTail(p, q) && MatchesTokens(q, s) && |s| == |q| && GoodTokens(q, true, true)
    ensures MatchesTokens(p, s)
  {
    GoodTail(q, true, true);
    if q[0] != TAIL {
      StarForTailMatches(p[1..], q[1..], s[1..]);
    }
  }

  /** Among addresses that parse, Covers is containment except where the caps alone keep
      a trailing ">" of q down to the one token that p's trailing "*" admits. */
  lemma CoversExactUnderCaps(p: string, q: string)
    requires IsPattern(p) && IsPattern(q)
    ensures CoversTokens(Tokens(p), Tokens(q)) || (StarForTail(Tokens(p), Tokens(q)) && Full(q))
            <==>
            forall s :: IsSubject(s) && MatchesTokens(Tokens(q), Tokens(s)) ==> MatchesTokens(Tokens(p), Tokens(s))
  {
    var pt, qt := Tokens(p), Tokens(q);
    TokensSpell(q);
    GoodAnywhere(pt, IsReservedToken(pt[0]), true);
    GoodAnywhere(qt, IsReservedToken(qt[0]), true);
    if CoversTokens(pt, qt) || (StarForTail(pt, qt) && Full(q)) {
      forall s | IsSubject(s) && MatchesTokens(qt, Tokens(s))
        ensures MatchesTokens(pt, Tokens(s))
      {
        var st := Tokens(s);
        if CoversTokens(pt, qt) {
          CoversSound(pt, qt, st);
        } else {
          TokensSpell(s);
          SubjectNonEmpty(st);
          MatchBytes(qt, st);
          StarForTailMatches(pt, qt, st);
        }
      }
    } else {
      EscapeIsSubject(pt, qt);
      EscapeBytes(pt, qt);
      SpellSubject(Escape(pt, qt));
      assert IsSubject(Join(Escape(pt, qt), '.'));
    }
  }

  // ----- patternsOverlap

  lemma {:induction false} CommonFree(a: seq<string>, b: seq<string>)
    requires FreeOf(a, '.') && FreeOf(b, '.')
    ensures FreeOf(Common(a, b), '.')
  {
    if a != [] && b != [] {
      if a[0] == TAIL {
        InstancesBytes(b);
      } else if b[0] == TAIL {
        InstancesBytes(a);
      } else {
        CommonFree(a[1..], b[1..]);
        FreeCons(Common(a, b)[0], Common(a[1..], b[1..]));
      }
    }
  }

  /** No subject two patterns share is shorter than Common. */
  lemma {:induction false} CommonShortest(a: seq<string>, b: seq<string>, s: seq<string>)
    requires MatchesTokens(a, s) && MatchesTokens(b, s) && NonEmpty(s)
    requires GoodTokens(a, true, true) && GoodTokens(b, true, true)
    requires FreeOf(a, '.') && FreeOf(b, '.')
    ensures |s| >= |Common(a, b)|
    ensures Bytes(s) >= Bytes(Common(a, b))
  {
    if a != [] && b != [] {
      GoodTail(a, true, true);
      GoodTail(b, true, true);
      if a[0] == TAIL {
        InstancesBytes(b);
        MatchBytes(b, s);
      } else if b[0] == TAIL {
        InstancesBytes(a);
        MatchBytes(a, s);
      } else {
        CommonShortest(a[1..], b[1..], s[1..]);
        BytesSplit(s);
        BytesCons(Common(a, b)[0], Common(a[1..], b[1..]));
      }
    }
  }

  /** Among addresses that parse, two patterns share a subject exactly when they overlap
      and their shortest common subject fits the byte cap. */
  lemma OverlapExactUnderCaps(a: string, b: string)
    requires IsPattern(a) && IsPattern(b)
    ensures OverlapsTokens(Tokens(a), Tokens(b)) && Bytes(Common(Tokens(a), Tokens(b))) <= MAX_LEN
            <==>
            exists s :: IsSubject(s) && MatchesTokens(Tokens(a), Tokens(s)) && MatchesTokens(Tokens(b), Tokens(s))
  {
    var at, bt := Tokens(a), Tokens(b);
    TokensSpell(a);
    TokensSpell(b);
    GoodAnywhere(at, IsReservedToken(at[0]), true);
    GoodAnywhere(bt, IsReservedToken(bt[0]), true);
    if OverlapsTokens(at, bt) && Bytes(Common(at, bt)) <= MAX_LEN {
      CommonIsSubject(at, bt);
      CommonFree(at, bt);
      SpellSubject(Common(at, bt));
      assert IsSubject(Join(Common(at, bt), '.'));
    } else if s :| IsSubject(s) && MatchesTokens(at, Tokens(s)) && MatchesTokens(bt, Tokens(s)) {
      OverlapComplete(at, bt, Tokens(s));
      SubjectNonEmpty(Tokens(s));
      TokensSpell(s);
      CommonShortest(at, bt, Tokens(s));
    }
  }

  // ----- neither family is empty

  lemma TwoTokens(x: string, y: string, p: string)
    requires '.' !in x && '.' !in y && p == x + ['.'] + y
    ensures Tokens(p) == [x, y]
  {
    SplitFree(x, '.');
    SplitFree(y, '.');
    SplitConcat(x, '.', y);
  }

  /** A spelled token is no wildcard, is not reserved and has no dot. */
  lemma WordShape(t: string)
    requires t != "" && IsToken(t)
    ensures '.' !in t && t != STAR && t != TAIL && !IsReservedToken(t)
  {
    assert IsTokenByte(t[0], true);
  }

  lemma WildcardShape()
    ensures '.' !in STAR && '.' !in TAIL && STAR != TAIL && |STAR| == 1 == |TAIL| && !IsReservedToken(STAR)
  {
    assert STAR[0] == '*' && TAIL[0] == '>';
  }

  /** `p` ends in "*" where `q` ends in ">", behind one token so long that the cap leaves ">"
      a single byte: Covers refuses, and every subject of q is one of p all the same. */
  lemma LongTokenContains(t: string, p: string, q: string)
    requires IsToken(t) && 252 <= |t| <= 253
    requires p == t + ['.'] + STAR && q == t + ['.'] + TAIL
    ensures IsPattern(p) && IsPattern(q) && !CoversTokens(Tokens(p), Tokens(q))
    ensures StarForTail(Tokens(p), Tokens(q)) && Full(q)
    ensures forall s :: IsSubject(s) && MatchesTokens(Tokens(q), Tokens(s)) ==> MatchesTokens(Tokens(p), Tokens(s))
  {
    WordShape(t);
    WildcardShape();
    TwoTokens(t, STAR, p);
    TwoTokens(t, TAIL, q);
    assert [t, STAR][1..] == [STAR] && [t, TAIL][1..] == [TAIL];
    CoversExactUnderCaps(p, q);
  }

  /** Two long words crossed with "*": the patterns overlap, and what they share is too long
      for a subject. */
  lemma CrossedWordsShareNothing(x: string, y: string, a: string, b: string)
    requires IsToken(x) && IsToken(y) && |x| <= 253 && |y| <= 253 && |x| + |y| >= 255
    requires a == x + ['.'] + STAR && b == STAR + ['.'] + y
    ensures IsPattern(a) && IsPattern(b) && OverlapsTokens(Tokens(a), Tokens(b))
    ensures Bytes(Common(Tokens(a), Tokens(b))) > MAX_LEN
    ensures !exists s :: IsSubject(s) && MatchesTokens(Tokens(a), Tokens(s)) && MatchesTokens(Tokens(b), Tokens(s))
  {
    WordShape(x);
    WordShape(y);
    WildcardShape();
    TwoTokens(x, STAR, a);
    TwoTokens(STAR, y, b);
    assert [x, STAR][1..] == [STAR] && [STAR, y][1..] == [y];
    assert Common([STAR], [y]) == [y] + Common([], []);
    assert Common(Tokens(a), Tokens(b)) == [x] + [y];
    BytesCons(x, [y]);
    OverlapExactUnderCaps(a, b);
  }

  /** Such words there are: any number of equal letters. */
  function Letters(n: nat): (t: string)
    ensures |t| == n && IsToken(t)
  {
    seq(n, i => 'a')
  }

  lemma CapsMatter() returns (p: string, q: string, a: string, b: string)
    ensures IsPattern(p) && IsPattern(q) && !CoversTokens(Tokens(p), Tokens(q))
    ensures forall s :: IsSubject(s) && MatchesTokens(Tokens(q), Tokens(s)) ==> MatchesTokens(Tokens(p), Tokens(s))
    ensures IsPattern(a) && IsPattern(b) && OverlapsTokens(Tokens(a), Tokens(b))
    ensures !exists s :: IsSubject(s) && MatchesTokens(Tokens(a), Tokens(s)) && MatchesTokens(Tokens(b), Tokens(s))
  {
    var t, x := Letters(253), Letters(128);
    p, q := t + ['.'] + STAR, t + ['.'] + TAIL;
    a, b := x + ['.'] + STAR, STAR + ['.'] + x;
    LongTokenContains(t, p, q);
    CrossedWordsShareNothing(x, x, a, b);
  }
}
