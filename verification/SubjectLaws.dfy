/** The addressing grammar and the match relation, in terms of bytes and positions. */
module SubjectLaws {
  import opened Strings
  import opened StringLaws
  import opened Subjects

  // ----- tokens

  /** The bytes a word may have: small letters, digits, "_" and "-". */
  predicate WordByte(c: char) {
    c in SMALL || c in DIGITS || c == '_' || c == '-'
  }

  /** A word begins with a letter or a digit. */
  predicate Word(t: string) {
    t != "" && (forall c <- t :: WordByte(c)) && t[0] != '_' && t[0] != '-'
  }

  lemma TokenByteExactly(c: char, first: bool)
    ensures IsTokenByte(c, first) <==> WordByte(c) && !(first && (c == '_' || c == '-'))
  {
    SmallExactly(c);
    DigitExactly(c);
  }

  lemma TokenExactly(t: string)
    requires t != ""
    ensures IsToken(t) <==> Word(t)
  {
    forall i | 0 <= i < |t|
      ensures IsTokenByte(t[i], i == 0) <==> WordByte(t[i]) && !(i == 0 && (t[i] == '_' || t[i] == '-'))
    {
      TokenByteExactly(t[i], i == 0);
    }
    assert (forall c <- t :: WordByte(c)) <==> forall i :: 0 <= i < |t| ==> WordByte(t[i]);
  }

  /** A first token that opens a namespace of the substrate. */
  predicate Substrate(t: string) {
    (t != "" && t[0] == '$') || t == "_INBOX"
  }

  lemma SubstrateExactly(t: string)
    ensures IsReservedToken(t) <==> Substrate(t)
  {
    assert HasPrefix(t, "$") <==> t != "" && t[0] == '$';
  }

  // ----- addresses

  /** A token of a concrete subject. */
  predicate SubjectToken(t: string, substrate: bool) {
    t != "" && t != "*" && t != ">" && (substrate || Word(t))
  }

  /** A token of a pattern: also "*" anywhere and ">" at the end. */
  predicate PatternToken(t: string, substrate: bool, last: bool) {
    SubjectToken(t, substrate) || t == "*" || (t == ">" && last)
  }

  predicate WrittenSubject(s: string, toks: seq<string>) {
    && 1 <= |toks| <= 16 && |s| <= 255 && FreeOf(toks, '.') && s == Join(toks, '.')
    && forall i :: 0 <= i < |toks| ==> SubjectToken(toks[i], Substrate(toks[0]))
  }

  predicate WrittenPattern(s: string, toks: seq<string>) {
    && 1 <= |toks| <= 16 && |s| <= 255 && FreeOf(toks, '.') && s == Join(toks, '.')
    && forall i :: 0 <= i < |toks| ==> PatternToken(toks[i], Substrate(toks[0]), i == |toks| - 1)
  }

  lemma GoodTokenExactly(t: string, substrate: bool, last: bool)
    ensures GoodToken(t, substrate, false, last) <==> SubjectToken(t, substrate)
    ensures GoodToken(t, substrate, true, last) <==> PatternToken(t, substrate, last)
  {
    if t != "" {
      TokenExactly(t);
    }
    assert !Word("*") && !Word(">") by {
      TokenExactly("*");
      TokenExactly(">");
    }
  }

  lemma TokensExactly(toks: seq<string>, substrate: bool)
    ensures GoodTokens(toks, substrate, false) <==> forall i :: 0 <= i < |toks| ==> SubjectToken(toks[i], substrate)
    ensures GoodTokens(toks, substrate, true) <==> forall i :: 0 <= i < |toks| ==> PatternToken(toks[i], substrate, i == |toks| - 1)
  {
    forall i | 0 <= i < |toks|
      ensures GoodToken(toks[i], substrate, false, i == |toks| - 1) <==> SubjectToken(toks[i], substrate)
      ensures GoodToken(toks[i], substrate, true, i == |toks| - 1) <==> PatternToken(toks[i], substrate, i == |toks| - 1)
    {
      GoodTokenExactly(toks[i], substrate, i == |toks| - 1);
    }
  }

  /** What parses as a subject or as a pattern is at most 16 tokens of its kind, joined by dots to
      at most 255 bytes. */
  lemma GrammarExactly(s: string)
    ensures IsSubject(s) <==> exists toks :: WrittenSubject(s, toks)
    ensures IsPattern(s) <==> exists toks :: WrittenPattern(s, toks)
  {
    var toks := Tokens(s);
    JoinSplit(s, '.');
    SubstrateExactly(toks[0]);
    TokensExactly(toks, Substrate(toks[0]));
    assert IsSubject(s) <==> WrittenSubject(s, toks);
    assert IsPattern(s) <==> WrittenPattern(s, toks);
    forall ts | WrittenSubject(s, ts) || WrittenPattern(s, ts)
      ensures ts == toks
    {
      SplitJoin(ts, '.');
    }
  }

  // ----- faults

  /** Token `i` is the first with a fault. */
  predicate FaultyFirst(s: string, wildcards: bool, i: nat, fault: ParseFault) {
    var toks := Tokens(s);
    && i < |toks|
    && FaultOf(toks[i], Substrate(toks[0]), wildcards, i == |toks| - 1, fault)
    && forall j :: 0 <= j < i ==> Sound(toks[j], Substrate(toks[0]), wildcards, j == |toks| - 1)
  }

  predicate Sound(t: string, substrate: bool, wildcards: bool, last: bool) {
    if wildcards then PatternToken(t, substrate, last) else SubjectToken(t, substrate)
  }

  /** What is wrong with a token. */
  predicate FaultOf(t: string, substrate: bool, wildcards: bool, last: bool, fault: ParseFault) {
    match fault
    case EmptyToken => t == ""
    case TailInSubject => t == ">" && !wildcards
    case TailNotLast => t == ">" && wildcards && !last
    case StarInSubject => t == "*" && !wildcards
    case BadToken(x) => t == x && t !in ["", "*", ">"] && !substrate && !Word(t)
    case _ => false
  }

  lemma TokenFaultExactly(t: string, substrate: bool, wildcards: bool, last: bool)
    ensures TokenFault(t, substrate, wildcards, last) == None <==> Sound(t, substrate, wildcards, last)
    ensures forall fault :: TokenFault(t, substrate, wildcards, last) == Some(fault) <==> FaultOf(t, substrate, wildcards, last, fault)
  {
    if t != "" {
      TokenExactly(t);
    }
    assert !Word("*") && !Word(">") by {
      TokenExactly("*");
      TokenExactly(">");
    }
  }

  lemma {:induction false} TokensFaultAt(toks: seq<string>, i: nat, wildcards: bool) returns (k: nat)
    requires 1 <= |toks| && i <= |toks|
    ensures i <= k <= |toks|
    ensures forall j :: i <= j < k ==> TokenFault(toks[j], IsReservedToken(toks[0]), wildcards, j == |toks| - 1) == None
    ensures k < |toks| ==> TokenFault(toks[k], IsReservedToken(toks[0]), wildcards, k == |toks| - 1).Some?
    ensures TokensFault(toks, i, wildcards)
         == if k < |toks| then TokenFault(toks[k], IsReservedToken(toks[0]), wildcards, k == |toks| - 1) else None
    decreases |toks| - i
  {
    k := i;
    if i < |toks| && TokenFault(toks[i], IsReservedToken(toks[0]), wildcards, i == |toks| - 1) == None {
      k := TokensFaultAt(toks, i + 1, wildcards);
    }
  }

  /** Why an address is refused: empty, over a cap, or the first faulty token. */
  lemma FaultExactly(s: string, wildcards: bool, fault: ParseFault)
    ensures FirstFault(s, wildcards) == Some(fault) <==>
            if s == "" then fault == Empty
            else if |s| > 255 then fault == TooLong
            else if |Tokens(s)| > 16 then fault == TooManyTokens
            else exists i :: FaultyFirst(s, wildcards, i, fault)
  {
    if s != "" && |s| <= 255 && |Tokens(s)| <= 16 {
      TokensFaultExactly(s, wildcards, fault);
    }
  }

  lemma TokensFaultExactly(s: string, wildcards: bool, fault: ParseFault)
    ensures TokensFault(Tokens(s), 0, wildcards) == Some(fault) <==> exists i :: FaultyFirst(s, wildcards, i, fault)
  {
    var toks := Tokens(s);
    SubstrateExactly(toks[0]);
    var k := TokensFaultAt(toks, 0, wildcards);
    forall j | 0 <= j < |toks|
      ensures TokenFault(toks[j], IsReservedToken(toks[0]), wildcards, j == |toks| - 1) == None <==>
              Sound(toks[j], Substrate(toks[0]), wildcards, j == |toks| - 1)
      ensures TokenFault(toks[j], IsReservedToken(toks[0]), wildcards, j == |toks| - 1) == Some(fault) <==>
              FaultOf(toks[j], Substrate(toks[0]), wildcards, j == |toks| - 1, fault)
    {
      TokenFaultExactly(toks[j], Substrate(toks[0]), wildcards, j == |toks| - 1);
    }
    assert TokensFault(toks, 0, wildcards) == Some(fault) ==> FaultyFirst(s, wildcards, k, fault);
  }

  // ----- matching

  /** Token `i` of the pattern stands for this token. */
  predicate Stands(t: string, u: string) {
    t == "*" || t == u
  }

  /** Position by position: equal length, or, from the first ">" on, at least one token more. */
  lemma {:induction false} MatchesExactly(p: seq<string>, s: seq<string>)
    ensures MatchesTokens(p, s) <==>
            || (|s| == |p| && ">" !in p && forall i :: 0 <= i < |p| ==> Stands(p[i], s[i]))
            || (exists k :: TailMatches(p, s, k))
  {
    if p != [] && p[0] != TAIL {
      if s != [] {
        MatchesExactly(p[1..], s[1..]);
        LiteralStep(p, s);
        TailStep(p, s);
      }
    } else if p != [] && s != [] {
      assert TailMatches(p, s, 0);
    }
  }

  /** The first ">" of the pattern is its token `k`, and the subject has more than `k` tokens. */
  predicate TailMatches(p: seq<string>, s: seq<string>, k: nat) {
    k < |p| && k < |s| && p[k] == ">" && forall i :: 0 <= i < k ==> p[i] != ">" && Stands(p[i], s[i])
  }

  lemma LiteralStep(p: seq<string>, s: seq<string>)
    requires p != [] && s != [] && p[0] != ">"
    ensures (|s| == |p| && ">" !in p && forall i :: 0 <= i < |p| ==> Stands(p[i], s[i])) <==>
            Stands(p[0], s[0]) && |s[1..]| == |p[1..]| && ">" !in p[1..] && forall i :: 0 <= i < |p[1..]| ==> Stands(p[1..][i], s[1..][i])
  {
    assert p == [p[0]] + p[1..];
    if Stands(p[0], s[0]) && |s[1..]| == |p[1..]| && forall i :: 0 <= i < |p[1..]| ==> Stands(p[1..][i], s[1..][i]) {
      forall i | 0 <= i < |p|
        ensures Stands(p[i], s[i])
      {
        if i > 0 {
          assert Stands(p[1..][i - 1], s[1..][i - 1]);
        }
      }
    }
    if |s| == |p| && forall i :: 0 <= i < |p| ==> Stands(p[i], s[i]) {
      forall i | 0 <= i < |p[1..]|
        ensures Stands(p[1..][i], s[1..][i])
      {
        assert Stands(p[i + 1], s[i + 1]);
      }
    }
  }

  lemma TailStep(p: seq<string>, s: seq<string>)
    requires p != [] && s != [] && p[0] != ">"
    ensures (exists k :: TailMatches(p, s, k)) <==> Stands(p[0], s[0]) && exists k :: TailMatches(p[1..], s[1..], k)
  {
    if k :| TailMatches(p, s, k) {
      TailDown(p, s, k);
    }
    if Stands(p[0], s[0]) {
      if k :| TailMatches(p[1..], s[1..], k) {
        TailUp(p, s, k);
      }
    }
  }

  lemma TailDown(p: seq<string>, s: seq<string>, k: nat)
    requires p != [] && s != [] && p[0] != ">" && TailMatches(p, s, k)
    ensures k > 0 && Stands(p[0], s[0]) && TailMatches(p[1..], s[1..], k - 1)
  {
    forall i | 0 <= i < k - 1
      ensures p[1..][i] != ">" && Stands(p[1..][i], s[1..][i])
    {
      assert p[i + 1] != ">" && Stands(p[i + 1], s[i + 1]);
    }
  }

  lemma TailUp(p: seq<string>, s: seq<string>, k: nat)
    requires p != [] && s != [] && p[0] != ">" && Stands(p[0], s[0]) && TailMatches(p[1..], s[1..], k)
    ensures TailMatches(p, s, k + 1)
  {
    forall i | 0 <= i < k + 1
      ensures p[i] != ">" && Stands(p[i], s[i])
    {
      if i > 0 {
        assert p[1..][i - 1] != ">" && Stands(p[1..][i - 1], s[1..][i - 1]);
      }
    }
  }
}
