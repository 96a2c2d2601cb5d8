/** The addressing grammar of the bus and its matcher (v2/bus/subject.go). A subject or a
    pattern is a string; everything but the length cap is decided on its "."-separated
    tokens, so the specifications are predicates over token lists. */
module Subjects {
  import opened Strings

  const MAX_TOKENS: nat := 16
  const MAX_LEN: nat := 255
  const STAR := "*"
  const TAIL := ">"

  datatype ParseFault =
    | Empty
    | TooLong
    | TooManyTokens
    | EmptyToken
    | TailInSubject
    | TailNotLast
    | StarInSubject
    | BadToken(token: string)

  function Tokens(s: string): (toks: seq<string>)
    ensures |toks| >= 1
  {
    Split(s, '.')
  }

  predicate IsReservedToken(t: string) {
    HasPrefix(t, "$") || t == "_INBOX"
  }

  predicate IsTokenByte(c: char, first: bool) {
    'a' <= c <= 'z' || '0' <= c <= '9' || ((c == '_' || c == '-') && !first)
  }

  /** [a-z0-9][a-z0-9_-]*, the empty token being refused before this rule is asked. */
  predicate IsToken(t: string) {
    forall i :: 0 <= i < |t| ==> IsTokenByte(t[i], i == 0)
  }

  // ----- the grammar

  /** One token of an address. `substrate` says that the first token is reserved, so that
      the token spelling rule is off; `last` says that no token follows. */
  predicate GoodToken(t: string, substrate: bool, wildcards: bool, last: bool) {
    && t != ""
    && (t == TAIL ==> wildcards && last)
    && (t == STAR ==> wildcards)
    && (t != TAIL && t != STAR && !substrate ==> IsToken(t))
  }

  predicate GoodTokens(toks: seq<string>, substrate: bool, wildcards: bool) {
    forall i :: 0 <= i < |toks| ==> GoodToken(toks[i], substrate, wildcards, i == |toks| - 1)
  }

  /** The grammar without its two size caps. */
  predicate IsPatternTokens(toks: seq<string>) {
    |toks| >= 1 && GoodTokens(toks, IsReservedToken(toks[0]), true)
  }

  predicate IsSubjectTokens(toks: seq<string>) {
    |toks| >= 1 && GoodTokens(toks, IsReservedToken(toks[0]), false)
  }

  predicate IsPattern(s: string) {
    |s| <= MAX_LEN && |Tokens(s)| <= MAX_TOKENS && IsPatternTokens(Tokens(s))
  }

  predicate IsSubject(s: string) {
    |s| <= MAX_LEN && |Tokens(s)| <= MAX_TOKENS && IsSubjectTokens(Tokens(s))
  }

  // ----- parsing, as the source runs it

  function TokenFault(t: string, substrate: bool, wildcards: bool, last: bool): Option<ParseFault> {
    if t == "" then Some(EmptyToken)
    else if t == TAIL then
      if !wildcards then Some(TailInSubject) else if !last then Some(TailNotLast) else None
    else if t == STAR then
      if !wildcards then Some(StarInSubject) else None
    else if substrate || IsToken(t) then None
    else Some(BadToken(t))
  }

  /** The fault of the first faulty token from index `i` on. */
  function TokensFault(toks: seq<string>, i: nat, wildcards: bool): Option<ParseFault>
    requires 1 <= |toks| && i <= |toks|
    decreases |toks| - i
  {
    if i == |toks| then None
    else
      var f := TokenFault(toks[i], IsReservedToken(toks[0]), wildcards, i == |toks| - 1);
      if f.Some? then f else TokensFault(toks, i + 1, wildcards)
  }

  function FirstFault(s: string, wildcards: bool): Option<ParseFault> {
    if s == "" then Some(Empty)
    else if |s| > MAX_LEN then Some(TooLong)
    else if |Tokens(s)| > MAX_TOKENS then Some(TooManyTokens)
    else TokensFault(Tokens(s), 0, wildcards)
  }

  method Token(t: string) returns (ok: bool)
    ensures ok <==> IsToken(t)
  {
    for i := 0 to |t|
      invariant forall j :: 0 <= j < i ==> IsTokenByte(t[j], j == 0)
    {
      var c := t[i];
      if 'a' <= c <= 'z' || '0' <= c <= '9' {
      } else if (c == '_' || c == '-') && i > 0 {
      } else {
        return false;
      }
    }
    return true;
  }

  /** parse: the first fault, or None. */
  method Parse(s: string, wildcards: bool) returns (fault: Option<ParseFault>)
    ensures fault == FirstFault(s, wildcards)
  {
    if s == "" {
      return Some(Empty);
    }
    if |s| > MAX_LEN {
      return Some(TooLong);
    }
    var toks := Split(s, '.');
    if |toks| > MAX_TOKENS {
      return Some(TooManyTokens);
    }
    var substrate := |toks| > 0 && IsReservedToken(toks[0]);
    for i := 0 to |toks|
      invariant TokensFault(toks, 0, wildcards) == TokensFault(toks, i, wildcards)
    {
      var t := toks[i];
      if t == "" {
        return Some(EmptyToken);
      } else if t == TAIL {
        if !wildcards {
          return Some(TailInSubject);
        }
        if i != |toks| - 1 {
          return Some(TailNotLast);
        }
      } else if t == STAR {
        if !wildcards {
          return Some(StarInSubject);
        }
      } else if substrate {
      } else {
        var ok := Token(t);
        if !ok {
          return Some(BadToken(t));
        }
      }
    }
    return None;
  }

  lemma {:induction false} TokensFaultNone(toks: seq<string>, i: nat, wildcards: bool)
    requires 1 <= |toks| && i <= |toks|
    ensures TokensFault(toks, i, wildcards) == None <==>
            forall j :: i <= j < |toks| ==>
              GoodToken(toks[j], IsReservedToken(toks[0]), wildcards, j == |toks| - 1)
    decreases |toks| - i
  {
    if i < |toks| {
      TokensFaultNone(toks, i + 1, wildcards);
    }
  }

  /** What parses is what the grammar and the two caps admit, for subjects and patterns. */
  lemma ParseMeaning(s: string)
    ensures FirstFault(s, false) == None <==> IsSubject(s)
    ensures FirstFault(s, true) == None <==> IsPattern(s)
  {
    TokensFaultNone(Tokens(s), 0, false);
    TokensFaultNone(Tokens(s), 0, true);
  }

  // ----- matching

  /** Which concrete token lists a pattern addresses: "*" is any one token, ">" is one or
      more trailing tokens. Total: token lists that do not parse have a meaning too. */
  predicate MatchesTokens(p: seq<string>, s: seq<string>) {
    if p == [] then s == []
    else if p[0] == TAIL then s != []
    else s != [] && (p[0] == STAR || p[0] == s[0]) && MatchesTokens(p[1..], s[1..])
  }

  /** Pattern.Matches. */
  method Matches(p: string, s: string) returns (r: bool)
    ensures r <==> MatchesTokens(Tokens(p), Tokens(s))
  {
    var pt := Tokens(p);
    var st := Tokens(s);
    for i := 0 to |pt|
      invariant i <= |st|
      invariant MatchesTokens(pt, st) <==> MatchesTokens(pt[i..], st[i..])
    {
      var t := pt[i];
      assert pt[i..][1..] == pt[i + 1..];
      if t == TAIL {
        return i < |st|;
      }
      if i >= |st| {
        return false;
      }
      assert st[i..][1..] == st[i + 1..];
      if t == STAR {
        continue;
      }
      if t != st[i] {
        return false;
      }
    }
    return |pt| == |st|;
  }

  predicate CoversTokens(p: seq<string>, q: seq<string>) {
    if p == [] then q == []
    else if p[0] == TAIL then q != []
    else q != [] && q[0] != TAIL && (p[0] == STAR || p[0] == q[0]) && CoversTokens(p[1..], q[1..])
  }

  /** Pattern.Covers. */
  method Covers(p: string, q: string) returns (r: bool)
    ensures r <==> CoversTokens(Tokens(p), Tokens(q))
  {
    var pt := Tokens(p);
    var qt := Tokens(q);
    for i := 0 to |pt|
      invariant i <= |qt|
      invariant CoversTokens(pt, qt) <==> CoversTokens(pt[i..], qt[i..])
    {
      var t := pt[i];
      assert pt[i..][1..] == pt[i + 1..];
      if t == TAIL {
        return i < |qt|;
      }
      if i >= |qt| {
        return false;
      }
      assert qt[i..][1..] == qt[i + 1..];
      if qt[i] == TAIL {
        return false;
      }
      if t == STAR {
        continue;
      }
      if t != qt[i] {
        return false;
      }
    }
    return |pt| == |qt|;
  }

  method CoveredByAny(grants: seq<string>, q: string) returns (r: bool)
    ensures r <==> exists k :: 0 <= k < |grants| && CoversTokens(Tokens(grants[k]), Tokens(q))
  {
    for k := 0 to |grants|
      invariant forall j :: 0 <= j < k ==> !CoversTokens(Tokens(grants[j]), Tokens(q))
    {
      var covers := Covers(grants[k], q);
      if covers {
        return true;
      }
    }
    return false;
  }

  method MatchedByAny(grants: seq<string>, s: string) returns (r: bool)
    ensures r <==> exists k :: 0 <= k < |grants| && MatchesTokens(Tokens(grants[k]), Tokens(s))
  {
    for k := 0 to |grants|
      invariant forall j :: 0 <= j < k ==> !MatchesTokens(Tokens(grants[j]), Tokens(s))
    {
      var matches := Matches(grants[k], s);
      if matches {
        return true;
      }
    }
    return false;
  }

  // ----- overlap (v2/plugin/validate.go)

  predicate OverlapsTokens(a: seq<string>, b: seq<string>) {
    if a == [] || b == [] then |a| == |b|
    else if a[0] == TAIL || b[0] == TAIL then true
    else (a[0] == STAR || b[0] == STAR || a[0] == b[0]) && OverlapsTokens(a[1..], b[1..])
  }

  /** patternsOverlap. */
  method PatternsOverlap(a: string, b: string) returns (r: bool)
    ensures r <==> OverlapsTokens(Tokens(a), Tokens(b))
  {
    var at, bt := Tokens(a), Tokens(b);
    var i := 0;
    while true
      invariant i <= |at| && i <= |bt|
      invariant OverlapsTokens(at, bt) <==> OverlapsTokens(at[i..], bt[i..])
      decreases |at| - i
    {
      if i >= |at| || i >= |bt| {
        return |at| == |bt|;
      }
      var x, y := at[i], bt[i];
      assert at[i..][1..] == at[i + 1..] && bt[i..][1..] == bt[i + 1..];
      if x == TAIL || y == TAIL {
        return true;
      }
      if !(x == STAR || y == STAR) && x != y {
        return false;
      }
      i := i + 1;
    }
  }
}
