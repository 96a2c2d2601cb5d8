/** What it means that validateSubjectPatterns reports nothing, in terms of the subjects a
    manifest reaches rather than of the checks that were run. */
module PermissionLaws {
  import opened Strings
  import opened Subjects
  import opened PatternLaws
  import opened BusGrants
  import opened Diagnostics
  import opened Permissions

  /** Some subject belongs to both families. */
  ghost predicate Shares(a: string, b: string) {
    Intersect(Tokens(a), Tokens(b))
  }

  predicate Unreserved(toks: seq<string>)
    requires toks != []
  {
    toks[0] != MESH_PREFIX && forall i :: 0 <= i < |toks| ==> !IsReservedToken(toks[i])
  }

  ghost predicate AcceptedPattern(r: Rules, place: Place, p: string) {
    && IsPattern(p)
    && Unreserved(Tokens(p))
    && (place != Request ==> !Shares(r.hostCommands, p))
    && (forall f :: f in r.providers ==> !Shares(f, p))
    && (forall g :: g in r.own ==> !CoveredBy(g, p))
    && (forall d :: d in r.denied ==> !Shares(d, p))
  }

  ghost predicate AcceptedList(r: Rules, place: Place, patterns: seq<string>) {
    && NoRepeats(patterns)
    && AllAccepted(r, place, patterns)
  }

  ghost predicate AcceptedUnder(r: Rules, m: Manifest) {
    && TrimSpace(m.id) != "gateway"
    && (forall g, d :: g in r.own && d in r.denied ==> !Shares(d, g))
    && AcceptedList(r, Publish, m.publish)
    && AcceptedList(r, Subscribe, m.subscribe)
    && AcceptedList(r, Request, m.request)
  }

  ghost predicate Accepted(m: Manifest) {
    AcceptedUnder(RulesFor(m.id), m)
  }

  // ----- each group of findings, empty exactly when its condition holds

  lemma ReachMeaning(families: seq<string>, p: string, code: Code, place: Place, index: int)
    ensures ReachFinding(families, p, code, place, index) == [] <==> forall f :: f in families ==> !Shares(f, p)
  {
    forall f | f in families
      ensures Overlaps(f, p) <==> Shares(f, p)
    {
      OverlapTotal(Tokens(f), Tokens(p));
    }
    assert (forall k :: 0 <= k < |families| ==> !Overlaps(families[k], p)) <==> FirstOverlap(families, p) == None;
  }

  lemma {:induction false} OwnMeaning(denied: seq<string>, own: seq<string>)
    ensures OwnFindings(denied, own) == [] <==> forall g, d :: g in own && d in denied ==> !Shares(d, g)
  {
    if own != [] {
      var n := |own| - 1;
      OwnMeaning(denied, own[..n]);
      ReachMeaning(denied, own[n], BDP2004, Id, -1);
      assert own == own[..n] + [own[n]];
    }
  }

  lemma {:induction false} ReservedMeaning(toks: seq<string>, i: nat, place: Place, index: int)
    requires i <= |toks| && toks != []
    ensures ReservedFinding(toks, i, place, index) == [] <==>
            (i == 0 ==> toks[0] != MESH_PREFIX) && forall j :: i <= j < |toks| ==> !IsReservedToken(toks[j])
    decreases |toks| - i
  {
    if i < |toks| {
      ReservedMeaning(toks, i + 1, place, index);
    }
  }

  lemma {:induction false} RestatesMeaning(own: seq<string>, p: string, place: Place, index: int)
    ensures RestatesFindings(own, p, place, index) == [] <==> forall g :: g in own ==> !CoveredBy(g, p)
  {
    if own != [] {
      var n := |own| - 1;
      RestatesMeaning(own[..n], p, place, index);
      assert own == own[..n] + [own[n]];
    }
  }

  /** A subscription spared the provider rule restates the own namespace. */
  ghost predicate ExemptionsRestate(r: Rules) {
    forall place, p {:trigger Exempt(r, place, p)} :: IsPattern(p) && Exempt(r, place, p) ==> exists g :: g in r.own && CoveredBy(g, p)
  }

  lemma AuthorityMeaning(r: Rules, place: Place, index: int, p: string)
    requires ExemptionsRestate(r) && IsPattern(p)
    ensures AuthorityFindings(r, place, index, p) == [] <==>
            && (place != Request ==> !Shares(r.hostCommands, p))
            && (forall f :: f in r.providers ==> !Shares(f, p))
            && (forall g :: g in r.own ==> !CoveredBy(g, p))
            && (forall d :: d in r.denied ==> !Shares(d, p))
  {
    OverlapTotal(Tokens(r.hostCommands), Tokens(p));
    ReachMeaning(r.providers, p, BDP2115, place, index);
    ReachMeaning(r.denied, p, BDP2115, place, index);
    RestatesMeaning(r.own, p, place, index);
  }

  lemma SpellingMeaning(r: Rules, place: Place, index: int, p: string)
    requires ExemptionsRestate(r)
    ensures SpellingFindings(r, place, index, p) == [] <==> AcceptedPattern(r, place, p)
  {
    ParseMeaning(p);
    if IsPattern(p) {
      ReservedMeaning(Tokens(p), 0, place, index);
      AuthorityMeaning(r, place, index, p);
    }
  }

  ghost predicate AllAccepted(r: Rules, place: Place, patterns: seq<string>) {
    forall p :: p in patterns ==> AcceptedPattern(r, place, p)
  }

  lemma NoRepeatsStep(patterns: seq<string>, n: nat)
    requires n < |patterns|
    ensures NoRepeats(patterns[..n + 1]) <==> NoRepeats(patterns[..n]) && patterns[n] !in patterns[..n]
  {
    var all, most := patterns[..n + 1], patterns[..n];
    assert forall i :: 0 <= i < n ==> all[i] == most[i];
  }

  lemma ListFindingsStep(r: Rules, place: Place, patterns: seq<string>, n: nat)
    requires n < |patterns|
    ensures ListFindings(r, place, patterns, n + 1) == [] <==>
            && ListFindings(r, place, patterns, n) == []
            && patterns[n] !in patterns[..n]
            && SpellingFindings(r, place, n, patterns[n]) == []
  {
    var before, here := ListFindings(r, place, patterns, n), PatternFindings(r, place, patterns, n);
    assert |before + here| == |before| + |here|;
  }

  lemma {:induction false} ListMeaning(r: Rules, place: Place, patterns: seq<string>, n: nat)
    requires n <= |patterns|
    ensures ListFindings(r, place, patterns, n) == [] <==>
            NoRepeats(patterns[..n]) && forall i :: 0 <= i < n ==> SpellingFindings(r, place, i, patterns[i]) == []
  {
    if n > 0 {
      var k := n - 1;
      ListMeaning(r, place, patterns, k);
      ListFindingsStep(r, place, patterns, k);
      NoRepeatsStep(patterns, k);
    }
  }

  lemma BlankServiceTokens()
    ensures Tokens("svc..>") == ["svc", "", ">"]
  {
    SplitConcat("svc", '.', ".>");
    SplitFree("svc", '.');
    SplitConcat("", '.', ">");
    SplitFree(">", '.');
    assert "svc..>" == "svc" + ['.'] + ".>" && ".>" == "" + ['.'] + ">";
  }

  /** The own-service pattern of a blank id has an empty token, so it covers nothing that parses. */
  lemma BlankServiceCoversNothing(p: string)
    requires IsPattern(p)
    ensures !CoveredBy("svc..>", p)
  {
    BlankServiceTokens();
    var own, toks := ["svc", "", ">"], Tokens(p);
    assert own[1..][0] == "";
    if |toks| > 1 {
      assert toks[1..][0] == toks[1];
      assert GoodToken(toks[1], IsReservedToken(toks[0]), true, 1 == |toks| - 1);
    }
    assert !CoversTokens(own[1..], toks[1..]);
  }

  lemma ExemptionAlwaysRestates(id: string)
    ensures ExemptionsRestate(RulesFor(id))
  {
    var r := RulesFor(id);
    TrimIdempotent(id);
    forall place, p | IsPattern(p) && Exempt(r, place, p)
      ensures exists g :: g in r.own && CoveredBy(g, p)
    {
      if TrimSpace(id) == "" {
        assert r.ownService == "svc..>";
        BlankServiceCoversNothing(p);
      } else {
        assert r.own[4] == r.ownService;
        assert CoveredBy(r.own[4], p);
      }
    }
  }

  lemma EmptyFive(a: seq<Finding>, b: seq<Finding>, c: seq<Finding>, d: seq<Finding>, e: seq<Finding>)
    ensures a + b + c + d + e == [] <==> a == [] && b == [] && c == [] && d == [] && e == []
  {
    assert |a + b + c + d + e| == |a| + |b| + |c| + |d| + |e|;
  }

  lemma WholeListMeaning(r: Rules, place: Place, patterns: seq<string>)
    requires ExemptionsRestate(r)
    ensures ListFindings(r, place, patterns, |patterns|) == [] <==> AcceptedList(r, place, patterns)
  {
    assert patterns[..|patterns|] == patterns;
    ListMeaning(r, place, patterns, |patterns|);
    forall i | 0 <= i < |patterns|
      ensures SpellingFindings(r, place, i, patterns[i]) == [] <==> AcceptedPattern(r, place, patterns[i])
    {
      SpellingMeaning(r, place, i, patterns[i]);
    }
  }

  lemma FindingsMeaning(r: Rules, m: Manifest)
    requires ExemptionsRestate(r)
    ensures Findings(m, r) == [] <==> AcceptedUnder(r, m)
  {
    OwnMeaning(r.denied, r.own);
    WholeListMeaning(r, Publish, m.publish);
    WholeListMeaning(r, Subscribe, m.subscribe);
    WholeListMeaning(r, Request, m.request);
    EmptyFive(IdFindings(m.id, r), OwnFindings(r.denied, r.own),
              ListFindings(r, Publish, m.publish, |m.publish|),
              ListFindings(r, Subscribe, m.subscribe, |m.subscribe|),
              ListFindings(r, Request, m.request, |m.request|));
  }

  /** The validator reports nothing exactly for the manifests accepted by what they reach. */
  lemma NothingReportedMeaning(m: Manifest)
    ensures SubjectFindings(m) == [] <==> Accepted(m)
  {
    ExemptionAlwaysRestates(m.id);
    FindingsMeaning(RulesFor(m.id), m);
  }

  // ----- safety

  predicate Declares(m: Manifest, p: string) {
    p in m.publish || p in m.subscribe || p in m.request
  }

  lemma NotShared(a: string, b: string, s: string)
    requires !Shares(a, b) && MatchesTokens(Tokens(b), Tokens(s))
    ensures !MatchesTokens(Tokens(a), Tokens(s))
  {
    assert !InBoth(Tokens(a), Tokens(b), Tokens(s));
  }

  /** No subject an accepted manifest reaches, by declaration or by its own namespace, is
      in a permanently ineligible family, and none of its declared patterns reaches a
      provider family. */
  lemma AcceptedNeverReachesDenied(m: Manifest, p: string, s: string)
    requires SubjectFindings(m) == []
    requires (Declares(m, p) || p in OwnPatterns(m.id)) && MatchesTokens(Tokens(p), Tokens(s))
    ensures forall d :: d in INELIGIBLE ==> !MatchesTokens(Tokens(d), Tokens(s))
    ensures Declares(m, p) ==> forall f :: f in PROVIDERS ==> !MatchesTokens(Tokens(f), Tokens(s))
    ensures p in m.publish || p in m.subscribe ==> !MatchesTokens(Tokens(HOST_COMMANDS), Tokens(s))
  {
    NothingReportedMeaning(m);
    TrimIdempotent(m.id);
    var r := RulesFor(m.id);
    forall d | d in r.denied
      ensures !MatchesTokens(Tokens(d), Tokens(s))
    {
      assert !Shares(d, p);
      NotShared(d, p, s);
    }
    if Declares(m, p) {
      forall f | f in r.providers
        ensures !MatchesTokens(Tokens(f), Tokens(s))
      {
        assert !Shares(f, p);
        NotShared(f, p, s);
      }
    }
    if p in m.publish || p in m.subscribe {
      assert !Shares(r.hostCommands, p);
      NotShared(r.hostCommands, p, s);
    }
  }
}
