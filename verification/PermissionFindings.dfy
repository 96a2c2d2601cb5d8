/** Exactly which findings validateSubjectPatterns reports, entry by entry. */
module PermissionFindings {
  import opened Strings
  import opened Subjects
  import opened PatternLaws
  import opened BusGrants
  import opened Diagnostics
  import opened Permissions
  import opened PermissionLaws

  /** `d` is the first of the families that shares a subject with `p`. */
  ghost predicate FirstShared(families: seq<string>, d: string, p: string) {
    exists k :: 0 <= k < |families| && families[k] == d && SharesFirst(families, k, p)
  }

  ghost predicate SharesFirst(families: seq<string>, k: nat, p: string)
    requires k < |families|
  {
    Shares(families[k], p) && forall j :: 0 <= j < k ==> !Shares(families[j], p)
  }

  lemma {:induction false} FirstOverlapExactly(families: seq<string>, p: string) returns (k: nat)
    ensures k <= |families| && forall j :: 0 <= j < k ==> !Shares(families[j], p)
    ensures k < |families| ==> Shares(families[k], p) && FirstOverlap(families, p) == Some(families[k])
    ensures k == |families| ==> FirstOverlap(families, p) == None
  {
    k := 0;
    if families != [] {
      OverlapTotal(Tokens(families[0]), Tokens(p));
      if !Overlaps(families[0], p) {
        var m := FirstOverlapExactly(families[1..], p);
        k := m + 1;
        forall j | 0 <= j < k
          ensures !Shares(families[j], p)
        {
          if j > 0 {
            assert families[1..][j - 1] == families[j];
          }
        }
      }
    }
  }

  lemma ReachExactly(families: seq<string>, p: string, code: Code, place: Place, index: int, f: Finding)
    ensures f in ReachFinding(families, p, code, place, index)
            <==> f.code == code && f.place == place && f.index == index && FirstShared(families, f.evidence, p)
  {
    var k := FirstOverlapExactly(families, p);
    forall j | 0 <= j < |families| && SharesFirst(families, j, p)
      ensures j == k < |families|
    {
      OneFirst(families, p, j, k);
    }
    if k < |families| {
      assert SharesFirst(families, k, p);
    }
  }

  lemma OneFirst(families: seq<string>, p: string, j: nat, k: nat)
    requires j < |families| && SharesFirst(families, j, p)
    requires k <= |families| && (forall i :: 0 <= i < k ==> !Shares(families[i], p)) && (k < |families| ==> Shares(families[k], p))
    ensures j == k < |families|
  {
  }

  // ----- one pattern

  /** Token `k` is the first that a manifest may not use. */
  predicate ReservedAt(toks: seq<string>, k: nat) {
    && k < |toks| && IsReservedToken(toks[k])
    && forall j :: 0 <= j < k ==> !IsReservedToken(toks[j]) && (j == 0 ==> toks[0] != "bd")
  }

  predicate Meshed(toks: seq<string>) {
    toks != [] && toks[0] == "bd" && !IsReservedToken("bd")
  }

  lemma {:induction false} ReservedExactly(toks: seq<string>, i: nat, place: Place, index: int, f: Finding)
    requires i <= |toks|
    requires forall j :: 0 <= j < i ==> !IsReservedToken(toks[j]) && (j == 0 ==> toks[0] != "bd")
    ensures f in ReservedFinding(toks, i, place, index) <==>
            && f.place == place && f.index == index
            && ((f.code == BDP2112 && exists k :: i <= k < |toks| && toks[k] == f.evidence && ReservedAt(toks, k))
                || (f.code == BDP2113 && f.evidence == "bd" && i == 0 && Meshed(toks)))
    decreases |toks| - i
  {
    if i < |toks| && !IsReservedToken(toks[i]) && (i == 0 ==> toks[0] != "bd") {
      ReservedExactly(toks, i + 1, place, index, f);
    }
  }

  lemma {:induction false} RestatesExactly(own: seq<string>, p: string, place: Place, index: int, f: Finding)
    ensures f in RestatesFindings(own, p, place, index)
            <==> f == Finding(BDP2114, place, index, p) && exists g <- own :: CoveredBy(g, p)
  {
    if own != [] {
      var n := |own| - 1;
      RestatesExactly(own[..n], p, place, index, f);
      assert own == own[..n] + [own[n]];
    }
  }

  /** What an unreserved pattern is reported for: its own namespace restated, or the authority of
      others reached, the first family of each kind being the evidence. */
  ghost predicate Oversteps(r: Rules, place: Place, p: string, f: Finding) {
    || (f.code == BDP2114 && f.evidence == p && exists g <- r.own :: CoveredBy(g, p))
    || (f.code == BDP2115
        && (|| (place != Request && f.evidence == r.hostCommands && Shares(r.hostCommands, p))
            || (!Exempt(r, place, p) && FirstShared(r.providers, f.evidence, p))
            || FirstShared(r.denied, f.evidence, p)))
  }

  lemma AuthorityExactly(r: Rules, place: Place, index: int, p: string, f: Finding)
    ensures f in AuthorityFindings(r, place, index, p)
            <==> f.place == place && f.index == index && Oversteps(r, place, p, f)
  {
    OverlapTotal(Tokens(r.hostCommands), Tokens(p));
    ReachExactly(r.providers, p, BDP2115, place, index, f);
    ReachExactly(r.denied, p, BDP2115, place, index, f);
    RestatesExactly(r.own, p, place, index, f);
    var a, b := GatewayFindings(r, place, index, p), ProviderFindings(r, place, index, p);
    var c, d := RestatesFindings(r.own, p, place, index), ReachFinding(r.denied, p, BDP2115, place, index);
    assert f in a + b + c + d <==> f in a || f in b || f in c || f in d;
  }

  /** What a pattern is reported for on its own. */
  ghost predicate Misspelt(r: Rules, place: Place, p: string, f: Finding) {
    if !IsPattern(p) then f.code == BDP2111 && f.evidence == p
    else
      var toks := Tokens(p);
      || (f.code == BDP2112 && exists k :: 0 <= k < |toks| && toks[k] == f.evidence && ReservedAt(toks, k))
      || (f.code == BDP2113 && f.evidence == "bd" && Meshed(toks))
      || (Unreserved(toks) && Oversteps(r, place, p, f))
  }

  lemma SpellingExactly(r: Rules, place: Place, index: int, p: string, f: Finding)
    ensures f in SpellingFindings(r, place, index, p) <==> f.place == place && f.index == index && Misspelt(r, place, p, f)
  {
    ParseMeaning(p);
    if IsPattern(p) {
      var toks := Tokens(p);
      ReservedExactly(toks, 0, place, index, f);
      ReservedMeaning(toks, 0, place, index);
      AuthorityExactly(r, place, index, p, f);
      NoneReserved(toks);
    }
  }

  lemma NoneReserved(toks: seq<string>)
    requires toks != []
    ensures Unreserved(toks) ==> !Meshed(toks) && forall k: nat :: !ReservedAt(toks, k)
  {
  }

  // ----- a list

  /** Entry `i` is reported so: for repeating an earlier one, or for what it is. */
  ghost predicate ReportedAt(r: Rules, place: Place, patterns: seq<string>, i: nat, f: Finding)
    requires i < |patterns|
  {
    && f.place == place && f.index == i
    && ((f.code == BDP2110 && f.evidence == patterns[i] && exists j :: 0 <= j < i && patterns[j] == patterns[i])
        || Misspelt(r, place, patterns[i], f))
  }

  lemma PatternExactly(r: Rules, place: Place, patterns: seq<string>, i: nat, f: Finding)
    requires i < |patterns|
    ensures f in PatternFindings(r, place, patterns, i) <==> ReportedAt(r, place, patterns, i, f)
  {
    SpellingExactly(r, place, i, patterns[i], f);
    assert patterns[i] in patterns[..i] <==> exists j :: 0 <= j < i && patterns[j] == patterns[i];
  }

  /** Some entry of the list is reported so. */
  ghost predicate ReportedIn(r: Rules, place: Place, patterns: seq<string>, f: Finding) {
    exists i :: 0 <= i < |patterns| && ReportedAt(r, place, patterns, i, f)
  }

  lemma ListGrows(r: Rules, place: Place, patterns: seq<string>, n: nat, f: Finding)
    requires n < |patterns|
    ensures f in ListFindings(r, place, patterns, n + 1) <==>
            f in ListFindings(r, place, patterns, n) || ReportedAt(r, place, patterns, n, f)
  {
    PatternExactly(r, place, patterns, n, f);
    ListStepIn(r, place, patterns, n, f);
  }

  lemma ListStepIn(r: Rules, place: Place, patterns: seq<string>, n: nat, f: Finding)
    requires n < |patterns|
    ensures f in ListFindings(r, place, patterns, n + 1) <==>
            f in ListFindings(r, place, patterns, n) || f in PatternFindings(r, place, patterns, n)
  {
    InTwo(ListFindings(r, place, patterns, n), PatternFindings(r, place, patterns, n), f);
  }

  ghost function HeldSoFar(r: Rules, place: Place, patterns: seq<string>, f: Finding): (held: seq<bool>)
    ensures |held| == |patterns| + 1
    ensures forall k :: 0 <= k <= |patterns| ==> held[k] == (f in ListFindings(r, place, patterns, k))
  {
    seq(|patterns| + 1, k requires 0 <= k <= |patterns| => f in ListFindings(r, place, patterns, k))
  }

  ghost function ReportedEach(r: Rules, place: Place, patterns: seq<string>, f: Finding): (at: seq<bool>)
    ensures |at| == |patterns| && forall i :: 0 <= i < |patterns| ==> at[i] == ReportedAt(r, place, patterns, i, f)
  {
    seq(|patterns|, i requires 0 <= i < |patterns| => ReportedAt(r, place, patterns, i, f))
  }

  lemma ListExactly(r: Rules, place: Place, patterns: seq<string>, f: Finding)
    ensures f in ListFindings(r, place, patterns, |patterns|) <==> ReportedIn(r, place, patterns, f)
  {
    var held, at := HeldSoFar(r, place, patterns, f), ReportedEach(r, place, patterns, f);
    forall k | 0 <= k < |at|
      ensures held[k + 1] <==> held[k] || at[k]
    {
      ListGrows(r, place, patterns, k, f);
    }
    Accumulates(held, at);
    AtExactly(r, place, patterns, f);
  }

  lemma AtExactly(r: Rules, place: Place, patterns: seq<string>, f: Finding)
    ensures var at := ReportedEach(r, place, patterns, f); (exists i :: 0 <= i < |at| && at[i]) <==> ReportedIn(r, place, patterns, f)
  {
    var at := ReportedEach(r, place, patterns, f);
    if i :| 0 <= i < |patterns| && ReportedAt(r, place, patterns, i, f) {
      assert at[i];
    }
  }

  /** The id is reported: as the host's own, or for a denied family its own namespace reaches. */
  ghost predicate ReportedId(m: Manifest, r: Rules, f: Finding) {
    && f.code == BDP2004 && f.place == Id && f.index == -1
    && ((TrimSpace(m.id) == "gateway" && f.evidence == r.hostCommands)
        || exists g <- r.own :: FirstShared(r.denied, f.evidence, g))
  }

  lemma {:induction false} OwnExactly(denied: seq<string>, own: seq<string>, f: Finding)
    ensures f in OwnFindings(denied, own) <==>
            f.code == BDP2004 && f.place == Id && f.index == -1 && exists g <- own :: FirstShared(denied, f.evidence, g)
  {
    if own != [] {
      var n := |own| - 1;
      OwnExactly(denied, own[..n], f);
      ReachExactly(denied, own[n], BDP2004, Id, -1, f);
      assert own == own[..n] + [own[n]];
    }
  }

  /** A finding is reported exactly when it is one about the id or about an entry of a list. */
  lemma ReportedExactly(m: Manifest, f: Finding)
    ensures f in SubjectFindings(m) <==>
            var r := RulesFor(m.id);
            || ReportedId(m, r, f)
            || ReportedIn(r, Publish, m.publish, f) || ReportedIn(r, Subscribe, m.subscribe, f) || ReportedIn(r, Request, m.request, f)
  {
    FindingsExactly(m, RulesFor(m.id), f);
  }

  lemma FindingsExactly(m: Manifest, r: Rules, f: Finding)
    ensures f in Findings(m, r) <==>
            || ReportedId(m, r, f)
            || ReportedIn(r, Publish, m.publish, f) || ReportedIn(r, Subscribe, m.subscribe, f) || ReportedIn(r, Request, m.request, f)
  {
    OwnExactly(r.denied, r.own, f);
    ListExactly(r, Publish, m.publish, f);
    ListExactly(r, Subscribe, m.subscribe, f);
    ListExactly(r, Request, m.request, f);
    InFive(IdFindings(m.id, r), OwnFindings(r.denied, r.own), ListFindings(r, Publish, m.publish, |m.publish|),
           ListFindings(r, Subscribe, m.subscribe, |m.subscribe|), ListFindings(r, Request, m.request, |m.request|), f);
  }

  lemma InFive(a: seq<Finding>, b: seq<Finding>, c: seq<Finding>, d: seq<Finding>, e: seq<Finding>, f: Finding)
    ensures f in a + b + c + d + e <==> f in a || f in b || f in c || f in d || f in e
  {
  }

  /** What the rules of a manifest are, by name. */
  lemma RulesByName(id: string)
    ensures RulesFor(id).hostCommands == "cmd.gateway.>"
    ensures RulesFor(id).providers == ["svc.*.ai.decision.>", "svc.*.project.tasks.>", "svc.*.project.knowledge.>"]
    ensures RulesFor(id).denied == [
        "$SYS.>", "cmd.host.auth.>", "cmd.host.session.>", "cmd.host.identity.>", "cmd.host.secrets.>", "cmd.host.cutover.>",
        "cmd.plugin.v1.disable", "cmd.plugin.v1.announce", "cmd.host.statedir.>", "cmd.terminal.v1.write"]
    ensures RulesFor(id).ownService == "svc." + TrimSpace(id) + ".>"
  {
  }
}
