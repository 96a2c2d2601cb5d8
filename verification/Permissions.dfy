/** validateSubjectPatterns (v2/plugin/validate.go) and what a manifest it accepts can reach. */
module Permissions {
  import opened Strings
  import opened Subjects
  import opened PatternLaws
  import opened BusGrants
  import opened Diagnostics

  datatype Manifest = Manifest(id: string, publish: seq<string>, subscribe: seq<string>, request: seq<string>)

  const MESH_PREFIX := "bd"
  const HOST_COMMANDS := "cmd.gateway.>"
  const PROVIDERS: seq<string> := ["svc.*.ai.decision.>", "svc.*.project.tasks.>", "svc.*.project.knowledge.>"]

  /** PermanentlyIneligible: deny wins over every allow. */
  const INELIGIBLE: seq<string> := [
    "$SYS.>",
    "cmd.host.auth.>",
    "cmd.host.session.>",
    "cmd.host.identity.>",
    "cmd.host.secrets.>",
    "cmd.host.cutover.>",
    "cmd.plugin.v1.disable",
    "cmd.plugin.v1.announce",
    "cmd.host.statedir.>",
    "cmd.terminal.v1.write"
  ]

  /** What one manifest's patterns are held against. */
  datatype Rules = Rules(
    hostCommands: string,
    providers: seq<string>,
    denied: seq<string>,
    own: seq<string>,
    ownService: string)

  function RulesFor(id: string): Rules {
    Rules(HOST_COMMANDS, PROVIDERS, INELIGIBLE, OwnPatterns(TrimSpace(id)), "svc." + TrimSpace(id) + ".>")
  }

  predicate Overlaps(a: string, b: string) {
    OverlapsTokens(Tokens(a), Tokens(b))
  }

  predicate CoveredBy(g: string, p: string) {
    CoversTokens(Tokens(g), Tokens(p))
  }

  /** The first family, in list order, that `p` overlaps. */
  function FirstOverlap(families: seq<string>, p: string): (r: Option<string>)
    ensures r == None <==> forall k :: 0 <= k < |families| ==> !Overlaps(families[k], p)
  {
    if families == [] then None
    else if Overlaps(families[0], p) then Some(families[0])
    else
      assert forall k :: 1 <= k < |families| ==> families[k] == families[1..][k - 1];
      FirstOverlap(families[1..], p)
  }

  // ----- the findings, rule by rule

  function One(condition: bool, code: Code, place: Place, index: int, evidence: string): seq<Finding> {
    if condition then [Finding(code, place, index, evidence)] else []
  }

  function ReachFinding(families: seq<string>, p: string, code: Code, place: Place, index: int): seq<Finding> {
    match FirstOverlap(families, p)
    case Some(d) => [Finding(code, place, index, d)]
    case None => []
  }

  function OwnFindings(denied: seq<string>, own: seq<string>): seq<Finding> {
    if own == [] then []
    else OwnFindings(denied, own[..|own| - 1]) + ReachFinding(denied, own[|own| - 1], BDP2004, Id, -1)
  }

  /** The first reserved token from `i` on, as the code that refuses it. */
  function ReservedFinding(toks: seq<string>, i: nat, place: Place, index: int): seq<Finding>
    requires i <= |toks|
    decreases |toks| - i
  {
    if i == |toks| then []
    else if IsReservedToken(toks[i]) then [Finding(BDP2112, place, index, toks[i])]
    else if i == 0 && toks[0] == MESH_PREFIX then [Finding(BDP2113, place, index, MESH_PREFIX)]
    else ReservedFinding(toks, i + 1, place, index)
  }

  predicate Exempt(r: Rules, place: Place, p: string) {
    place == Subscribe && CoveredBy(r.ownService, p)
  }

  function RestatesFindings(own: seq<string>, p: string, place: Place, index: int): seq<Finding> {
    if own == [] then []
    else RestatesFindings(own[..|own| - 1], p, place, index) + One(CoveredBy(own[|own| - 1], p), BDP2114, place, index, p)
  }

  function GatewayFindings(r: Rules, place: Place, index: int, p: string): seq<Finding> {
    One(place != Request && Overlaps(r.hostCommands, p), BDP2115, place, index, r.hostCommands)
  }

  function ProviderFindings(r: Rules, place: Place, index: int, p: string): seq<Finding> {
    if Exempt(r, place, p) then [] else ReachFinding(r.providers, p, BDP2115, place, index)
  }

  /** What is reported for one parsed, unreserved pattern. */
  function AuthorityFindings(r: Rules, place: Place, index: int, p: string): seq<Finding> {
    GatewayFindings(r, place, index, p)
    + ProviderFindings(r, place, index, p)
    + RestatesFindings(r.own, p, place, index)
    + ReachFinding(r.denied, p, BDP2115, place, index)
  }

  function SpellingFindings(r: Rules, place: Place, index: int, p: string): seq<Finding> {
    if FirstFault(p, true).Some? then [Finding(BDP2111, place, index, p)]
    else
      var reserved := ReservedFinding(Tokens(p), 0, place, index);
      if reserved != [] then reserved else AuthorityFindings(r, place, index, p)
  }

  function PatternFindings(r: Rules, place: Place, patterns: seq<string>, i: nat): seq<Finding>
    requires i < |patterns|
  {
    One(patterns[i] in patterns[..i], BDP2110, place, i, patterns[i]) + SpellingFindings(r, place, i, patterns[i])
  }

  /** What is reported for the first `n` entries of a list. */
  function ListFindings(r: Rules, place: Place, patterns: seq<string>, n: nat): seq<Finding>
    requires n <= |patterns|
  {
    if n == 0 then [] else ListFindings(r, place, patterns, n - 1) + PatternFindings(r, place, patterns, n - 1)
  }

  function IdFindings(id: string, r: Rules): seq<Finding> {
    One(TrimSpace(id) == "gateway", BDP2004, Id, -1, r.hostCommands)
  }

  function Findings(m: Manifest, r: Rules): seq<Finding> {
    IdFindings(m.id, r)
    + OwnFindings(r.denied, r.own)
    + ListFindings(r, Publish, m.publish, |m.publish|)
    + ListFindings(r, Subscribe, m.subscribe, |m.subscribe|)
    + ListFindings(r, Request, m.request, |m.request|)
  }

  function SubjectFindings(m: Manifest): seq<Finding> {
    Findings(m, RulesFor(m.id))
  }

  lemma AppendFour(s: seq<Finding>, a: seq<Finding>, b: seq<Finding>, c: seq<Finding>, d: seq<Finding>)
    ensures s + a + b + c + d == s + (a + b + c + d)
  {
  }

  lemma ListStep(s: seq<Finding>, r: Rules, place: Place, patterns: seq<string>, i: nat)
    requires i < |patterns|
    ensures s + ListFindings(r, place, patterns, i) + PatternFindings(r, place, patterns, i)
            == s + ListFindings(r, place, patterns, i + 1)
  {
  }

  lemma AppendFive(s: seq<Finding>, a: seq<Finding>, b: seq<Finding>, c: seq<Finding>, d: seq<Finding>, e: seq<Finding>)
    ensures s + a + b + c + d + e == s + (a + b + c + d + e)
  {
  }

  // ----- the rule, as the source runs it

  /** Reports the first family `p` overlaps: one finding per pattern. */
  method ReportReach(c: Collector, families: seq<string>, p: string, code: Code, place: Place, index: int)
    modifies c
    ensures c.list == old(c.list) + ReachFinding(families, p, code, place, index)
  {
    for k := 0 to |families|
      invariant c.list == old(c.list)
      invariant FirstOverlap(families, p) == FirstOverlap(families[k..], p)
    {
      assert families[k..][1..] == families[k + 1..];
      var overlap := PatternsOverlap(families[k], p);
      if overlap {
        c.Add(code, place, index, families[k]);
        return;
      }
    }
  }

  method RefuseReservedTokens(c: Collector, place: Place, index: int, p: string) returns (refused: bool)
    modifies c
    ensures c.list == old(c.list) + ReservedFinding(Tokens(p), 0, place, index)
    ensures refused <==> ReservedFinding(Tokens(p), 0, place, index) != []
  {
    var toks := Tokens(p);
    for i := 0 to |toks|
      invariant c.list == old(c.list)
      invariant ReservedFinding(toks, 0, place, index) == ReservedFinding(toks, i, place, index)
    {
      var tok := toks[i];
      if IsReservedToken(tok) {
        c.Add(BDP2112, place, index, tok);
        return true;
      }
      if i == 0 && tok == MESH_PREFIX {
        c.Add(BDP2113, place, index, MESH_PREFIX);
        return true;
      }
    }
    return false;
  }

  method ReportProviders(c: Collector, r: Rules, place: Place, index: int, p: string)
    modifies c
    ensures c.list == old(c.list) + ProviderFindings(r, place, index, p)
  {
    for k := 0 to |r.providers|
      invariant c.list == old(c.list)
      invariant Exempt(r, place, p) || FirstOverlap(r.providers, p) == FirstOverlap(r.providers[k..], p)
    {
      assert r.providers[k..][1..] == r.providers[k + 1..];
      var overlap := PatternsOverlap(r.providers[k], p);
      if overlap {
        var ownCovers := Covers(r.ownService, p);
        if place != Subscribe || !ownCovers {
          c.Add(BDP2115, place, index, r.providers[k]);
          break;
        }
      }
    }
  }

  method ReportRestated(c: Collector, own: seq<string>, place: Place, index: int, p: string)
    modifies c
    ensures c.list == old(c.list) + RestatesFindings(own, p, place, index)
  {
    for k := 0 to |own|
      invariant c.list == old(c.list) + RestatesFindings(own[..k], p, place, index)
    {
      assert own[..k + 1][..k] == own[..k];
      var covers := Covers(own[k], p);
      if covers {
        c.Add(BDP2114, place, index, p);
      }
    }
    assert own[..|own|] == own;
  }

  method ReportAuthority(c: Collector, r: Rules, place: Place, index: int, p: string)
    modifies c
    ensures c.list == old(c.list) + AuthorityFindings(r, place, index, p)
  {
    ReportGateway(c, r, place, index, p);
    ReportProviders(c, r, place, index, p);
    ReportRestated(c, r.own, place, index, p);
    ReportReach(c, r.denied, p, BDP2115, place, index);
    AppendFour(old(c.list), GatewayFindings(r, place, index, p), ProviderFindings(r, place, index, p),
               RestatesFindings(r.own, p, place, index), ReachFinding(r.denied, p, BDP2115, place, index));
  }

  method ReportGateway(c: Collector, r: Rules, place: Place, index: int, p: string)
    modifies c
    ensures c.list == old(c.list) + GatewayFindings(r, place, index, p)
  {
    if place != Request {
      var gateway := PatternsOverlap(r.hostCommands, p);
      if gateway {
        c.Add(BDP2115, place, index, r.hostCommands);
      }
    }
  }

  method ValidateList(c: Collector, r: Rules, place: Place, patterns: seq<string>)
    modifies c
    ensures c.list == old(c.list) + ListFindings(r, place, patterns, |patterns|)
  {
    var seen: set<string> := {};
    for i := 0 to |patterns|
      invariant seen == set p | p in patterns[..i]
      invariant c.list == old(c.list) + ListFindings(r, place, patterns, i)
    {
      assert patterns[..i + 1] == patterns[..i] + [patterns[i]];
      ListStep(old(c.list), r, place, patterns, i);
      ValidatePattern(c, r, place, patterns, i, seen);
      seen := seen + {patterns[i]};
    }
  }

  method ValidatePattern(c: Collector, r: Rules, place: Place, patterns: seq<string>, i: nat, seen: set<string>)
    requires i < |patterns|
    requires seen == set p | p in patterns[..i]
    modifies c
    ensures c.list == old(c.list) + PatternFindings(r, place, patterns, i)
  {
    var p := patterns[i];
    if p in seen {
      c.Add(BDP2110, place, i, p);
    }
    ReportSpelling(c, r, place, i, p);
  }

  method ReportSpelling(c: Collector, r: Rules, place: Place, index: int, p: string)
    modifies c
    ensures c.list == old(c.list) + SpellingFindings(r, place, index, p)
  {
    var fault := Parse(p, true);
    if fault.Some? {
      c.Add(BDP2111, place, index, p);
      return;
    }
    var refused := RefuseReservedTokens(c, place, index, p);
    if refused {
      return;
    }
    ReportAuthority(c, r, place, index, p);
  }

  method ReportOwn(c: Collector, denied: seq<string>, own: seq<string>)
    modifies c
    ensures c.list == old(c.list) + OwnFindings(denied, own)
  {
    for k := 0 to |own|
      invariant c.list == old(c.list) + OwnFindings(denied, own[..k])
    {
      assert own[..k + 1][..k] == own[..k];
      ReportReach(c, denied, own[k], BDP2004, Id, -1);
    }
    assert own[..|own|] == own;
  }

  /** validateSubjectPatterns. */
  method ValidateSubjectPatterns(c: Collector, m: Manifest)
    modifies c
    ensures c.list == old(c.list) + SubjectFindings(m)
  {
    var own := OwnNamespacePatterns(TrimSpace(m.id));
    var r := Rules(HOST_COMMANDS, PROVIDERS, INELIGIBLE, own, "svc." + TrimSpace(m.id) + ".>");
    ValidateWith(c, m, r);
  }

  method ReportId(c: Collector, id: string, r: Rules)
    modifies c
    ensures c.list == old(c.list) + IdFindings(id, r)
  {
    if TrimSpace(id) == "gateway" {
      c.Add(BDP2004, Id, -1, r.hostCommands);
    }
  }

  method ValidateWith(c: Collector, m: Manifest, r: Rules)
    modifies c
    ensures c.list == old(c.list) + Findings(m, r)
  {
    ReportId(c, m.id, r);
    ReportOwn(c, r.denied, r.own);
    ValidateList(c, r, Publish, m.publish);
    ValidateList(c, r, Subscribe, m.subscribe);
    ValidateList(c, r, Request, m.request);
    AppendFive(old(c.list), IdFindings(m.id, r), OwnFindings(r.denied, r.own),
               ListFindings(r, Publish, m.publish, |m.publish|),
               ListFindings(r, Subscribe, m.subscribe, |m.subscribe|),
               ListFindings(r, Request, m.request, |m.request|));
  }
}
