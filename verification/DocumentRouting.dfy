/** validateDocumentPaths (v2/plugin/validate.go): the claim loop over a manifest's panels,
    and the unambiguous routing it buys. */
module DocumentRouting {
  import opened Strings
  import opened Diagnostics
  import opened DocumentPaths
  import opened DocumentPathLaws

  const FEATURE_DOCUMENT_PATHS := "ui.document-paths.v1"

  datatype Protocol = Protocol(major: int, required: seq<string>)

  datatype Panel = Panel(id: string, url: string, documentPaths: seq<string>)

  datatype Manifest = Manifest(protocol: Option<Protocol>, panels: seq<Panel>)

  predicate Negotiated(m: Manifest) {
    m.protocol.Some? && m.protocol.value.major != 0 && FEATURE_DOCUMENT_PATHS in m.protocol.value.required
  }

  /** strings.Contains(s, ".."). */
  predicate HasDotDot(s: string) {
    exists i :: 0 <= i < |s| - 1 && s[i] == '.' && s[i + 1] == '.'
  }

  /** idSegment: one non-blank path segment. */
  predicate IdSegment(raw: string) {
    var s := TrimSpace(raw);
    s != "" && '/' !in s && '\\' !in s && ' ' !in s && !HasDotDot(s)
  }

  /** How many panels carry this id. */
  function CountId(panels: seq<Panel>, id: string): nat {
    if panels == [] then 0
    else CountId(panels[..|panels| - 1], id) + if panels[|panels| - 1].id == id then 1 else 0
  }

  predicate OwnsItsId(m: Manifest, panel: Panel) {
    panel.id == TrimSpace(panel.id) && CountId(m.panels, panel.id) == 1 && TrimSpace(panel.url) != ""
  }

  /** Why a panel that declares document paths may not claim any. */
  function PanelFault(m: Manifest, panel: Panel): Option<Code> {
    if !Negotiated(m) then Some(BDP2060)
    else if !IdSegment(panel.id) then Some(BDP2061)
    else if !OwnsItsId(m, panel) then Some(BDP2062)
    else None
  }

  // ----- the findings

  function OverlapFindings(i: int, claimed: seq<string>, pattern: string): seq<Finding> {
    if claimed == [] then []
    else
      var n := |claimed| - 1;
      OverlapFindings(i, claimed[..n], pattern)
      + if PathsOverlap(claimed[n], pattern) then [Finding(BDP2064, Panels, i, claimed[n])] else []
  }

  function PathFindings(i: int, claimed: seq<string>, pattern: string): seq<Finding> {
    if !IsDocumentPath(pattern) then [Finding(BDP2063, Panels, i, pattern)] else OverlapFindings(i, claimed, pattern)
  }

  /** What a path adds to the claims: an invalid one claims nothing. */
  function Claim(claimed: seq<string>, pattern: string): seq<string> {
    if IsDocumentPath(pattern) then claimed + [pattern] else claimed
  }

  function ClaimAll(claimed: seq<string>, paths: seq<string>): seq<string>
    decreases paths
  {
    if paths == [] then claimed else ClaimAll(Claim(claimed, paths[0]), paths[1..])
  }

  function PathsFindings(i: int, claimed: seq<string>, paths: seq<string>): seq<Finding>
    decreases paths
  {
    if paths == [] then []
    else PathFindings(i, claimed, paths[0]) + PathsFindings(i, Claim(claimed, paths[0]), paths[1..])
  }

  datatype Walk = Walk(claimed: seq<string>, findings: seq<Finding>, stopped: bool)

  /** One turn of the panel loop for a panel with document paths. */
  function Turn(fault: Option<Code>, paths: seq<string>, i: nat, w: Walk): Walk {
    match fault
    case Some(code) => Walk(w.claimed, w.findings + [Finding(code, Panels, i, "")], code == BDP2060)
    case None => Walk(ClaimAll(w.claimed, paths), w.findings + PathsFindings(i, w.claimed, paths), false)
  }

  function Step(m: Manifest, panel: Panel, i: nat, w: Walk): Walk {
    if w.stopped || panel.documentPaths == [] then w else Turn(PanelFault(m, panel), panel.documentPaths, i, w)
  }

  function WalkPanels(m: Manifest, panels: seq<Panel>, n: nat): Walk
    requires n <= |panels|
  {
    if n == 0 then Walk([], [], false) else Step(m, panels[n - 1], n - 1, WalkPanels(m, panels, n - 1))
  }

  function DocumentFindings(m: Manifest): seq<Finding> {
    WalkPanels(m, m.panels, |m.panels|).findings
  }

  // ----- the rule, as the source runs it

  method CountIds(panels: seq<Panel>) returns (counts: map<string, nat>)
    ensures forall id :: (if id in counts then counts[id] else 0) == CountId(panels, id)
  {
    counts := map[];
    for i := 0 to |panels|
      invariant forall id :: (if id in counts then counts[id] else 0) == CountId(panels[..i], id)
    {
      var id := panels[i].id;
      assert panels[..i + 1][..i] == panels[..i];
      counts := counts[id := (if id in counts then counts[id] else 0) + 1];
    }
    assert panels[..|panels|] == panels;
  }

  method ReportOverlaps(c: Collector, i: int, claimed: seq<string>, pattern: string)
    modifies c
    ensures c.list == old(c.list) + OverlapFindings(i, claimed, pattern)
  {
    for k := 0 to |claimed|
      invariant c.list == old(c.list) + OverlapFindings(i, claimed[..k], pattern)
    {
      assert claimed[..k + 1][..k] == claimed[..k];
      var overlap := DocumentPathsOverlap(claimed[k], pattern);
      if overlap == Some(true) {
        c.Add(BDP2064, Panels, i, claimed[k]);
      }
      assert PathsOverlap(claimed[k], pattern) <==> overlap == Some(true);
    }
    assert claimed[..|claimed|] == claimed;
  }

  /** One path of a panel, against everything claimed so far. */
  method ClaimPath(c: Collector, i: int, claimed: seq<string>, pattern: string) returns (more: seq<string>)
    modifies c
    ensures c.list == old(c.list) + PathFindings(i, claimed, pattern)
    ensures more == Claim(claimed, pattern)
  {
    more := claimed;
    var parsed := ParseDocumentPath(pattern);
    assert IsDocumentPath(pattern) <==> parsed != None;
    if parsed == None {
      c.Add(BDP2063, Panels, i, pattern);
      return;
    }
    ReportOverlaps(c, i, claimed, pattern);
    more := claimed + [pattern];
  }

  /** The loop over one panel's paths. */
  method ClaimPaths(c: Collector, i: int, claimed: seq<string>, paths: seq<string>) returns (more: seq<string>)
    modifies c
    ensures c.list == old(c.list) + PathsFindings(i, claimed, paths)
    ensures more == ClaimAll(claimed, paths)
  {
    more := claimed;
    for j := 0 to |paths|
      invariant c.list + PathsFindings(i, more, paths[j..]) == old(c.list) + PathsFindings(i, claimed, paths)
      invariant ClaimAll(more, paths[j..]) == ClaimAll(claimed, paths)
    {
      assert paths[j..][1..] == paths[j + 1..];
      ghost var before, here := c.list, PathFindings(i, more, paths[j]);
      ghost var after := PathsFindings(i, Claim(more, paths[j]), paths[j + 1..]);
      more := ClaimPath(c, i, more, paths[j]);
      assert before + here + after == before + (here + after);
    }
  }

  lemma AppendTwo(s: seq<Finding>, a: seq<Finding>, b: seq<Finding>)
    ensures s + a + b == s + (a + b)
  {
  }

  /** One turn of the panel loop, after `w`. */
  method WalkPanel(c: Collector, ghost base: seq<Finding>, ghost w: Walk,
                   i: nat, fault: Option<Code>, paths: seq<string>, claimed: seq<string>)
      returns (more: seq<string>, stop: bool)
    requires w.claimed == claimed && c.list == base + w.findings
    modifies c
    ensures c.list == base + Turn(fault, paths, i, w).findings
    ensures more == Turn(fault, paths, i, w).claimed && stop == Turn(fault, paths, i, w).stopped
  {
    more, stop := claimed, false;
    if fault.Some? {
      c.Add(fault.value, Panels, i, "");
      stop := fault.value == BDP2060;
      return;
    }
    more := ClaimPaths(c, i, claimed, paths);
    AppendTwo(base, w.findings, PathsFindings(i, claimed, paths));
  }

  /** The three refusals of panel `i`, in the source's order. */
  method CheckPanel(m: Manifest, i: nat, panelIds: map<string, nat>) returns (fault: Option<Code>)
    requires i < |m.panels|
    requires forall id :: (if id in panelIds then panelIds[id] else 0) == CountId(m.panels, id)
    ensures fault == PanelFault(m, m.panels[i])
  {
    var panel := m.panels[i];
    if m.protocol == None || m.protocol.value.major == 0 || FEATURE_DOCUMENT_PATHS !in m.protocol.value.required {
      return Some(BDP2060);
    }
    if !IdSegment(panel.id) {
      return Some(BDP2061);
    }
    if panel.id != TrimSpace(panel.id) || (if panel.id in panelIds then panelIds[panel.id] else 0) != 1 || TrimSpace(panel.url) == "" {
      return Some(BDP2062);
    }
    return None;
  }

  method WalkAll(c: Collector, m: Manifest, panelIds: map<string, nat>)
    requires forall id :: (if id in panelIds then panelIds[id] else 0) == CountId(m.panels, id)
    modifies c
    ensures c.list == old(c.list) + WalkPanels(m, m.panels, |m.panels|).findings
  {
    var claimed: seq<string> := [];
    for i := 0 to |m.panels|
      invariant c.list == old(c.list) + WalkPanels(m, m.panels, i).findings
      invariant claimed == WalkPanels(m, m.panels, i).claimed && !WalkPanels(m, m.panels, i).stopped
    {
      if |m.panels[i].documentPaths| == 0 {
        continue;
      }
      var fault := CheckPanel(m, i, panelIds);
      var stop: bool;
      claimed, stop := WalkPanel(c, old(c.list), WalkPanels(m, m.panels, i), i, fault, m.panels[i].documentPaths, claimed);
      if stop {
        StoppedStays(m, m.panels, i + 1, |m.panels|);
        return;
      }
    }
  }

  /** validateDocumentPaths. */
  method ValidateDocumentPaths(c: Collector, m: Manifest)
    modifies c
    ensures c.list == old(c.list) + DocumentFindings(m)
  {
    var panelIds := CountIds(m.panels);
    WalkAll(c, m, panelIds);
  }

  lemma {:induction false} StoppedStays(m: Manifest, panels: seq<Panel>, i: nat, n: nat)
    requires i <= n <= |panels| && WalkPanels(m, panels, i).stopped
    ensures WalkPanels(m, panels, n) == WalkPanels(m, panels, i)
  {
    if i < n {
      StoppedStays(m, panels, i, n - 1);
    }
  }

  // ----- what it means that nothing is reported

  /** Every document path of the first `n` panels, in order. */
  function AllPaths(panels: seq<Panel>, n: nat): seq<string>
    requires n <= |panels|
  {
    if n == 0 then [] else AllPaths(panels, n - 1) + panels[n - 1].documentPaths
  }

  predicate Disjoint(paths: seq<string>) {
    forall a, b :: 0 <= a < b < |paths| ==> !PathsOverlap(paths[a], paths[b])
  }

  predicate AllValid(paths: seq<string>) {
    forall a :: 0 <= a < |paths| ==> IsDocumentPath(paths[a])
  }

  predicate Claimable(m: Manifest, panel: Panel) {
    panel.documentPaths == [] || PanelFault(m, panel) == None
  }

  /** The first `n` panels claim only what they may. */
  predicate AllClaimable(m: Manifest, panels: seq<Panel>, n: nat)
    requires n <= |panels|
  {
    n == 0 || (AllClaimable(m, panels, n - 1) && Claimable(m, panels[n - 1]))
  }

  predicate RoutesAccepted(m: Manifest, panels: seq<Panel>, n: nat)
    requires n <= |panels|
  {
    AllClaimable(m, panels, n) && AllValid(AllPaths(panels, n)) && Disjoint(AllPaths(panels, n))
  }

  lemma {:induction false} AllClaimableAt(m: Manifest, panels: seq<Panel>, n: nat)
    requires n <= |panels|
    ensures AllClaimable(m, panels, n) <==> forall i :: 0 <= i < n ==> Claimable(m, panels[i])
  {
    if n > 0 {
      AllClaimableAt(m, panels, n - 1);
    }
  }

  lemma {:induction false} OverlapFindingsMeaning(i: int, claimed: seq<string>, pattern: string)
    ensures OverlapFindings(i, claimed, pattern) == [] <==> forall a :: 0 <= a < |claimed| ==> !PathsOverlap(claimed[a], pattern)
  {
    if claimed != [] {
      OverlapFindingsMeaning(i, claimed[..|claimed| - 1], pattern);
    }
  }

  lemma DisjointSnoc(here: seq<string>, p: string)
    ensures Disjoint(here + [p]) <==> Disjoint(here) && forall a :: 0 <= a < |here| ==> !PathsOverlap(here[a], p)
  {
    var next := here + [p];
    assert forall a :: 0 <= a < |here| ==> next[a] == here[a];
    assert next[|here|] == p;
  }

  lemma {:induction false} ClaimAllValid(claimed: seq<string>, paths: seq<string>)
    requires AllValid(paths)
    ensures ClaimAll(claimed, paths) == claimed + paths
    decreases paths
  {
    if paths != [] {
      ClaimAllValid(claimed + [paths[0]], paths[1..]);
      assert claimed + [paths[0]] + paths[1..] == claimed + paths;
    }
  }

  lemma {:induction false} PathsFindingsMeaning(i: int, claimed: seq<string>, paths: seq<string>)
    requires Disjoint(claimed)
    ensures PathsFindings(i, claimed, paths) == [] <==> AllValid(paths) && Disjoint(claimed + paths)
    decreases paths
  {
    if paths == [] {
      assert claimed + paths == claimed;
    } else {
      var p, rest := paths[0], paths[1..];
      OverlapFindingsMeaning(i, claimed, p);
      assert paths == [p] + rest;
      ValidParts([p], rest);
      assert claimed + paths == claimed + [p] + rest;
      if PathFindings(i, claimed, p) == [] {
        DisjointSnoc(claimed, p);
        PathsFindingsMeaning(i, claimed + [p], rest);
      } else if IsDocumentPath(p) {
        DisjointStart(claimed + [p], rest);
        DisjointSnoc(claimed, p);
      }
    }
  }

  lemma DisjointStart(a: seq<string>, b: seq<string>)
    ensures Disjoint(a + b) ==> Disjoint(a)
  {
    assert forall i :: 0 <= i < |a| ==> (a + b)[i] == a[i];
  }

  lemma ValidParts(a: seq<string>, b: seq<string>)
    ensures AllValid(a + b) <==> AllValid(a) && AllValid(b)
  {
    assert forall i :: 0 <= i < |a| ==> (a + b)[i] == a[i];
    assert forall i :: 0 <= i < |b| ==> (a + b)[|a| + i] == b[i];
  }

  lemma AcceptStep(m: Manifest, panels: seq<Panel>, n: nat)
    requires n < |panels|
    ensures RoutesAccepted(m, panels, n + 1) <==>
            && RoutesAccepted(m, panels, n)
            && Claimable(m, panels[n])
            && AllValid(panels[n].documentPaths)
            && Disjoint(AllPaths(panels, n) + panels[n].documentPaths)
  {
    var all, paths := AllPaths(panels, n), panels[n].documentPaths;
    assert AllPaths(panels, n + 1) == all + paths;
    ValidParts(all, paths);
    DisjointStart(all, paths);
  }

  lemma StepMeaning(m: Manifest, panels: seq<Panel>, n: nat, w: Walk)
    requires n < |panels| && !w.stopped
    requires RoutesAccepted(m, panels, n) && w.findings == [] && w.claimed == AllPaths(panels, n)
    ensures Step(m, panels[n], n, w).findings == [] <==> RoutesAccepted(m, panels, n + 1)
    ensures RoutesAccepted(m, panels, n + 1) ==>
              Step(m, panels[n], n, w).claimed == AllPaths(panels, n + 1) && !Step(m, panels[n], n, w).stopped
  {
    var paths := panels[n].documentPaths;
    AcceptStep(m, panels, n);
    if paths == [] {
      assert w.claimed + paths == w.claimed;
    } else if PanelFault(m, panels[n]) == None {
      PathsFindingsMeaning(n, w.claimed, paths);
      if AllValid(paths) {
        ClaimAllValid(w.claimed, paths);
      }
    }
  }

  lemma StepKeeps(m: Manifest, panel: Panel, i: nat, w: Walk)
    ensures w.findings <= Step(m, panel, i, w).findings
  {
  }

  ghost predicate Faithful(m: Manifest, panels: seq<Panel>, n: nat, w: Walk)
    requires n <= |panels|
  {
    && (w.findings == [] <==> RoutesAccepted(m, panels, n))
    && (w.findings == [] ==> w.claimed == AllPaths(panels, n) && !w.stopped)
  }

  lemma FaithfulStep(m: Manifest, panels: seq<Panel>, n: nat, w: Walk)
    requires n < |panels| && Faithful(m, panels, n, w)
    ensures Faithful(m, panels, n + 1, Step(m, panels[n], n, w))
  {
    if w.findings == [] {
      StepMeaning(m, panels, n, w);
    } else {
      StepKeeps(m, panels[n], n, w);
      AcceptStep(m, panels, n);
    }
  }

  lemma {:induction false} WalkMeaning(m: Manifest, panels: seq<Panel>, n: nat)
    requires n <= |panels|
    ensures Faithful(m, panels, n, WalkPanels(m, panels, n))
  {
    if n > 0 {
      var k := n - 1;
      var w := WalkPanels(m, panels, k);
      WalkMeaning(m, panels, k);
      FaithfulStep(m, panels, k, w);
      assert k + 1 == n && WalkPanels(m, panels, n) == Step(m, panels[k], k, w);
    }
  }

  /** Every panel with document paths may claim them, and the claimed patterns are valid and
      pairwise without overlap. */
  predicate GoodRoutes(m: Manifest) {
    var all := AllPaths(m.panels, |m.panels|);
    && (forall i :: 0 <= i < |m.panels| && m.panels[i].documentPaths != [] ==> PanelFault(m, m.panels[i]) == None)
    && (forall a :: 0 <= a < |all| ==> IsDocumentPath(all[a]))
    && (forall a, b :: 0 <= a < b < |all| ==> !PathsOverlap(all[a], all[b]))
  }

  lemma GoodRoutesMeaning(m: Manifest)
    ensures RoutesAccepted(m, m.panels, |m.panels|) <==> GoodRoutes(m)
  {
    AllClaimableAt(m, m.panels, |m.panels|);
  }

  /** Nothing is reported exactly for good routes. */
  lemma NothingReportedMeaning(m: Manifest)
    ensures DocumentFindings(m) == [] <==> GoodRoutes(m)
  {
    WalkMeaning(m, m.panels, |m.panels|);
    GoodRoutesMeaning(m);
  }

  lemma {:induction false} PathPosition(panels: seq<Panel>, n: nat, i: nat, j: nat)
    requires i < n <= |panels| && j < |panels[i].documentPaths|
    ensures |AllPaths(panels, i)| + j < |AllPaths(panels, i + 1)| <= |AllPaths(panels, n)|
    ensures AllPaths(panels, n)[|AllPaths(panels, i)| + j] == panels[i].documentPaths[j]
  {
    if i + 1 < n {
      PathPosition(panels, n - 1, i, j);
    }
  }

  lemma {:induction false} PositionsGrow(panels: seq<Panel>, i: nat, k: nat)
    requires i <= k <= |panels|
    ensures |AllPaths(panels, i)| <= |AllPaths(panels, k)|
  {
    if i < k {
      PositionsGrow(panels, i, k - 1);
    }
  }

  lemma PositionsDiffer(panels: seq<Panel>, i: nat, j: nat, k: nat, l: nat)
    requires i < |panels| && j < |panels[i].documentPaths|
    requires k < |panels| && l < |panels[k].documentPaths|
    ensures |AllPaths(panels, i)| + j == |AllPaths(panels, k)| + l ==> i == k && j == l
  {
    assert |AllPaths(panels, i + 1)| == |AllPaths(panels, i)| + |panels[i].documentPaths|;
    assert |AllPaths(panels, k + 1)| == |AllPaths(panels, k)| + |panels[k].documentPaths|;
    if i < k {
      PositionsGrow(panels, i + 1, k);
    } else if k < i {
      PositionsGrow(panels, k + 1, i);
    }
  }

  /** Patterns that share a pathname overlap, in both orders. */
  lemma SharedPathOverlaps(a: string, b: string, path: string)
    requires MatchesPath(a, path) && MatchesPath(b, path)
    ensures PathsOverlap(a, b) && PathsOverlap(b, a)
  {
    DocumentOverlapExact(a, b);
    DocumentOverlapSymmetric(a, b);
  }

  lemma AcceptedUnique(m: Manifest, panels: seq<Panel>, i: nat, j: nat, k: nat, l: nat)
    requires RoutesAccepted(m, panels, |panels|)
    requires i < |panels| && j < |panels[i].documentPaths|
    requires k < |panels| && l < |panels[k].documentPaths|
    requires PathsOverlap(panels[i].documentPaths[j], panels[k].documentPaths[l])
    requires PathsOverlap(panels[k].documentPaths[l], panels[i].documentPaths[j])
    ensures i == k && j == l
  {
    PathPosition(panels, |panels|, i, j);
    PathPosition(panels, |panels|, k, l);
    PositionsDiffer(panels, i, j, k, l);
  }

  /** In a manifest nothing is reported about, a pathname is matched by at most one declared
      pattern, so it has at most one owner among the panels. */
  lemma RoutingUnambiguous(m: Manifest, path: string, i: nat, j: nat, k: nat, l: nat)
    requires DocumentFindings(m) == []
    requires i < |m.panels| && j < |m.panels[i].documentPaths| && MatchesPath(m.panels[i].documentPaths[j], path)
    requires k < |m.panels| && l < |m.panels[k].documentPaths| && MatchesPath(m.panels[k].documentPaths[l], path)
    ensures i == k && j == l
  {
    NothingReportedMeaning(m);
    GoodRoutesMeaning(m);
    SharedPathOverlaps(m.panels[i].documentPaths[j], m.panels[k].documentPaths[l], path);
    AcceptedUnique(m, m.panels, i, j, k, l);
  }
}
