/** Exactly which findings validateDocumentPaths reports, path by path. */
module RouteFindings {
  import opened Strings
  import opened Diagnostics
  import opened DocumentPaths
  import opened DocumentPathLaws
  import opened DocumentRouting
  import opened DocumentRoutingLaws

  // ----- the paths of one panel

  /** `c` is claimed before path `j` is looked at: earlier, or by a valid path of this panel. */
  ghost predicate ClaimedBefore(claimed: seq<string>, paths: seq<string>, j: nat, c: string)
    requires j <= |paths|
  {
    c in claimed || exists l :: 0 <= l < j && paths[l] == c && IsDocumentPath(c)
  }

  lemma {:induction false} ClaimAllSnoc(claimed: seq<string>, paths: seq<string>, p: string)
    ensures ClaimAll(claimed, paths + [p]) == Claim(ClaimAll(claimed, paths), p)
    decreases paths
  {
    if paths == [] {
      assert [] + [p] == [p] && [p][1..] == [];
    } else {
      assert (paths + [p])[1..] == paths[1..] + [p];
      ClaimAllSnoc(Claim(claimed, paths[0]), paths[1..], p);
    }
  }

  lemma {:induction false} ClaimedExactly(claimed: seq<string>, paths: seq<string>, j: nat, c: string)
    requires j <= |paths|
    ensures c in ClaimAll(claimed, paths[..j]) <==> ClaimedBefore(claimed, paths, j, c)
  {
    if j > 0 {
      ClaimedExactly(claimed, paths, j - 1, c);
      assert paths[..j] == paths[..j - 1] + [paths[j - 1]];
      ClaimAllSnoc(claimed, paths[..j - 1], paths[j - 1]);
    }
  }

  lemma {:induction false} OverlapsExactly(i: int, claimed: seq<string>, p: string, f: Finding)
    ensures f in OverlapFindings(i, claimed, p) <==>
            f.code == BDP2064 && f.place == Panels && f.index == i && f.evidence in claimed && PathsOverlap(f.evidence, p)
  {
    if claimed != [] {
      var n := |claimed| - 1;
      OverlapsExactly(i, claimed[..n], p, f);
      assert claimed == claimed[..n] + [claimed[n]];
    }
  }

  /** Path `j` is reported so: as none at all, or with each claimed pattern it shares a pathname with. */
  ghost predicate PathAtReported(i: int, claimed: seq<string>, paths: seq<string>, j: nat, f: Finding)
    requires j < |paths|
  {
    && f.place == Panels && f.index == i
    && if !IsDocumentPath(paths[j]) then f.code == BDP2063 && f.evidence == paths[j]
       else f.code == BDP2064 && ClaimedBefore(claimed, paths, j, f.evidence) && Collide(f.evidence, paths[j])
  }

  lemma OverlapIsCollision(a: string, b: string)
    requires IsDocumentPath(a) && IsDocumentPath(b)
    ensures PathsOverlap(a, b) <==> Collide(a, b)
  {
    DocumentOverlapExact(a, b);
  }

  lemma PathExactly(i: int, claimed: seq<string>, paths: seq<string>, j: nat, f: Finding)
    requires j < |paths| && AllValid(claimed)
    ensures f in PathFindings(i, ClaimAll(claimed, paths[..j]), paths[j]) <==> PathAtReported(i, claimed, paths, j, f)
  {
    if IsDocumentPath(paths[j]) {
      OverlapsExactly(i, ClaimAll(claimed, paths[..j]), paths[j], f);
      ClaimedExactly(claimed, paths, j, f.evidence);
      if ClaimedBefore(claimed, paths, j, f.evidence) {
        OverlapIsCollision(f.evidence, paths[j]);
      }
    }
  }

  ghost predicate PathFrom(i: int, claimed: seq<string>, paths: seq<string>, n: nat, f: Finding) {
    exists j :: n <= j < |paths| && PathAtReported(i, claimed, paths, j, f)
  }

  lemma PathFromStep(i: int, claimed: seq<string>, paths: seq<string>, n: nat, f: Finding)
    requires n < |paths|
    ensures PathFrom(i, claimed, paths, n, f) <==> PathAtReported(i, claimed, paths, n, f) || PathFrom(i, claimed, paths, n + 1, f)
  {
  }

  lemma PathsStep(i: int, claimed: seq<string>, paths: seq<string>, n: nat, f: Finding)
    requires n < |paths|
    ensures f in PathsFindings(i, ClaimAll(claimed, paths[..n]), paths[n..]) <==>
            || f in PathFindings(i, ClaimAll(claimed, paths[..n]), paths[n])
            || f in PathsFindings(i, ClaimAll(claimed, paths[..n + 1]), paths[n + 1..])
  {
    var here := ClaimAll(claimed, paths[..n]);
    assert paths[n..][0] == paths[n] && paths[n..][1..] == paths[n + 1..];
    assert paths[..n + 1] == paths[..n] + [paths[n]];
    ClaimAllSnoc(claimed, paths[..n], paths[n]);
    InTwo(PathFindings(i, here, paths[n]), PathsFindings(i, Claim(here, paths[n]), paths[n + 1..]), f);
  }

  lemma {:induction false} PathsExactly(i: int, claimed: seq<string>, paths: seq<string>, n: nat, f: Finding)
    requires n <= |paths| && AllValid(claimed)
    ensures f in PathsFindings(i, ClaimAll(claimed, paths[..n]), paths[n..]) <==> PathFrom(i, claimed, paths, n, f)
    decreases |paths| - n
  {
    if n < |paths| {
      PathsExactly(i, claimed, paths, n + 1, f);
      PathExactly(i, claimed, paths, n, f);
      PathFromStep(i, claimed, paths, n, f);
      PathsStep(i, claimed, paths, n, f);
    }
  }

  lemma AllPathsExactly(i: int, claimed: seq<string>, paths: seq<string>, f: Finding)
    requires AllValid(claimed)
    ensures f in PathsFindings(i, claimed, paths) <==> PathFrom(i, claimed, paths, 0, f)
    ensures forall c :: c in ClaimAll(claimed, paths) <==> ClaimedBefore(claimed, paths, |paths|, c)
  {
    assert paths[..0] == [] && paths[0..] == paths && paths[..|paths|] == paths;
    PathsExactly(i, claimed, paths, 0, f);
    forall c
      ensures c in ClaimAll(claimed, paths) <==> ClaimedBefore(claimed, paths, |paths|, c)
    {
      ClaimedExactly(claimed, paths, |paths|, c);
    }
  }

  // ----- the panels

  /** `c` is a valid document path of one of the first `n` panels that may claim. */
  ghost predicate ClaimedByPanels(m: Manifest, n: nat, c: string)
    requires n <= |m.panels|
  {
    IsDocumentPath(c) && exists k :: 0 <= k < n && MayClaim(m, k) && c in m.panels[k].documentPaths
  }

  lemma PanelClaims(m: Manifest, n: nat, claimed: seq<string>, c: string)
    requires n < |m.panels| && PanelFault(m, m.panels[n]) == None
    requires c in claimed <==> ClaimedByPanels(m, n, c)
    requires AllValid(claimed)
    ensures c in ClaimAll(claimed, m.panels[n].documentPaths) <==> ClaimedByPanels(m, n + 1, c)
  {
    var paths := m.panels[n].documentPaths;
    FaultExactly(m, n);
    AllPathsExactly(n, claimed, paths, Finding(BDP2063, Panels, n, ""));
    assert ClaimedBefore(claimed, paths, |paths|, c) <==> c in claimed || (c in paths && IsDocumentPath(c));
  }

  lemma ClaimsValid(m: Manifest, n: nat, claimed: seq<string>)
    requires n <= |m.panels| && forall c :: c in claimed <==> ClaimedByPanels(m, n, c)
    ensures AllValid(claimed)
  {
    forall a | 0 <= a < |claimed|
      ensures IsDocumentPath(claimed[a])
    {
      assert claimed[a] in claimed;
    }
  }

  lemma {:induction false} WalkClaims(m: Manifest, n: nat)
    requires n <= |m.panels| && Negotiates(m)
    ensures !WalkPanels(m, m.panels, n).stopped && AllValid(WalkPanels(m, m.panels, n).claimed)
    ensures forall c :: c in WalkPanels(m, m.panels, n).claimed <==> ClaimedByPanels(m, n, c)
  {
    if n > 0 {
      var k := n - 1;
      WalkClaims(m, k);
      var w := WalkPanels(m, m.panels, k);
      FaultExactly(m, k);
      forall c
        ensures c in WalkPanels(m, m.panels, n).claimed <==> ClaimedByPanels(m, n, c)
      {
        if PanelFault(m, m.panels[k]) == None {
          PanelClaims(m, k, w.claimed, c);
        }
      }
      ClaimsValid(m, n, WalkPanels(m, m.panels, n).claimed);
    }
  }

  /** Panel `i` is reported so: refused as a whole, or for one of its paths. */
  ghost predicate PanelReported(m: Manifest, i: nat, f: Finding)
    requires i < |m.panels|
  {
    && m.panels[i].documentPaths != []
    && match PanelFault(m, m.panels[i])
       case Some(code) => f == Finding(code, Panels, i, "")
       case None => exists j :: 0 <= j < |m.panels[i].documentPaths| && RouteReported(m, i, j, f)
  }

  /** Path `j` of panel `i` is reported so: as no document path, or with a valid path that a panel
      before it, or this panel before it, has claimed, and that some pathname shares with it. */
  ghost predicate RouteReported(m: Manifest, i: nat, j: nat, f: Finding)
    requires i < |m.panels| && j < |m.panels[i].documentPaths|
  {
    var paths := m.panels[i].documentPaths;
    && f.place == Panels && f.index == i
    && if !IsDocumentPath(paths[j]) then f.code == BDP2063 && f.evidence == paths[j]
       else
         && f.code == BDP2064 && Collide(f.evidence, paths[j]) && IsDocumentPath(f.evidence)
         && (f.evidence in paths[..j] || exists k :: 0 <= k < i && MayClaim(m, k) && f.evidence in m.panels[k].documentPaths)
  }

  lemma RouteExactly(m: Manifest, i: nat, j: nat, claimed: seq<string>, f: Finding)
    requires i < |m.panels| && j < |m.panels[i].documentPaths|
    requires f.evidence in claimed <==> ClaimedByPanels(m, i, f.evidence)
    ensures PathAtReported(i, claimed, m.panels[i].documentPaths, j, f) <==> RouteReported(m, i, j, f)
  {
    var paths := m.panels[i].documentPaths;
    assert f.evidence in paths[..j] <==> exists l :: 0 <= l < j && paths[l] == f.evidence;
  }

  lemma TurnExactly(m: Manifest, i: nat, f: Finding)
    requires i < |m.panels| && Negotiates(m)
    ensures var w := WalkPanels(m, m.panels, i);
            f in WalkPanels(m, m.panels, i + 1).findings <==> f in w.findings || PanelReported(m, i, f)
  {
    var w, paths := WalkPanels(m, m.panels, i), m.panels[i].documentPaths;
    WalkClaims(m, i);
    AllPathsExactly(i, w.claimed, paths, f);
    forall j | 0 <= j < |paths|
      ensures PathAtReported(i, w.claimed, paths, j, f) <==> RouteReported(m, i, j, f)
    {
      RouteExactly(m, i, j, w.claimed, f);
    }
    if PanelFault(m, m.panels[i]) == None {
      InTwo(w.findings, PathsFindings(i, w.claimed, paths), f);
    }
  }

  ghost function HeldSoFar(m: Manifest, f: Finding): (held: seq<bool>)
    ensures |held| == |m.panels| + 1
    ensures forall n :: 0 <= n <= |m.panels| ==> held[n] == (f in WalkPanels(m, m.panels, n).findings)
  {
    seq(|m.panels| + 1, n requires 0 <= n <= |m.panels| => f in WalkPanels(m, m.panels, n).findings)
  }

  ghost function ReportedEach(m: Manifest, f: Finding): (at: seq<bool>)
    ensures |at| == |m.panels| && forall i :: 0 <= i < |m.panels| ==> at[i] == PanelReported(m, i, f)
  {
    seq(|m.panels|, i requires 0 <= i < |m.panels| => PanelReported(m, i, f))
  }

  lemma EachExactly(m: Manifest, f: Finding)
    ensures var at := ReportedEach(m, f);
            (exists i :: 0 <= i < |at| && at[i]) <==> exists i :: 0 <= i < |m.panels| && PanelReported(m, i, f)
  {
    var at := ReportedEach(m, f);
    if i :| 0 <= i < |m.panels| && PanelReported(m, i, f) {
      assert at[i];
    }
  }

  /** Of a manifest that negotiates document paths, exactly these findings are reported. */
  lemma RoutesExactly(m: Manifest, f: Finding)
    requires Negotiates(m)
    ensures f in DocumentFindings(m) <==> exists i :: 0 <= i < |m.panels| && PanelReported(m, i, f)
  {
    var held, at := HeldSoFar(m, f), ReportedEach(m, f);
    forall i | 0 <= i < |at|
      ensures held[i + 1] <==> held[i] || at[i]
    {
      TurnExactly(m, i, f);
    }
    Accumulates(held, at);
    EachExactly(m, f);
  }

  /** Without the feature, the first panel that declares paths is reported, and nothing else. */
  lemma {:induction false} UnnegotiatedOnce(m: Manifest, n: nat, i: nat)
    requires i < n <= |m.panels| && !Negotiates(m)
    requires m.panels[i].documentPaths != [] && forall k :: 0 <= k < i ==> m.panels[k].documentPaths == []
    ensures WalkPanels(m, m.panels, n) == Walk([], [Finding(BDP2060, Panels, i, "")], true)
  {
    FaultExactly(m, i);
    if n == i + 1 {
      NoPathsYet(m, i);
    } else {
      UnnegotiatedOnce(m, n - 1, i);
    }
  }

  lemma {:induction false} NoPathsYet(m: Manifest, n: nat)
    requires n <= |m.panels| && forall k :: 0 <= k < n ==> m.panels[k].documentPaths == []
    ensures WalkPanels(m, m.panels, n) == Walk([], [], false)
  {
    if n > 0 {
      NoPathsYet(m, n - 1);
    }
  }

  lemma UnnegotiatedExactly(m: Manifest, i: nat)
    requires i < |m.panels| && !Negotiates(m)
    requires m.panels[i].documentPaths != [] && forall k :: 0 <= k < i ==> m.panels[k].documentPaths == []
    ensures DocumentFindings(m) == [Finding(BDP2060, Panels, i, "")]
  {
    UnnegotiatedOnce(m, |m.panels|, i);
  }
}
