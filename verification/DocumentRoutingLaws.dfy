/** What validateDocumentPaths asks of the declared panels, field by field. */
module DocumentRoutingLaws {
  import opened Strings
  import opened Diagnostics
  import opened DocumentPaths
  import opened DocumentPathLaws
  import opened DocumentRouting

  // ----- one panel

  /** No other panel carries the id of panel `i`. */
  predicate AloneWithId(m: Manifest, i: nat)
    requires i < |m.panels|
  {
    forall j :: 0 <= j < |m.panels| && j != i ==> m.panels[j].id != m.panels[i].id
  }

  lemma {:induction false} CountNone(panels: seq<Panel>, id: string)
    ensures CountId(panels, id) == 0 <==> forall j :: 0 <= j < |panels| ==> panels[j].id != id
  {
    if panels != [] {
      CountNone(panels[..|panels| - 1], id);
    }
  }

  /** An id is counted once exactly when one panel carries it and no other does. */
  lemma {:induction false} CountedOnce(panels: seq<Panel>, i: nat)
    requires i < |panels|
    ensures CountId(panels, panels[i].id) == 1 <==> forall j :: 0 <= j < |panels| && j != i ==> panels[j].id != panels[i].id
  {
    var n := |panels| - 1;
    CountNone(panels[..n], panels[i].id);
    if i < n {
      CountedOnce(panels[..n], i);
    }
  }

  /** ".." stands somewhere in the text. */
  ghost predicate Climbs(s: string) {
    exists a, b :: s == a + ".." + b
  }

  lemma ClimbsExactly(s: string)
    ensures HasDotDot(s) <==> Climbs(s)
  {
    if i :| 0 <= i < |s| - 1 && s[i] == '.' && s[i + 1] == '.' {
      assert s == s[..i] + ".." + s[i + 2..];
    }
    if a, b :| s == a + ".." + b {
      assert s[|a|] == '.' && s[|a| + 1] == '.';
    }
  }

  /** One segment of a path: something without separators, blanks and "..". */
  ghost predicate Segmental(s: string) {
    s != "" && '/' !in s && '\\' !in s && ' ' !in s && !Climbs(s)
  }

  ghost predicate Negotiates(m: Manifest) {
    exists p :: m.protocol == Some(p) && p.major != 0 && "ui.document-paths.v1" in p.required
  }

  /** Panel `i` may claim document paths. */
  ghost predicate MayClaim(m: Manifest, i: nat)
    requires i < |m.panels|
  {
    && Negotiates(m)
    && m.panels[i].id == TrimSpace(m.panels[i].id) && Segmental(m.panels[i].id) && AloneWithId(m, i)
    && TrimSpace(m.panels[i].url) != ""
  }

  /** The refusals of a panel, each with its own reason, and none exactly when it may claim. */
  lemma FaultExactly(m: Manifest, i: nat)
    requires i < |m.panels|
    ensures PanelFault(m, m.panels[i]) == None <==> MayClaim(m, i)
    ensures PanelFault(m, m.panels[i]) == Some(BDP2060) <==> !Negotiates(m)
    ensures PanelFault(m, m.panels[i]) == Some(BDP2061) <==> Negotiates(m) && !Segmental(TrimSpace(m.panels[i].id))
    ensures PanelFault(m, m.panels[i]) == Some(BDP2062) <==>
            Negotiates(m) && Segmental(TrimSpace(m.panels[i].id)) && !MayClaim(m, i)
  {
    CountedOnce(m.panels, i);
    ClimbsExactly(TrimSpace(m.panels[i].id));
  }

  // ----- all panels

  /** Panel `i` declares a document path `j`. */
  predicate Declares(m: Manifest, i: nat, j: nat) {
    i < |m.panels| && j < |m.panels[i].documentPaths|
  }

  function PathAt(m: Manifest, i: nat, j: nat): string
    requires Declares(m, i, j)
  {
    m.panels[i].documentPaths[j]
  }

  lemma {:induction false} FromPosition(panels: seq<Panel>, n: nat, a: nat) returns (i: nat, j: nat)
    requires n <= |panels| && a < |AllPaths(panels, n)|
    ensures i < n && j < |panels[i].documentPaths| && AllPaths(panels, n)[a] == panels[i].documentPaths[j]
    ensures a == |AllPaths(panels, i)| + j
  {
    var before := AllPaths(panels, n - 1);
    if a < |before| {
      i, j := FromPosition(panels, n - 1, a);
    } else {
      i, j := n - 1, a - |before|;
    }
  }

  /** Two declarations overlap when a pathname is matched by both. */
  ghost predicate Collide(a: string, b: string) {
    exists path :: MatchesPath(a, path) && MatchesPath(b, path)
  }

  /** Every declared pattern is one, its panel may claim it, and no pathname has two owners. */
  ghost predicate RoutesClearly(m: Manifest) {
    && (forall i, j :: Declares(m, i, j) ==> MayClaim(m, i) && IsDocumentPath(PathAt(m, i, j)))
    && forall i, j, k, l :: Declares(m, i, j) && Declares(m, k, l) && (i, j) != (k, l) ==> !Collide(PathAt(m, i, j), PathAt(m, k, l))
  }

  lemma Apart(m: Manifest, a: nat, b: nat)
    requires RoutesClearly(m) && a < b < |AllPaths(m.panels, |m.panels|)|
    ensures !PathsOverlap(AllPaths(m.panels, |m.panels|)[a], AllPaths(m.panels, |m.panels|)[b])
  {
    var i, j := FromPosition(m.panels, |m.panels|, a);
    var k, l := FromPosition(m.panels, |m.panels|, b);
    assert Declares(m, i, j) && Declares(m, k, l);
    assert (i, j) != (k, l);
    assert IsDocumentPath(PathAt(m, i, j)) && IsDocumentPath(PathAt(m, k, l));
    DocumentOverlapExact(PathAt(m, i, j), PathAt(m, k, l));
  }

  lemma ClearlyGood(m: Manifest)
    requires RoutesClearly(m)
    ensures GoodRoutes(m)
  {
    var all := AllPaths(m.panels, |m.panels|);
    forall i | 0 <= i < |m.panels| && m.panels[i].documentPaths != []
      ensures PanelFault(m, m.panels[i]) == None
    {
      assert Declares(m, i, 0);
      FaultExactly(m, i);
    }
    forall a | 0 <= a < |all|
      ensures IsDocumentPath(all[a])
    {
      var i, j := FromPosition(m.panels, |m.panels|, a);
      assert Declares(m, i, j);
      assert all[a] == PathAt(m, i, j);
    }
    forall a, b | 0 <= a < b < |all|
      ensures !PathsOverlap(all[a], all[b])
    {
      Apart(m, a, b);
    }
  }

  lemma GoodClearly(m: Manifest)
    requires GoodRoutes(m)
    ensures RoutesClearly(m)
  {
    forall i, j | Declares(m, i, j)
      ensures MayClaim(m, i) && IsDocumentPath(PathAt(m, i, j))
    {
      FaultExactly(m, i);
      PathPosition(m.panels, |m.panels|, i, j);
    }
    NothingReportedMeaning(m);
    forall i, j, k, l | Declares(m, i, j) && Declares(m, k, l) && (i, j) != (k, l)
      ensures !Collide(PathAt(m, i, j), PathAt(m, k, l))
    {
      if path :| MatchesPath(PathAt(m, i, j), path) && MatchesPath(PathAt(m, k, l), path) {
        RoutingUnambiguous(m, path, i, j, k, l);
      }
    }
  }

  /** Nothing is reported exactly when every declared pattern is one, its panel may claim it, and
      no pathname is matched by two declarations. */
  lemma NothingReportedExactly(m: Manifest)
    ensures DocumentFindings(m) == [] <==> RoutesClearly(m)
  {
    NothingReportedMeaning(m);
    if RoutesClearly(m) {
      ClearlyGood(m);
    }
    if GoodRoutes(m) {
      GoodClearly(m);
    }
  }
}
