/** What the grants of a kind, and those over the own namespace, admit. */
module NamespaceLaws {
  import opened Strings
  import opened Subjects
  import opened PatternLaws
  import opened BusGrants
  import opened ServiceDeclarations

  /** The pattern is granted for this kind of use. */
  predicate Granted(g: Grants, kind: string, p: string) {
    || (kind == "publish" && p in g.publish)
    || (kind == "subscribe" && p in g.subscribe)
    || (kind == "request" && p in g.request)
    || (kind == "serve" && p in g.serves)
  }

  lemma ListExactly(g: Grants, kind: string, p: string)
    ensures p in g.List(kind) <==> Granted(g, kind, p)
  {
  }

  /** A subject is admitted exactly when a pattern granted for the kind matches it. */
  lemma AdmitsExactly(g: Grants, kind: string, s: seq<string>)
    ensures g.Admits(kind, s) <==> exists p :: Granted(g, kind, p) && MatchesTokens(Tokens(p), s)
  {
    if k :| 0 <= k < |g.List(kind)| && MatchesTokens(Tokens(g.List(kind)[k]), s) {
      ListExactly(g, kind, g.List(kind)[k]);
    }
    if p :| Granted(g, kind, p) && MatchesTokens(Tokens(p), s) {
      ListExactly(g, kind, p);
      var k :| 0 <= k < |g.List(kind)| && g.List(kind)[k] == p;
    }
  }

  // ----- the own namespace

  /** The trees a plugin has below its id, by kind of use. */
  predicate OwnTree(kind: string, tree: string) {
    || (kind == "publish" && tree in ["event", "tick"])
    || (kind == "subscribe" && tree in ["tick", "_INBOX"])
    || (kind == "serve" && tree in ["cmd", "svc"])
  }

  lemma OwnGranted(id: string, kind: string, p: string)
    requires id == TrimSpace(id) && id != ""
    ensures Granted(OwnNamespace(id), kind, p) <==> exists tree :: OwnTree(kind, tree) && p == tree + ("." + id + ".>")
  {
    assert "event." + id + ".>" == "event" + ("." + id + ".>") && "tick." + id + ".>" == "tick" + ("." + id + ".>");
    assert "_INBOX." + id + ".>" == "_INBOX" + ("." + id + ".>");
    assert "cmd." + id + ".>" == "cmd" + ("." + id + ".>") && "svc." + id + ".>" == "svc" + ("." + id + ".>");
  }

  lemma TreeIsToken(kind: string, tree: string)
    requires OwnTree(kind, tree)
    ensures '.' !in tree && tree != STAR && tree != TAIL
  {
  }

  lemma OwnTreeMatches(kind: string, tree: string, id: string, s: string)
    requires OwnTree(kind, tree) && NoWildcards(Tokens(id)) && TAIL !in Tokens(s)
    ensures MatchesTokens(Tokens(tree + ("." + id + ".>")), Tokens(s)) <==> tree + "." + id + "." <= s
  {
    TreeIsToken(kind, tree);
    PrefixIsCover(tree, id, s);
    assert tree + ("." + id + ".>") == tree + "." + id + ".>";
    CoversIsMatches(Tokens(tree + "." + id + ".>"), Tokens(s));
  }

  /** For an id without wildcards, the own namespace admits exactly what lies below "<tree>.<id>."
      for a tree of the kind. */
  lemma OwnAdmits(id: string, kind: string, s: string)
    requires id == TrimSpace(id) && id != "" && NoWildcards(Tokens(id)) && TAIL !in Tokens(s)
    ensures OwnNamespace(id).Admits(kind, Tokens(s)) <==> exists tree :: OwnTree(kind, tree) && tree + "." + id + "." <= s
  {
    AdmitsExactly(OwnNamespace(id), kind, Tokens(s));
    forall tree | OwnTree(kind, tree)
      ensures MatchesTokens(Tokens(tree + ("." + id + ".>")), Tokens(s)) <==> tree + "." + id + "." <= s
    {
      OwnTreeMatches(kind, tree, id, s);
    }
    forall p
      ensures Granted(OwnNamespace(id), kind, p) <==> exists tree :: OwnTree(kind, tree) && p == tree + ("." + id + ".>")
    {
      OwnGranted(id, kind, p);
    }
  }
}
