/** validateServes (v2/plugin/validate.go): a plugin's exported endpoints lie in its own
    trees, in the validator's spelling of that and in the bus grammar's. */
module ServiceDeclarations {
  import opened Strings
  import opened Subjects
  import opened BusGrants
  import opened Diagnostics
  import opened Permissions
  import opened PermissionLaws
  import R = Registrar

  datatype EndpointDecl = EndpointDecl(name: string, subject: string)

  datatype ServiceDecl = ServiceDecl(name: string, endpoints: seq<EndpointDecl>)

  // ----- the findings

  function Prefixes(id: string): seq<string> {
    ["svc." + id + ".", "cmd." + id + "."]
  }

  predicate HasSomePrefix(subject: string, prefixes: seq<string>) {
    exists k :: 0 <= k < |prefixes| && HasPrefix(subject, prefixes[k])
  }

  function SubjectFindings(prefixes: seq<string>, si: int, subject: string): seq<Finding> {
    if FirstFault(subject, false).Some? then [Finding(BDP2111, Serves, si, subject)]
    else
      var reserved := ReservedFinding(Tokens(subject), 0, Serves, si);
      if reserved != [] then reserved else One(!HasSomePrefix(subject, prefixes), BDP2124, Serves, si, subject)
  }

  /** One endpoint under its trimmed name. */
  function EndpointFindings(prefixes: seq<string>, si: int, seen: set<string>, name: string, subject: string): seq<Finding> {
    if name == "" then [Finding(BDP2122, Serves, si, "")]
    else One(name in seen, BDP2123, Serves, si, name) + SubjectFindings(prefixes, si, subject)
  }

  /** A blank name is not remembered. */
  function Seen(seen: set<string>, name: string): set<string> {
    if name == "" then seen else seen + {name}
  }

  function EndpointsFindings(prefixes: seq<string>, si: int, seen: set<string>, eps: seq<EndpointDecl>): seq<Finding>
    decreases eps
  {
    if eps == [] then []
    else
      var name := TrimSpace(eps[0].name);
      EndpointFindings(prefixes, si, seen, name, eps[0].subject) + EndpointsFindings(prefixes, si, Seen(seen, name), eps[1..])
  }

  function ServiceFindings(prefixes: seq<string>, si: int, seen: set<string>, name: string, eps: seq<EndpointDecl>): seq<Finding> {
    if name == "" then [Finding(BDP2120, Serves, si, "")]
    else One(name in seen, BDP2121, Serves, si, name) + EndpointsFindings(prefixes, si, {}, eps)
  }

  function ServicesFindings(prefixes: seq<string>, si: int, seen: set<string>, services: seq<ServiceDecl>): seq<Finding>
    decreases services
  {
    if services == [] then []
    else
      var name := TrimSpace(services[0].name);
      ServiceFindings(prefixes, si, seen, name, services[0].endpoints) + ServicesFindings(prefixes, si + 1, Seen(seen, name), services[1..])
  }

  function ServesFindings(id: string, services: seq<ServiceDecl>): seq<Finding> {
    ServicesFindings(Prefixes(TrimSpace(id)), 0, {}, services)
  }

  // ----- the rule, as the source runs it

  method ReportSubject(c: Collector, prefixes: seq<string>, si: int, subject: string)
    modifies c
    ensures c.list == old(c.list) + SubjectFindings(prefixes, si, subject)
  {
    var fault := Parse(subject, false);
    if fault.Some? {
      c.Add(BDP2111, Serves, si, subject);
      return;
    }
    var refused := RefuseReservedTokens(c, Serves, si, subject);
    if refused {
      return;
    }
    var inOwn := false;
    for k := 0 to |prefixes|
      invariant !inOwn && forall j :: 0 <= j < k ==> !HasPrefix(subject, prefixes[j])
    {
      if HasPrefix(subject, prefixes[k]) {
        inOwn := true;
        break;
      }
    }
    if !inOwn {
      c.Add(BDP2124, Serves, si, subject);
    }
  }

  method ReportEndpoint(c: Collector, prefixes: seq<string>, si: int, seen: set<string>, name: string, subject: string)
      returns (more: set<string>)
    modifies c
    ensures c.list == old(c.list) + EndpointFindings(prefixes, si, seen, name, subject)
    ensures more == Seen(seen, name)
  {
    if name == "" {
      c.Add(BDP2122, Serves, si, "");
      return seen;
    }
    if name in seen {
      c.Add(BDP2123, Serves, si, name);
    }
    more := seen + {name};
    AppendTwo(old(c.list), One(name in seen, BDP2123, Serves, si, name), SubjectFindings(prefixes, si, subject));
    ReportSubject(c, prefixes, si, subject);
  }

  lemma AppendTwo(s: seq<Finding>, a: seq<Finding>, b: seq<Finding>)
    ensures s + a + b == s + (a + b)
  {
  }

  method ReportEndpoints(c: Collector, prefixes: seq<string>, si: int, eps: seq<EndpointDecl>)
    modifies c
    ensures c.list == old(c.list) + EndpointsFindings(prefixes, si, {}, eps)
  {
    var seen: set<string> := {};
    for k := 0 to |eps|
      invariant c.list + EndpointsFindings(prefixes, si, seen, eps[k..]) == old(c.list) + EndpointsFindings(prefixes, si, {}, eps)
    {
      var name := TrimSpace(eps[k].name);
      assert eps[k..][1..] == eps[k + 1..];
      AppendTwo(c.list, EndpointFindings(prefixes, si, seen, name, eps[k].subject),
                EndpointsFindings(prefixes, si, Seen(seen, name), eps[k + 1..]));
      seen := ReportEndpoint(c, prefixes, si, seen, name, eps[k].subject);
    }
  }

  method ReportService(c: Collector, prefixes: seq<string>, si: int, seen: set<string>, name: string, eps: seq<EndpointDecl>)
      returns (more: set<string>)
    modifies c
    ensures c.list == old(c.list) + ServiceFindings(prefixes, si, seen, name, eps)
    ensures more == Seen(seen, name)
  {
    if name == "" {
      c.Add(BDP2120, Serves, si, "");
      return seen;
    }
    if name in seen {
      c.Add(BDP2121, Serves, si, name);
    }
    more := seen + {name};
    ghost var repeated := One(name in seen, BDP2121, Serves, si, name);
    assert c.list == old(c.list) + repeated;
    ReportEndpoints(c, prefixes, si, eps);
    AppendTwo(old(c.list), repeated, EndpointsFindings(prefixes, si, {}, eps));
  }

  method ReportServices(c: Collector, prefixes: seq<string>, services: seq<ServiceDecl>)
    modifies c
    ensures c.list == old(c.list) + ServicesFindings(prefixes, 0, {}, services)
  {
    var seen: set<string> := {};
    for si := 0 to |services|
      invariant c.list + ServicesFindings(prefixes, si, seen, services[si..]) == old(c.list) + ServicesFindings(prefixes, 0, {}, services)
    {
      var name := TrimSpace(services[si].name);
      assert services[si..][1..] == services[si + 1..];
      AppendTwo(c.list, ServiceFindings(prefixes, si, seen, name, services[si].endpoints),
                ServicesFindings(prefixes, si + 1, Seen(seen, name), services[si + 1..]));
      seen := ReportService(c, prefixes, si, seen, name, services[si].endpoints);
    }
  }

  /** validateServes, but for the extension points endpoints register into. */
  method ValidateServes(c: Collector, id: string, services: seq<ServiceDecl>)
    modifies c
    ensures c.list == old(c.list) + ServesFindings(id, services)
  {
    var trimmed := TrimSpace(id);
    ReportServices(c, ["svc." + trimmed + ".", "cmd." + trimmed + "."], services);
  }

  // ----- the prefix test is pattern containment

  predicate NoWildcards(toks: seq<string>) {
    forall i :: 0 <= i < |toks| ==> toks[i] != STAR && toks[i] != TAIL
  }

  /** Literal tokens and a final ">" cover exactly the lists that strictly extend them. */
  lemma {:induction false} LiteralCovers(p: seq<string>, q: seq<string>)
    requires NoWildcards(p)
    ensures CoversTokens(p + [TAIL], q) <==> |p| < |q| && p == q[..|p|]
  {
    if p != [] {
      assert (p + [TAIL])[1..] == p[1..] + [TAIL];
      if q != [] {
        LiteralCovers(p[1..], q[1..]);
        assert p == [p[0]] + p[1..];
        assert |p| <= |q| ==> q[..|p|] == [q[0]] + q[1..][..|p| - 1];
      }
    }
  }

  /** A string starts with "P." exactly when its tokens strictly extend P's. */
  lemma PrefixIsTokens(p: string, s: string)
    ensures HasPrefix(s, p + ".") <==> |Tokens(p)| < |Tokens(s)| && Tokens(p) == Tokens(s)[..|Tokens(p)|]
  {
    var n := |Tokens(p)|;
    if HasPrefix(s, p + ".") {
      var rest := s[|p| + 1..];
      assert s == p + ['.'] + rest;
      SplitConcat(p, '.', rest);
    }
    if n < |Tokens(s)| && Tokens(p) == Tokens(s)[..n] {
      assert Tokens(s) == Tokens(p) + Tokens(s)[n..];
      JoinConcat(Tokens(p), Tokens(s)[n..], '.');
      JoinSplit(s, '.');
      JoinSplit(p, '.');
      assert s == p + ['.'] + Join(Tokens(s)[n..], '.');
    }
  }

  lemma OwnTreeTokens(tree: string, id: string)
    requires '.' !in tree && tree != STAR && tree != TAIL && NoWildcards(Tokens(id))
    ensures Tokens(tree + "." + id) == [tree] + Tokens(id) && NoWildcards(Tokens(tree + "." + id))
    ensures Tokens(tree + "." + id + ".>") == Tokens(tree + "." + id) + [TAIL]
  {
    SplitFree(tree, '.');
    SplitConcat(tree, '.', id);
    assert tree + "." + id == tree + ['.'] + id;
    SplitFree(">", '.');
    SplitConcat(tree + "." + id, '.', ">");
    assert tree + "." + id + ".>" == (tree + "." + id) + ['.'] + ">";
  }

  /** For an id without wildcard tokens, a subject has the tree's prefix exactly when the
      tree's implicit pattern covers it. */
  lemma PrefixIsCover(tree: string, id: string, subject: string)
    requires '.' !in tree && tree != STAR && tree != TAIL && NoWildcards(Tokens(id))
    ensures HasPrefix(subject, tree + "." + id + ".") <==> CoversTokens(Tokens(tree + "." + id + ".>"), Tokens(subject))
  {
    var p := tree + "." + id;
    OwnTreeTokens(tree, id);
    PrefixIsTokens(p, subject);
    LiteralCovers(Tokens(p), Tokens(subject));
    assert tree + "." + id + "." == p + ".";
  }

  lemma SomePrefixOfTwo(subject: string, a: string, b: string)
    ensures HasSomePrefix(subject, [a, b]) <==> HasPrefix(subject, a) || HasPrefix(subject, b)
  {
    assert [a, b][0] == a && [a, b][1] == b;
  }

  lemma CoveredBySomeOfTwo(subject: string, a: string, b: string)
    ensures R.CoveredBySome([a, b], subject) <==> CoversTokens(Tokens(a), Tokens(subject)) || CoversTokens(Tokens(b), Tokens(subject))
  {
    assert [a, b][0] == a && [a, b][1] == b;
  }

  /** The validator's prefix test and the implicit serve grant admit the same subjects. */
  lemma ContainmentAgrees(id: string, subject: string)
    requires id == TrimSpace(id) && id != "" && NoWildcards(Tokens(id))
    ensures HasSomePrefix(subject, Prefixes(id)) <==> R.CoveredBySome(OwnNamespace(id).serves, subject)
  {
    PrefixIsCover("svc", id, subject);
    PrefixIsCover("cmd", id, subject);
    SomePrefixOfTwo(subject, "svc" + "." + id + ".", "cmd" + "." + id + ".");
    CoveredBySomeOfTwo(subject, "cmd" + "." + id + ".>", "svc" + "." + id + ".>");
    assert "svc" + "." == "svc." && "cmd" + "." == "cmd.";
  }

  // ----- what it means that nothing is reported

  predicate GoodSubject(prefixes: seq<string>, subject: string) {
    IsSubject(subject) && Unreserved(Tokens(subject)) && HasSomePrefix(subject, prefixes)
  }

  lemma SubjectMeaning(prefixes: seq<string>, si: int, subject: string)
    ensures SubjectFindings(prefixes, si, subject) == [] <==> GoodSubject(prefixes, subject)
  {
    ParseMeaning(subject);
    ReservedMeaning(Tokens(subject), 0, Serves, si);
  }

  function EndpointNames(eps: seq<EndpointDecl>): (names: seq<string>)
    ensures |names| == |eps| && forall j :: 0 <= j < |eps| ==> names[j] == TrimSpace(eps[j].name)
  {
    seq(|eps|, j requires 0 <= j < |eps| => TrimSpace(eps[j].name))
  }

  function ServiceNames(services: seq<ServiceDecl>): (names: seq<string>)
    ensures |names| == |services| && forall i :: 0 <= i < |services| ==> names[i] == TrimSpace(services[i].name)
  {
    seq(|services|, i requires 0 <= i < |services| => TrimSpace(services[i].name))
  }

  predicate Named(names: seq<string>) {
    "" !in names && NoRepeats(names)
  }

  predicate GoodEndpoints(prefixes: seq<string>, eps: seq<EndpointDecl>) {
    Named(EndpointNames(eps)) && forall j :: 0 <= j < |eps| ==> GoodSubject(prefixes, eps[j].subject)
  }

  /** Every service and, within each service, every endpoint has a name of its own, and every
      subject lies in the plugin's trees. */
  predicate GoodServices(prefixes: seq<string>, services: seq<ServiceDecl>) {
    Named(ServiceNames(services)) && forall i :: 0 <= i < |services| ==> GoodEndpoints(prefixes, services[i].endpoints)
  }

  /** Names of their own, and none of those already seen. */
  predicate NewNames(seen: set<string>, names: seq<string>) {
    Named(names) && forall j :: 0 <= j < |names| ==> names[j] !in seen
  }

  lemma NewNamesCons(seen: set<string>, names: seq<string>)
    requires names != []
    ensures NewNames(seen, names) <==> names[0] != "" && names[0] !in seen && NewNames(seen + {names[0]}, names[1..])
  {
    var rest := names[1..];
    assert names == [names[0]] + rest;
    if names[0] != "" && names[0] !in seen && NewNames(seen + {names[0]}, rest) {
      forall i, j | 0 <= i < j < |names|
        ensures names[i] != names[j]
      {
        assert names[j] == rest[j - 1];
        assert i > 0 ==> names[i] == rest[i - 1];
      }
    }
  }

  lemma EmptyTwo(a: seq<Finding>, b: seq<Finding>)
    ensures a + b == [] <==> a == [] && b == []
  {
    assert |a + b| == |a| + |b|;
  }

  lemma {:induction false} EndpointsMeaning(prefixes: seq<string>, si: int, seen: set<string>, eps: seq<EndpointDecl>)
    ensures EndpointsFindings(prefixes, si, seen, eps) == [] <==> GoodEndpoints(prefixes, eps) && NewNames(seen, EndpointNames(eps))
    decreases eps
  {
    if eps != [] {
      var name, names := TrimSpace(eps[0].name), EndpointNames(eps);
      EndpointsMeaning(prefixes, si, Seen(seen, name), eps[1..]);
      SubjectMeaning(prefixes, si, eps[0].subject);
      NewNamesCons(seen, names);
      assert EndpointNames(eps[1..]) == names[1..];
      GoodEndpointsCons(prefixes, eps);
      EmptyTwo(EndpointFindings(prefixes, si, seen, name, eps[0].subject), EndpointsFindings(prefixes, si, Seen(seen, name), eps[1..]));
    }
  }

  lemma GoodEndpointsCons(prefixes: seq<string>, eps: seq<EndpointDecl>)
    requires eps != []
    ensures (forall j :: 0 <= j < |eps| ==> GoodSubject(prefixes, eps[j].subject)) <==>
            GoodSubject(prefixes, eps[0].subject) && forall j :: 0 <= j < |eps[1..]| ==> GoodSubject(prefixes, eps[1..][j].subject)
  {
    var rest := eps[1..];
    assert eps == [eps[0]] + rest;
  }

  lemma {:induction false} ServicesMeaningFrom(prefixes: seq<string>, si: int, seen: set<string>, services: seq<ServiceDecl>)
    ensures ServicesFindings(prefixes, si, seen, services) == [] <==> GoodServices(prefixes, services) && NewNames(seen, ServiceNames(services))
    decreases services
  {
    if services != [] {
      var name, names := TrimSpace(services[0].name), ServiceNames(services);
      ServicesMeaningFrom(prefixes, si + 1, Seen(seen, name), services[1..]);
      EndpointsMeaning(prefixes, si, {}, services[0].endpoints);
      NewNamesCons(seen, names);
      assert ServiceNames(services[1..]) == names[1..];
      assert services == [services[0]] + services[1..];
      EmptyTwo(ServiceFindings(prefixes, si, seen, name, services[0].endpoints),
               ServicesFindings(prefixes, si + 1, Seen(seen, name), services[1..]));
    }
  }

  /** Nothing is reported exactly for good services. */
  lemma ServicesMeaning(id: string, services: seq<ServiceDecl>)
    ensures ServesFindings(id, services) == [] <==> GoodServices(Prefixes(TrimSpace(id)), services)
  {
    ServicesMeaningFrom(Prefixes(TrimSpace(id)), 0, {}, services);
  }

  /** Every endpoint of a manifest nothing is reported about is a concrete subject that a
      registrar over the plugin's own serve patterns admits. */
  lemma AcceptedEndpointsMount(id: string, services: seq<ServiceDecl>, i: nat, j: nat)
    requires ServesFindings(id, services) == []
    requires TrimSpace(id) != "" && NoWildcards(Tokens(TrimSpace(id)))
    requires i < |services| && j < |services[i].endpoints|
    ensures IsSubject(services[i].endpoints[j].subject)
    ensures R.CoveredBySome(OwnNamespace(id).serves, services[i].endpoints[j].subject)
  {
    var prefixes, subject := Prefixes(TrimSpace(id)), services[i].endpoints[j].subject;
    ServicesMeaning(id, services);
    assert GoodSubject(prefixes, subject);
    TrimIdempotent(id);
    ContainmentAgrees(TrimSpace(id), subject);
    assert OwnNamespace(TrimSpace(id)) == OwnNamespace(id);
  }
}
