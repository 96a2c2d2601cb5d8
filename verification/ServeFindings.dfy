/** Exactly which findings validateServes reports, service by service and endpoint by endpoint. */
module ServeFindings {
  import opened Strings
  import opened Subjects
  import opened Diagnostics
  import opened Permissions
  import opened PermissionLaws
  import opened PermissionFindings
  import opened ServiceDeclarations

  /** A subject is reported: it does not parse, it is reserved, or it lies outside the trees. */
  ghost predicate Astray(prefixes: seq<string>, subject: string, f: Finding) {
    if !IsSubject(subject) then f.code == BDP2111 && f.evidence == subject
    else
      var toks := Tokens(subject);
      || (f.code == BDP2112 && exists k :: 0 <= k < |toks| && toks[k] == f.evidence && ReservedAt(toks, k))
      || (f.code == BDP2113 && f.evidence == "bd" && Meshed(toks))
      || (f.code == BDP2124 && f.evidence == subject && Unreserved(toks) && !exists p <- prefixes :: p <= subject)
  }

  lemma PrefixExactly(subject: string, prefixes: seq<string>)
    ensures HasSomePrefix(subject, prefixes) <==> exists p <- prefixes :: p <= subject
  {
    if p :| p in prefixes && p <= subject {
      var k :| 0 <= k < |prefixes| && prefixes[k] == p;
      assert HasPrefix(subject, prefixes[k]);
    }
    if k :| 0 <= k < |prefixes| && HasPrefix(subject, prefixes[k]) {
      assert prefixes[k] in prefixes;
    }
  }

  lemma SubjectExactly(prefixes: seq<string>, si: int, subject: string, f: Finding)
    ensures f in ServiceDeclarations.SubjectFindings(prefixes, si, subject) <==> f.place == Serves && f.index == si && Astray(prefixes, subject, f)
  {
    ParseMeaning(subject);
    if IsSubject(subject) {
      var toks := Tokens(subject);
      ReservedExactly(toks, 0, Serves, si, f);
      ReservedMeaning(toks, 0, Serves, si);
      NoneReserved(toks);
      PrefixExactly(subject, prefixes);
    }
  }

  /** Name `k` is one of the earlier names. */
  predicate Again(names: seq<string>, k: nat)
    requires k < |names|
  {
    exists j :: 0 <= j < k && names[j] == names[k]
  }

  /** The names met before the k-th, but for blanks. */
  function SeenBefore(names: seq<string>, k: nat): (seen: set<string>)
    requires k <= |names|
  {
    if k == 0 then {} else Seen(SeenBefore(names, k - 1), names[k - 1])
  }

  lemma {:induction false} SeenExactly(names: seq<string>, k: nat, name: string)
    requires k <= |names|
    ensures name in SeenBefore(names, k) <==> name != "" && exists j :: 0 <= j < k && names[j] == name
  {
    if k > 0 {
      SeenExactly(names, k - 1, name);
    }
  }

  // ----- endpoints

  /** Endpoint `k` is reported so: nameless, under a name of an earlier one, or for its subject. */
  ghost predicate EndpointAt(prefixes: seq<string>, si: int, eps: seq<EndpointDecl>, k: nat, f: Finding)
    requires k < |eps|
  {
    var names := EndpointNames(eps);
    && f.place == Serves && f.index == si
    && if names[k] == "" then f.code == BDP2122 && f.evidence == ""
       else (f.code == BDP2123 && f.evidence == names[k] && Again(names, k)) || Astray(prefixes, eps[k].subject, f)
  }

  lemma EndpointExactly(prefixes: seq<string>, si: int, eps: seq<EndpointDecl>, k: nat, f: Finding)
    requires k < |eps|
    ensures f in EndpointFindings(prefixes, si, SeenBefore(EndpointNames(eps), k), EndpointNames(eps)[k], eps[k].subject)
            <==> EndpointAt(prefixes, si, eps, k, f)
  {
    var names := EndpointNames(eps);
    SeenExactly(names, k, names[k]);
    SubjectExactly(prefixes, si, eps[k].subject, f);
    InTwo(One(names[k] in SeenBefore(names, k), BDP2123, Serves, si, names[k]), ServiceDeclarations.SubjectFindings(prefixes, si, eps[k].subject), f);
  }

  ghost predicate EndpointFrom(prefixes: seq<string>, si: int, eps: seq<EndpointDecl>, n: nat, f: Finding) {
    exists k :: n <= k < |eps| && EndpointAt(prefixes, si, eps, k, f)
  }

  lemma EndpointFromStep(prefixes: seq<string>, si: int, eps: seq<EndpointDecl>, n: nat, f: Finding)
    requires n < |eps|
    ensures EndpointFrom(prefixes, si, eps, n, f) <==>
            EndpointAt(prefixes, si, eps, n, f) || EndpointFrom(prefixes, si, eps, n + 1, f)
  {
  }

  lemma {:induction false} EndpointsExactly(prefixes: seq<string>, si: int, eps: seq<EndpointDecl>, n: nat, f: Finding)
    requires n <= |eps|
    ensures f in EndpointsFindings(prefixes, si, SeenBefore(EndpointNames(eps), n), eps[n..]) <==> EndpointFrom(prefixes, si, eps, n, f)
    decreases |eps| - n
  {
    if n < |eps| {
      var names := EndpointNames(eps);
      var seen := SeenBefore(names, n);
      EndpointsExactly(prefixes, si, eps, n + 1, f);
      EndpointExactly(prefixes, si, eps, n, f);
      EndpointFromStep(prefixes, si, eps, n, f);
      assert eps[n..][0] == eps[n] && eps[n..][1..] == eps[n + 1..];
      assert SeenBefore(names, n + 1) == Seen(seen, names[n]);
      InTwo(EndpointFindings(prefixes, si, seen, names[n], eps[n].subject),
            EndpointsFindings(prefixes, si, SeenBefore(names, n + 1), eps[n + 1..]), f);
    }
  }

  // ----- services

  /** Service `i` is reported so: nameless, under a name of an earlier one, or for an endpoint. */
  ghost predicate ServiceAt(prefixes: seq<string>, services: seq<ServiceDecl>, i: nat, f: Finding)
    requires i < |services|
  {
    var names := ServiceNames(services);
    if names[i] == "" then f == Finding(BDP2120, Serves, i, "")
    else
      || (f == Finding(BDP2121, Serves, i, names[i]) && Again(names, i))
      || EndpointFrom(prefixes, i, services[i].endpoints, 0, f)
  }

  lemma ServiceExactly(prefixes: seq<string>, services: seq<ServiceDecl>, i: nat, f: Finding)
    requires i < |services|
    ensures f in ServiceFindings(prefixes, i, SeenBefore(ServiceNames(services), i), ServiceNames(services)[i], services[i].endpoints)
            <==> ServiceAt(prefixes, services, i, f)
  {
    var names, eps := ServiceNames(services), services[i].endpoints;
    SeenExactly(names, i, names[i]);
    EndpointsExactly(prefixes, i, eps, 0, f);
    assert eps[0..] == eps;
    InTwo(One(names[i] in SeenBefore(names, i), BDP2121, Serves, i, names[i]), EndpointsFindings(prefixes, i, {}, eps), f);
  }

  ghost predicate ServiceFrom(prefixes: seq<string>, services: seq<ServiceDecl>, n: nat, f: Finding) {
    exists i :: n <= i < |services| && ServiceAt(prefixes, services, i, f)
  }

  lemma ServiceFromStep(prefixes: seq<string>, services: seq<ServiceDecl>, n: nat, f: Finding)
    requires n < |services|
    ensures ServiceFrom(prefixes, services, n, f) <==> ServiceAt(prefixes, services, n, f) || ServiceFrom(prefixes, services, n + 1, f)
  {
  }

  lemma {:induction false} ServicesExactly(prefixes: seq<string>, services: seq<ServiceDecl>, n: nat, f: Finding)
    requires n <= |services|
    ensures f in ServicesFindings(prefixes, n, SeenBefore(ServiceNames(services), n), services[n..])
            <==> ServiceFrom(prefixes, services, n, f)
    decreases |services| - n
  {
    if n < |services| {
      var names := ServiceNames(services);
      var seen := SeenBefore(names, n);
      ServicesExactly(prefixes, services, n + 1, f);
      ServiceExactly(prefixes, services, n, f);
      ServiceFromStep(prefixes, services, n, f);
      assert services[n..][0] == services[n] && services[n..][1..] == services[n + 1..];
      assert SeenBefore(names, n + 1) == Seen(seen, names[n]);
      InTwo(ServiceFindings(prefixes, n, seen, names[n], services[n].endpoints),
            ServicesFindings(prefixes, n + 1, SeenBefore(names, n + 1), services[n + 1..]), f);
    }
  }

  /** A finding is reported exactly when it is one about some service, its trees being "svc.<id>."
      and "cmd.<id>." of the trimmed id. */
  lemma ServesExactly(id: string, services: seq<ServiceDecl>, f: Finding)
    ensures f in ServesFindings(id, services) <==>
            exists i :: 0 <= i < |services| && ServiceAt(["svc." + TrimSpace(id) + ".", "cmd." + TrimSpace(id) + "."], services, i, f)
  {
    ServicesExactly(Prefixes(TrimSpace(id)), services, 0, f);
    assert services[0..] == services;
    assert ServiceFrom(Prefixes(TrimSpace(id)), services, 0, f) <==>
           exists i :: 0 <= i < |services| && ServiceAt(Prefixes(TrimSpace(id)), services, i, f);
  }
}
