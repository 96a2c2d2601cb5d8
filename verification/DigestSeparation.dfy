/** When the digest's preimage tells one consent from every other one, and which accepted
    manifests it cannot tell apart. */
module DigestSeparation {
  import opened Strings
  import opened StringLaws
  import opened Utf8Laws
  import opened GrantsDigest
  import opened GrantsDigestLaws
  import opened RecordSeparation
  import opened Diagnostics
  import Declarations = ServiceDeclarations

  /** Every service and every stream is told apart by its own record. */
  ghost predicate Apart(c: Consent) {
    && (forall i :: 0 <= i < |c.serves| ==> ServiceApart(c.serves[i]))
    && (forall i :: 0 <= i < |c.streams| ==> StreamApart(c.streams[i]))
  }

  lemma ApartServices(a: seq<Service>, b: seq<Service>)
    requires forall i :: 0 <= i < |a| ==> ServiceApart(a[i])
    requires multiset(Map(ServiceRecord, a)) == multiset(Map(ServiceRecord, b))
    ensures multiset(Map(ServiceOf, a)) == multiset(Map(ServiceOf, b))
  {
    forall i, j | 0 <= i < |a| && 0 <= j < |b| && ServiceRecord(a[i]) == ServiceRecord(b[j])
      ensures ServiceOf(a[i]) == ServiceOf(b[j])
    {
      ApartServiceUnique(a[i], b[j]);
    }
    MapTransfer(ServiceRecord, ServiceOf, a, b);
  }

  lemma ApartStreams(a: seq<Stream>, b: seq<Stream>)
    requires forall i :: 0 <= i < |a| ==> StreamApart(a[i])
    requires multiset(Map(StreamRecord, a)) == multiset(Map(StreamRecord, b))
    ensures multiset(Map(StreamOf, a)) == multiset(Map(StreamOf, b))
  {
    forall i, j | 0 <= i < |a| && 0 <= j < |b| && StreamRecord(a[i]) == StreamRecord(b[j])
      ensures StreamOf(a[i]) == StreamOf(b[j])
    {
      ApartStreamUnique(a[i], b[j]);
    }
    MapTransfer(StreamRecord, StreamOf, a, b);
  }

  lemma ApartIsTold(c: Consent, d: Consent)
    requires Apart(c) && Preimage(d) == Preimage(c)
    ensures SameConsent(c, d)
  {
    PreimageExact(c, d);
    PlainSections(c, d);
    var a, b := Sections(c), Sections(d);
    assert multiset(a[3].values) == multiset(b[3].values) && multiset(a[4].values) == multiset(b[4].values);
    assert multiset(a[5].values) == multiset(b[5].values) && multiset(a[6].values) == multiset(b[6].values);
    ApartServices(c.serves, d.serves);
    ApartStreams(c.streams, d.streams);
    BucketsInjective(c.kv, d.kv);
    StoresInjective(c.objects, d.objects);
  }

  /** Replacing one element by another of the same image, and of another content. */
  lemma ReplaceOne<T, U, V>(f: T -> U, g: T -> V, s: seq<T>, i: nat, t: T)
    requires i < |s| && f(t) == f(s[i]) && g(t) != g(s[i])
    ensures Map(f, s[i := t]) == Map(f, s)
    ensures multiset(Map(g, s[i := t])) != multiset(Map(g, s))
  {
    var gs := Map(g, s);
    assert Map(g, s[i := t]) == gs[i := g(t)];
    assert multiset(gs[i := g(t)]) == multiset(gs) - multiset{gs[i]} + multiset{g(t)};
    assert gs[i] in multiset(gs);
    assert multiset(gs[i := g(t)])[gs[i]] == multiset(gs)[gs[i]] - 1;
  }

  lemma ReplacedService(c: Consent, i: nat, t: Service) returns (d: Consent)
    requires i < |c.serves| && ServiceRecord(t) == ServiceRecord(c.serves[i]) && ServiceOf(t) != ServiceOf(c.serves[i])
    ensures d == c.(serves := c.serves[i := t])
    ensures Preimage(d) == Preimage(c) && !SameConsent(c, d)
  {
    d := c.(serves := c.serves[i := t]);
    ReplaceOne(ServiceRecord, ServiceOf, c.serves, i, t);
    assert Sections(d) == Sections(c);
  }

  lemma ReplacedStream(c: Consent, i: nat, t: Stream) returns (d: Consent)
    requires i < |c.streams| && StreamRecord(t) == StreamRecord(c.streams[i]) && StreamOf(t) != StreamOf(c.streams[i])
    ensures Preimage(d) == Preimage(c) && !SameConsent(c, d)
  {
    d := c.(streams := c.streams[i := t]);
    ReplaceOne(StreamRecord, StreamOf, c.streams, i, t);
    assert Sections(d) == Sections(c);
  }

  /** A consent that is not apart shares its preimage with a different one. */
  lemma NotApartIsShared(c: Consent) returns (d: Consent)
    requires !Apart(c)
    ensures Preimage(d) == Preimage(c) && !SameConsent(c, d)
  {
    if i :| 0 <= i < |c.serves| && !ServiceApart(c.serves[i]) {
      var t := ServiceShared(c.serves[i]);
      d := ReplacedService(c, i, t);
    } else {
      var i :| 0 <= i < |c.streams| && !StreamApart(c.streams[i]);
      var t := StreamShared(c.streams[i]);
      d := ReplacedStream(c, i, t);
    }
  }

  /** The digest's promise for one consent: no other consent has its preimage exactly when
      all its services and streams are apart. */
  lemma ToldFromEveryOther(c: Consent)
    ensures Apart(c) <==> forall d :: Preimage(d) == Preimage(c) ==> SameConsent(c, d)
  {
    if Apart(c) {
      forall d | Preimage(d) == Preimage(c)
        ensures SameConsent(c, d)
      {
        ApartIsTold(c, d);
      }
    } else {
      var d := NotApartIsShared(c);
      assert Preimage(d) == Preimage(c) && !SameConsent(c, d);
    }
  }

  // ----- accepted manifests with one digest

  function DeclaredEndpoint(e: Endpoint): Declarations.EndpointDecl {
    Declarations.EndpointDecl(e.name, e.subject)
  }

  /** A service as the validator sees it. */
  function Declared(s: Service): Declarations.ServiceDecl {
    Declarations.ServiceDecl(s.name, Map(DeclaredEndpoint, s.endpoints))
  }

  lemma SpaceHasNoSeparator(cp: int)
    requires Space(cp)
    ensures RECORD !in Encoding(cp)
  {
  }

  lemma {:induction false} SpacesHaveNoSeparator(cps: seq<int>)
    requires forall cp <- cps :: Scalar(cp) && Space(cp)
    ensures RECORD !in EncodingOf(cps)
  {
    if cps != [] {
      SpaceHasNoSeparator(cps[0]);
      SpacesHaveNoSeparator(cps[1..]);
    }
  }

  lemma SeparatorIsNoBlank(s: string)
    requires RECORD in s
    ensures TrimSpace(s) != ""
  {
    var front, back := TrimExactly(s);
    var a: seq<int> :| (forall cp <- a :: Scalar(cp) && Space(cp)) && EncodingOf(a) == front;
    var b: seq<int> :| (forall cp <- b :: Scalar(cp) && Space(cp)) && EncodingOf(b) == back;
    SpacesHaveNoSeparator(a);
    SpacesHaveNoSeparator(b);
  }

  lemma GoodOne(prefixes: seq<string>, e: Endpoint)
    requires TrimSpace(e.name) != "" && Declarations.GoodSubject(prefixes, e.subject)
    ensures Declarations.GoodEndpoints(prefixes, Map(DeclaredEndpoint, [e]))
  {
  }

  lemma GoodReplaced(prefixes: seq<string>, services: seq<Service>, i: nat, t: Service)
    requires i < |services| && t.name == services[i].name
    requires Declarations.GoodServices(prefixes, Map(Declared, services))
    requires Declarations.GoodEndpoints(prefixes, Declared(t).endpoints)
    ensures Declarations.GoodServices(prefixes, Map(Declared, services[i := t]))
  {
    var before, after := Map(Declared, services), Map(Declared, services[i := t]);
    assert Declarations.ServiceNames(after) == Declarations.ServiceNames(before);
  }

  lemma GoodSubjectOf(prefixes: seq<string>, services: seq<Service>, i: nat, f: Endpoint)
    requires i < |services| && f in services[i].endpoints
    requires Declarations.GoodServices(prefixes, Map(Declared, services))
    ensures Declarations.GoodSubject(prefixes, f.subject)
  {
    var decls := Map(Declared, services);
    var j :| 0 <= j < |services[i].endpoints| && services[i].endpoints[j] == f;
    assert Declarations.GoodEndpoints(prefixes, decls[i].endpoints);
    assert decls[i].endpoints[j] == DeclaredEndpoint(f);
  }

  /** Whatever manifest the validator accepts with a service of several endpoints, it accepts
      another one with a single endpoint in that service and the same preimage: an approval of
      the one is an approval of the other. The endpoint's subject and point are those of one
      that was declared. */
  lemma AcceptedCollide(id: string, c: Consent, i: nat) returns (d: Consent, e: Endpoint, f: Endpoint)
    requires i < |c.serves| && |c.serves[i].endpoints| >= 2
    requires Declarations.ServesFindings(id, Map(Declared, c.serves)) == []
    ensures |d.serves| == |c.serves| && d == c.(serves := c.serves[i := d.serves[i]])
    ensures e in c.serves[i].endpoints && f in c.serves[i].endpoints
    ensures d.serves[i].endpoints == [Endpoint(e.point + [RECORD] + f.name, f.subject, f.point)]
    ensures Declarations.ServesFindings(id, Map(Declared, d.serves)) == []
    ensures Preimage(d) == Preimage(c) && !SameConsent(c, d)
  {
    var prefixes := Declarations.Prefixes(TrimSpace(id));
    var t;
    t, e, f := SeveralShared(c.serves[i]);
    d := ReplacedService(c, i, t);
    Declarations.ServicesMeaning(id, Map(Declared, c.serves));
    Declarations.ServicesMeaning(id, Map(Declared, d.serves));
    GoodSubjectOf(prefixes, c.serves, i, f);
    SeparatorIsNoBlank(e.point + [RECORD] + f.name);
    GoodOne(prefixes, t.endpoints[0]);
    GoodReplaced(prefixes, c.serves, i, t);
  }
}
