/** When two manifests have one preimage: order never matters, and for records without the
    separators nothing but order is forgotten. */
module GrantsDigestLaws {
  import opened Strings
  import opened Sorting
  import opened Netstrings
  import opened GrantsDigest

  // ----- sections

  /** One section can be read off a list of atoms in one way only. */
  lemma SectionUnique(s: Section, t: Section, x: seq<string>, y: seq<string>)
    requires SectionAtoms(s) + x == SectionAtoms(t) + y
    ensures s.title == t.title && Sort(s.values) == Sort(t.values) && x == y
  {
    var a, b := SectionAtoms(s) + x, SectionAtoms(t) + y;
    assert a[0] == s.title && b[0] == t.title;
    assert a[1] == Itoa(|s.values|) && b[1] == Itoa(|t.values|);
    ItoaInjective(|s.values|, |t.values|);
    var n := |s.values| + 2;
    assert Sort(s.values) == a[2..n] == b[2..n] == Sort(t.values);
    assert x == a[n..] == b[n..] == y;
  }

  ghost predicate SameValues(a: seq<Section>, b: seq<Section>) {
    |a| == |b| && forall i :: 0 <= i < |a| ==> a[i].title == b[i].title && multiset(a[i].values) == multiset(b[i].values)
  }

  lemma SameValuesCons(a: seq<Section>, b: seq<Section>)
    requires |a| == |b| && a != [] && a[0].title == b[0].title && multiset(a[0].values) == multiset(b[0].values)
    requires SameValues(a[1..], b[1..])
    ensures SameValues(a, b)
  {
    forall i | 0 <= i < |a|
      ensures a[i].title == b[i].title && multiset(a[i].values) == multiset(b[i].values)
    {
      if i > 0 {
        assert a[i] == a[1..][i - 1] && b[i] == b[1..][i - 1];
      }
    }
  }

  lemma {:induction false} SectionsUnique(a: seq<Section>, b: seq<Section>)
    requires |a| == |b| && SectionsAtoms(a) == SectionsAtoms(b)
    ensures SameValues(a, b)
  {
    if a != [] {
      var s, t := a[0], b[0];
      SectionUnique(s, t, SectionsAtoms(a[1..]), SectionsAtoms(b[1..]));
      assert multiset(s.values) == multiset(Sort(s.values)) == multiset(Sort(t.values)) == multiset(t.values);
      SectionsUnique(a[1..], b[1..]);
      SameValuesCons(a, b);
    }
  }

  lemma {:induction false} SameSectionsAtoms(a: seq<Section>, b: seq<Section>)
    requires SameValues(a, b)
    ensures SectionsAtoms(a) == SectionsAtoms(b)
  {
    if a != [] {
      assert |multiset(a[0].values)| == |multiset(b[0].values)|;
      SortForgets(a[0].values, b[0].values);
      forall i | 0 <= i < |a[1..]|
        ensures a[1..][i].title == b[1..][i].title && multiset(a[1..][i].values) == multiset(b[1..][i].values)
      {
        assert a[1..][i] == a[i + 1] && b[1..][i] == b[i + 1];
      }
      SameSectionsAtoms(a[1..], b[1..]);
    }
  }

  /** Without any condition: one preimage is one multiset of records, section by section. */
  lemma PreimageExact(c: Consent, d: Consent)
    ensures Preimage(c) == Preimage(d) <==> SameValues(Sections(c), Sections(d))
  {
    var a, b := SectionsAtoms(Sections(c)), SectionsAtoms(Sections(d));
    if Preimage(c) == Preimage(d) {
      EncodeInjective([ALGORITHM] + a, [ALGORITHM] + b, CLOSE);
      assert a == ([ALGORITHM] + a)[1..] == ([ALGORITHM] + b)[1..] == b;
      SectionsUnique(Sections(c), Sections(d));
    }
    if SameValues(Sections(c), Sections(d)) {
      SameSectionsAtoms(Sections(c), Sections(d));
    }
  }

  // ----- contents, with the order of every list forgotten

  datatype ServiceContent = ServiceContent(name: string, version: string, queueGroup: string, endpoints: multiset<Endpoint>)

  datatype StreamContent = StreamContent(name: string, maxBytes: int, maxAgeSeconds: int, maxMsgs: int, subjects: multiset<string>)

  function ServiceOf(s: Service): ServiceContent {
    ServiceContent(s.name, s.version, s.queueGroup, multiset(s.endpoints))
  }

  function StreamOf(s: Stream): StreamContent {
    StreamContent(s.name, s.maxBytes, s.maxAgeSeconds, s.maxMsgs, multiset(s.subjects))
  }

  /** The same consent up to the order of every list, nested ones included. */
  ghost predicate SameConsent(c: Consent, d: Consent) {
    && multiset(c.publish) == multiset(d.publish)
    && multiset(c.request) == multiset(d.request)
    && multiset(c.subscribe) == multiset(d.subscribe)
    && multiset(Map(ServiceOf, c.serves)) == multiset(Map(ServiceOf, d.serves))
    && multiset(Map(StreamOf, c.streams)) == multiset(Map(StreamOf, d.streams))
    && multiset(c.kv) == multiset(d.kv)
    && multiset(c.objects) == multiset(d.objects)
    && multiset(c.needs) == multiset(d.needs)
    && multiset(c.capabilities) == multiset(d.capabilities)
  }

  /** On the elements of two lists, f decides g. */
  ghost predicate Decides<T, U, V>(f: T -> U, g: T -> V, a: seq<T>, b: seq<T>) {
    forall i, j :: 0 <= i < |a| && 0 <= j < |b| && f(a[i]) == f(b[j]) ==> g(a[i]) == g(b[j])
  }

  lemma RemoveAt<T>(s: seq<T>, k: nat)
    requires k < |s|
    ensures multiset(s) == multiset(s[..k] + s[k + 1..]) + multiset{s[k]}
  {
    assert s == s[..k] + [s[k]] + s[k + 1..];
  }

  lemma MapRemove<T, U>(f: T -> U, s: seq<T>, k: nat)
    requires k < |s|
    ensures Map(f, s[..k] + s[k + 1..]) == Map(f, s)[..k] + Map(f, s)[k + 1..]
    ensures multiset(Map(f, s)) == multiset(Map(f, s[..k] + s[k + 1..])) + multiset{f(s[k])}
  {
    RemoveAt(Map(f, s), k);
  }

  lemma MapCons<T, U>(f: T -> U, s: seq<T>)
    requires s != []
    ensures multiset(Map(f, s)) == multiset(Map(f, s[1..])) + multiset{f(s[0])}
  {
    assert Map(f, s) == [f(s[0])] + Map(f, s[1..]);
  }

  lemma DecidesRest<T, U, V>(f: T -> U, g: T -> V, a: seq<T>, b: seq<T>, k: nat)
    requires Decides(f, g, a, b) && a != [] && k < |b|
    ensures Decides(f, g, a[1..], b[..k] + b[k + 1..])
  {
    var rest := b[..k] + b[k + 1..];
    forall i, j | 0 <= i < |a[1..]| && 0 <= j < |rest| && f(a[1..][i]) == f(rest[j])
      ensures g(a[1..][i]) == g(rest[j])
    {
      assert a[1..][i] == a[i + 1] && rest[j] == b[if j < k then j else j + 1];
    }
  }

  lemma ImageOf<T, U>(f: T -> U, b: seq<T>, u: U) returns (k: nat)
    requires u in multiset(Map(f, b))
    ensures k < |b| && f(b[k]) == u
  {
    var fb := Map(f, b);
    k :| 0 <= k < |fb| && fb[k] == u;
  }

  /** Equal multisets of f-images give equal multisets of g-images when f decides g. */
  lemma {:induction false} MapTransfer<T, U, V>(f: T -> U, g: T -> V, a: seq<T>, b: seq<T>)
    requires multiset(Map(f, a)) == multiset(Map(f, b)) && Decides(f, g, a, b)
    ensures multiset(Map(g, a)) == multiset(Map(g, b))
    decreases |a|
  {
    assert |multiset(Map(f, a))| == |a| && |multiset(Map(f, b))| == |b|;
    if a != [] {
      assert Map(f, a)[0] in multiset(Map(f, a));
      var k := ImageOf(f, b, f(a[0]));
      var rest := b[..k] + b[k + 1..];
      MapTails(f, a, b, k);
      DecidesRest(f, g, a, b, k);
      MapTransfer(f, g, a[1..], rest);
      assert g(a[0]) == g(b[k]);
      MapHeads(g, a, b, k);
    }
  }

  lemma Cancel<U>(p: multiset<U>, q: multiset<U>, u: U)
    requires p + multiset{u} == q + multiset{u}
    ensures p == q
  {
    assert p == p + multiset{u} - multiset{u};
    assert q == q + multiset{u} - multiset{u};
  }

  lemma MapTails<T, U>(f: T -> U, a: seq<T>, b: seq<T>, k: nat)
    requires a != [] && k < |b| && f(a[0]) == f(b[k])
    requires multiset(Map(f, a)) == multiset(Map(f, b))
    ensures multiset(Map(f, a[1..])) == multiset(Map(f, b[..k] + b[k + 1..]))
  {
    MapCons(f, a);
    MapRemove(f, b, k);
    Cancel(multiset(Map(f, a[1..])), multiset(Map(f, b[..k] + b[k + 1..])), f(b[k]));
  }

  lemma MapHeads<T, U>(f: T -> U, a: seq<T>, b: seq<T>, k: nat)
    requires a != [] && k < |b| && f(a[0]) == f(b[k])
    requires multiset(Map(f, a[1..])) == multiset(Map(f, b[..k] + b[k + 1..]))
    ensures multiset(Map(f, a)) == multiset(Map(f, b))
  {
    MapCons(f, a);
    MapRemove(f, b, k);
  }

  function Same<T>(x: T): T {
    x
  }

  lemma MapSame<T>(a: seq<T>)
    ensures Map(Same<T>, a) == a
  {
  }

  /** The same elements have the same images. */
  lemma MapPermuted<T, U>(f: T -> U, a: seq<T>, b: seq<T>)
    requires multiset(a) == multiset(b)
    ensures multiset(Map(f, a)) == multiset(Map(f, b))
  {
    MapSame(a);
    MapSame(b);
    MapTransfer(Same<T>, f, a, b);
  }

  // ----- order is forgotten

  lemma ServiceOrderFree(s: Service, t: Service)
    requires ServiceOf(s) == ServiceOf(t)
    ensures ServiceRecord(s) == ServiceRecord(t)
  {
    MapPermuted(EndpointRecord, s.endpoints, t.endpoints);
    SortForgets(EndpointRecords(s.endpoints), EndpointRecords(t.endpoints));
  }

  lemma StreamOrderFree(s: Stream, t: Stream)
    requires StreamOf(s) == StreamOf(t)
    ensures StreamRecord(s) == StreamRecord(t)
  {
    SortForgets(s.subjects, t.subjects);
  }

  lemma ServicesOrderFree(a: seq<Service>, b: seq<Service>)
    requires multiset(Map(ServiceOf, a)) == multiset(Map(ServiceOf, b))
    ensures multiset(Map(ServiceRecord, a)) == multiset(Map(ServiceRecord, b))
  {
    forall i, j | 0 <= i < |a| && 0 <= j < |b| && ServiceOf(a[i]) == ServiceOf(b[j])
      ensures ServiceRecord(a[i]) == ServiceRecord(b[j])
    {
      ServiceOrderFree(a[i], b[j]);
    }
    MapTransfer(ServiceOf, ServiceRecord, a, b);
  }

  lemma StreamsOrderFree(a: seq<Stream>, b: seq<Stream>)
    requires multiset(Map(StreamOf, a)) == multiset(Map(StreamOf, b))
    ensures multiset(Map(StreamRecord, a)) == multiset(Map(StreamRecord, b))
  {
    forall i, j | 0 <= i < |a| && 0 <= j < |b| && StreamOf(a[i]) == StreamOf(b[j])
      ensures StreamRecord(a[i]) == StreamRecord(b[j])
    {
      StreamOrderFree(a[i], b[j]);
    }
    MapTransfer(StreamOf, StreamRecord, a, b);
  }

  /** Permuting any list, or any list inside a record, leaves the hashed bytes as they are. */
  lemma PreimageForgetsOrder(c: Consent, d: Consent)
    requires SameConsent(c, d)
    ensures Preimage(c) == Preimage(d)
  {
    ServicesOrderFree(c.serves, d.serves);
    StreamsOrderFree(c.streams, d.streams);
    MapPermuted(BucketRecord, c.kv, d.kv);
    MapPermuted(StoreRecord, c.objects, d.objects);
    assert SameValues(Sections(c), Sections(d));
    PreimageExact(c, d);
  }

  // ----- nothing else is forgotten, for records without the separators

  predicate Free(s: string) {
    UNIT !in s && RECORD !in s
  }

  predicate CleanService(s: Service) {
    && UNIT !in s.name && UNIT !in s.version && UNIT !in s.queueGroup
    && forall i :: 0 <= i < |s.endpoints| ==>
         Free(s.endpoints[i].name) && Free(s.endpoints[i].subject) && Free(s.endpoints[i].point)
  }

  predicate CleanStream(s: Stream) {
    && UNIT !in s.name
    && s.subjects != [""]
    && forall i :: 0 <= i < |s.subjects| ==> Free(s.subjects[i])
  }

  /** The separator that ends each field occurs in none of them. KV and object records need
      no such condition: their last fields are numbers. */
  predicate Clean(c: Consent) {
    && (forall i :: 0 <= i < |c.serves| ==> CleanService(c.serves[i]))
    && (forall i :: 0 <= i < |c.streams| ==> CleanStream(c.streams[i]))
  }

  lemma JoinCons(a: string, rest: seq<string>, sep: char)
    requires rest != []
    ensures Join([a] + rest, sep) == a + [sep] + Join(rest, sep)
  {
    assert ([a] + rest)[1..] == rest;
  }

  /** The first field of a record, when it is free of the separator. */
  lemma FirstField(a: string, b: string, x: string, y: string, sep: char)
    requires sep !in a && sep !in b
    requires a + [sep] + x == b + [sep] + y
    ensures a == b && x == y
  {
    var s := a + [sep] + x;
    assert s[|a|] == sep && s[|b|] == sep;
    assert forall i :: 0 <= i < |a| ==> s[i] == a[i];
    assert forall i :: 0 <= i < |b| ==> s[i] == b[i];
    assert |a| == |b|;
    assert a == s[..|a|] == b && x == s[|a| + 1..] == y;
  }

  lemma SprintFree(n: int)
    ensures Free(Sprint(n))
  {
  }

  lemma EndpointInjective(x: Endpoint, y: Endpoint)
    requires Free(x.name) && Free(x.subject) && Free(x.point) && Free(y.name) && Free(y.subject) && Free(y.point)
    requires EndpointRecord(x) == EndpointRecord(y)
    ensures x == y
  {
    JoinInjective([x.name, x.subject, x.point], [y.name, y.subject, y.point], UNIT);
  }

  lemma EndpointRecordShape(e: Endpoint)
    ensures EndpointRecord(e) != ""
    ensures RECORD !in e.name && RECORD !in e.subject && RECORD !in e.point ==> RECORD !in EndpointRecord(e)
  {
    JoinCons(e.name, [e.subject, e.point], UNIT);
    JoinCons(e.subject, [e.point], UNIT);
    assert [e.name] + [e.subject, e.point] == [e.name, e.subject, e.point];
    assert [e.subject] + [e.point] == [e.subject, e.point];
  }

  /** Lists of separator-free items join apart, but for the empty list and one empty item. */
  lemma JoinedLists(a: seq<string>, b: seq<string>, sep: char)
    requires FreeOf(a, sep) && FreeOf(b, sep) && a != [""] && b != [""]
    requires Join(a, sep) == Join(b, sep)
    ensures a == b
  {
    if a != [] && b != [] {
      JoinInjective(a, b, sep);
    } else {
      JoinNonEmpty(a, sep);
      JoinNonEmpty(b, sep);
    }
  }

  lemma JoinNonEmpty(a: seq<string>, sep: char)
    requires a != [""]
    ensures Join(a, sep) == "" <==> a == []
  {
    if |a| == 1 {
      assert a == [a[0]];
    }
  }

  lemma SortedFree(s: seq<string>, sep: char)
    requires FreeOf(s, sep)
    ensures FreeOf(Sort(s), sep)
  {
    InMultiset(s, Sort(s));
    forall i | 0 <= i < |Sort(s)|
      ensures sep !in Sort(s)[i]
    {
      assert Sort(s)[i] in s;
    }
  }

  lemma SortOne(s: seq<string>)
    ensures Sort(s) == [""] <==> s == [""]
  {
    InMultiset(s, Sort(s));
    if |s| == 1 {
      assert s == [s[0]] && Sort(s) == [Sort(s)[0]];
      assert s[0] in Sort(s);
    }
  }

  /** Joined and sorted, separator-free lists are the same multiset. */
  lemma SortedJoins(a: seq<string>, b: seq<string>)
    requires FreeOf(a, RECORD) && FreeOf(b, RECORD) && a != [""] && b != [""]
    requires Join(Sort(a), RECORD) == Join(Sort(b), RECORD)
    ensures multiset(a) == multiset(b)
  {
    SortedFree(a, RECORD);
    SortedFree(b, RECORD);
    SortOne(a);
    SortOne(b);
    JoinedLists(Sort(a), Sort(b), RECORD);
    assert multiset(a) == multiset(Sort(a)) == multiset(Sort(b)) == multiset(b);
  }

  lemma EndpointListShape(es: seq<Endpoint>)
    requires forall i :: 0 <= i < |es| ==> Free(es[i].name) && Free(es[i].subject) && Free(es[i].point)
    ensures FreeOf(EndpointRecords(es), RECORD) && EndpointRecords(es) != [""]
  {
    forall i | 0 <= i < |es|
      ensures RECORD !in EndpointRecords(es)[i] && EndpointRecords(es)[i] != ""
    {
      EndpointRecordShape(es[i]);
    }
    assert |es| == 1 ==> EndpointRecords(es)[0] != "";
  }

  lemma EndpointsInjective(a: seq<Endpoint>, b: seq<Endpoint>)
    requires forall i :: 0 <= i < |a| ==> Free(a[i].name) && Free(a[i].subject) && Free(a[i].point)
    requires forall i :: 0 <= i < |b| ==> Free(b[i].name) && Free(b[i].subject) && Free(b[i].point)
    requires Join(Sort(EndpointRecords(a)), RECORD) == Join(Sort(EndpointRecords(b)), RECORD)
    ensures multiset(a) == multiset(b)
  {
    EndpointListShape(a);
    EndpointListShape(b);
    SortedJoins(EndpointRecords(a), EndpointRecords(b));
    forall i, j | 0 <= i < |a| && 0 <= j < |b| && EndpointRecord(a[i]) == EndpointRecord(b[j])
      ensures a[i] == b[j]
    {
      EndpointInjective(a[i], b[j]);
    }
    MapTransfer(EndpointRecord, Same<Endpoint>, a, b);
    MapSame(a);
    MapSame(b);
  }

  lemma ServiceInjective(s: Service, t: Service)
    requires CleanService(s) && CleanService(t) && ServiceRecord(s) == ServiceRecord(t)
    ensures ServiceOf(s) == ServiceOf(t)
  {
    var es, et := Join(Sort(EndpointRecords(s.endpoints)), RECORD), Join(Sort(EndpointRecords(t.endpoints)), RECORD);
    FourFields(s.name, s.version, s.queueGroup, es, t.name, t.version, t.queueGroup, et);
    EndpointsInjective(s.endpoints, t.endpoints);
  }

  /** Four joined fields, the first three without the separator. */
  lemma FourFields(a: string, b: string, c: string, x: string, d: string, e: string, f: string, y: string)
    requires UNIT !in a && UNIT !in b && UNIT !in c && UNIT !in d && UNIT !in e && UNIT !in f
    requires Join([a, b, c, x], UNIT) == Join([d, e, f, y], UNIT)
    ensures a == d && b == e && c == f && x == y
  {
    SpellFour(a, b, c, x);
    SpellFour(d, e, f, y);
    FirstField(a, d, b + [UNIT] + (c + [UNIT] + x), e + [UNIT] + (f + [UNIT] + y), UNIT);
    FirstField(b, e, c + [UNIT] + x, f + [UNIT] + y, UNIT);
    FirstField(c, f, x, y, UNIT);
  }

  lemma SpellFour(a: string, b: string, c: string, x: string)
    ensures Join([a, b, c, x], UNIT) == a + [UNIT] + (b + [UNIT] + (c + [UNIT] + x))
  {
    JoinCons(a, [b, c, x], UNIT);
    JoinCons(b, [c, x], UNIT);
    JoinCons(c, [x], UNIT);
    assert [a] + [b, c, x] == [a, b, c, x] && [b] + [c, x] == [b, c, x] && [c] + [x] == [c, x];
  }

  lemma StreamInjective(s: Stream, t: Stream)
    requires CleanStream(s) && CleanStream(t) && StreamRecord(s) == StreamRecord(t)
    ensures StreamOf(s) == StreamOf(t)
  {
    var js, jt := Join(Sort(s.subjects), RECORD), Join(Sort(t.subjects), RECORD);
    var rs, rt := [Sprint(s.maxBytes), Sprint(s.maxAgeSeconds), Sprint(s.maxMsgs), js],
                  [Sprint(t.maxBytes), Sprint(t.maxAgeSeconds), Sprint(t.maxMsgs), jt];
    NumbersFree(s.maxBytes, s.maxAgeSeconds, s.maxMsgs);
    NumbersFree(t.maxBytes, t.maxAgeSeconds, t.maxMsgs);
    JoinCons(s.name, rs, UNIT);
    JoinCons(t.name, rt, UNIT);
    FirstField(s.name, t.name, Join(rs, UNIT), Join(rt, UNIT), UNIT);
    FourFields(rs[0], rs[1], rs[2], js, rt[0], rt[1], rt[2], jt);
    SprintInjective(s.maxBytes, t.maxBytes);
    SprintInjective(s.maxAgeSeconds, t.maxAgeSeconds);
    SprintInjective(s.maxMsgs, t.maxMsgs);
    SortedJoins(s.subjects, t.subjects);
  }

  lemma NumbersFree(a: int, b: int, c: int)
    ensures UNIT !in Sprint(a) && UNIT !in Sprint(b) && UNIT !in Sprint(c)
  {
    SprintFree(a);
    SprintFree(b);
    SprintFree(c);
  }

  /** KV records are read apart with separators or without: two of them with one text have
      their last three fields, which are numbers, and so their first in common. */
  lemma BucketInjective(x: Bucket, y: Bucket)
    requires BucketRecord(x) == BucketRecord(y)
    ensures x == y
  {
    NumbersFree(x.maxBytes, x.ttlSeconds, x.history);
    NumbersFree(y.maxBytes, y.ttlSeconds, y.history);
    LastThree(
      x.name, Sprint(x.maxBytes), Sprint(x.ttlSeconds), Sprint(x.history),
      y.name, Sprint(y.maxBytes), Sprint(y.ttlSeconds), Sprint(y.history));
    SprintInjective(x.maxBytes, y.maxBytes);
    SprintInjective(x.ttlSeconds, y.ttlSeconds);
    SprintInjective(x.history, y.history);
  }

  /** Four joined fields, the last three without the separator. */
  lemma LastThree(a: string, b: string, c: string, d: string, e: string, f: string, g: string, h: string)
    requires UNIT !in b && UNIT !in c && UNIT !in d && UNIT !in f && UNIT !in g && UNIT !in h
    requires Join([a, b, c, d], UNIT) == Join([e, f, g, h], UNIT)
    ensures a == e && b == f && c == g && d == h
  {
    var p, q := a + [UNIT] + b, e + [UNIT] + f;
    SpellBack(a, b, c, d);
    SpellBack(e, f, g, h);
    LastField(p + [UNIT] + c, q + [UNIT] + g, d, h, UNIT);
    LastField(p, q, c, g, UNIT);
    LastField(a, e, b, f, UNIT);
  }

  lemma SpellBack(a: string, b: string, c: string, d: string)
    ensures Join([a, b, c, d], UNIT) == a + [UNIT] + b + [UNIT] + c + [UNIT] + d
  {
    SpellFour(a, b, c, d);
    assert a + [UNIT] + (b + [UNIT] + (c + [UNIT] + d)) == a + [UNIT] + b + [UNIT] + c + [UNIT] + d;
  }

  lemma StoreInjective(x: Store, y: Store)
    requires StoreRecord(x) == StoreRecord(y)
    ensures x == y
  {
    SpellThree(x.name, Sprint(x.maxBytes), Sprint(x.ttlSeconds));
    SpellThree(y.name, Sprint(y.maxBytes), Sprint(y.ttlSeconds));
    NumbersFree(x.maxBytes, x.ttlSeconds, 0);
    NumbersFree(y.maxBytes, y.ttlSeconds, 0);
    var px, py := x.name + [UNIT] + Sprint(x.maxBytes), y.name + [UNIT] + Sprint(y.maxBytes);
    assert StoreRecord(x) == px + [UNIT] + Sprint(x.ttlSeconds);
    assert StoreRecord(y) == py + [UNIT] + Sprint(y.ttlSeconds);
    LastField(px, py, Sprint(x.ttlSeconds), Sprint(y.ttlSeconds), UNIT);
    LastField(x.name, y.name, Sprint(x.maxBytes), Sprint(y.maxBytes), UNIT);
    SprintInjective(x.maxBytes, y.maxBytes);
    SprintInjective(x.ttlSeconds, y.ttlSeconds);
  }

  lemma SpellThree(a: string, b: string, c: string)
    ensures Join([a, b, c], UNIT) == a + [UNIT] + (b + [UNIT] + c)
  {
    JoinCons(a, [b, c], UNIT);
    JoinCons(b, [c], UNIT);
    assert [a] + [b, c] == [a, b, c] && [b] + [c] == [b, c];
  }

  /** The last field of a record, when it is free of the separator. */
  lemma LastField(a: string, b: string, x: string, y: string, sep: char)
    requires sep !in x && sep !in y
    requires a + [sep] + x == b + [sep] + y
    ensures a == b && x == y
  {
    var s := a + [sep] + x;
    assert s[|a|] == sep && s[|b|] == sep;
    assert forall i :: |a| < i < |s| ==> s[i] == x[i - |a| - 1];
    assert forall i :: |b| < i < |s| ==> s[i] == y[i - |b| - 1];
    assert |a| == |b|;
    assert a == s[..|a|] == b && x == s[|a| + 1..] == y;
  }

  lemma RecordsTransfer(c: Consent, d: Consent)
    requires Clean(c) && Clean(d) && SameValues(Sections(c), Sections(d))
    ensures multiset(Map(ServiceOf, c.serves)) == multiset(Map(ServiceOf, d.serves))
    ensures multiset(Map(StreamOf, c.streams)) == multiset(Map(StreamOf, d.streams))
    ensures multiset(c.kv) == multiset(d.kv) && multiset(c.objects) == multiset(d.objects)
  {
    var a, b := Sections(c), Sections(d);
    assert multiset(a[3].values) == multiset(b[3].values) && multiset(a[4].values) == multiset(b[4].values);
    assert multiset(a[5].values) == multiset(b[5].values) && multiset(a[6].values) == multiset(b[6].values);
    ServicesInjective(c.serves, d.serves);
    StreamsInjective(c.streams, d.streams);
    BucketsInjective(c.kv, d.kv);
    StoresInjective(c.objects, d.objects);
  }

  lemma ServicesInjective(a: seq<Service>, b: seq<Service>)
    requires forall i :: 0 <= i < |a| ==> CleanService(a[i])
    requires forall i :: 0 <= i < |b| ==> CleanService(b[i])
    requires multiset(Map(ServiceRecord, a)) == multiset(Map(ServiceRecord, b))
    ensures multiset(Map(ServiceOf, a)) == multiset(Map(ServiceOf, b))
  {
    forall i, j | 0 <= i < |a| && 0 <= j < |b| && ServiceRecord(a[i]) == ServiceRecord(b[j])
      ensures ServiceOf(a[i]) == ServiceOf(b[j])
    {
      ServiceInjective(a[i], b[j]);
    }
    MapTransfer(ServiceRecord, ServiceOf, a, b);
  }

  lemma StreamsInjective(a: seq<Stream>, b: seq<Stream>)
    requires forall i :: 0 <= i < |a| ==> CleanStream(a[i])
    requires forall i :: 0 <= i < |b| ==> CleanStream(b[i])
    requires multiset(Map(StreamRecord, a)) == multiset(Map(StreamRecord, b))
    ensures multiset(Map(StreamOf, a)) == multiset(Map(StreamOf, b))
  {
    forall i, j | 0 <= i < |a| && 0 <= j < |b| && StreamRecord(a[i]) == StreamRecord(b[j])
      ensures StreamOf(a[i]) == StreamOf(b[j])
    {
      StreamInjective(a[i], b[j]);
    }
    MapTransfer(StreamRecord, StreamOf, a, b);
  }

  lemma BucketsInjective(a: seq<Bucket>, b: seq<Bucket>)
    requires multiset(Map(BucketRecord, a)) == multiset(Map(BucketRecord, b))
    ensures multiset(a) == multiset(b)
  {
    forall i, j | 0 <= i < |a| && 0 <= j < |b| && BucketRecord(a[i]) == BucketRecord(b[j])
      ensures a[i] == b[j]
    {
      BucketInjective(a[i], b[j]);
    }
    MapTransfer(BucketRecord, Same<Bucket>, a, b);
    MapSame(a);
    MapSame(b);
  }

  lemma StoresInjective(a: seq<Store>, b: seq<Store>)
    requires multiset(Map(StoreRecord, a)) == multiset(Map(StoreRecord, b))
    ensures multiset(a) == multiset(b)
  {
    forall i, j | 0 <= i < |a| && 0 <= j < |b| && StoreRecord(a[i]) == StoreRecord(b[j])
      ensures a[i] == b[j]
    {
      StoreInjective(a[i], b[j]);
    }
    MapTransfer(StoreRecord, Same<Store>, a, b);
    MapSame(a);
    MapSame(b);
  }

  /** For clean manifests the preimage forgets the order of lists and nothing else. */
  lemma PreimageCanonical(c: Consent, d: Consent)
    requires Clean(c) && Clean(d)
    ensures Preimage(c) == Preimage(d) <==> SameConsent(c, d)
  {
    PreimageExact(c, d);
    if Preimage(c) == Preimage(d) {
      RecordsTransfer(c, d);
      PlainSections(c, d);
    } else if SameConsent(c, d) {
      PreimageForgetsOrder(c, d);
    }
  }

  lemma PlainSections(c: Consent, d: Consent)
    requires SameValues(Sections(c), Sections(d))
    ensures multiset(c.publish) == multiset(d.publish) && multiset(c.request) == multiset(d.request)
    ensures multiset(c.subscribe) == multiset(d.subscribe)
    ensures multiset(c.needs) == multiset(d.needs) && multiset(c.capabilities) == multiset(d.capabilities)
  {
    var a, b := Sections(c), Sections(d);
    assert multiset(a[0].values) == multiset(b[0].values) && multiset(a[1].values) == multiset(b[1].values);
    assert multiset(a[2].values) == multiset(b[2].values) && multiset(a[7].values) == multiset(b[7].values);
    assert multiset(a[8].values) == multiset(b[8].values);
  }
}
