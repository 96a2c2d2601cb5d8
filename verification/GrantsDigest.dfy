/** The preimage of GrantsDigest (v2/plugin/digest.go): what an operator consents to, as one
    canonical text. The hash over it is not part of the model. */
module GrantsDigest {
  import opened Strings
  import opened Sorting
  import opened Netstrings

  const ALGORITHM := "bytedesk.plugin.grants.v3"
  const CLOSE := ':'
  const UNIT := '\U{1F}'
  const RECORD := '\U{1E}'

  datatype Endpoint = Endpoint(name: string, subject: string, point: string)

  datatype Service = Service(name: string, version: string, queueGroup: string, endpoints: seq<Endpoint>)

  datatype Stream = Stream(name: string, maxBytes: int, maxAgeSeconds: int, maxMsgs: int, subjects: seq<string>)

  datatype Bucket = Bucket(name: string, maxBytes: int, ttlSeconds: int, history: int)

  datatype Store = Store(name: string, maxBytes: int, ttlSeconds: int)

  /** The consented fields of a manifest, as values. */
  datatype Consent = Consent(
    publish: seq<string>,
    request: seq<string>,
    subscribe: seq<string>,
    serves: seq<Service>,
    streams: seq<Stream>,
    kv: seq<Bucket>,
    objects: seq<Store>,
    needs: seq<string>,
    capabilities: seq<string>)

  // ----- records

  function Map<T, U>(f: T -> U, s: seq<T>): (r: seq<U>)
    ensures |r| == |s|
    ensures forall i :: 0 <= i < |s| ==> r[i] == f(s[i])
  {
    seq(|s|, i requires 0 <= i < |s| => f(s[i]))
  }

  function EndpointRecord(e: Endpoint): string {
    Join([e.name, e.subject, e.point], UNIT)
  }

  function EndpointRecords(es: seq<Endpoint>): seq<string> {
    Map(EndpointRecord, es)
  }

  function ServiceRecord(s: Service): string {
    Join([s.name, s.version, s.queueGroup, Join(Sort(EndpointRecords(s.endpoints)), RECORD)], UNIT)
  }

  function StreamRecord(s: Stream): string {
    Join([s.name, Sprint(s.maxBytes), Sprint(s.maxAgeSeconds), Sprint(s.maxMsgs), Join(Sort(s.subjects), RECORD)], UNIT)
  }

  function BucketRecord(b: Bucket): string {
    Join([b.name, Sprint(b.maxBytes), Sprint(b.ttlSeconds), Sprint(b.history)], UNIT)
  }

  function StoreRecord(b: Store): string {
    Join([b.name, Sprint(b.maxBytes), Sprint(b.ttlSeconds)], UNIT)
  }

  datatype Section = Section(title: string, values: seq<string>)

  /** The nine labelled lists, in the order they are hashed. */
  function Sections(c: Consent): seq<Section> {
    [
      Section("publish", c.publish),
      Section("request", c.request),
      Section("subscribe", c.subscribe),
      Section("serves", Map(ServiceRecord, c.serves)),
      Section("streams", Map(StreamRecord, c.streams)),
      Section("kv", Map(BucketRecord, c.kv)),
      Section("objects", Map(StoreRecord, c.objects)),
      Section("needs", c.needs),
      Section("capabilities", c.capabilities)
    ]
  }

  function SectionAtoms(s: Section): seq<string> {
    [s.title, Itoa(|s.values|)] + Sort(s.values)
  }

  function SectionsAtoms(sections: seq<Section>): seq<string> {
    if sections == [] then [] else SectionAtoms(sections[0]) + SectionsAtoms(sections[1..])
  }

  function Preimage(c: Consent): string {
    Encode([ALGORITHM] + SectionsAtoms(Sections(c)), CLOSE)
  }

  // ----- the code

  /** The hash, as the bytes written into it so far. */
  class Hash {
    var written: string

    constructor ()
      ensures written == ""
    {
      written := "";
    }

    /** write: the one length-delimited primitive. */
    method Write(s: string)
      modifies this
      ensures written == old(written) + Atom(s, CLOSE)
    {
      written := written + Itoa(|s|) + [':'] + s + [CLOSE];
    }
  }

  /** slices.Sort, in place. */
  method SortInPlace(a: array<string>)
    modifies a
    ensures a[..] == Sort(old(a[..]))
  {
    var sorted := Sort(a[..]);
    forall i | 0 <= i < a.Length {
      a[i] := sorted[i];
    }
  }

  /** slices.Clone. */
  method Clone(a: array<string>) returns (b: array<string>)
    ensures fresh(b) && b[..] == a[..]
  {
    b := new string[a.Length](i requires 0 <= i < a.Length reads a => a[i]);
  }

  method FromSeq(s: seq<string>) returns (b: array<string>)
    ensures fresh(b) && b[..] == s
  {
    b := new string[|s|](i requires 0 <= i < |s| => s[i]);
  }

  method WriteAll(h: Hash, values: array<string>)
    modifies h
    ensures h.written == old(h.written) + Encode(values[..], CLOSE)
  {
    ghost var all, start := values[..], h.written;
    for i := 0 to values.Length
      invariant values[..] == all
      invariant h.written + Encode(all[i..], CLOSE) == start + Encode(all, CLOSE)
    {
      assert all[i..] == [values[i]] + all[i + 1..];
      h.Write(values[i]);
    }
  }

  /** section: sorts the list it is handed and hashes title, count and values. */
  method WriteSection(h: Hash, title: string, values: array<string>)
    modifies h, values
    ensures h.written == old(h.written) + Encode(SectionAtoms(Section(title, old(values[..]))), CLOSE)
  {
    ghost var start, given := h.written, values[..];
    SortInPlace(values);
    h.Write(title);
    h.Write(Itoa(values.Length));
    WriteAll(h, values);
    assert values.Length == |given|;
    WrittenSection(start, title, Itoa(values.Length), Sort(given));
  }

  lemma WrittenSection(start: string, a: string, b: string, rest: seq<string>)
    ensures start + Atom(a, CLOSE) + Atom(b, CLOSE) + Encode(rest, CLOSE) == start + Encode([a, b] + rest, CLOSE)
  {
    EncodeTwo(a, b, rest);
    var x, y, z := Atom(a, CLOSE), Atom(b, CLOSE), Encode(rest, CLOSE);
    assert start + x + y + z == start + (x + y + z);
  }

  lemma EncodeTwo(a: string, b: string, rest: seq<string>)
    ensures Encode([a, b] + rest, CLOSE) == Atom(a, CLOSE) + Atom(b, CLOSE) + Encode(rest, CLOSE)
  {
    var all := [a, b] + rest;
    assert all[1..] == [b] + rest && all[1..][1..] == rest;
  }

  /** A manifest's lists, as shared slices. */
  datatype Manifest = Manifest(
    publish: array<string>,
    request: array<string>,
    subscribe: array<string>,
    serves: seq<Service>,
    streams: seq<Stream>,
    kv: seq<Bucket>,
    objects: seq<Store>,
    needs: array<string>,
    capabilities: array<string>)

  ghost function Consented(m: Manifest): Consent
    reads m.publish, m.request, m.subscribe, m.needs, m.capabilities
  {
    Consent(m.publish[..], m.request[..], m.subscribe[..], m.serves, m.streams, m.kv, m.objects, m.needs[..], m.capabilities[..])
  }

  method SortedEndpoints(es: seq<Endpoint>) returns (r: seq<string>)
    ensures r == Sort(EndpointRecords(es))
  {
    var endpoints: seq<string> := [];
    for j := 0 to |es|
      invariant endpoints == EndpointRecords(es[..j])
    {
      endpoints := endpoints + [EndpointRecord(es[j])];
    }
    assert es[..|es|] == es;
    var list := FromSeq(endpoints);
    SortInPlace(list);
    r := list[..];
  }

  method WriteServiceRecord(svc: Service) returns (r: string)
    ensures r == ServiceRecord(svc)
  {
    var endpoints := SortedEndpoints(svc.endpoints);
    r := Join([svc.name, svc.version, svc.queueGroup, Join(endpoints, RECORD)], UNIT);
  }

  method ServiceRecords(services: seq<Service>) returns (r: seq<string>)
    ensures r == Map(ServiceRecord, services)
  {
    r := [];
    for i := 0 to |services|
      invariant |r| == i && forall k :: 0 <= k < i ==> r[k] == ServiceRecord(services[k])
    {
      var one := WriteServiceRecord(services[i]);
      r := r + [one];
    }
  }

  method WriteStreamRecord(s: Stream) returns (r: string)
    ensures r == StreamRecord(s)
  {
    var subjects := FromSeq(s.subjects);
    SortInPlace(subjects);
    r := Join([s.name, Sprint(s.maxBytes), Sprint(s.maxAgeSeconds), Sprint(s.maxMsgs), Join(subjects[..], RECORD)], UNIT);
  }

  method StreamRecords(streams: seq<Stream>) returns (r: seq<string>)
    ensures r == Map(StreamRecord, streams)
  {
    r := [];
    for i := 0 to |streams|
      invariant |r| == i && forall k :: 0 <= k < i ==> r[k] == StreamRecord(streams[k])
    {
      var one := WriteStreamRecord(streams[i]);
      r := r + [one];
    }
  }

  /** The bytes written once some sections are done. */
  function Written(done: seq<Section>): string {
    Encode([ALGORITHM] + SectionsAtoms(done), CLOSE)
  }

  lemma {:induction false} SectionsAtomsSnoc(done: seq<Section>, s: Section)
    ensures SectionsAtoms(done + [s]) == SectionsAtoms(done) + SectionAtoms(s)
  {
    if done == [] {
      assert done + [s] == [s];
      assert SectionsAtoms([s][1..]) == [];
    } else {
      assert (done + [s])[1..] == done[1..] + [s];
      SectionsAtomsSnoc(done[1..], s);
    }
  }

  lemma WrittenSnoc(done: seq<Section>, s: Section)
    ensures Written(done + [s]) == Written(done) + Encode(SectionAtoms(s), CLOSE)
  {
    SectionsAtomsSnoc(done, s);
    var start := [ALGORITHM] + SectionsAtoms(done);
    assert start + SectionAtoms(s) == [ALGORITHM] + (SectionsAtoms(done) + SectionAtoms(s));
    EncodeConcat(start, SectionAtoms(s), CLOSE);
  }

  method WriteCopy(h: Hash, ghost done: seq<Section>, title: string, values: array<string>)
    requires h.written == Written(done)
    modifies h
    ensures h.written == Written(done + [Section(title, values[..])])
  {
    WrittenSnoc(done, Section(title, values[..]));
    var copy := Clone(values);
    WriteSection(h, title, copy);
  }

  method WriteList(h: Hash, ghost done: seq<Section>, title: string, values: seq<string>)
    requires h.written == Written(done)
    modifies h
    ensures h.written == Written(done + [Section(title, values)])
  {
    WrittenSnoc(done, Section(title, values));
    var list := FromSeq(values);
    WriteSection(h, title, list);
  }

  method WritePermissions(h: Hash, m: Manifest)
    requires h.written == Written([])
    modifies h
    ensures h.written == Written(Sections(Consented(m))[..3])
  {
    ghost var all := Sections(Consented(m));
    WriteCopy(h, [], "publish", m.publish);
    assert [] + [all[0]] == all[..1] && all[..1] + [all[1]] == all[..2] && all[..2] + [all[2]] == all[..3];
    WriteCopy(h, all[..1], "request", m.request);
    WriteCopy(h, all[..2], "subscribe", m.subscribe);
  }

  method WriteAssets(h: Hash, m: Manifest)
    requires h.written == Written(Sections(Consented(m))[..3])
    modifies h
    ensures h.written == Written(Sections(Consented(m))[..7])
  {
    ghost var all := Sections(Consented(m));
    assert all[..3] + [all[3]] == all[..4] && all[..4] + [all[4]] == all[..5];
    assert all[..5] + [all[5]] == all[..6] && all[..6] + [all[6]] == all[..7];
    var serves := ServiceRecords(m.serves);
    WriteList(h, all[..3], "serves", serves);
    var streams := StreamRecords(m.streams);
    WriteList(h, all[..4], "streams", streams);
    WriteList(h, all[..5], "kv", Map(BucketRecord, m.kv));
    WriteList(h, all[..6], "objects", Map(StoreRecord, m.objects));
  }

  /** GrantsDigest up to the hash. It may write to nothing that existed before, so every
      list of the manifest is left as it was. */
  method DigestPreimage(m: Manifest) returns (preimage: string)
    ensures preimage == Preimage(Consented(m))
  {
    var h := new Hash();
    h.Write(ALGORITHM);
    assert Encode([ALGORITHM] + SectionsAtoms([]), CLOSE) == Atom(ALGORITHM, CLOSE);
    WritePermissions(h, m);
    WriteAssets(h, m);
    ghost var all := Sections(Consented(m));
    assert all[..7] + [all[7]] == all[..8] && all[..8] + [all[8]] == all;
    WriteCopy(h, all[..7], "needs", m.needs);
    WriteCopy(h, all[..8], "capabilities", m.capabilities);
    preimage := h.written;
  }
}
