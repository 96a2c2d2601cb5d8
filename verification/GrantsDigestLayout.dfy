/** Where everything stands in the text that GrantsDigest hashes. */
module GrantsDigestLayout {
  import opened Strings
  import opened Sorting
  import opened Netstrings
  import opened GrantsDigest

  // ----- records

  lemma JoinedPair(a: string, b: string, sep: char)
    ensures Join([a, b], sep) == a + [sep] + b
  {
    assert [a, b][1..] == [b];
  }

  lemma JoinedMore(a: string, rest: seq<string>, sep: char)
    requires rest != []
    ensures Join([a] + rest, sep) == a + [sep] + Join(rest, sep)
  {
    assert ([a] + rest)[1..] == rest;
  }

  lemma JoinedThree(a: string, b: string, c: string, sep: char)
    ensures Join([a, b, c], sep) == a + [sep] + (b + [sep] + c)
  {
    assert [a, b, c] == [a] + [b, c];
    JoinedMore(a, [b, c], sep);
    JoinedPair(b, c, sep);
  }

  lemma JoinedFour(a: string, b: string, c: string, d: string, sep: char)
    ensures Join([a, b, c, d], sep) == a + [sep] + (b + [sep] + (c + [sep] + d))
  {
    assert [a, b, c, d] == [a] + [b, c, d];
    JoinedMore(a, [b, c, d], sep);
    JoinedThree(b, c, d, sep);
  }

  lemma JoinedFive(a: string, b: string, c: string, d: string, e: string, sep: char)
    ensures Join([a, b, c, d, e], sep) == a + [sep] + (b + [sep] + (c + [sep] + (d + [sep] + e)))
  {
    assert [a, b, c, d, e] == [a] + [b, c, d, e];
    JoinedMore(a, [b, c, d, e], sep);
    JoinedFour(b, c, d, e, sep);
  }

  /** An endpoint: name, subject and point, with unit separators between them. */
  lemma EndpointLayout(e: Endpoint)
    ensures EndpointRecord(e) == e.name + "\U{1F}" + (e.subject + "\U{1F}" + e.point)
  {
    JoinedThree(e.name, e.subject, e.point, '\U{1F}');
  }

  /** A service: name, version, queue group, and its endpoints in ascending order with record
      separators between them. */
  lemma ServiceLayout(s: Service)
    ensures ServiceRecord(s) == s.name + "\U{1F}" + (s.version + "\U{1F}" + (s.queueGroup + "\U{1F}"
                                  + Join(Sort(EndpointRecords(s.endpoints)), '\U{1E}')))
    ensures |EndpointRecords(s.endpoints)| == |s.endpoints|
    ensures forall i :: 0 <= i < |s.endpoints| ==> EndpointRecords(s.endpoints)[i] == EndpointRecord(s.endpoints[i])
  {
    JoinedFour(s.name, s.version, s.queueGroup, Join(Sort(EndpointRecords(s.endpoints)), '\U{1E}'), '\U{1F}');
  }

  /** A stream: name, bytes, age, messages, and its subjects in ascending order. */
  lemma StreamLayout(s: Stream)
    ensures StreamRecord(s) == s.name + "\U{1F}" + (Sprint(s.maxBytes) + "\U{1F}" + (Sprint(s.maxAgeSeconds) + "\U{1F}"
                                 + (Sprint(s.maxMsgs) + "\U{1F}" + Join(Sort(s.subjects), '\U{1E}'))))
  {
    JoinedFive(s.name, Sprint(s.maxBytes), Sprint(s.maxAgeSeconds), Sprint(s.maxMsgs), Join(Sort(s.subjects), '\U{1E}'), '\U{1F}');
  }

  /** A bucket: name, bytes, time to live, history. */
  lemma BucketLayout(b: Bucket)
    ensures BucketRecord(b) == b.name + "\U{1F}" + (Sprint(b.maxBytes) + "\U{1F}" + (Sprint(b.ttlSeconds) + "\U{1F}" + Sprint(b.history)))
  {
    JoinedFour(b.name, Sprint(b.maxBytes), Sprint(b.ttlSeconds), Sprint(b.history), '\U{1F}');
  }

  /** An object store: name, bytes, time to live. */
  lemma StoreLayout(b: Store)
    ensures StoreRecord(b) == b.name + "\U{1F}" + (Sprint(b.maxBytes) + "\U{1F}" + Sprint(b.ttlSeconds))
  {
    JoinedThree(b.name, Sprint(b.maxBytes), Sprint(b.ttlSeconds), '\U{1F}');
  }

  // ----- sections

  /** A title, the number of values and the values in ascending order. */
  predicate Lists(atoms: seq<string>, title: string, values: seq<string>) {
    && |atoms| == 2 + |values| && atoms[0] == title && atoms[1] == Itoa(|values|)
    && multiset(atoms[2..]) == multiset(values)
    && forall i, j :: 2 <= i < j < |atoms| ==> Leq(atoms[i], atoms[j])
  }

  lemma SectionLists(title: string, values: seq<string>)
    ensures Lists(SectionAtoms(Section(title, values)), title, values)
  {
    var key := (x: string) => x;
    SortSorted(key, values);
    var atoms := SectionAtoms(Section(title, values));
    assert atoms[2..] == Sort(values);
    forall i, j | 2 <= i < j < |atoms|
      ensures Leq(atoms[i], atoms[j])
    {
      assert Leq(key(Sort(values)[i - 2]), key(Sort(values)[j - 2]));
    }
  }

  function Flat(parts: seq<seq<string>>): seq<string> {
    if parts == [] then [] else parts[0] + Flat(parts[1..])
  }

  lemma {:induction false} AtomsAreFlat(sections: seq<Section>, parts: seq<seq<string>>)
    requires |sections| == |parts| && forall i :: 0 <= i < |parts| ==> parts[i] == SectionAtoms(sections[i])
    ensures SectionsAtoms(sections) == Flat(parts)
  {
    if parts != [] {
      AtomsAreFlat(sections[1..], parts[1..]);
    }
  }

  /** The values of the nine lists. */
  function Values(c: Consent): seq<seq<string>> {
    [c.publish, c.request, c.subscribe, Map(ServiceRecord, c.serves), Map(StreamRecord, c.streams), Map(BucketRecord, c.kv),
     Map(StoreRecord, c.objects), c.needs, c.capabilities]
  }

  const TITLES := ["publish", "request", "subscribe", "serves", "streams", "kv", "objects", "needs", "capabilities"]

  lemma SectionAt(c: Consent, i: nat)
    requires i < 9
    ensures |Sections(c)| == 9 && Sections(c)[i] == Section(TITLES[i], Values(c)[i])
  {
  }

  function Parts(sections: seq<Section>): (parts: seq<seq<string>>)
    ensures |parts| == |sections| && forall i :: 0 <= i < |parts| ==> parts[i] == SectionAtoms(sections[i])
  {
    seq(|sections|, i requires 0 <= i < |sections| => SectionAtoms(sections[i]))
  }

  lemma PartLists(c: Consent, i: nat)
    requires i < 9
    ensures |Parts(Sections(c))| == 9 && Lists(Parts(Sections(c))[i], TITLES[i], Values(c)[i])
  {
    SectionAt(c, i);
    SectionLists(TITLES[i], Values(c)[i]);
  }

  /** The whole text: the algorithm's name and the nine titled lists. */
  lemma PreimageLayout(c: Consent) returns (parts: seq<seq<string>>)
    ensures Preimage(c) == Encode(["bytedesk.plugin.grants.v3"] + Flat(parts), ':')
    ensures |parts| == 9 && forall i :: 0 <= i < 9 ==> Lists(parts[i], TITLES[i], Values(c)[i])
  {
    parts := Parts(Sections(c));
    AtomsAreFlat(Sections(c), parts);
    forall i | 0 <= i < 9
      ensures Lists(parts[i], TITLES[i], Values(c)[i])
    {
      PartLists(c, i);
    }
  }
}
