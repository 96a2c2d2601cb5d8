/** Which single records of GrantsDigest are read in one way only. A service record is, when
    its service has at most one endpoint and no field holds the separator; a stream record is,
    when three numbers stand in it at one place and its one subject does not read as a list. */
module RecordSeparation {
  import opened Strings
  import opened Sorting
  import opened Netstrings
  import opened GrantsDigest
  import opened GrantsDigestLaws

  // ----- counting separators

  function Units(s: string): nat {
    multiset(s)[UNIT]
  }

  lemma UnitsFree(s: string)
    ensures Units(s) == 0 <==> UNIT !in s
  {
    assert UNIT in s <==> UNIT in multiset(s);
  }

  lemma UnitsFour(a: string, b: string, c: string, x: string)
    ensures Units(Join([a, b, c, x], UNIT)) == 3 + Units(a) + Units(b) + Units(c) + Units(x)
  {
    SpellFour(a, b, c, x);
  }

  lemma UnitsEndpoint(e: Endpoint)
    ensures Units(EndpointRecord(e)) == 2 + Units(e.name) + Units(e.subject) + Units(e.point)
  {
    SpellThree(e.name, e.subject, e.point);
  }

  lemma {:induction false} UnitsJoin(items: seq<string>)
    requires forall i :: 0 <= i < |items| ==> Units(items[i]) >= 2
    ensures Units(Join(items, RECORD)) >= 2 * |items|
  {
    if |items| > 1 {
      assert items == [items[0]] + items[1..];
      UnitsJoin(items[1..]);
    }
  }

  function EndpointsText(es: seq<Endpoint>): string {
    Join(Sort(EndpointRecords(es)), RECORD)
  }

  lemma UnitsEndpoints(es: seq<Endpoint>)
    ensures Units(EndpointsText(es)) >= 2 * |es|
  {
    var records := EndpointRecords(es);
    InMultiset(records, Sort(records));
    forall i | 0 <= i < |Sort(records)|
      ensures Units(Sort(records)[i]) >= 2
    {
      assert Sort(records)[i] in records;
      var j :| 0 <= j < |records| && records[j] == Sort(records)[i];
      UnitsEndpoint(es[j]);
    }
    UnitsJoin(Sort(records));
  }

  lemma OneEndpointText(e: Endpoint)
    ensures EndpointsText([e]) == EndpointRecord(e)
  {
    var records := EndpointRecords([e]);
    assert records == [EndpointRecord(e)];
    InMultiset(records, Sort(records));
    assert Sort(records)[0] in Sort(records);
  }

  lemma NoEndpointText()
    ensures EndpointsText([]) == ""
  {
  }

  // ----- services

  predicate UnitFree(e: Endpoint) {
    UNIT !in e.name && UNIT !in e.subject && UNIT !in e.point
  }

  /** The service's own fields hold no separator, and it has no endpoint, or one that holds no
      separator and names its point. */
  predicate ServiceApart(s: Service) {
    && UNIT !in s.name && UNIT !in s.version && UNIT !in s.queueGroup
    && (s.endpoints == [] || (|s.endpoints| == 1 && UnitFree(s.endpoints[0]) && s.endpoints[0].point != ""))
  }

  lemma ServiceUnits(s: Service)
    ensures Units(ServiceRecord(s)) == 3 + Units(s.name) + Units(s.version) + Units(s.queueGroup) + Units(EndpointsText(s.endpoints))
    ensures Units(EndpointsText(s.endpoints)) >= 2 * |s.endpoints|
  {
    UnitsFour(s.name, s.version, s.queueGroup, EndpointsText(s.endpoints));
    UnitsEndpoints(s.endpoints);
  }

  lemma EndsWith(s: Service)
    ensures var e := EndpointsText(s.endpoints);
            ServiceRecord(s) != "" && ServiceRecord(s)[|ServiceRecord(s)| - 1] == if e == "" then UNIT else e[|e| - 1]
  {
    SpellBack(s.name, s.version, s.queueGroup, EndpointsText(s.endpoints));
  }

  /** The record of a service apart is the record of no other service. */
  lemma ApartServiceUnique(s: Service, t: Service)
    requires ServiceApart(s) && ServiceRecord(t) == ServiceRecord(s)
    ensures ServiceOf(t) == ServiceOf(s)
  {
    UnitsFree(s.name);
    UnitsFree(s.version);
    UnitsFree(s.queueGroup);
    if s.endpoints == [] {
      ApartWithoutEndpoint(s, t);
    } else {
      ApartWithOne(s, t, s.endpoints[0]);
    }
  }

  lemma ApartWithoutEndpoint(s: Service, t: Service)
    requires Units(s.name) == 0 && Units(s.version) == 0 && Units(s.queueGroup) == 0
    requires s.endpoints == [] && ServiceRecord(t) == ServiceRecord(s)
    ensures ServiceOf(t) == ServiceOf(s)
  {
    NoEndpointText();
    ServiceUnits(s);
    ServiceUnits(t);
    OwnFieldsAgree(s, t);
  }

  lemma ApartWithOne(s: Service, t: Service, e: Endpoint)
    requires Units(s.name) == 0 && Units(s.version) == 0 && Units(s.queueGroup) == 0
    requires s.endpoints == [e] && UnitFree(e) && e.point != "" && ServiceRecord(t) == ServiceRecord(s)
    ensures ServiceOf(t) == ServiceOf(s)
  {
    OneEndpointText(e);
    EndpointUnits(e);
    ServiceUnits(s);
    ServiceUnits(t);
    EndsInPoint(s, t, e);
    var f := t.endpoints[0];
    assert t.endpoints == [f];
    OneEndpointText(f);
    UnitsEndpoint(f);
    OwnFieldsAgree(s, t);
    SameEndpoint(e, f);
  }

  lemma EndpointUnits(e: Endpoint)
    requires UnitFree(e)
    ensures Units(EndpointRecord(e)) == 2
  {
    UnitsEndpoint(e);
    UnitsFree(e.name);
    UnitsFree(e.subject);
    UnitsFree(e.point);
  }

  lemma EndsInPoint(s: Service, t: Service, e: Endpoint)
    requires s.endpoints == [e] && UnitFree(e) && e.point != "" && ServiceRecord(t) == ServiceRecord(s)
    ensures t.endpoints != []
  {
    EndsWith(s);
    EndsWith(t);
    OneEndpointText(e);
    NoEndpointText();
    SpellThree(e.name, e.subject, e.point);
    assert EndpointRecord(e)[|EndpointRecord(e)| - 1] == e.point[|e.point| - 1];
  }

  /** When the count leaves no separator for the own fields of either. */
  lemma OwnFieldsAgree(s: Service, t: Service)
    requires ServiceRecord(t) == ServiceRecord(s)
    requires Units(s.name) == 0 && Units(s.version) == 0 && Units(s.queueGroup) == 0
    requires Units(t.name) == 0 && Units(t.version) == 0 && Units(t.queueGroup) == 0
    ensures s.name == t.name && s.version == t.version && s.queueGroup == t.queueGroup
    ensures EndpointsText(s.endpoints) == EndpointsText(t.endpoints)
  {
    UnitsFree(s.name);
    UnitsFree(s.version);
    UnitsFree(s.queueGroup);
    UnitsFree(t.name);
    UnitsFree(t.version);
    UnitsFree(t.queueGroup);
    FourFields(s.name, s.version, s.queueGroup, EndpointsText(s.endpoints),
               t.name, t.version, t.queueGroup, EndpointsText(t.endpoints));
  }

  lemma SameEndpoint(e: Endpoint, f: Endpoint)
    requires UnitFree(e) && EndpointRecord(e) == EndpointRecord(f)
    ensures e == f
  {
    EndpointUnits(e);
    UnitsEndpoint(f);
    UnitsFree(f.name);
    UnitsFree(f.subject);
    UnitsFree(f.point);
    JoinInjective([e.name, e.subject, e.point], [f.name, f.subject, f.point], UNIT);
  }

  // ----- what any other service shares its record with

  lemma CutAt(text: string, c: char) returns (x: string, y: string)
    requires c in text
    ensures text == x + [c] + y
  {
    var k :| 0 <= k < |text| && text[k] == c;
    x, y := text[..k], text[k + 1..];
  }

  lemma OneOther(es: seq<Endpoint>, e: Endpoint, f: Endpoint)
    requires es == [e] && e != f
    ensures multiset(es) != multiset([f])
  {
    assert f in multiset([f]) && f !in multiset(es);
  }

  /** Equal own fields in front of equal endpoint texts, however both are spelled. */
  lemma SameRecord(s: Service, t: Service)
    requires s.name + [UNIT] + s.version + [UNIT] + s.queueGroup + [UNIT] + EndpointsText(s.endpoints)
          == t.name + [UNIT] + t.version + [UNIT] + t.queueGroup + [UNIT] + EndpointsText(t.endpoints)
    ensures ServiceRecord(s) == ServiceRecord(t)
  {
    SpellBack(s.name, s.version, s.queueGroup, EndpointsText(s.endpoints));
    SpellBack(t.name, t.version, t.queueGroup, EndpointsText(t.endpoints));
  }

  lemma Moved(a: string, x: string, y: string)
    ensures a + [UNIT] + (x + [UNIT] + y) == (a + [UNIT] + x) + [UNIT] + y
  {
  }

  /** A separator in one of the own fields moves the boundary to a neighbour. */
  lemma OwnFieldShared(s: Service) returns (t: Service)
    requires UNIT in s.name || UNIT in s.version || UNIT in s.queueGroup
    ensures ServiceRecord(t) == ServiceRecord(s) && ServiceOf(t) != ServiceOf(s)
  {
    if UNIT in s.name {
      var x, y := CutAt(s.name, UNIT);
      t := s.(name := x, version := y + [UNIT] + s.version);
      Moved(x, y, s.version);
      SameRecord(s, t);
    } else if UNIT in s.version {
      var x, y := CutAt(s.version, UNIT);
      t := s.(name := s.name + [UNIT] + x, version := y);
      Moved(s.name, x, y);
      SameRecord(s, t);
    } else {
      var x, y := CutAt(s.queueGroup, UNIT);
      t := s.(version := s.version + [UNIT] + x, queueGroup := y);
      Moved(s.name + [UNIT] + s.version, x, y);
      Moved(s.name, s.version, x);
      SameRecord(s, t);
    }
  }

  /** The same among the fields of a single endpoint. */
  lemma EndpointFieldShared(e: Endpoint) returns (f: Endpoint)
    requires !UnitFree(e)
    ensures EndpointRecord(f) == EndpointRecord(e) && e != f
  {
    SpellThree(e.name, e.subject, e.point);
    if UNIT in e.name {
      var x, y := CutAt(e.name, UNIT);
      f := e.(name := x, subject := y + [UNIT] + e.subject);
      Moved(x, y, e.subject);
    } else if UNIT in e.subject {
      var x, y := CutAt(e.subject, UNIT);
      f := e.(name := e.name + [UNIT] + x, subject := y);
      Moved(e.name, x, y);
    } else {
      var x, y := CutAt(e.point, UNIT);
      f := e.(subject := e.subject + [UNIT] + x, point := y);
      Moved(e.subject, x, y);
    }
    SpellThree(f.name, f.subject, f.point);
    Moved(e.name, e.subject, e.point);
    Moved(f.name, f.subject, f.point);
  }

  lemma SingleShared(s: Service, e: Endpoint) returns (t: Service)
    requires s.endpoints == [e] && (!UnitFree(e) || e.point == "")
    ensures ServiceRecord(t) == ServiceRecord(s) && ServiceOf(t) != ServiceOf(s)
  {
    OneEndpointText(e);
    if !UnitFree(e) {
      var f := EndpointFieldShared(e);
      t := s.(endpoints := [f]);
      OneEndpointText(f);
      OneOther(s.endpoints, e, f);
    } else {
      t := s.(queueGroup := s.queueGroup + [UNIT] + e.name + [UNIT] + e.subject, endpoints := []);
      NoEndpointText();
      SpellThree(e.name, e.subject, e.point);
    }
    SameRecord(s, t);
  }

  /** The last two records of a sorted list, and whatever stands before them. */
  lemma LastTwo(items: seq<string>) returns (front: string)
    requires |items| >= 2
    ensures Join(items, RECORD) == front + items[|items| - 2] + [RECORD] + items[|items| - 1]
  {
    var n := |items| - 2;
    var tail := items[n..];
    assert tail == [items[n]] + [items[n + 1]];
    JoinCons(items[n], [items[n + 1]], RECORD);
    if n == 0 {
      front := "";
      assert items == tail;
    } else {
      JoinConcat(items[..n], tail, RECORD);
      assert items[..n] + tail == items;
      front := Join(items[..n], RECORD) + [RECORD];
    }
  }

  lemma SortedRecord(es: seq<Endpoint>, k: nat) returns (e: Endpoint)
    requires k < |es|
    ensures e in es && Sort(EndpointRecords(es))[k] == EndpointRecord(e)
  {
    var records := EndpointRecords(es);
    InMultiset(records, Sort(records));
    assert Sort(records)[k] in records;
    var j :| 0 <= j < |records| && records[j] == Sort(records)[k];
    e := es[j];
  }

  /** A service of several endpoints shares its record with one of a single endpoint, which
      has the subject and the point of one of them: all that stands before goes into the queue
      group and the endpoint's name. */
  lemma SeveralShared(s: Service) returns (t: Service, e: Endpoint, f: Endpoint)
    requires |s.endpoints| >= 2
    ensures e in s.endpoints && f in s.endpoints
    ensures t == Service(s.name, s.version, t.queueGroup, [Endpoint(e.point + [RECORD] + f.name, f.subject, f.point)])
    ensures ServiceRecord(t) == ServiceRecord(s) && ServiceOf(t) != ServiceOf(s)
  {
    var n := |s.endpoints|;
    e := SortedRecord(s.endpoints, n - 2);
    f := SortedRecord(s.endpoints, n - 1);
    var front := LastTwo(Sort(EndpointRecords(s.endpoints)));
    var g := Endpoint(e.point + [RECORD] + f.name, f.subject, f.point);
    t := Service(s.name, s.version, s.queueGroup + [UNIT] + (front + e.name + [UNIT] + e.subject), [g]);
    FusedText(front, e, f, g);
    OneEndpointText(g);
    var own := s.name + [UNIT] + s.version + [UNIT] + s.queueGroup;
    Regroup(own, front + e.name + [UNIT] + e.subject, EndpointRecord(g), EndpointsText(s.endpoints));
    assert t.name + [UNIT] + t.version + [UNIT] + t.queueGroup == own + [UNIT] + (front + e.name + [UNIT] + e.subject);
    SameRecord(s, t);
  }

  lemma Regroup(own: string, front: string, last: string, all: string)
    requires all == front + [UNIT] + last
    ensures own + [UNIT] + all == own + [UNIT] + front + [UNIT] + last
  {
  }

  lemma FusedText(front: string, e: Endpoint, f: Endpoint, g: Endpoint)
    requires g == Endpoint(e.point + [RECORD] + f.name, f.subject, f.point)
    ensures front + EndpointRecord(e) + [RECORD] + EndpointRecord(f)
         == front + e.name + [UNIT] + e.subject + [UNIT] + EndpointRecord(g)
  {
    SpellThree(e.name, e.subject, e.point);
    SpellThree(f.name, f.subject, f.point);
    SpellThree(g.name, g.subject, g.point);
  }

  /** A service is told from every other by its record exactly when it is apart. */
  lemma ServiceApartExactly(s: Service)
    ensures ServiceApart(s) <==> forall t :: ServiceRecord(t) == ServiceRecord(s) ==> ServiceOf(t) == ServiceOf(s)
  {
    if ServiceApart(s) {
      forall t | ServiceRecord(t) == ServiceRecord(s)
        ensures ServiceOf(t) == ServiceOf(s)
      {
        ApartServiceUnique(s, t);
      }
    } else {
      var t := ServiceShared(s);
      assert ServiceRecord(t) == ServiceRecord(s) && ServiceOf(t) != ServiceOf(s);
    }
  }

  lemma ServiceShared(s: Service) returns (t: Service)
    requires !ServiceApart(s)
    ensures ServiceRecord(t) == ServiceRecord(s) && ServiceOf(t) != ServiceOf(s)
  {
    if UNIT in s.name || UNIT in s.version || UNIT in s.queueGroup {
      t := OwnFieldShared(s);
    } else if |s.endpoints| == 1 {
      t := SingleShared(s, s.endpoints[0]);
    } else {
      var e, f;
      t, e, f := SeveralShared(s);
    }
  }

  // ----- streams

  /** The text is some number's. */
  ghost predicate IsNumber(t: string) {
    exists n :: Sprint(n) == t
  }

  /** Three numbers stand at this place, with a field before and a field after them. */
  ghost predicate NumbersAt(fields: seq<string>, i: nat) {
    1 <= i && i + 3 < |fields| && IsNumber(fields[i]) && IsNumber(fields[i + 1]) && IsNumber(fields[i + 2])
  }

  /** A text that is also two joined subjects, in order. */
  predicate ReadsAsList(x: string) {
    exists k :: 0 <= k < |x| && x[k] == RECORD && Leq(x[..k], x[k + 1..])
  }

  /** Three numbers stand in the record behind the name only, and the stream has one subject,
      which is neither empty nor an ordered list of two. */
  ghost predicate StreamApart(s: Stream) {
    && (forall i :: NumbersAt(Split(StreamRecord(s), UNIT), i) ==> i == |Split(s.name, UNIT)|)
    && |s.subjects| == 1 && s.subjects[0] != "" && !ReadsAsList(s.subjects[0])
  }

  function SubjectsText(subjects: seq<string>): string {
    Join(Sort(subjects), RECORD)
  }

  function Numbers(s: Stream): seq<string> {
    [Sprint(s.maxBytes), Sprint(s.maxAgeSeconds), Sprint(s.maxMsgs)]
  }

  lemma SpellNumbers(s: Stream)
    ensures Join(Numbers(s), UNIT) == Sprint(s.maxBytes) + [UNIT] + (Sprint(s.maxAgeSeconds) + [UNIT] + Sprint(s.maxMsgs))
    ensures Split(Join(Numbers(s), UNIT), UNIT) == Numbers(s)
  {
    SpellThree(Sprint(s.maxBytes), Sprint(s.maxAgeSeconds), Sprint(s.maxMsgs));
    NumbersFree(s.maxBytes, s.maxAgeSeconds, s.maxMsgs);
    SplitJoin(Numbers(s), UNIT);
  }

  lemma SpellStream(s: Stream)
    ensures StreamRecord(s) == s.name + [UNIT] + (Join(Numbers(s), UNIT) + [UNIT] + SubjectsText(s.subjects))
  {
    var b, a, m, x := Sprint(s.maxBytes), Sprint(s.maxAgeSeconds), Sprint(s.maxMsgs), SubjectsText(s.subjects);
    JoinCons(s.name, [b, a, m, x], UNIT);
    assert [s.name] + [b, a, m, x] == [s.name, b, a, m, x];
    JoinConcat([b, a, m], [x], UNIT);
    assert [b, a, m] + [x] == [b, a, m, x];
  }

  /** The separated fields of a record: the name's, three numbers, the subjects'. */
  lemma StreamFields(s: Stream)
    ensures Split(StreamRecord(s), UNIT) == Split(s.name, UNIT) + (Numbers(s) + Split(SubjectsText(s.subjects), UNIT))
  {
    SpellStream(s);
    SpellNumbers(s);
    SplitConcat(Join(Numbers(s), UNIT), UNIT, SubjectsText(s.subjects));
    SplitConcat(s.name, UNIT, Join(Numbers(s), UNIT) + [UNIT] + SubjectsText(s.subjects));
  }

  lemma NumbersBehindName(s: Stream)
    ensures NumbersAt(Split(StreamRecord(s), UNIT), |Split(s.name, UNIT)|)
  {
    StreamFields(s);
    NumbersInside(s, Split(s.name, UNIT), Split(SubjectsText(s.subjects), UNIT));
  }

  lemma NumbersInside(s: Stream, front: seq<string>, back: seq<string>)
    requires front != [] && back != []
    ensures NumbersAt(front + (Numbers(s) + back), |front|)
  {
    var fields := front + (Numbers(s) + back);
    var i := |front|;
    assert fields[i] == Sprint(s.maxBytes) && fields[i + 1] == Sprint(s.maxAgeSeconds) && fields[i + 2] == Sprint(s.maxMsgs);
  }

  /** Two streams whose record is the same and is divided at the same place. */
  lemma SamePlace(s: Stream, t: Stream)
    requires StreamRecord(s) == StreamRecord(t) && |Split(s.name, UNIT)| == |Split(t.name, UNIT)|
    ensures s.name == t.name && SubjectsText(s.subjects) == SubjectsText(t.subjects)
    ensures s.maxBytes == t.maxBytes && s.maxAgeSeconds == t.maxAgeSeconds && s.maxMsgs == t.maxMsgs
  {
    StreamFields(s);
    StreamFields(t);
    Divided(Split(s.name, UNIT), Numbers(s), Split(SubjectsText(s.subjects), UNIT),
            Split(t.name, UNIT), Numbers(t), Split(SubjectsText(t.subjects), UNIT));
    JoinSplit(s.name, UNIT);
    JoinSplit(t.name, UNIT);
    JoinSplit(SubjectsText(s.subjects), UNIT);
    JoinSplit(SubjectsText(t.subjects), UNIT);
    assert Numbers(s)[0] == Numbers(t)[0] && Numbers(s)[1] == Numbers(t)[1] && Numbers(s)[2] == Numbers(t)[2];
    SprintInjective(s.maxBytes, t.maxBytes);
    SprintInjective(s.maxAgeSeconds, t.maxAgeSeconds);
    SprintInjective(s.maxMsgs, t.maxMsgs);
  }

  lemma Divided(a: seq<string>, b: seq<string>, c: seq<string>, d: seq<string>, e: seq<string>, f: seq<string>)
    requires |a| == |d| && |b| == |e| && a + (b + c) == d + (e + f)
    ensures a == d && b == e && c == f
  {
    var all, same := a + (b + c), d + (e + f);
    assert a == all[..|a|] == same[..|a|] == d;
    assert b + c == all[|a|..] == same[|a|..] == e + f;
    assert b == (b + c)[..|b|] == (e + f)[..|b|] == e;
    assert c == (b + c)[|b|..] == (e + f)[|b|..] == f;
  }

  lemma OneSubjectText(x: string)
    ensures SubjectsText([x]) == x && SubjectsText([]) == ""
  {
    InMultiset([x], Sort([x]));
    assert Sort([x])[0] in Sort([x]);
  }

  lemma {:induction false} LeqExtended(a: string, b: string, c: string)
    requires Leq(a, b)
    ensures Leq(a, b + c)
  {
    if a != "" {
      assert (b + c)[1..] == b[1..] + c;
      if a[0] == b[0] {
        LeqExtended(a[1..], b[1..], c);
      }
    }
  }

  /** A list of several, joined in order, reads as a list of two. */
  lemma SeveralReadAsList(subjects: seq<string>)
    requires |subjects| >= 2
    ensures ReadsAsList(SubjectsText(subjects))
  {
    var l := Sort(subjects);
    SortSorted((x: string) => x, subjects);
    assert l == [l[0]] + l[1..];
    JoinCons(l[0], l[1..], RECORD);
    var rest, k := Join(l[1..], RECORD), |l[0]|;
    var text := l[0] + [RECORD] + rest;
    assert Leq(l[0], l[1]);
    LeqExtended(l[0], l[1], rest[|l[1]|..]);
    assert rest == l[1] + rest[|l[1]|..];
    assert text[..k] == l[0] && text[k + 1..] == rest && text[k] == RECORD;
  }

  /** The record of a stream apart is the record of no other stream. */
  lemma ApartStreamUnique(s: Stream, t: Stream)
    requires StreamApart(s) && StreamRecord(t) == StreamRecord(s)
    ensures StreamOf(t) == StreamOf(s)
  {
    NumbersBehindName(t);
    SamePlace(s, t);
    var x := s.subjects[0];
    assert s.subjects == [x];
    OneSubjectText(x);
    if |t.subjects| >= 2 {
      SeveralReadAsList(t.subjects);
    } else if |t.subjects| == 1 {
      OneSubjectText(t.subjects[0]);
      assert t.subjects == [t.subjects[0]];
    }
  }

  lemma JoinThree(a: seq<string>, b: seq<string>, c: seq<string>)
    requires a != [] && b != [] && c != []
    ensures Join(a + (b + c), UNIT) == Join(a, UNIT) + [UNIT] + (Join(b, UNIT) + [UNIT] + Join(c, UNIT))
  {
    JoinConcat(b, c, UNIT);
    JoinConcat(a, b + c, UNIT);
  }

  lemma InThree(fields: seq<string>, i: nat, j: nat)
    requires i <= j <= |fields|
    ensures fields[..i] + (fields[i..j] + fields[j..]) == fields
  {
  }

  lemma ThreeAt(fields: seq<string>, i: nat) returns (b: int, a: int, m: int)
    requires NumbersAt(fields, i)
    ensures fields[i..i + 3] == [Sprint(b), Sprint(a), Sprint(m)]
  {
    b :| Sprint(b) == fields[i];
    a :| Sprint(a) == fields[i + 1];
    m :| Sprint(m) == fields[i + 2];
  }

  lemma StreamOfFields(t: Stream, front: seq<string>, back: seq<string>)
    requires front != [] && back != []
    requires t.name == Join(front, UNIT) && t.subjects == [Join(back, UNIT)]
    ensures StreamRecord(t) == Join(front + (Numbers(t) + back), UNIT)
  {
    SpellStream(t);
    OneSubjectText(Join(back, UNIT));
    JoinThree(front, Numbers(t), back);
  }

  /** The stream that a record divided at another place is of. */
  lemma OtherPlaceShared(s: Stream, i: nat) returns (t: Stream)
    requires NumbersAt(Split(StreamRecord(s), UNIT), i) && i != |Split(s.name, UNIT)|
    ensures StreamRecord(t) == StreamRecord(s) && StreamOf(t) != StreamOf(s)
  {
    JoinSplit(StreamRecord(s), UNIT);
    t := FieldsShared(Split(StreamRecord(s), UNIT), i);
    OtherName(Split(StreamRecord(s), UNIT), i, s.name, t.name);
  }

  lemma FieldsShared(fields: seq<string>, i: nat) returns (t: Stream)
    requires NumbersAt(fields, i)
    ensures t.name == Join(fields[..i], UNIT) && StreamRecord(t) == Join(fields, UNIT)
  {
    var b, a, m := ThreeAt(fields, i);
    t := Stream(Join(fields[..i], UNIT), b, a, m, [Join(fields[i + 3..], UNIT)]);
    StreamOfFields(t, fields[..i], fields[i + 3..]);
    InThree(fields, i, i + 3);
  }

  lemma OtherName(fields: seq<string>, i: nat, a: string, b: string)
    requires FreeOf(fields, UNIT) && 1 <= i <= |fields| && i != |Split(a, UNIT)| && b == Join(fields[..i], UNIT)
    ensures a != b
  {
    SplitJoin(fields[..i], UNIT);
  }

  lemma SameSubjectsText(s: Stream, t: Stream)
    requires t == s.(subjects := t.subjects) && SubjectsText(t.subjects) == SubjectsText(s.subjects)
    ensures StreamRecord(t) == StreamRecord(s)
  {
    SpellStream(s);
    SpellStream(t);
  }

  lemma SortTwo(a: string, b: string)
    requires Leq(a, b)
    ensures SubjectsText([a, b]) == a + [RECORD] + b
  {
    var key := (x: string) => x;
    assert [a, b][1..] == [b] && SortBy(key, [b]) == [b] + [];
    assert Sort([a, b]) == Insert(key, a, [b]) == [a] + [b];
    JoinCons(a, [b], RECORD);
  }

  lemma OtherCount(s: Stream, t: Stream)
    requires |s.subjects| != |t.subjects|
    ensures StreamOf(t) != StreamOf(s)
  {
    assert |multiset(s.subjects)| == |s.subjects| && |multiset(t.subjects)| == |t.subjects|;
  }

  lemma SubjectsShared(s: Stream) returns (t: Stream)
    requires |s.subjects| != 1 || s.subjects[0] == "" || ReadsAsList(s.subjects[0])
    ensures StreamRecord(t) == StreamRecord(s) && StreamOf(t) != StreamOf(s)
  {
    var subjects := OtherSubjects(s.subjects);
    t := s.(subjects := subjects);
    SameSubjectsText(s, t);
    OtherCount(s, t);
  }

  lemma OtherSubjects(subjects: seq<string>) returns (other: seq<string>)
    requires |subjects| != 1 || subjects[0] == "" || ReadsAsList(subjects[0])
    ensures SubjectsText(other) == SubjectsText(subjects) && |other| != |subjects|
  {
    if |subjects| != 1 {
      other := [SubjectsText(subjects)];
      OneSubjectText(SubjectsText(subjects));
    } else {
      other := OtherThanOne(subjects[0]);
      assert subjects == [subjects[0]];
    }
  }

  lemma AsList(x: string) returns (a: string, b: string)
    requires ReadsAsList(x)
    ensures x == a + [RECORD] + b && Leq(a, b)
  {
    var k :| 0 <= k < |x| && x[k] == RECORD && Leq(x[..k], x[k + 1..]);
    a, b := x[..k], x[k + 1..];
  }

  lemma OtherThanOne(x: string) returns (other: seq<string>)
    requires x == "" || ReadsAsList(x)
    ensures SubjectsText(other) == SubjectsText([x]) && |other| != 1
  {
    OneSubjectText(x);
    if x == "" {
      other := [];
    } else {
      var a, b := AsList(x);
      other := [a, b];
      SortTwo(a, b);
    }
  }

  /** A stream is told from every other by its record exactly when it is apart. */
  lemma StreamApartExactly(s: Stream)
    ensures StreamApart(s) <==> forall t :: StreamRecord(t) == StreamRecord(s) ==> StreamOf(t) == StreamOf(s)
  {
    if StreamApart(s) {
      forall t | StreamRecord(t) == StreamRecord(s)
        ensures StreamOf(t) == StreamOf(s)
      {
        ApartStreamUnique(s, t);
      }
    } else {
      var t := StreamShared(s);
      assert StreamRecord(t) == StreamRecord(s) && StreamOf(t) != StreamOf(s);
    }
  }

  lemma StreamShared(s: Stream) returns (t: Stream)
    requires !StreamApart(s)
    ensures StreamRecord(t) == StreamRecord(s) && StreamOf(t) != StreamOf(s)
  {
    if |s.subjects| != 1 || s.subjects[0] == "" || ReadsAsList(s.subjects[0]) {
      t := SubjectsShared(s);
    } else {
      var i :| NumbersAt(Split(StreamRecord(s), UNIT), i) && i != |Split(s.name, UNIT)|;
      t := OtherPlaceShared(s, i);
    }
  }

  /** A name without the separator and one subject without either are enough. */
  lemma PlainStreamApart(s: Stream)
    requires UNIT !in s.name && |s.subjects| == 1 && s.subjects[0] != "" && Free(s.subjects[0])
    ensures StreamApart(s)
  {
    var x := s.subjects[0];
    assert s.subjects == [x];
    StreamFields(s);
    OneSubjectText(x);
    SplitFree(s.name, UNIT);
    SplitFree(x, UNIT);
  }
}
