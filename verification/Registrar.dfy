/** The local containment gate for endpoints (v2/plugin/typed.go). */
module Registrar {
  import opened Strings
  import opened Subjects

  datatype FaultCode = FaultSchema | FaultDenied | FaultConflict

  datatype EndpointSpec = EndpointSpec(name: string, subject: string, hasHandler: bool)

  predicate CoveredBySome(serves: seq<string>, subject: string) {
    exists k :: 0 <= k < |serves| && CoversTokens(Tokens(serves[k]), Tokens(subject))
  }

  /** An endpoint that may be mounted, as long as its subject is still free. */
  predicate Admissible(serves: seq<string>, e: EndpointSpec) {
    e.subject != "" && e.hasHandler && CoveredBySome(serves, e.subject)
  }

  predicate Holds(endpoints: seq<EndpointSpec>, subject: string) {
    exists k :: 0 <= k < |endpoints| && endpoints[k].subject == subject
  }

  class Registrar {
    const serves: seq<string>
    var endpoints: seq<EndpointSpec>

    /** NewRegistrar: the list is copied, so the caller cannot widen it afterwards. */
    constructor (serves: seq<string>)
      ensures this.serves == serves && endpoints == [] && Valid()
    {
      this.serves := serves;
      endpoints := [];
    }

    /** Only covered endpoints, no two on one subject. */
    ghost predicate Valid()
      reads this
    {
      && (forall i :: 0 <= i < |endpoints| ==> Admissible(serves, endpoints[i]))
      && (forall i, j :: 0 <= i < j < |endpoints| ==> endpoints[i].subject != endpoints[j].subject)
    }

    method Mount(e: EndpointSpec) returns (fault: Option<FaultCode>)
      requires Valid()
      modifies this
      ensures Valid()
      ensures fault == None <==> Admissible(serves, e) && !Holds(old(endpoints), e.subject)
      ensures fault == Some(FaultSchema) <==> e.subject == "" || !e.hasHandler
      ensures fault == Some(FaultDenied) <==>
              e.subject != "" && e.hasHandler && !exists k :: 0 <= k < |serves| && CoversTokens(Tokens(serves[k]), Tokens(e.subject))
      ensures fault == Some(FaultConflict) <==> Admissible(serves, e) && Holds(old(endpoints), e.subject)
      ensures endpoints == if fault == None then old(endpoints) + [e] else old(endpoints)
    {
      if e.subject == "" {
        return Some(FaultSchema);
      }
      if !e.hasHandler {
        return Some(FaultSchema);
      }
      var covered := CoveredByAny(serves, e.subject);
      if !covered {
        return Some(FaultDenied);
      }
      for k := 0 to |endpoints|
        invariant forall j :: 0 <= j < k ==> endpoints[j].subject != e.subject
      {
        if endpoints[k].subject == e.subject {
          return Some(FaultConflict);
        }
      }
      endpoints := endpoints + [e];
      return None;
    }

    /** A run of Mount calls, each answered as it comes. */
    method MountAll(es: seq<EndpointSpec>)
      requires Valid() && endpoints == []
      modifies this
      ensures Valid() && endpoints == Mounted(serves, es)
    {
      for i := 0 to |es|
        invariant Valid() && endpoints == Mounted(serves, es[..i])
      {
        assert es[..i + 1][..i] == es[..i];
        var fault := Mount(es[i]);
      }
      assert es[..|es|] == es;
    }
  }

  /** What a registrar holds after a run of calls: the first admissible endpoint of each
      subject, in the order of the calls. */
  function Mounted(serves: seq<string>, es: seq<EndpointSpec>): seq<EndpointSpec> {
    if es == [] then []
    else
      var before, e := Mounted(serves, es[..|es| - 1]), es[|es| - 1];
      if Admissible(serves, e) && !Holds(before, e.subject) then before + [e] else before
  }

  /** Over any run of calls, an admissible offer leaves its subject held. */
  lemma {:induction false} OfferedIsHeld(serves: seq<string>, es: seq<EndpointSpec>, i: nat)
    requires i < |es| && Admissible(serves, es[i])
    ensures Holds(Mounted(serves, es), es[i].subject)
  {
    var n := |es| - 1;
    var before, held := Mounted(serves, es[..n]), Mounted(serves, es);
    if i < n {
      OfferedIsHeld(serves, es[..n], i);
      var k :| 0 <= k < |before| && before[k].subject == es[i].subject;
      assert held[k] == before[k];
    } else if !Holds(before, es[n].subject) {
      assert held[|before|] == es[n];
    }
  }

  /** Over any run of calls, what is held for a subject is its first admissible offer. */
  lemma {:induction false} HeldIsFirstOffer(serves: seq<string>, es: seq<EndpointSpec>, k: nat) returns (i: nat)
    requires k < |Mounted(serves, es)|
    ensures FirstOffer(serves, es, Mounted(serves, es)[k], i)
  {
    var n := |es| - 1;
    var before := Mounted(serves, es[..n]);
    if k < |before| {
      i := HeldIsFirstOffer(serves, es[..n], k);
      assert forall j :: 0 <= j <= i ==> es[..n][j] == es[j];
    } else {
      i := n;
      forall j | 0 <= j < n && Admissible(serves, es[j])
        ensures es[j].subject != es[n].subject
      {
        assert es[..n][j] == es[j];
        OfferedIsHeld(serves, es[..n], j);
      }
    }
  }

  /** Earlier calls are held earlier: mount order is call order. */
  lemma {:induction false} HeldInCallOrder(serves: seq<string>, es: seq<EndpointSpec>, n: nat)
    requires n <= |es|
    ensures Mounted(serves, es[..n]) <= Mounted(serves, es)
    decreases |es|
  {
    if n < |es| {
      var m := |es| - 1;
      assert es[..m][..n] == es[..n];
      HeldInCallOrder(serves, es[..m], n);
    } else {
      assert es[..n] == es;
    }
  }

  /** `e` is the i-th call and no earlier call offered its subject admissibly. */
  predicate FirstOffer(serves: seq<string>, es: seq<EndpointSpec>, e: EndpointSpec, i: int) {
    && 0 <= i < |es| && es[i] == e && Admissible(serves, e)
    && forall j :: 0 <= j < i ==> !(Admissible(serves, es[j]) && es[j].subject == e.subject)
  }

  /** Distinct admissible endpoints are all mounted, in order. */
  lemma {:induction false} MountedAll(serves: seq<string>, es: seq<EndpointSpec>)
    requires forall i :: 0 <= i < |es| ==> Admissible(serves, es[i])
    requires forall i, j :: 0 <= i < j < |es| ==> es[i].subject != es[j].subject
    ensures Mounted(serves, es) == es
  {
    if es != [] {
      var n := |es| - 1;
      MountedAll(serves, es[..n]);
      assert es == es[..n] + [es[n]];
    }
  }
}
