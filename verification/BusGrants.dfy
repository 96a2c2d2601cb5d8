/** Effective grants of a principal (v2/bus/identity.go) and the implicit grant every plugin
    has over its own namespace (v2/plugin/manifest.go). */
module BusGrants {
  import opened Strings
  import opened Subjects
  import opened PatternLaws

  const GRANT_PUBLISH := "publish"
  const GRANT_SUBSCRIBE := "subscribe"
  const GRANT_REQUEST := "request"
  const GRANT_SERVE := "serve"

  datatype Grants = Grants(publish: seq<string>, subscribe: seq<string>, request: seq<string>, serves: seq<string>)
  {
    /** The list a grant kind reads; an unknown kind reads nothing. */
    function List(kind: string): seq<string> {
      if kind == GRANT_PUBLISH then publish
      else if kind == GRANT_SUBSCRIBE then subscribe
      else if kind == GRANT_REQUEST then request
      else if kind == GRANT_SERVE then serves
      else []
    }

    /** Some grant of this kind matches the subject. */
    predicate Admits(kind: string, s: seq<string>) {
      exists k :: 0 <= k < |List(kind)| && MatchesTokens(Tokens(List(kind)[k]), s)
    }

    method Can(kind: string, s: string) returns (r: bool)
      ensures r <==> Admits(kind, Tokens(s))
    {
      r := MatchedByAny(List(kind), s);
    }

    /** A whole pattern is admitted only by one grant that contains it: there is no
        narrowing and no union of grants. */
    method CanPattern(kind: string, p: string) returns (r: bool)
      ensures r <==> exists k :: 0 <= k < |List(kind)| && CoversTokens(Tokens(List(kind)[k]), Tokens(p))
      ensures r ==> forall s :: MatchesTokens(Tokens(p), s) ==> Admits(kind, s)
    {
      r := CoveredByAny(List(kind), p);
      if r {
        var k :| 0 <= k < |List(kind)| && CoversTokens(Tokens(List(kind)[k]), Tokens(p));
        forall s | MatchesTokens(Tokens(p), s)
          ensures Admits(kind, s)
        {
          CoversSound(Tokens(List(kind)[k]), Tokens(p), s);
        }
      }
    }
  }

  /** For a concrete subject the two preflight questions are one. */
  lemma CanIsCanPatternOnSubjects(g: Grants, kind: string, s: string)
    requires IsSubjectTokens(Tokens(s))
    ensures g.Admits(kind, Tokens(s)) <==>
            exists k :: 0 <= k < |g.List(kind)| && CoversTokens(Tokens(g.List(kind)[k]), Tokens(s))
  {
    forall i | 0 <= i < |Tokens(s)|
      ensures Tokens(s)[i] != TAIL
    {
      assert GoodToken(Tokens(s)[i], IsReservedToken(Tokens(s)[0]), false, i == |Tokens(s)| - 1);
    }
    forall k | 0 <= k < |g.List(kind)|
      ensures CoversTokens(Tokens(g.List(kind)[k]), Tokens(s)) <==> MatchesTokens(Tokens(g.List(kind)[k]), Tokens(s))
    {
      CoversIsMatches(Tokens(g.List(kind)[k]), Tokens(s));
    }
  }

  // ----- the own namespace

  function OwnNamespace(rawId: string): Grants {
    var id := TrimSpace(rawId);
    if id == "" then Grants([], [], [], [])
    else Grants(
           ["event." + id + ".>", "tick." + id + ".>"],
           ["tick." + id + ".>", "_INBOX." + id + ".>"],
           [],
           ["cmd." + id + ".>", "svc." + id + ".>"])
  }

  /** The own namespace as one list without repetition. */
  function OwnPatterns(rawId: string): seq<string> {
    var id := TrimSpace(rawId);
    if id == "" then []
    else ["event." + id + ".>", "tick." + id + ".>", "_INBOX." + id + ".>", "cmd." + id + ".>", "svc." + id + ".>"]
  }

  function Add(out: seq<string>, p: string): seq<string> {
    if p in out then out else out + [p]
  }

  function AddAll(out: seq<string>, list: seq<string>): seq<string>
    decreases list
  {
    if list == [] then out else AddAll(Add(out, list[0]), list[1..])
  }

  function AddLists(out: seq<string>, lists: seq<seq<string>>): seq<string>
    decreases lists
  {
    if lists == [] then out else AddLists(AddAll(out, lists[0]), lists[1..])
  }

  /** ownNamespacePatterns: flattens the three lists, dropping what was already seen. */
  method OwnNamespacePatterns(id: string) returns (out: seq<string>)
    ensures out == OwnPatterns(id)
  {
    var g := OwnNamespace(id);
    FlattenedOwn(id);
    out := Flatten([g.publish, g.subscribe, g.serves]);
  }

  method Flatten(lists: seq<seq<string>>) returns (out: seq<string>)
    ensures out == AddLists([], lists)
  {
    out := [];
    var seen: set<string> := {};
    for i := 0 to |lists|
      invariant seen == set p | p in out
      invariant AddLists(out, lists[i..]) == AddLists([], lists)
    {
      var list := lists[i];
      assert lists[i..][1..] == lists[i + 1..];
      for j := 0 to |list|
        invariant seen == set p | p in out
        invariant AddLists(AddAll(out, list[j..]), lists[i + 1..]) == AddLists([], lists)
      {
        assert list[j..][1..] == list[j + 1..];
        if list[j] !in seen {
          seen := seen + {list[j]};
          out := out + [list[j]];
        }
      }
    }
  }

  lemma AddTwo(out: seq<string>, a: string, b: string)
    ensures AddAll(out, [a, b]) == Add(Add(out, a), b)
  {
    assert [a, b][1..] == [b];
    assert AddAll(Add(out, a), [b]) == Add(Add(out, a), b);
  }

  lemma AddThree(out: seq<string>, a: seq<string>, b: seq<string>, c: seq<string>)
    ensures AddLists(out, [a, b, c]) == AddAll(AddAll(AddAll(out, a), b), c)
  {
    assert [a, b, c][1..] == [b, c] && [b, c][1..] == [c];
    assert AddLists(out, [a, b, c]) == AddLists(AddAll(out, a), [b, c]);
    assert AddLists(AddAll(out, a), [b, c]) == AddLists(AddAll(AddAll(out, a), b), [c]);
  }

  lemma FlattenFive(e: string, t: string, x: string, c: string, s: string)
    requires e != t && x !in [e, t] && c !in [e, t, x] && s !in [e, t, x, c]
    ensures AddLists([], [[e, t], [t, x], [c, s]]) == [e, t, x, c, s]
  {
    AddThree([], [e, t], [t, x], [c, s]);
    AddTwo([], e, t);
    AddTwo([e, t], t, x);
    AddTwo([e, t, x], c, s);
    assert Add(Add([], e), t) == [e, t];
    assert Add(Add([e, t], t), x) == [e, t, x];
    assert Add(Add([e, t, x], c), s) == [e, t, x, c, s];
  }

  lemma FirstCharsDiffer(e: string, t: string, x: string, c: string, s: string)
    requires e != "" && t != "" && x != "" && c != "" && s != ""
    requires e[0] == 'e' && t[0] == 't' && x[0] == '_' && c[0] == 'c' && s[0] == 's'
    ensures e != t && x !in [e, t] && c !in [e, t, x] && s !in [e, t, x, c]
  {
  }

  lemma FlattenedOwn(rawId: string)
    ensures var g := OwnNamespace(rawId);
            AddLists([], [g.publish, g.subscribe, g.serves]) == OwnPatterns(rawId)
  {
    var id := TrimSpace(rawId);
    if id == "" {
      AddThree([], [], [], []);
    } else {
      var e, t, x, c, s := "event." + id + ".>", "tick." + id + ".>", "_INBOX." + id + ".>", "cmd." + id + ".>", "svc." + id + ".>";
      FirstCharsDiffer(e, t, x, c, s);
      FlattenFive(e, t, x, c, s);
    }
  }
}
