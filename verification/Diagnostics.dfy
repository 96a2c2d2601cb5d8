/** The collector the manifest rules report into (v2/plugin/diagnostic.go). A finding keeps
    its code, the part of the manifest it is about, the index in that part and the pattern offered as
    evidence; wording and severity are not part of the model. */
module Diagnostics {

  datatype Code =
    | BDP2004 | BDP2060 | BDP2061 | BDP2062 | BDP2063 | BDP2064
    | BDP2110 | BDP2111 | BDP2112 | BDP2113 | BDP2114 | BDP2115
    | BDP2120 | BDP2121 | BDP2122 | BDP2123 | BDP2124

  datatype Place = Id | Publish | Subscribe | Request | Serves | Panels

  datatype Finding = Finding(code: Code, place: Place, index: int, evidence: string)

  class Collector {
    var list: seq<Finding>

    constructor ()
      ensures list == []
    {
      list := [];
    }

    method Add(code: Code, place: Place, index: int, evidence: string)
      modifies this
      ensures list == old(list) + [Finding(code, place, index, evidence)]
    {
      list := list + [Finding(code, place, index, evidence)];
    }
  }

  lemma InTwo(a: seq<Finding>, b: seq<Finding>, f: Finding)
    ensures f in a + b <==> f in a || f in b
  {
  }

  /** What grows by one condition at a time holds once one of them does. */
  lemma {:induction false} Accumulates(held: seq<bool>, at: seq<bool>)
    requires |held| == |at| + 1 && !held[0]
    requires forall k :: 0 <= k < |at| ==> (held[k + 1] <==> held[k] || at[k])
    ensures held[|at|] <==> exists k :: 0 <= k < |at| && at[k]
  {
    if at != [] {
      var n := |at| - 1;
      Accumulates(held[..n + 1], at[..n]);
      assert held[n + 1] <==> held[n] || at[n];
    }
  }
}
