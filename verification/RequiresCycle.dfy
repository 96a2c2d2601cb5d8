/** Cycle (plugin/compose.go): the coloured depth-first search that refuses manifests whose
    requires graph has a cycle, and returns one. */
module RequiresCycle {
  import opened Strings
  import opened Walks

  type Requires = Graph<string>

  // ----- the search

  datatype Color = White | Gray | Black

  class Search {
    const graph: Requires
    var color: map<string, Color>
    var stack: seq<string>
    var found: seq<string>
    ghost var order: seq<string>

    constructor (g: Requires)
      ensures graph == g && color == map[] && stack == [] && order == []
    {
      graph := g;
      color := map[];
      stack, found := [], [];
      order := [];
    }

    function ColorOf(n: string): Color
      reads this
    {
      if n in color then color[n] else White
    }

    /** Gray nodes are the stack, black ones the finishing order; the stack is a walk. */
    ghost predicate Valid()
      reads this
    {
      && (forall n :: n in color ==> color[n] != White)
      && (forall n :: ColorOf(n) == Gray <==> n in stack)
      && (forall n :: ColorOf(n) == Black <==> n in order)
      && NoRepeats(stack) && IsWalk(graph, stack)
      && (forall n :: n in stack ==> n in Nodes(graph))
      && Finished(graph, order)
    }

    /** The walk the stack holds from `nxt` on, closed by the edge back to `nxt`. */
    method Close(nxt: string)
      requires Valid() && stack != [] && ColorOf(nxt) == Gray
      requires nxt in Next(graph, stack[|stack| - 1])
      modifies this`found
      ensures SimpleCycle(graph, found)
    {
      for i := 0 to |stack|
        invariant nxt !in stack[..i]
      {
        if stack[i] == nxt {
          found := stack[i..];
          ghost var tail := found;
          found := found + [nxt];
          forall k | 0 <= k < |found| - 1
            ensures found[k + 1] in Next(graph, found[k])
          {
            assert found[k] == stack[i + k];
            if k + 1 < |found| - 1 {
              assert found[k + 1] == stack[i + k + 1];
            }
          }
          assert found[..|found| - 1] == tail;
          return;
        }
      }
      // The source's fallback for a gray node that is not on the stack.
      assert false;
    }

    method Enter(n: string)
      requires Valid() && ColorOf(n) == White && n in Nodes(graph)
      requires stack != [] ==> n in Next(graph, stack[|stack| - 1])
      modifies this
      ensures Valid() && stack == old(stack) + [n] && order == old(order)
      ensures color == old(color)[n := Gray]
    {
      color := color[n := Gray];
      stack := stack + [n];
    }

    method Leave(n: string)
      requires Valid() && stack != [] && stack[|stack| - 1] == n
      requires forall b :: b in Next(graph, n) ==> b in order
      modifies this
      ensures Valid() && stack == old(stack)[..|old(stack)| - 1] && order == old(order) + [n]
      ensures color == old(color)[n := Black]
    {
      var below := stack[..|stack| - 1];
      assert stack == below + [n];
      assert forall k :: 0 <= k < |below| ==> below[k] == stack[k] && below[k] != n;
      FinishedSnoc(graph, order, n);
      stack := below;
      color := color[n := Black];
      order := order + [n];
      forall m
        ensures ColorOf(m) == Gray <==> m in stack
      {
        assert m != n ==> ColorOf(m) == old(ColorOf(m));
        assert m in old(stack) <==> m in below || m == n;
      }
    }

    /** One node turns gray, is walked, and turns black. */
    method Visit(n: string) returns (cyclic: bool)
      requires Valid() && ColorOf(n) == White && n in Nodes(graph)
      requires stack != [] ==> n in Next(graph, stack[|stack| - 1])
      modifies this
      ensures cyclic ==> SimpleCycle(graph, found)
      ensures !cyclic ==> Valid() && stack == old(stack) && n in order
      ensures !cyclic ==> old(order) <= order && old(color.Keys) <= color.Keys
      decreases Nodes(graph) - color.Keys, 0
    {
      Enter(n);
      cyclic := FollowAll();
      if !cyclic {
        assert stack[..|stack| - 1] == old(stack);
        ghost var before := order;
        Leave(n);
        assert before <= order && order[|before|] == n;
      }
    }

    /** Every edge from the top of the stack. */
    method FollowAll() returns (cyclic: bool)
      requires Valid() && stack != []
      modifies this
      ensures cyclic ==> SimpleCycle(graph, found)
      ensures !cyclic ==> Valid() && stack == old(stack) && old(order) <= order && old(color.Keys) <= color.Keys
      ensures !cyclic ==> forall b :: b in Next(graph, stack[|stack| - 1]) ==> b in order
      decreases Nodes(graph) - color.Keys, 2
    {
      var required := Next(graph, stack[|stack| - 1]);
      for i := 0 to |required|
        invariant Valid() && stack == old(stack)
        invariant old(order) <= order && old(color.Keys) <= color.Keys
        invariant forall k :: 0 <= k < i ==> required[k] in order
      {
        ghost var before := order;
        var deeper := Follow(required[i]);
        if deeper {
          return true;
        }
        PrefixKeeps(before, order);
      }
      return false;
    }

    /** One edge from the top of the stack. */
    method Follow(nxt: string) returns (cyclic: bool)
      requires Valid() && stack != [] && nxt in Next(graph, stack[|stack| - 1])
      modifies this
      ensures cyclic ==> SimpleCycle(graph, found)
      ensures !cyclic ==> Valid() && stack == old(stack) && nxt in order
      ensures !cyclic ==> old(order) <= order && old(color.Keys) <= color.Keys
      decreases Nodes(graph) - color.Keys, 1
    {
      match ColorOf(nxt) {
        case Gray =>
          Close(nxt);
          return true;
        case White =>
          assert nxt in Nodes(graph);
          cyclic := Visit(nxt);
        case Black =>
          return false;
      }
    }

    /** The outer loop over the keys, in no particular order. */
    method Run() returns (cyclic: bool)
      requires Valid() && stack == [] && order == []
      modifies this
      ensures cyclic ==> SimpleCycle(graph, found)
      ensures !cyclic ==> Finished(graph, order) && forall n :: n in graph ==> n in order
    {
      var todo := graph.Keys;
      while todo != {}
        invariant Valid() && stack == [] && todo <= graph.Keys
        invariant forall n :: n in graph && n !in todo ==> n in order
      {
        var n :| n in todo;
        todo := todo - {n};
        if ColorOf(n) == White {
          var found := Visit(n);
          if found {
            return true;
          }
        }
      }
      return false;
    }
  }

  /** Cycle: a simple cycle of the graph, or None when the graph has no closed walk. */
  method Cycle(graph: Requires) returns (r: Option<seq<string>>)
    ensures r.Some? ==> SimpleCycle(graph, r.value)
    ensures r.Some? <==> exists w :: ClosedWalk(graph, w)
  {
    var search := new Search(graph);
    var cyclic := search.Run();
    if cyclic {
      return Some(search.found);
    }
    forall w
      ensures !ClosedWalk(graph, w)
    {
      FinishedIsAcyclic(graph, search.order, w);
    }
    return None;
  }
}
