/** Reachability in a directed graph given by its edge list, and the depth-first search for it. */
module GraphSearch {

  type Edges = seq<(nat, nat)>

  ghost predicate IsWalk(edges: Edges, walk: seq<nat>) {
    walk != [] && forall k :: 0 <= k < |walk| - 1 ==> (walk[k], walk[k + 1]) in edges
  }

  ghost predicate WalkFromTo(edges: Edges, walk: seq<nat>, a: nat, b: nat) {
    IsWalk(edges, walk) && walk[0] == a && walk[|walk| - 1] == b
  }

  ghost predicate Connected(edges: Edges, a: nat, b: nat) {
    exists walk :: WalkFromTo(edges, walk, a, b)
  }

  lemma ConnectedSelf(edges: Edges, a: nat)
    ensures Connected(edges, a, a)
  {
    assert WalkFromTo(edges, [a], a, a);
  }

  lemma ConnectedStep(edges: Edges, a: nat, b: nat, c: nat)
    requires Connected(edges, a, b) && (b, c) in edges
    ensures Connected(edges, a, c)
  {
    var walk :| WalkFromTo(edges, walk, a, b);
    assert WalkFromTo(edges, walk + [c], a, c);
  }

  /** No walk leaves a set that no edge leaves. */
  lemma {:induction false} WalkStaysInside(edges: Edges, inside: set<nat>, walk: seq<nat>)
    requires IsWalk(edges, walk) && walk[0] in inside
    requires forall e :: e in edges && e.0 in inside ==> e.1 in inside
    ensures walk[|walk| - 1] in inside
  {
    if |walk| > 1 {
      assert (walk[0], walk[1]) in edges;
      forall k | 0 <= k < |walk| - 2
        ensures (walk[1..][k], walk[1..][k + 1]) in edges
      {
        assert (walk[k + 1], walk[k + 2]) in edges;
      }
      WalkStaysInside(edges, inside, walk[1..]);
    }
  }

  function Below(n: nat): (r: set<nat>)
    ensures forall i: nat :: i in r <==> i < n
  {
    if n == 0 then {} else Below(n - 1) + {n - 1}
  }

  /** Push every successor of `node` that is not discovered yet, the latest edge first. */
  method PushSuccessors(edges: Edges, stack: seq<nat>, discovered: set<nat>, node: nat) returns (grown: seq<nat>)
    ensures stack <= grown
    ensures forall i :: i in grown ==> i in stack || (node, i) in edges
    ensures forall e :: e in edges && e.0 == node ==> e.1 in discovered || e.1 in grown
  {
    grown := stack;
    for k := |edges| downto 0
      invariant stack <= grown
      invariant forall i :: i in grown ==> i in stack || (node, i) in edges
      invariant forall e :: e in edges[k..] && e.0 == node ==> e.1 in discovered || e.1 in grown
    {
      var edge := edges[k];
      assert edges[k..] == [edge] + edges[k + 1..];
      if edge.0 == node && edge.1 !in discovered {
        assert (node, edge.1) == edge;
        grown := grown + [edge.1];
      }
    }
  }

  /** Visit nodes depth first from `start` until `goal` turns up or nothing is left. */
  method Search(edges: Edges, count: nat, start: nat, goal: nat) returns (found: bool)
    requires start < count
    requires forall e :: e in edges ==> e.1 < count
    ensures found <==> Connected(edges, start, goal)
  {
    ConnectedSelf(edges, start);
    var stack: seq<nat>, discovered: set<nat> := [start], {};
    ghost var undiscovered := Below(count);
    while stack != []
      invariant forall i :: i in stack ==> i < count && Connected(edges, start, i)
      invariant forall i: nat :: i < count ==> i in discovered || i in undiscovered
      invariant start in discovered || start in stack
      invariant goal !in discovered
      invariant forall e :: e in edges && e.0 in discovered ==> e.1 in discovered || e.1 in stack
      decreases undiscovered, |stack|
    {
      var node := stack[|stack| - 1];
      assert node in stack && node < count;
      ghost var before := stack;
      stack := stack[..|stack| - 1];
      assert before == stack + [node];
      assert forall i :: i in stack ==> i in before;
      if node !in discovered {
        ghost var rest, left := stack, undiscovered - {node};
        assert node in undiscovered && node !in left;
        assert left < undiscovered;
        discovered, undiscovered := discovered + {node}, left;
        stack := PushSuccessors(edges, stack, discovered, node);
        forall i | i in stack
          ensures i < count && Connected(edges, start, i)
        {
          if i !in rest {
            assert (node, i) in edges;
            ConnectedStep(edges, start, node, i);
          }
        }
        if node == goal {
          return true;
        }
      }
    }
    if Connected(edges, start, goal) {
      var walk :| WalkFromTo(edges, walk, start, goal);
      WalkStaysInside(edges, discovered, walk);
    }
    return false;
  }
}
