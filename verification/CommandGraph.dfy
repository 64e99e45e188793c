/** The command graph: nodes and typed edges that the builder only ever adds to. */
module CommandGraph {
  import opened Wrappers
  import opened ScopeGraph

  datatype NodeData = Root | Literal(name: string) | Argument(name: string)

  datatype CommandNode = CommandNode(executable: bool, data: NodeData, scopes: seq<string>)

  datatype EdgeKind = Redirect | Child

  datatype Edge = Edge(source: nat, target: nat, kind: EdgeKind)

  datatype CommandGraph = CommandGraph(nodes: seq<CommandNode>, edges: seq<Edge>, root: nat)

  ghost predicate WellFormed(g: CommandGraph) {
    && g.root < |g.nodes|
    && forall e :: e in g.edges ==> e.source < |g.nodes| && e.target < |g.nodes|
  }

  /** The edges out of `n` in the order the graph library lists them: the latest added first. */
  function Outgoing(edges: seq<Edge>, n: nat): seq<Edge> {
    if edges == [] then []
    else
      var last := edges[|edges| - 1];
      (if last.source == n then [last] else []) + Outgoing(edges[..|edges| - 1], n)
  }

  /** The kind of the first edge ever added from `a` to `b`. */
  function FirstKind(edges: seq<Edge>, a: nat, b: nat): Option<EdgeKind> {
    if edges == [] then None
    else if edges[0].source == a && edges[0].target == b then Some(edges[0].kind)
    else FirstKind(edges[1..], a, b)
  }

  ghost predicate HasEdge(g: CommandGraph, a: nat, b: nat) {
    FirstKind(g.edges, a, b).Some?
  }

  lemma {:induction false} FirstKindFound(edges: seq<Edge>, a: nat, b: nat)
    ensures FirstKind(edges, a, b).Some? <==> exists e :: e in edges && e.source == a && e.target == b
  {
    if edges != [] {
      FirstKindFound(edges[1..], a, b);
      assert edges == [edges[0]] + edges[1..];
    }
  }

  /** Appending an edge shows only where no edge was. */
  lemma {:induction false} FirstKindAppend(edges: seq<Edge>, e: Edge, a: nat, b: nat)
    ensures FirstKind(edges + [e], a, b) ==
            if FirstKind(edges, a, b).Some? then FirstKind(edges, a, b)
            else if e.source == a && e.target == b then Some(e.kind) else None
  {
    if edges == [] {
      assert (edges + [e])[1..] == [];
    } else {
      assert (edges + [e])[1..] == edges[1..] + [e];
      FirstKindAppend(edges[1..], e, a, b);
    }
  }

  /** Among the listed edges from `n` to `b`, the last one is the first ever added. */
  lemma {:induction false} OutgoingLast(edges: seq<Edge>, n: nat, k: nat) returns (j: nat)
    requires k < |Outgoing(edges, n)|
    ensures Outgoing(edges, n)[k] in edges && Outgoing(edges, n)[k].source == n
    ensures k <= j < |Outgoing(edges, n)|
    ensures Outgoing(edges, n)[j].source == n && Outgoing(edges, n)[j].target == Outgoing(edges, n)[k].target
    ensures FirstKind(edges, n, Outgoing(edges, n)[k].target) == Some(Outgoing(edges, n)[j].kind)
  {
    var front, last := edges[..|edges| - 1], edges[|edges| - 1];
    assert edges == front + [last];
    var b := Outgoing(edges, n)[k].target;
    FirstKindAppend(front, last, n, b);
    if last.source != n {
      j := OutgoingLast(front, n, k);
    } else if k > 0 {
      j := OutgoingLast(front, n, k - 1);
      j := j + 1;
    } else if FirstKind(front, n, b).None? {
      j := 0;
    } else {
      var i := OutgoingFinds(front, n, b);
      j := OutgoingLast(front, n, i);
      j := j + 1;
    }
  }

  /** Every edge out of `n` is listed. */
  lemma {:induction false} OutgoingFinds(edges: seq<Edge>, n: nat, b: nat) returns (i: nat)
    requires FirstKind(edges, n, b).Some?
    ensures i < |Outgoing(edges, n)| && Outgoing(edges, n)[i].target == b
  {
    var front, last := edges[..|edges| - 1], edges[|edges| - 1];
    assert edges == front + [last];
    FirstKindAppend(front, last, n, b);
    if FirstKind(front, n, b).Some? {
      i := OutgoingFinds(front, n, b);
      i := if last.source == n then i + 1 else i;
    } else {
      i := 0;
    }
  }

  // ---- Permission and the permitted part ----

  /** A node without scopes is open to all; otherwise one of them must be granted. */
  ghost predicate Allowed(scopes: Scopes, client: seq<string>, node: CommandNode) {
    node.scopes == [] || exists need, have :: need in node.scopes && have in client && Grants(scopes, have, need)
  }

  ghost function AllowedNodes(g: CommandGraph, scopes: Scopes, client: seq<string>): set<nat> {
    set n: nat | 0 <= n < |g.nodes| && Allowed(scopes, client, g.nodes[n])
  }

  /** A walk from the root through allowed nodes only. */
  ghost predicate PermittedWalk(g: CommandGraph, allowed: set<nat>, walk: seq<nat>) {
    && walk != [] && walk[0] == g.root
    && (forall k :: 0 <= k < |walk| ==> walk[k] in allowed)
    && (forall k :: 0 <= k < |walk| - 1 ==> HasEdge(g, walk[k], walk[k + 1]))
  }

  ghost predicate Kept(g: CommandGraph, allowed: set<nat>, n: nat) {
    exists walk :: PermittedWalk(g, allowed, walk) && walk[|walk| - 1] == n
  }

  lemma KeptRoot(g: CommandGraph, allowed: set<nat>)
    requires g.root in allowed
    ensures Kept(g, allowed, g.root)
  {
    assert PermittedWalk(g, allowed, [g.root]);
  }

  lemma KeptStep(g: CommandGraph, allowed: set<nat>, a: nat, b: nat)
    requires Kept(g, allowed, a) && HasEdge(g, a, b) && b in allowed
    ensures Kept(g, allowed, b)
  {
    var walk :| PermittedWalk(g, allowed, walk) && walk[|walk| - 1] == a;
    assert PermittedWalk(g, allowed, walk + [b]);
  }

  /** Kept nodes all lie in any set that holds the root and that no permitted edge leaves. */
  lemma {:induction false} KeptInside(g: CommandGraph, allowed: set<nat>, inside: set<nat>, walk: seq<nat>)
    requires PermittedWalk(g, allowed, walk)
    requires g.root in inside
    requires forall a, b :: a in inside && HasEdge(g, a, b) && b in allowed ==> b in inside
    ensures walk[|walk| - 1] in inside
  {
    if |walk| > 1 {
      var front := walk[..|walk| - 1];
      assert PermittedWalk(g, allowed, front) by {
        forall k | 0 <= k < |front| - 1
          ensures HasEdge(g, front[k], front[k + 1])
        {
          assert HasEdge(g, walk[k], walk[k + 1]);
        }
      }
      KeptInside(g, allowed, inside, front);
      assert HasEdge(g, walk[|walk| - 2], walk[|walk| - 1]);
    }
  }
}
