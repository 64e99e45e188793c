/** The builder of command graphs, and what every graph it makes has in common. */
module CommandBuilder {
  import opened Wrappers
  import opened CommandGraph
  import opened CommandDispatch
  import opened DispatchEnds
  import opened GraphSearch

  // ---- The shape of built graphs ----

  /** Node 0 is the root and the only one; every other node was added as the child of an older one,
      and that child edge is the first edge ever to point at it. */
  ghost predicate Built(g: CommandGraph) {
    && WellFormed(g) && g.root == 0
    && (forall n :: 0 <= n < |g.nodes| ==> (g.nodes[n].data.Root? <==> n == 0))
    && (forall k :: 0 <= k < |g.edges| && g.edges[k].kind == Child ==>
          g.edges[k].source < g.edges[k].target && FirstAt(g.edges, k))
    && (forall n: nat :: 0 < n < |g.nodes| ==> HasParent(g, n))
  }

  ghost predicate FirstAt(edges: seq<Edge>, k: nat)
    requires k < |edges|
  {
    forall j :: 0 <= j < k ==> edges[j].target != edges[k].target
  }

  ghost predicate HasParent(g: CommandGraph, n: nat) {
    exists e :: e in g.edges && e.kind == Child && e.target == n
  }

  const EMPTY_GRAPH := CommandGraph([CommandNode(false, Root, [])], [], 0)

  function AddChild(g: CommandGraph, parent: nat, data: NodeData): CommandGraph {
    g.(nodes := g.nodes + [CommandNode(false, data, [])],
       edges := g.edges + [Edge(parent, |g.nodes|, Child)])
  }

  function AddRedirect(g: CommandGraph, source: nat, target: nat): CommandGraph {
    g.(edges := g.edges + [Edge(source, target, Redirect)])
  }

  lemma AddChildBuilt(g: CommandGraph, parent: nat, data: NodeData)
    requires Built(g) && parent < |g.nodes| && !data.Root?
    ensures Built(AddChild(g, parent, data))
  {
    var after, added := AddChild(g, parent, data), Edge(parent, |g.nodes|, Child);
    assert forall e :: e in after.edges <==> e in g.edges || e == added;
    forall n: nat | 0 < n < |after.nodes|
      ensures HasParent(after, n)
    {
      if n < |g.nodes| {
        assert HasParent(g, n);
      } else {
        assert added in after.edges;
      }
    }
    forall k | 0 <= k < |after.edges| && after.edges[k].kind == Child
      ensures after.edges[k].source < after.edges[k].target && FirstAt(after.edges, k)
    {
      if k < |g.edges| {
        assert FirstAt(g.edges, k);
      } else {
        assert forall j :: 0 <= j < k ==> g.edges[j] in g.edges;
      }
    }
  }

  lemma AddRedirectBuilt(g: CommandGraph, source: nat, target: nat)
    requires Built(g) && source < |g.nodes| && target < |g.nodes|
    ensures Built(AddRedirect(g, source, target))
  {
    var after, added := AddRedirect(g, source, target), Edge(source, target, Redirect);
    assert forall e :: e in after.edges <==> e in g.edges || e == added;
    forall n: nat | 0 < n < |after.nodes|
      ensures HasParent(after, n)
    {
      assert HasParent(g, n);
    }
    forall k | 0 <= k < |after.edges| && after.edges[k].kind == Child
      ensures after.edges[k].source < after.edges[k].target && FirstAt(after.edges, k)
    {
      assert FirstAt(g.edges, k);
    }
  }

  // ---- The builder ----

  class CommandGraphBuilder {
    var commands: Commands
    var currentNode: nat

    ghost predicate Valid()
      reads this
    {
      Built(commands.graph) && currentNode < |commands.graph.nodes|
    }

    constructor ()
      ensures Valid() && currentNode == 0
      ensures commands == Commands(CommandGraph([CommandNode(false, Root, [])], [], 0), map[], {}, {})
    {
      commands, currentNode := Commands(EMPTY_GRAPH, map[], {}, {}), 0;
    }

    method AtRoot()
      requires Valid()
      modifies this`currentNode
      ensures Valid() && currentNode == commands.graph.root
    {
      currentNode := commands.graph.root;
    }

    method At(node: nat)
      requires Valid() && node < |commands.graph.nodes|
      modifies this`currentNode
      ensures Valid() && currentNode == node
    {
      currentNode := node;
    }

    /** A new literal below the current node; it becomes current. */
    method AddLiteral(name: string)
      requires Valid()
      modifies this
      ensures Valid() && currentNode == |old(commands.graph.nodes)|
      ensures var g := old(commands.graph);
        commands == old(commands).(
          graph := CommandGraph(g.nodes + [CommandNode(false, Literal(name), [])],
                                g.edges + [Edge(old(currentNode), currentNode, Child)], g.root))
    {
      AddChildBuilt(commands.graph, currentNode, Literal(name));
      var node := |commands.graph.nodes|;
      commands := commands.(graph := AddChild(commands.graph, currentNode, Literal(name)));
      currentNode := node;
    }

    /** A new argument below the current node; it becomes current. */
    method AddArgument(name: string)
      requires Valid()
      modifies this
      ensures Valid() && currentNode == |old(commands.graph.nodes)|
      ensures var g := old(commands.graph);
        commands == old(commands).(
          graph := CommandGraph(g.nodes + [CommandNode(false, Argument(name), [])],
                                g.edges + [Edge(old(currentNode), currentNode, Child)], g.root))
    {
      AddChildBuilt(commands.graph, currentNode, Argument(name));
      var node := |commands.graph.nodes|;
      commands := commands.(graph := AddChild(commands.graph, currentNode, Argument(name)));
      currentNode := node;
    }

    /** A redirect from the current node; its target becomes current. */
    method RedirectTo(node: nat)
      requires Valid() && node < |commands.graph.nodes|
      modifies this
      ensures Valid() && currentNode == node
      ensures var g := old(commands.graph);
        commands == old(commands).(
          graph := CommandGraph(g.nodes, g.edges + [Edge(old(currentNode), node, Redirect)], g.root))
    {
      AddRedirectBuilt(commands.graph, currentNode, node);
      commands := commands.(graph := AddRedirect(commands.graph, currentNode, node));
      currentNode := node;
    }

    method WithScopes(scopes: seq<string>)
      requires Valid()
      modifies this`commands
      ensures Valid()
      ensures var g := old(commands.graph);
        commands == old(commands).(
          graph := g.(nodes := g.nodes[currentNode := g.nodes[currentNode].(scopes := scopes)]))
    {
      var g := commands.graph;
      var after := g.(nodes := g.nodes[currentNode := g.nodes[currentNode].(scopes := scopes)]);
      forall n: nat | 0 < n < |after.nodes|
        ensures HasParent(after, n)
      {
        assert HasParent(g, n);
      }
      commands := commands.(graph := after);
    }

    method WithExecutable()
      requires Valid()
      modifies this`commands
      ensures Valid()
      ensures var g := old(commands.graph);
        commands == old(commands).(
          graph := g.(nodes := g.nodes[currentNode := g.nodes[currentNode].(executable := true)]),
          executables := old(commands.executables) + {currentNode})
    {
      var g := commands.graph;
      var after := g.(nodes := g.nodes[currentNode := g.nodes[currentNode].(executable := true)]);
      forall n: nat | 0 < n < |after.nodes|
        ensures HasParent(after, n)
      {
        assert HasParent(g, n);
      }
      commands := commands.(graph := after, executables := commands.executables + {currentNode});
    }
  }

  // ---- Every node can be advertised ----

  /** With every node allowed, the tree holds the whole graph: the child edges span it. */
  lemma {:induction false} EverythingKept(g: CommandGraph, allowed: set<nat>, n: nat)
    requires Built(g) && n < |g.nodes|
    requires forall i: nat :: i < |g.nodes| ==> i in allowed
    ensures Kept(g, allowed, n)
    decreases n
  {
    if n == 0 {
      KeptRoot(g, allowed);
    } else {
      assert HasParent(g, n);
      var e :| e in g.edges && e.kind == Child && e.target == n;
      EverythingKept(g, allowed, e.source);
      FirstKindFound(g.edges, e.source, n);
      KeptStep(g, allowed, e.source, n);
    }
  }

  // ---- When the tree and dispatch see different edges ----

  lemma {:induction false} FirstIndex(edges: seq<Edge>, a: nat, b: nat) returns (i: nat)
    requires FirstKind(edges, a, b).Some?
    ensures i < |edges| && edges[i].source == a && edges[i].target == b
    ensures FirstKind(edges, a, b) == Some(edges[i].kind)
    ensures forall j :: 0 <= j < i ==> edges[j].source != a || edges[j].target != b
  {
    if edges[0].source == a && edges[0].target == b {
      i := 0;
    } else {
      i := FirstIndex(edges[1..], a, b);
      assert forall j :: 0 < j < i + 1 ==> edges[j] == edges[1..][j - 1];
      i := i + 1;
    }
  }

  lemma {:induction false} LastIndex(edges: seq<Edge>, a: nat, b: nat) returns (i: nat)
    requires LastKind(edges, a, b).Some?
    ensures i < |edges| && edges[i].source == a && edges[i].target == b
    ensures LastKind(edges, a, b) == Some(edges[i].kind)
    ensures forall j :: i < j < |edges| ==> edges[j].source != a || edges[j].target != b
  {
    var front, last := edges[..|edges| - 1], edges[|edges| - 1];
    assert edges == front + [last];
    if last.source == a && last.target == b {
      i := |edges| - 1;
    } else {
      i := LastIndex(front, a, b);
    }
  }

  ghost predicate Joined(g: CommandGraph, a: nat, b: nat, kind: EdgeKind) {
    Edge(a, b, kind) in g.edges
  }

  lemma KindJoins(g: CommandGraph, a: nat, b: nat)
    requires FirstKind(g.edges, a, b).Some?
    ensures Joined(g, a, b, FirstKind(g.edges, a, b).value)
    ensures LastKind(g.edges, a, b).Some? && Joined(g, a, b, LastKind(g.edges, a, b).value)
  {
    KindsExistTogether(g.edges, a, b);
    var first := FirstIndex(g.edges, a, b);
    var last := LastIndex(g.edges, a, b);
    assert g.edges[first] == Edge(a, b, FirstKind(g.edges, a, b).value);
    assert g.edges[last] == Edge(a, b, LastKind(g.edges, a, b).value);
  }

  /** In a built graph the child edge of a pair comes first, and a redirect after it counts last. */
  lemma ChildThenRedirect(g: CommandGraph, a: nat, b: nat)
    requires Built(g) && Joined(g, a, b, Child) && Joined(g, a, b, Redirect)
    ensures FirstKind(g.edges, a, b) == Some(Child) && LastKind(g.edges, a, b) == Some(Redirect)
  {
    FirstKindFound(g.edges, a, b);
    KindsExistTogether(g.edges, a, b);
    var k :| 0 <= k < |g.edges| && g.edges[k] == Edge(a, b, Child);
    var j :| 0 <= j < |g.edges| && g.edges[j] == Edge(a, b, Redirect);
    assert FirstAt(g.edges, k);
    var first := FirstIndex(g.edges, a, b);
    var last := LastIndex(g.edges, a, b);
    assert first == k && j > k && last >= j;
  }

  /** The tree shows the first edge of a pair, dispatch goes by the last one. In a built graph the
      two kinds differ exactly for a pair joined both ways: a node redirected to its own child. */
  lemma KindsDifferIff(g: CommandGraph, a: nat, b: nat)
    requires Built(g)
    ensures FirstKind(g.edges, a, b) != LastKind(g.edges, a, b) <==> Joined(g, a, b, Child) && Joined(g, a, b, Redirect)
  {
    KindsExistTogether(g.edges, a, b);
    if Joined(g, a, b, Child) && Joined(g, a, b, Redirect) {
      ChildThenRedirect(g, a, b);
    } else if FirstKind(g.edges, a, b).Some? {
      KindJoins(g, a, b);
    }
  }

  /** Such a graph can be built. */
  lemma KindsCanDiffer()
    ensures var g := AddRedirect(AddChild(EMPTY_GRAPH, 0, Literal("tp")), 0, 1);
      Built(g) && FirstKind(g.edges, 0, 1) == Some(Child) && LastKind(g.edges, 0, 1) == Some(Redirect)
  {
    var one := AddChild(EMPTY_GRAPH, 0, Literal("tp"));
    AddChildBuilt(EMPTY_GRAPH, 0, Literal("tp"));
    AddRedirectBuilt(one, 0, 1);
    var g := AddRedirect(one, 0, 1);
    assert g.edges == [Edge(0, 1, Child), Edge(0, 1, Redirect)];
    assert Joined(g, 0, 1, Child) by { assert g.edges[0] == Edge(0, 1, Child); }
    assert Joined(g, 0, 1, Redirect) by { assert g.edges[1] == Edge(0, 1, Redirect); }
    KindsDifferIff(g, 0, 1);
  }

  // ---- When dispatch ends ----

  function RedirectPairs(edges: seq<Edge>): seq<(nat, nat)> {
    if edges == [] then []
    else (if edges[0].kind == Redirect then [(edges[0].source, edges[0].target)] else []) + RedirectPairs(edges[1..])
  }

  lemma {:induction false} RedirectPaired(edges: seq<Edge>, k: nat)
    requires k < |edges| && edges[k].kind == Redirect
    ensures (edges[k].source, edges[k].target) in RedirectPairs(edges)
  {
    if k > 0 {
      RedirectPaired(edges[1..], k - 1);
    }
  }

  /** Some redirects alone lead from a node back to itself. */
  ghost predicate HasRedirectCycle(g: CommandGraph) {
    exists walk :: IsWalk(RedirectPairs(g.edges), walk) && |walk| > 1 && walk[0] == walk[|walk| - 1]
  }

  ghost predicate AllTakeInput(c: Commands) {
    forall n: nat :: 0 < n < |c.graph.nodes| ==> TakesInput(c, n)
  }

  lemma IdleIsRedirect(c: Commands, a: nat, b: nat)
    requires Built(c.graph) && AllTakeInput(c) && IdleEdge(c, a, b)
    ensures (a, b) in RedirectPairs(c.graph.edges)
  {
    var i := LastIndex(c.graph.edges, a, b);
    assert c.graph.edges[i] in c.graph.edges;
    RedirectPaired(c.graph.edges, i);
  }

  lemma IdleCycleRedirects(c: Commands, walk: seq<nat>)
    requires Built(c.graph) && AllTakeInput(c) && IsIdleCycle(c, walk)
    ensures HasRedirectCycle(c.graph)
  {
    forall k | 0 <= k < |walk| - 1
      ensures (walk[k], walk[k + 1]) in RedirectPairs(c.graph.edges)
    {
      assert IdleEdge(c, walk[k], walk[k + 1]);
      IdleIsRedirect(c, walk[k], walk[k + 1]);
    }
    assert IsWalk(RedirectPairs(c.graph.edges), walk);
  }

  /** On a built graph whose literals are not empty and whose parsers take something, dispatch ends for
      every client and every input when no cycle consists of redirects alone. */
  lemma RedirectsDecide(c: Commands, allowed: set<nat>, p: Point)
    requires WellFormedCommands(c) && Built(c.graph) && AllTakeInput(c)
    requires !HasRedirectCycle(c.graph)
    ensures !Loops(c, allowed, p) && Ends(c, allowed, p)
  {
    forall walk
      ensures !IsIdleCycle(c, walk)
    {
      if IsIdleCycle(c, walk) {
        IdleCycleRedirects(c, walk);
      }
    }
    NoIdleCycleEnds(c, allowed, p);
  }

  /** A literal redirected to itself, and not executable. */
  const ENDLESS := Commands(
    AddRedirect(AddChild(EMPTY_GRAPH, 0, Literal("a")), 1, 1), map[], {}, {})

  lemma EndlessEdges()
    ensures Built(ENDLESS.graph) && WellFormedCommands(ENDLESS)
    ensures ENDLESS.graph.edges == [Edge(0, 1, Child), Edge(1, 1, Redirect)]
    ensures LastKind(ENDLESS.graph.edges, 0, 1) == Some(Child)
    ensures LastKind(ENDLESS.graph.edges, 1, 1) == Some(Redirect)
  {
    AddChildBuilt(EMPTY_GRAPH, 0, Literal("a"));
    AddRedirectBuilt(AddChild(EMPTY_GRAPH, 0, Literal("a")), 1, 1);
    assert ENDLESS.graph.edges == [Edge(0, 1, Child)] + [Edge(1, 1, Redirect)];
    assert LastKind([Edge(0, 1, Child)], 0, 1) == Some(Child);
  }

  /** The builder makes this graph, and the input "a" sends dispatch round and round. */
  lemma DispatchCanLoop()
    ensures Built(ENDLESS.graph) && WellFormedCommands(ENDLESS)
    ensures Loops(ENDLESS, {0, 1}, Point(Hop(0, false), "a"))
    ensures !Ends(ENDLESS, {0, 1}, Point(Hop(0, false), "a"))
  {
    EndlessEdges();
    var start, first, again := Point(Hop(0, false), "a"), Point(Hop(1, false), "a"), Point(Hop(1, true), "");
    EndlessHops(start, first, again);
    var chain := [start, first, again, again];
    assert Returns(ENDLESS, {0, 1}, chain, start, 2, 3);
    LoopNeverEnds(ENDLESS, {0, 1}, start);
  }

  lemma EndlessHops(start: Point, first: Point, again: Point)
    requires start == Point(Hop(0, false), "a")
    requires first == Point(Hop(1, false), "a") && again == Point(Hop(1, true), "")
    ensures Goes(ENDLESS, {0, 1}, start, first)
    ensures Goes(ENDLESS, {0, 1}, first, again)
    ensures Goes(ENDLESS, {0, 1}, again, again)
  {
    EndlessEdges();
  }
}
