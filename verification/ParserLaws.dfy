/** What the calls of a search mean: the executables it runs are those that a parse leads to, once for
    every way through the graph, and what it collects is what that parse collects. */
module ParserLaws {
  import CommandTree
  import opened CallTree
  import opened CommandGraph
  import opened CommandDispatch
  import opened DispatchEnds
  import opened CommandParser

  // ---- Which executables ----

  lemma NoParse(c: Commands, allowed: set<nat>, p: Point, leaf: nat)
    requires p.hop.node < |c.graph.nodes| && !Passes(c, allowed, p)
    ensures !Dispatches(c, allowed, p.hop, p.input, leaf)
  {
  }

  lemma DispatchBelow(c: Commands, allowed: set<nat>, p: Point, leaf: nat)
    requires Branches(c, allowed, p)
    ensures Dispatches(c, allowed, p.hop, p.input, leaf) <==>
      exists k :: 0 <= k < SuccessorCount(c, p) &&
        Dispatches(c, allowed, Successor(c, p, k).hop, Successor(c, p, k).input, leaf)
  {
    DispatchOn(c, allowed, p.hop, p.input, leaf);
    var out, rest := Outgoing(c.graph.edges, p.hop.node), Advance(c, p.hop, p.input).value;
    forall k | 0 <= k < |out|
      ensures Dispatches(c, allowed, Successor(c, p, k).hop, Successor(c, p, k).input, leaf) <==>
              Dispatches(c, allowed, HopTo(c, p.hop.node, out[k].target), rest, leaf)
    {
    }
  }

  /** A node is executed if and only if some parse of the input leads to it. */
  lemma {:induction false} LeafIff(c: Commands, allowed: set<nat>, p: Point, leaf: nat)
    requires WellFormedCommands(c) && !Loops(c, allowed, p) && p.hop.node < |c.graph.nodes|
    ensures leaf in Leaves(Tree(c, allowed, p)) <==> Dispatches(c, allowed, p.hop, p.input, leaf)
    decreases Depth(c, allowed, p)
  {
    if !Passes(c, allowed, p) {
      NoParse(c, allowed, p, leaf);
    } else if StopsAt(c, p) {
      DispatchHere(c, allowed, p.hop, p.input, leaf);
    } else {
      var t := Tree(c, allowed, p);
      TreeBelow(c, allowed, p);
      InLeavesAll(t.below, leaf);
      DispatchBelow(c, allowed, p, leaf);
      forall k | 0 <= k < SuccessorCount(c, p)
        ensures leaf in Leaves(t.below[k]) <==>
                Dispatches(c, allowed, Successor(c, p, k).hop, Successor(c, p, k).input, leaf)
      {
        SuccessorEnds(c, allowed, p, k);
        LeafIff(c, allowed, Successor(c, p, k), leaf);
      }
    }
  }

  lemma LeafIsAdvertised(c: Commands, allowed: set<nat>, input: string, leaf: nat, copy: CommandGraph,
                         rename: map<nat, nat>)
    requires var start := Point(Hop(c.graph.root, false), input);
      WellFormedCommands(c) && !Loops(c, allowed, start) && leaf in Leaves(Tree(c, allowed, start))
    requires CommandTree.IsPermittedCopy(c.graph, allowed, copy, rename)
    ensures leaf in c.executables && leaf in rename && copy.nodes[rename[leaf]] == c.graph.nodes[leaf]
  {
    LeafIff(c, allowed, Point(Hop(c.graph.root, false), input), leaf);
    DispatchedIsAdvertised(c, allowed, input, leaf, copy, rename);
  }

  lemma ReportedLeaves(c: Commands, t: Calls, before: Outcome, o: Outcome)
    requires Reports(c, t, before, o)
    ensures before.executed <= o.executed
    ensures forall i :: |before.executed| <= i < |o.executed| ==> o.executed[i] in Leaves(t)
  {
    forall i | |before.executed| <= i < |o.executed|
      ensures o.executed[i] in Leaves(t)
    {
      assert o.executed[i] == Leaves(t)[i - |before.executed|];
    }
  }

  /** What the program reports is what was advertised: every node that a call for a whole input adds to the
      executed ones is an executable, and a node of the tree that the client was sent under the same scopes. */
  lemma ReportedIsAdvertised(c: Commands, allowed: set<nat>, input: string, before: Outcome, o: Outcome,
                             copy: CommandGraph, rename: map<nat, nat>)
    requires var start := Point(Hop(c.graph.root, false), input);
      WellFormedCommands(c) && !Loops(c, allowed, start) && Reports(c, Tree(c, allowed, start), before, o)
    requires CommandTree.IsPermittedCopy(c.graph, allowed, copy, rename)
    ensures before.executed <= o.executed
    ensures forall i :: |before.executed| <= i < |o.executed| ==>
      var leaf := o.executed[i];
      leaf in c.executables && leaf in rename && copy.nodes[rename[leaf]] == c.graph.nodes[leaf]
  {
    ReportedLeaves(c, Tree(c, allowed, Point(Hop(c.graph.root, false), input)), before, o);
    forall i | |before.executed| <= i < |o.executed|
      ensures var leaf := o.executed[i];
        leaf in c.executables && leaf in rename && copy.nodes[rename[leaf]] == c.graph.nodes[leaf]
    {
      LeafIsAdvertised(c, allowed, input, o.executed[i], copy, rename);
    }
  }

  // ---- How often ----

  /** A way through the graph: which successor to take at every node. Parallel edges count apart. */
  ghost predicate GoesBy(c: Commands, allowed: set<nat>, route: seq<nat>, p: Point, leaf: nat) {
    && Passes(c, allowed, p)
    && if route == [] then StopsAt(c, p) && leaf == p.hop.node
       else
         && !StopsAt(c, p) && route[0] < SuccessorCount(c, p)
         && GoesBy(c, allowed, route[1..], Successor(c, p, route[0]), leaf)
  }

  lemma {:induction false} GoesByTree(c: Commands, allowed: set<nat>, route: seq<nat>, p: Point, leaf: nat)
    requires WellFormedCommands(c) && !Loops(c, allowed, p)
    ensures GoesBy(c, allowed, route, p, leaf) <==> LeadsBy(Tree(c, allowed, p), route, leaf)
  {
    if Branches(c, allowed, p) {
      TreeBelow(c, allowed, p);
      if route != [] && route[0] < SuccessorCount(c, p) {
        SuccessorEnds(c, allowed, p, route[0]);
        GoesByTree(c, allowed, route[1..], Successor(c, p, route[0]), leaf);
      }
    }
  }

  /** One execution for every way through the graph to an executable, and none besides. */
  lemma Executions(c: Commands, allowed: set<nat>, p: Point) returns (routes: seq<seq<nat>>)
    requires WellFormedCommands(c) && !Loops(c, allowed, p)
    ensures var leaves := Leaves(Tree(c, allowed, p));
      && |routes| == |leaves|
      && (forall i :: 0 <= i < |routes| ==> GoesBy(c, allowed, routes[i], p, leaves[i]))
    ensures AllDistinct(routes)
    ensures forall route, leaf :: GoesBy(c, allowed, route, p, leaf) ==> route in routes
  {
    var t := Tree(c, allowed, p);
    routes := Routes(t);
    RouteCount(t);
    RoutesDistinct(t);
    forall i | 0 <= i < |routes|
      ensures GoesBy(c, allowed, routes[i], p, Leaves(t)[i])
    {
      RouteLeads(t, i);
      GoesByTree(c, allowed, routes[i], p, Leaves(t)[i]);
    }
    forall route, leaf | GoesBy(c, allowed, route, p, leaf)
      ensures route in routes
    {
      GoesByTree(c, allowed, route, p, leaf);
      RouteListed(t, route, leaf);
    }
  }

  // ---- With what arguments ----

  /** The calls are those of the path, each with the input that the one before has left. */
  ghost predicate IsPathOf(c: Commands, visits: seq<Point>, hops: seq<Hop>, input: string) {
    && |visits| == |hops| > 0 && visits[0].input == input
    && (forall k :: 0 <= k < |visits| ==> visits[k].hop == hops[k])
    && forall k :: 0 <= k < |visits| - 1 ==> visits[k + 1].input == Rest(c, visits[k])
  }

  lemma PathGrows(c: Commands, p: Point, visits: seq<Point>, hops: seq<Hop>)
    requires IsPathOf(c, visits, hops, Rest(c, p))
    ensures IsPathOf(c, [p] + visits, [p.hop] + hops, p.input)
  {
  }

  /** Executed once: the arguments and modifiers are exactly those collected on that parse. */
  lemma {:induction false} OneExecution(c: Commands, allowed: set<nat>, p: Point,
                                        arguments: seq<string>, modifiers: Modifiers)
    returns (hops: seq<Hop>)
    requires WellFormedCommands(c) && !Loops(c, allowed, p) && p.hop.node < |c.graph.nodes|
    requires |Leaves(Tree(c, allowed, p))| == 1
    ensures var t := Tree(c, allowed, p);
      && LeadsTo(c, allowed, hops, p.hop, p.input, Leaves(t)[0]) && IsPathOf(c, Visits(t), hops, p.input)
      && CollectAll(c, Visits(t), arguments) == PathArguments(c, allowed, hops, p.input, arguments)
      && ModifyAll(c, Visits(t), modifiers) == PathModifiers(c, allowed, hops, p.input, modifiers)
    decreases Depth(c, allowed, p)
  {
    var t := Tree(c, allowed, p);
    if StopsAt(c, p) {
      hops := [p.hop];
      OnlyCollects(c, allowed, p, arguments, modifiers);
    } else {
      TreeBelow(c, allowed, p);
      AllHaveLeaf(t.below);
      var k := OneBelow(t.below);
      SuccessorEnds(c, allowed, p, k);
      var collected, modified := Collect(c, p.hop, p.input, arguments), Modify(c, p.hop, p.input, modifiers);
      var next := Successor(c, p, k);
      var rest := OneExecution(c, allowed, next, collected, modified);
      hops := ExtendPath(c, allowed, p.hop, p.input, k, rest);
      FirstCollects(c, allowed, p, next, Visits(t.below[k]), rest, arguments, modifiers);
      PathGrows(c, p, Visits(t.below[k]), rest);
    }
  }

  lemma OnlyCollects(c: Commands, allowed: set<nat>, p: Point, arguments: seq<string>, modifiers: Modifiers)
    requires Accepts(c, allowed, [p.hop], p.input)
    ensures CollectAll(c, [p], arguments) == PathArguments(c, allowed, [p.hop], p.input, arguments)
    ensures ModifyAll(c, [p], modifiers) == PathModifiers(c, allowed, [p.hop], p.input, modifiers)
  {
    assert [p][1..] == [];
  }

  /** What the first call of a parse adds to the rest of it. */
  lemma FirstCollects(c: Commands, allowed: set<nat>, p: Point, next: Point, visits: seq<Point>, rest: seq<Hop>,
                      arguments: seq<string>, modifiers: Modifiers)
    requires Accepts(c, allowed, rest, next.input) && Accepts(c, allowed, [p.hop] + rest, p.input)
    requires Passes(c, allowed, p) && next.input == Rest(c, p)
    requires
      var collected := Collect(c, p.hop, p.input, arguments);
      CollectAll(c, visits, collected) == PathArguments(c, allowed, rest, next.input, collected)
    requires
      var modified := Modify(c, p.hop, p.input, modifiers);
      ModifyAll(c, visits, modified) == PathModifiers(c, allowed, rest, next.input, modified)
    ensures CollectAll(c, [p] + visits, arguments) == PathArguments(c, allowed, [p.hop] + rest, p.input, arguments)
    ensures ModifyAll(c, [p] + visits, modifiers) == PathModifiers(c, allowed, [p.hop] + rest, p.input, modifiers)
  {
    assert ([p] + visits)[1..] == visits && ([p.hop] + rest)[1..] == rest;
  }
}
