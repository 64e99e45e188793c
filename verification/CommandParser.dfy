/** The recursive command parser: the tree of calls it makes, and what it reports of it. */
module CommandParser {
  import opened ScopeRegistry
  import opened CommandGraph
  import opened CallTree
  import opened CommandDispatch
  import opened DispatchEnds
  import CommandTree

  // ---- How deep a search goes ----

  ghost predicate Least(c: Commands, allowed: set<nat>, p: Point, depth: nat) {
    EndsWithin(c, allowed, p, depth) && forall d: nat :: EndsWithin(c, allowed, p, d) ==> depth <= d
  }

  lemma {:induction false} LeastExists(c: Commands, allowed: set<nat>, p: Point, depth: nat)
    requires EndsWithin(c, allowed, p, depth)
    ensures exists least: nat :: Least(c, allowed, p, least)
    decreases depth
  {
    if d: nat :| d < depth && EndsWithin(c, allowed, p, d) {
      LeastExists(c, allowed, p, d);
    } else {
      assert Least(c, allowed, p, depth);
    }
  }

  /** The nesting depth of the calls below `p`. */
  ghost function Depth(c: Commands, allowed: set<nat>, p: Point): nat
    requires WellFormedCommands(c) && !Loops(c, allowed, p)
  {
    DepthExists(c, allowed, p);
    var least: nat :| Least(c, allowed, p, least);
    least
  }

  lemma DepthExists(c: Commands, allowed: set<nat>, p: Point)
    requires WellFormedCommands(c) && !Loops(c, allowed, p)
    ensures exists least: nat :: Least(c, allowed, p, least)
  {
    EndsIff(c, allowed, p);
    var d: nat :| EndsWithin(c, allowed, p, d);
    LeastExists(c, allowed, p, d);
  }

  lemma DepthShrinks(c: Commands, allowed: set<nat>, p: Point, q: Point)
    requires WellFormedCommands(c) && !Loops(c, allowed, p) && Goes(c, allowed, p, q)
    ensures !Loops(c, allowed, q) && Depth(c, allowed, q) < Depth(c, allowed, p)
  {
    DepthExists(c, allowed, p);
    var depth := Depth(c, allowed, p);
    assert EndsWithin(c, allowed, q, depth - 1);
    EndsIff(c, allowed, q);
    DepthExists(c, allowed, q);
  }

  // ---- The calls of a search ----

  ghost function SuccessorCount(c: Commands, p: Point): nat {
    |Outgoing(c.graph.edges, p.hop.node)|
  }

  /** The call made for the `k`-th successor. */
  ghost function Successor(c: Commands, p: Point, k: nat): Point
    requires k < SuccessorCount(c, p)
  {
    Point(HopTo(c, p.hop.node, Outgoing(c.graph.edges, p.hop.node)[k].target), Rest(c, p))
  }

  lemma SuccessorEnds(c: Commands, allowed: set<nat>, p: Point, k: nat)
    requires WellFormedCommands(c) && !Loops(c, allowed, p)
    requires Branches(c, allowed, p) && k < SuccessorCount(c, p)
    ensures var next := Successor(c, p, k);
      && next.hop.node < |c.graph.nodes|
      && !Loops(c, allowed, next) && Depth(c, allowed, next) < Depth(c, allowed, p)
  {
    var j := OutgoingLast(c.graph.edges, p.hop.node, k);
    LastKindFound(c.graph.edges, p.hop.node, Outgoing(c.graph.edges, p.hop.node)[k].target);
    DepthShrinks(c, allowed, p, Successor(c, p, k));
  }

  /** All calls below `p`. */
  ghost function Tree(c: Commands, allowed: set<nat>, p: Point): Calls
    requires WellFormedCommands(c) && !Loops(c, allowed, p)
    decreases Depth(c, allowed, p)
  {
    if !Passes(c, allowed, p) then Refused
    else if StopsAt(c, p) then Stopped(p)
    else Branched(p, seq(SuccessorCount(c, p), k requires 0 <= k < SuccessorCount(c, p) =>
      SuccessorEnds(c, allowed, p, k);
      Tree(c, allowed, Successor(c, p, k))))
  }

  lemma TreeBelow(c: Commands, allowed: set<nat>, p: Point)
    requires WellFormedCommands(c) && !Loops(c, allowed, p) && Branches(c, allowed, p)
    ensures var t := Tree(c, allowed, p);
      && t.Branched? && t.at == p && |t.below| == SuccessorCount(c, p)
      && forall k :: 0 <= k < |t.below| ==>
           !Loops(c, allowed, Successor(c, p, k)) && t.below[k] == Tree(c, allowed, Successor(c, p, k))
  {
    forall k | 0 <= k < SuccessorCount(c, p)
      ensures !Loops(c, allowed, Successor(c, p, k))
    {
      SuccessorEnds(c, allowed, p, k);
    }
  }

  /** The arguments collected on all the visits, one after another. */
  ghost function CollectAll(c: Commands, visits: seq<Point>, arguments: seq<string>): seq<string> {
    if visits == [] then arguments
    else
      var p := visits[0];
      CollectAll(c, visits[1..],
        if p.hop.node < |c.graph.nodes| then Collect(c, p.hop, p.input, arguments) else arguments)
  }

  ghost function ModifyAll(c: Commands, visits: seq<Point>, modifiers: Modifiers): Modifiers {
    if visits == [] then modifiers
    else
      var p := visits[0];
      ModifyAll(c, visits[1..],
        if p.hop.node < |c.graph.nodes| then Modify(c, p.hop, p.input, modifiers) else modifiers)
  }

  lemma {:induction false} CollectSplit(c: Commands, a: seq<Point>, b: seq<Point>,
                                        arguments: seq<string>, modifiers: Modifiers)
    ensures CollectAll(c, a + b, arguments) == CollectAll(c, b, CollectAll(c, a, arguments))
    ensures ModifyAll(c, a + b, modifiers) == ModifyAll(c, b, ModifyAll(c, a, modifiers))
  {
    if a == [] {
      assert a + b == b;
    } else {
      assert (a + b)[1..] == a[1..] + b;
      var p := a[0];
      if p.hop.node < |c.graph.nodes| {
        CollectSplit(c, a[1..], b, Collect(c, p.hop, p.input, arguments), Modify(c, p.hop, p.input, modifiers));
      } else {
        CollectSplit(c, a[1..], b, arguments, modifiers);
      }
    }
  }

  // ---- The program ----

  /** What one call of the parser reports. */
  datatype Outcome = Outcome(valid: bool, arguments: seq<string>, modifiers: Modifiers, executed: seq<nat>)

  /** The executables were run and the visits made, on top of what was there before. */
  ghost predicate Adds(c: Commands, visits: seq<Point>, leaves: seq<nat>, before: Outcome, after: Outcome) {
    && after.executed == before.executed + leaves
    && after.arguments == CollectAll(c, visits, before.arguments)
    && after.modifiers == ModifyAll(c, visits, before.modifiers)
  }

  lemma AddsMore(c: Commands, a: seq<Point>, aLeaves: seq<nat>, b: seq<Point>, bLeaves: seq<nat>,
                 before: Outcome, between: Outcome, after: Outcome)
    requires Adds(c, a, aLeaves, before, between) && Adds(c, b, bLeaves, between, after)
    ensures Adds(c, a + b, aLeaves + bLeaves, before, after)
  {
    CollectSplit(c, a, b, before.arguments, before.modifiers);
  }

  /** What a call reports of the calls below it. */
  ghost predicate Reports(c: Commands, t: Calls, before: Outcome, o: Outcome) {
    && (o.valid <==> Leaves(t) != [])
    && (o.valid ==> Adds(c, Visits(t), Leaves(t), before, o))
    && (!o.valid ==> o.executed == before.executed)
  }

  /** What holds after the first `k` successors have been tried. */
  ghost predicate Tried(c: Commands, ts: seq<Calls>, k: nat, here: Outcome, o: Outcome)
    requires k <= |ts|
  {
    Adds(c, VisitsAll(ts[..k]), LeavesAll(ts[..k]), here, o) && (o.valid <==> LeavesAll(ts[..k]) != [])
  }

  lemma TriedOneMore(c: Commands, ts: seq<Calls>, k: nat, here: Outcome, o: Outcome, r: Outcome)
    requires k < |ts| && Tried(c, ts, k, here, o)
    requires Reports(c, ts[k], Outcome(false, o.arguments, o.modifiers, o.executed), r)
    ensures Tried(c, ts, k + 1, here, if r.valid then r else o)
  {
    var front, t := ts[..k], ts[k];
    VisitsHaveLeaf(t);
    assert ts[..k + 1][..k] == front && ts[..k + 1][k] == t;
    if r.valid {
      AddsMore(c, VisitsAll(front), LeavesAll(front), Visits(t), Leaves(t), here, o, r);
    } else {
      assert VisitsAll(front) + [] == VisitsAll(front) && LeavesAll(front) + [] == LeavesAll(front);
    }
  }

  lemma AddsHere(c: Commands, p: Point, leaves: seq<nat>, start: Outcome, here: Outcome)
    requires p.hop.node < |c.graph.nodes|
    requires here.arguments == Collect(c, p.hop, p.input, start.arguments)
    requires here.modifiers == Modify(c, p.hop, p.input, start.modifiers)
    requires here.executed == start.executed + leaves
    ensures Adds(c, [p], leaves, start, here)
  {
    assert [p][1..] == [];
    assert CollectAll(c, [], here.arguments) == here.arguments;
    assert ModifyAll(c, [], here.modifiers) == here.modifiers;
  }

  lemma StopReports(c: Commands, allowed: set<nat>, p: Point, start: Outcome, o: Outcome)
    requires WellFormedCommands(c) && !Loops(c, allowed, p)
    requires Passes(c, allowed, p) && StopsAt(c, p)
    requires o == Outcome(true, Collect(c, p.hop, p.input, start.arguments), Modify(c, p.hop, p.input, start.modifiers),
                          start.executed + [p.hop.node])
    ensures Reports(c, Tree(c, allowed, p), start, o)
  {
    AddsHere(c, p, [p.hop.node], start, o);
  }

  lemma TriedAll(c: Commands, t: Calls, start: Outcome, here: Outcome, o: Outcome)
    requires t.Branched?
    requires Adds(c, [t.at], [], start, here)
    requires Tried(c, t.below, |t.below|, here, o)
    ensures Reports(c, t, start, o)
  {
    assert t.below[..|t.below|] == t.below;
    AllHaveLeaf(t.below);
    AddsMore(c, [t.at], [], VisitsAll(t.below), LeavesAll(t.below), start, here, o);
    assert [] + LeavesAll(t.below) == LeavesAll(t.below);
  }

  /** The search is only started where it ends, which is where no chain of calls comes back to itself;
      what a valid successor collected is kept for the next one. */
  method ParseCommandArgs(c: Commands, registry: CommandScopeRegistry, client: seq<string>,
                          arguments: seq<string>, modifiers: Modifiers, executed: seq<nat>,
                          input: string, hop: Hop)
    returns (o: Outcome)
    requires WellFormedCommands(c) && registry.Valid()
    requires hop.node < |c.graph.nodes|
    requires !Loops(c, AllowedNodes(c.graph, registry.Graph(), client), Point(hop, input))
    ensures Reports(c, Tree(c, AllowedNodes(c.graph, registry.Graph(), client), Point(hop, input)),
                    Outcome(false, arguments, modifiers, executed), o)
    decreases Depth(c, AllowedNodes(c.graph, registry.Graph(), client), Point(hop, input))
  {
    ghost var allowed, p := AllowedNodes(c.graph, registry.Graph(), client), Point(hop, input);
    ghost var t := Tree(c, allowed, p);
    var permitted := CommandTree.HasPermission(registry, client, c.graph.nodes[hop.node]);
    var advanced := Advance(c, hop, input);
    if !permitted || advanced.None? {
      return Outcome(false, arguments, modifiers, executed);
    }
    var rest := advanced.value;
    o := Outcome(false, Collect(c, hop, input, arguments), Modify(c, hop, input, modifiers), executed);
    ghost var start, here := Outcome(false, arguments, modifiers, executed), o;
    if rest == "" && hop.node in c.executables {
      o := o.(valid := true, executed := executed + [hop.node]);
      StopReports(c, allowed, p, start, o);
      return;
    }
    AddsHere(c, p, [], start, here);
    TreeBelow(c, allowed, p);
    var out := Outgoing(c.graph.edges, hop.node);
    for k := 0 to |out|
      invariant Tried(c, t.below, k, here, o)
    {
      SuccessorEnds(c, allowed, p, k);
      var next := HopTo(c, hop.node, out[k].target);
      var r := ParseCommandArgs(c, registry, client, o.arguments, o.modifiers, o.executed, rest, next);
      TriedOneMore(c, t.below, k, here, o, r);
      if r.valid {
        o := r;
      }
    }
    TriedAll(c, t, start, here, o);
  }
}
