/** When the search for a parse ends: exactly when no permitted chain of hops comes back to the same
    node, by the same kind of edge, with the same input left. */
module DispatchEnds {
  import opened Wrappers
  import opened CommandGraph
  import opened CommandDispatch

  /** A call of the parser: the hop to be made, and the input left for it. */
  datatype Point = Point(hop: Hop, input: string)

  /** The node is permitted and takes its part of the input. */
  ghost predicate Passes(c: Commands, allowed: set<nat>, p: Point) {
    p.hop.node < |c.graph.nodes| && p.hop.node in allowed && Advance(c, p.hop, p.input).Some?
  }

  /** The input after the hop, where it can be made. */
  ghost function Rest(c: Commands, p: Point): string {
    if p.hop.node < |c.graph.nodes| && Advance(c, p.hop, p.input).Some? then Advance(c, p.hop, p.input).value
    else p.input
  }

  ghost predicate StopsAt(c: Commands, p: Point) {
    Stops(c, p.hop.node, Rest(c, p))
  }

  /** The call passes on to the successors. */
  ghost predicate Branches(c: Commands, allowed: set<nat>, p: Point) {
    Passes(c, allowed, p) && !StopsAt(c, p)
  }

  /** The call `p` makes the call `q`. */
  ghost predicate Goes(c: Commands, allowed: set<nat>, p: Point, q: Point) {
    && Branches(c, allowed, p)
    && CanFollow(c, p.hop.node, q.hop)
    && q.input == Rest(c, p)
  }

  ghost predicate IsChain(c: Commands, allowed: set<nat>, chain: seq<Point>) {
    && chain != []
    && forall k :: 0 <= k < |chain| - 1 ==> Goes(c, allowed, chain[k], chain[k + 1])
  }

  // ---- The two sides ----

  /** The calls below `p` are nested less than `depth` deep. */
  ghost predicate EndsWithin(c: Commands, allowed: set<nat>, p: Point, depth: nat)
    decreases depth
  {
    depth > 0 && forall q :: Goes(c, allowed, p, q) ==> EndsWithin(c, allowed, q, depth - 1)
  }

  ghost predicate Ends(c: Commands, allowed: set<nat>, p: Point) {
    exists depth: nat :: EndsWithin(c, allowed, p, depth)
  }

  ghost predicate Returns(c: Commands, allowed: set<nat>, chain: seq<Point>, p: Point, i: nat, j: nat) {
    IsChain(c, allowed, chain) && chain[0] == p && i < j < |chain| && chain[i] == chain[j]
  }

  /** Some chain of calls from `p` comes back to a call that it made before. */
  ghost predicate Loops(c: Commands, allowed: set<nat>, p: Point) {
    exists chain: seq<Point>, i: nat, j: nat :: Returns(c, allowed, chain, p, i, j)
  }

  // ---- A loop never ends ----

  lemma {:induction false} ChainDown(c: Commands, allowed: set<nat>, chain: seq<Point>, depth: nat)
    requires IsChain(c, allowed, chain) && EndsWithin(c, allowed, chain[0], depth)
    ensures |chain| <= depth && EndsWithin(c, allowed, chain[|chain| - 1], depth + 1 - |chain|)
  {
    if |chain| > 1 {
      assert Goes(c, allowed, chain[0], chain[1]);
      TailChain(c, allowed, chain, 1);
      ChainDown(c, allowed, chain[1..], depth - 1);
    }
  }

  lemma TailChain(c: Commands, allowed: set<nat>, chain: seq<Point>, from: nat)
    requires IsChain(c, allowed, chain) && from < |chain|
    ensures IsChain(c, allowed, chain[from..])
  {
    forall k | 0 <= k < |chain| - from - 1
      ensures Goes(c, allowed, chain[from..][k], chain[from..][k + 1])
    {
      assert Goes(c, allowed, chain[from + k], chain[from + k + 1]);
    }
  }

  lemma TakeChain(c: Commands, allowed: set<nat>, chain: seq<Point>, to: nat)
    requires IsChain(c, allowed, chain) && 0 < to <= |chain|
    ensures IsChain(c, allowed, chain[..to])
  {
    forall k | 0 <= k < to - 1
      ensures Goes(c, allowed, chain[..to][k], chain[..to][k + 1])
    {
      assert Goes(c, allowed, chain[k], chain[k + 1]);
    }
  }

  lemma {:induction false} CycleNeverEnds(c: Commands, allowed: set<nat>, cycle: seq<Point>, depth: nat)
    requires IsChain(c, allowed, cycle) && |cycle| > 1 && cycle[0] == cycle[|cycle| - 1]
    ensures !EndsWithin(c, allowed, cycle[0], depth)
    decreases depth
  {
    if EndsWithin(c, allowed, cycle[0], depth) {
      ChainDown(c, allowed, cycle, depth);
      CycleNeverEnds(c, allowed, cycle, depth + 1 - |cycle|);
    }
  }

  lemma LoopNeverEnds(c: Commands, allowed: set<nat>, p: Point)
    requires Loops(c, allowed, p)
    ensures !Ends(c, allowed, p)
  {
    var chain: seq<Point>, i: nat, j: nat :| Returns(c, allowed, chain, p, i, j);
    var cycle := chain[..j + 1][i..];
    TakeChain(c, allowed, chain, j + 1);
    TailChain(c, allowed, chain[..j + 1], i);
    forall depth: nat
      ensures !EndsWithin(c, allowed, p, depth)
    {
      if EndsWithin(c, allowed, p, depth) {
        TakeChain(c, allowed, chain, i + 1);
        ChainDown(c, allowed, chain[..i + 1], depth);
        CycleNeverEnds(c, allowed, cycle, depth - i);
      }
    }
  }

  // ---- Without a loop there are only so many calls ----

  predicate IsSuffix(a: string, s: string) {
    |a| <= |s| && s[|s| - |a|..] == a
  }

  lemma {:induction false} SkipIsSuffix(input: string)
    ensures IsSuffix(SkipWhitespace(input), input)
  {
    var blank := SkipMeans(input);
    assert (blank + SkipWhitespace(input))[|blank|..] == SkipWhitespace(input);
  }

  lemma SuffixTransitive(a: string, b: string, s: string)
    requires IsSuffix(a, b) && IsSuffix(b, s)
    ensures IsSuffix(a, s)
  {
    assert s[|s| - |b|..][|b| - |a|..] == s[|s| - |a|..];
  }

  lemma MatchIsSuffix(c: Commands, node: nat, input: string)
    requires WellFormedCommands(c) && node < |c.graph.nodes| && Match(c, node, input).Some?
    ensures IsSuffix(Match(c, node, input).value.0, SkipWhitespace(input))
  {
    var trimmed, rest := SkipWhitespace(input), Match(c, node, input).value.0;
    match c.graph.nodes[node].data
    case Root =>
    case Literal(name) =>
      var left := MatchNext(trimmed, name).value;
      assert left == trimmed[|name|..];
      assert left != "" ==> rest == trimmed[|name| + 1..];
    case Argument(_) =>
  }

  lemma AdvanceIsSuffix(c: Commands, hop: Hop, input: string)
    requires WellFormedCommands(c) && hop.node < |c.graph.nodes| && Advance(c, hop, input).Some?
    ensures IsSuffix(Advance(c, hop, input).value, input)
  {
    SkipIsSuffix(input);
    if !hop.redirected {
      MatchIsSuffix(c, hop.node, input);
      SkippedTwice(input, Match(c, hop.node, input).value.0);
    }
  }

  lemma SkippedTwice(input: string, rest: string)
    requires IsSuffix(rest, SkipWhitespace(input))
    ensures IsSuffix(SkipWhitespace(rest), input)
  {
    SkipIsSuffix(input);
    SkipIsSuffix(rest);
    SuffixTransitive(rest, SkipWhitespace(input), input);
    SuffixTransitive(SkipWhitespace(rest), rest, input);
  }

  /** Every call that a parse of `input` can make. */
  ghost function AllPoints(c: Commands, input: string): set<Point> {
    set node, redirected, k | 0 <= node < |c.graph.nodes| && redirected in {false, true} && 0 <= k <= |input| ::
      Point(Hop(node, redirected), input[k..])
  }

  lemma InAllPoints(c: Commands, input: string, p: Point)
    requires p.hop.node < |c.graph.nodes| && IsSuffix(p.input, input)
    ensures p in AllPoints(c, input)
  {
    var node, redirected, k := p.hop.node, p.hop.redirected, |input| - |p.input|;
    assert p == Point(Hop(node, redirected), input[k..]);
  }

  lemma GoesInside(c: Commands, allowed: set<nat>, p: Point, q: Point, input: string)
    requires WellFormedCommands(c) && Goes(c, allowed, p, q) && IsSuffix(p.input, input)
    ensures q.hop.node < |c.graph.nodes| && IsSuffix(q.input, input)
  {
    LastKindFound(c.graph.edges, p.hop.node, q.hop.node);
    AdvanceIsSuffix(c, p.hop, p.input);
    SuffixTransitive(q.input, p.input, input);
  }

  lemma {:induction false} EndsLater(c: Commands, allowed: set<nat>, p: Point, depth: nat, more: nat)
    requires EndsWithin(c, allowed, p, depth) && depth <= more
    ensures EndsWithin(c, allowed, p, more)
    decreases depth
  {
    forall q | Goes(c, allowed, p, q)
      ensures EndsWithin(c, allowed, q, more - 1)
    {
      EndsLater(c, allowed, q, depth - 1, more - 1);
    }
  }

  ghost function Left(c: Commands, chain: seq<Point>): nat
    requires chain != []
  {
    |AllPoints(c, chain[0].input) - set p | p in chain|
  }

  /** Every call added to a chain uses up one of the calls that are left. */
  lemma LeftShrinks(c: Commands, chain: seq<Point>, q: Point)
    requires chain != [] && q !in chain && q in AllPoints(c, chain[0].input)
    ensures Left(c, chain + [q]) < Left(c, chain)
  {
    var all := AllPoints(c, chain[0].input);
    var before, after := all - (set p | p in chain), all - (set p | p in chain + [q]);
    assert q in before && q !in after;
    assert after == before - {q};
  }

  /** Where nothing comes back, a chain goes on to a call it has not made. */
  lemma ChainGrows(c: Commands, allowed: set<nat>, chain: seq<Point>, q: Point)
    requires IsChain(c, allowed, chain) && Goes(c, allowed, chain[|chain| - 1], q)
    requires !Loops(c, allowed, chain[0])
    ensures IsChain(c, allowed, chain + [q]) && q !in chain
  {
    var longer := chain + [q];
    forall k | 0 <= k < |longer| - 1
      ensures Goes(c, allowed, longer[k], longer[k + 1])
    {
      assert k < |chain| - 1 ==> Goes(c, allowed, chain[k], chain[k + 1]);
    }
    if q in chain {
      var i :| 0 <= i < |chain| && chain[i] == q;
      assert Returns(c, allowed, longer, chain[0], i, |chain|);
    }
  }

  lemma {:induction false} EndsBelow(c: Commands, allowed: set<nat>, chain: seq<Point>)
    requires WellFormedCommands(c) && IsChain(c, allowed, chain)
    requires !Loops(c, allowed, chain[0])
    requires IsSuffix(chain[|chain| - 1].input, chain[0].input)
    ensures EndsWithin(c, allowed, chain[|chain| - 1], Left(c, chain) + 1)
    decreases Left(c, chain)
  {
    var last := chain[|chain| - 1];
    forall q | Goes(c, allowed, last, q)
      ensures EndsWithin(c, allowed, q, Left(c, chain))
    {
      var longer := chain + [q];
      ChainGrows(c, allowed, chain, q);
      GoesInside(c, allowed, last, q, chain[0].input);
      InAllPoints(c, chain[0].input, q);
      LeftShrinks(c, chain, q);
      EndsBelow(c, allowed, longer);
      EndsLater(c, allowed, q, Left(c, longer) + 1, Left(c, chain));
    }
  }

  /** The search ends if and only if no chain of calls comes back to a call it made before. */
  lemma EndsIff(c: Commands, allowed: set<nat>, p: Point)
    requires WellFormedCommands(c)
    ensures Ends(c, allowed, p) <==> !Loops(c, allowed, p)
  {
    if Loops(c, allowed, p) {
      LoopNeverEnds(c, allowed, p);
    } else {
      EndsBelow(c, allowed, [p]);
    }
  }

  // ---- What a loop is made of ----

  /** An edge from `a` to `b` that takes nothing from the input, or need not. */
  ghost predicate IdleEdge(c: Commands, a: nat, b: nat) {
    var kind := LastKind(c.graph.edges, a, b);
    a < |c.graph.nodes| && b < |c.graph.nodes| && kind.Some? && (kind == Some(Redirect) || !TakesInput(c, b))
  }

  ghost predicate IsIdleCycle(c: Commands, walk: seq<nat>) {
    && |walk| > 1 && walk[0] == walk[|walk| - 1]
    && forall k :: 0 <= k < |walk| - 1 ==> IdleEdge(c, walk[k], walk[k + 1])
  }

  /** Along a chain the input only gets shorter. */
  lemma {:induction false} InputShrinks(c: Commands, allowed: set<nat>, chain: seq<Point>, i: nat, j: nat)
    requires WellFormedCommands(c) && IsChain(c, allowed, chain)
    requires i <= j < |chain|
    ensures |chain[j].input| <= |chain[i].input|
    decreases j - i
  {
    if i < j {
      assert Goes(c, allowed, chain[i], chain[i + 1]);
      AdvanceShrinks(c, chain[i].hop, chain[i].input);
      InputShrinks(c, allowed, chain, i + 1, j);
    }
  }

  /** A hop after which the input is as long as before took nothing. */
  lemma IdleHop(c: Commands, allowed: set<nat>, p: Point, q: Point)
    requires WellFormedCommands(c) && Goes(c, allowed, p, q) && |q.input| == |p.input|
    ensures p.hop.redirected || !TakesInput(c, p.hop.node)
  {
    AdvanceShrinks(c, p.hop, p.input);
  }

  lemma IdleStep(c: Commands, allowed: set<nat>, p: Point, q: Point)
    requires WellFormedCommands(c) && Goes(c, allowed, p, q)
    requires q.hop.node < |c.graph.nodes| && (q.hop.redirected || !TakesInput(c, q.hop.node))
    ensures IdleEdge(c, p.hop.node, q.hop.node)
  {
  }

  function Nodes(chain: seq<Point>): seq<nat> {
    seq(|chain|, k requires 0 <= k < |chain| => chain[k].hop.node)
  }

  /** A loop runs around a cycle of idle edges. */
  lemma LoopIsIdle(c: Commands, allowed: set<nat>, p: Point) returns (walk: seq<nat>)
    requires WellFormedCommands(c) && Loops(c, allowed, p)
    ensures IsIdleCycle(c, walk)
  {
    var chain: seq<Point>, i: nat, j: nat :| Returns(c, allowed, chain, p, i, j);
    walk := Nodes(chain[i..j + 1]);
    forall k | i <= k < j
      ensures IdleEdge(c, chain[k].hop.node, chain[k + 1].hop.node)
    {
      LoopHopIdle(c, allowed, chain, i, j, k + 1);
      assert Goes(c, allowed, chain[k], chain[k + 1]);
      IdleStep(c, allowed, chain[k], chain[k + 1]);
    }
  }

  lemma LoopHopIdle(c: Commands, allowed: set<nat>, chain: seq<Point>, i: nat, j: nat, k: nat)
    requires WellFormedCommands(c) && chain != [] && Returns(c, allowed, chain, chain[0], i, j)
    requires i <= k <= j
    ensures chain[k].hop.node < |c.graph.nodes|
    ensures chain[k].hop.redirected || !TakesInput(c, chain[k].hop.node)
  {
    var at := if k == j then i else k;
    assert Goes(c, allowed, chain[at], chain[at + 1]);
    InputShrinks(c, allowed, chain, i, at);
    InputShrinks(c, allowed, chain, at + 1, j);
    AdvanceShrinks(c, chain[at].hop, chain[at].input);
    IdleHop(c, allowed, chain[at], chain[at + 1]);
  }

  /** Without a cycle of idle edges every search ends, whatever is permitted and typed. */
  lemma NoIdleCycleEnds(c: Commands, allowed: set<nat>, p: Point)
    requires WellFormedCommands(c)
    requires forall walk :: !IsIdleCycle(c, walk)
    ensures !Loops(c, allowed, p) && Ends(c, allowed, p)
  {
    if Loops(c, allowed, p) {
      var walk := LoopIsIdle(c, allowed, p);
    }
    EndsIff(c, allowed, p);
  }
}
