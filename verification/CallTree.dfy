/** The tree of calls that a search makes: what it visits, which executables it runs and how often. */
module CallTree {
  import opened DispatchEnds

  /** A call that refuses its hop, one that runs an executable, or one that passes on to all
      successors in turn. */
  datatype Calls =
    | Refused
    | Stopped(at: Point)
    | Branched(at: Point, below: seq<Calls>)

  /** The calls on the way to some executable, outermost first, in the order they are made. */
  function Visits(t: Calls): seq<Point> {
    match t
    case Refused => []
    case Stopped(p) => [p]
    case Branched(p, below) => if VisitsAll(below) == [] then [] else [p] + VisitsAll(below)
  }

  function VisitsAll(ts: seq<Calls>): seq<Point> {
    if ts == [] then [] else VisitsAll(ts[..|ts| - 1]) + Visits(ts[|ts| - 1])
  }

  /** The executables that are run, once for every time. */
  function Leaves(t: Calls): seq<nat> {
    match t
    case Refused => []
    case Stopped(p) => [p.hop.node]
    case Branched(_, below) => LeavesAll(below)
  }

  function LeavesAll(ts: seq<Calls>): seq<nat> {
    if ts == [] then [] else LeavesAll(ts[..|ts| - 1]) + Leaves(ts[|ts| - 1])
  }

  lemma {:induction false} InLeavesAll(ts: seq<Calls>, leaf: nat)
    ensures leaf in LeavesAll(ts) <==> exists k :: 0 <= k < |ts| && leaf in Leaves(ts[k])
  {
    if ts != [] {
      var front, last := ts[..|ts| - 1], ts[|ts| - 1];
      InLeavesAll(front, leaf);
      if k :| 0 <= k < |front| && leaf in Leaves(front[k]) {
        assert ts[k] == front[k];
      }
      if k :| 0 <= k < |ts| && leaf in Leaves(ts[k]) {
        assert k < |front| ==> front[k] == ts[k];
      }
    }
  }

  /** Something is visited if and only if something is run. */
  lemma {:induction false} VisitsHaveLeaf(t: Calls)
    ensures Visits(t) == [] <==> Leaves(t) == []
  {
    if t.Branched? {
      AllHaveLeaf(t.below);
    }
  }

  lemma {:induction false} AllHaveLeaf(ts: seq<Calls>)
    ensures VisitsAll(ts) == [] <==> LeavesAll(ts) == []
  {
    if ts != [] {
      AllHaveLeaf(ts[..|ts| - 1]);
      VisitsHaveLeaf(ts[|ts| - 1]);
    }
  }

  // ---- Routes ----

  /** A way down the tree to an executable: which successor to take at every call. */
  predicate LeadsBy(t: Calls, route: seq<nat>, leaf: nat) {
    match t
    case Refused => false
    case Stopped(p) => route == [] && leaf == p.hop.node
    case Branched(_, below) => route != [] && route[0] < |below| && LeadsBy(below[route[0]], route[1..], leaf)
  }

  /** The routes in the order in which they are found. */
  function Routes(t: Calls): seq<seq<nat>> {
    match t
    case Refused => []
    case Stopped(_) => [[]]
    case Branched(_, below) => RoutesAll(below)
  }

  function RoutesAll(ts: seq<Calls>): seq<seq<nat>> {
    if ts == [] then []
    else RoutesAll(ts[..|ts| - 1]) + Prefixed(|ts| - 1, Routes(ts[|ts| - 1]))
  }

  function Prefixed(k: nat, routes: seq<seq<nat>>): seq<seq<nat>> {
    seq(|routes|, i requires 0 <= i < |routes| => [k] + routes[i])
  }

  predicate LeadsByOne(ts: seq<Calls>, route: seq<nat>, leaf: nat) {
    route != [] && route[0] < |ts| && LeadsBy(ts[route[0]], route[1..], leaf)
  }

  /** The `i`-th execution is the one that the `i`-th route leads to. */
  lemma {:induction false} RouteLeads(t: Calls, i: nat)
    requires i < |Routes(t)|
    ensures |Routes(t)| == |Leaves(t)| && LeadsBy(t, Routes(t)[i], Leaves(t)[i])
    decreases t, 1
  {
    RouteCount(t);
    if t.Branched? {
      RouteLeadsAll(t.below, i);
    }
  }

  lemma {:induction false} RouteCount(t: Calls)
    ensures |Routes(t)| == |Leaves(t)|
  {
    if t.Branched? {
      RouteCountAll(t.below);
    }
  }

  lemma {:induction false} RouteCountAll(ts: seq<Calls>)
    ensures |RoutesAll(ts)| == |LeavesAll(ts)|
  {
    if ts != [] {
      RouteCountAll(ts[..|ts| - 1]);
      RouteCount(ts[|ts| - 1]);
    }
  }

  lemma {:induction false} RouteLeadsAll(ts: seq<Calls>, i: nat)
    requires i < |RoutesAll(ts)|
    ensures |RoutesAll(ts)| == |LeavesAll(ts)| && LeadsByOne(ts, RoutesAll(ts)[i], LeavesAll(ts)[i])
    decreases ts, 0
  {
    RouteCountAll(ts);
    var front, last := ts[..|ts| - 1], ts[|ts| - 1];
    RouteCountAll(front);
    var n := |RoutesAll(front)|;
    if i < n {
      RouteLeadsAll(front, i);
      assert ts[RoutesAll(front)[i][0]] == front[RoutesAll(front)[i][0]];
    } else {
      RouteLeads(last, i - n);
      assert RoutesAll(ts)[i] == [|ts| - 1] + Routes(last)[i - n];
    }
  }

  /** Every way to an executable is listed. */
  lemma {:induction false} RouteListed(t: Calls, route: seq<nat>, leaf: nat)
    requires LeadsBy(t, route, leaf)
    ensures route in Routes(t)
    decreases t, 1
  {
    if t.Branched? {
      RouteListedAll(t.below, route, leaf);
    }
  }

  lemma {:induction false} RouteListedAll(ts: seq<Calls>, route: seq<nat>, leaf: nat)
    requires LeadsByOne(ts, route, leaf)
    ensures route in RoutesAll(ts)
    decreases ts, 0
  {
    var front, last := ts[..|ts| - 1], ts[|ts| - 1];
    if route[0] < |front| {
      assert front[route[0]] == ts[route[0]];
      RouteListedAll(front, route, leaf);
    } else {
      RouteListed(last, route[1..], leaf);
      var i :| 0 <= i < |Routes(last)| && Routes(last)[i] == route[1..];
      assert Prefixed(|ts| - 1, Routes(last))[i] == route;
    }
  }

  predicate AllDistinct(routes: seq<seq<nat>>) {
    forall i, j :: 0 <= i < j < |routes| ==> routes[i] != routes[j]
  }

  /** No way is listed twice. */
  lemma {:induction false} RoutesDistinct(t: Calls)
    ensures AllDistinct(Routes(t))
  {
    if t.Branched? {
      RoutesDistinctAll(t.below);
    }
  }

  lemma {:induction false} RoutesDistinctAll(ts: seq<Calls>)
    ensures AllDistinct(RoutesAll(ts))
    ensures forall route :: route in RoutesAll(ts) ==> route != [] && route[0] < |ts|
  {
    if ts != [] {
      var front, last := ts[..|ts| - 1], ts[|ts| - 1];
      RoutesDistinctAll(front);
      RoutesDistinct(last);
      PrefixedDistinct(|front|, RoutesAll(front), Routes(last));
    }
  }

  lemma PrefixedDistinct(n: nat, routes: seq<seq<nat>>, more: seq<seq<nat>>)
    requires forall route :: route in routes ==> route != [] && route[0] < n
    requires AllDistinct(routes) && AllDistinct(more)
    ensures AllDistinct(routes + Prefixed(n, more))
    ensures forall route :: route in routes + Prefixed(n, more) ==> route != [] && route[0] < n + 1
  {
    var added := Prefixed(n, more);
    var all := routes + added;
    forall i, j | 0 <= i < j < |all|
      ensures all[i] != all[j]
    {
      if i < |routes| <= j {
        assert all[i] in routes && all[j] == added[j - |routes|];
      } else if |routes| <= i {
        assert added[i - |routes|][1..] == more[i - |routes|] && added[j - |routes|][1..] == more[j - |routes|];
      }
    }
  }

  // ---- One execution ----

  /** With one execution, all the visits below a call are those of one successor. */
  lemma {:induction false} OneBelow(ts: seq<Calls>) returns (k: nat)
    requires |LeavesAll(ts)| == 1
    ensures k < |ts| && VisitsAll(ts) == Visits(ts[k]) && LeavesAll(ts) == Leaves(ts[k])
  {
    var front, last := ts[..|ts| - 1], ts[|ts| - 1];
    AllHaveLeaf(front);
    VisitsHaveLeaf(last);
    if Leaves(last) == [] {
      k := OneBelow(front);
    } else {
      k := |ts| - 1;
    }
  }
}
