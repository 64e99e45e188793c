/** The scope registry as the program keeps it: an index graph that only grows, a table from full
    names to nodes, and a depth-first search that answers queries. */
module ScopeRegistry {
  import opened ScopeGraph
  import opened GraphSearch

  // ---- The index graph against the relation on names ----

  ghost predicate Named(names: seq<string>, table: map<string, nat>) {
    && (forall i :: 0 <= i < |names| ==> names[i] in table && table[names[i]] == i)
    && (forall s :: s in table ==> table[s] < |names| && names[table[s]] == s)
  }

  ghost predicate Drawn(names: seq<string>, edges: Edges, g: Scopes) {
    && (forall e :: e in edges ==> e.0 < |names| && e.1 < |names|)
    && (forall i: nat, j: nat :: i < |names| && j < |names| ==>
          ((i, j) in edges <==> Implies(g, names[i], names[j])))
  }

  /** Walks between nodes are paths between their names. */
  lemma ConnectedIsReaches(names: seq<string>, edges: Edges, table: map<string, nat>, g: Scopes, i: nat, j: nat)
    requires Named(names, table) && Drawn(names, edges, g) && table.Keys == g.registered
    requires i < |names| && j < |names|
    ensures Connected(edges, i, j) <==> Reaches(g, names[i], names[j])
  {
    if Connected(edges, i, j) {
      var walk :| WalkFromTo(edges, walk, i, j);
      WalkIsPath(names, edges, g, walk);
    }
    if Reaches(g, names[i], names[j]) {
      var path :| PathFromTo(g, path, names[i], names[j]);
      PathIsWalk(names, edges, table, g, path);
    }
  }

  lemma {:induction false} WalkIsPath(names: seq<string>, edges: Edges, g: Scopes, walk: seq<nat>)
    requires Drawn(names, edges, g) && IsWalk(edges, walk) && walk[0] < |names|
    ensures walk[|walk| - 1] < |names|
    ensures Reaches(g, names[walk[0]], names[walk[|walk| - 1]])
  {
    var front := walk[..|walk| - 1];
    if |walk| == 1 {
      ReachesSelf(g, names[walk[0]]);
    } else {
      var a, b := walk[|walk| - 2], walk[|walk| - 1];
      assert (a, b) in edges;
      assert IsWalk(edges, front) by {
        forall k | 0 <= k < |front| - 1
          ensures (front[k], front[k + 1]) in edges
        {
          assert (walk[k], walk[k + 1]) in edges;
        }
      }
      WalkIsPath(names, edges, g, front);
      ReachesStep(g, names[walk[0]], names[a], names[b]);
    }
  }

  lemma {:induction false} PathIsWalk(names: seq<string>, edges: Edges, table: map<string, nat>, g: Scopes,
                                      path: seq<string>)
    requires Named(names, table) && Drawn(names, edges, g) && table.Keys == g.registered
    requires IsPath(g, path) && path[0] in table
    ensures path[|path| - 1] in table && Connected(edges, table[path[0]], table[path[|path| - 1]])
  {
    if |path| == 1 {
      ConnectedSelf(edges, table[path[0]]);
    } else {
      var front, a, b := path[..|path| - 1], path[|path| - 2], path[|path| - 1];
      assert Implies(g, a, b);
      assert IsPath(g, front) by {
        forall k | 0 <= k < |front| - 1
          ensures Implies(g, front[k], front[k + 1])
        {
          assert Implies(g, path[k], path[k + 1]);
        }
      }
      PathIsWalk(names, edges, table, g, front);
      assert (table[a], table[b]) in edges;
      ConnectedStep(edges, table[path[0]], table[a], table[b]);
    }
  }

  /** A new name below its registered parent, drawn with the one edge from that parent. */
  lemma NodeDrawn(names: seq<string>, edges: Edges, table: map<string, nat>, g: Scopes, parent: nat, name: string)
    requires ScopeGraph.Valid(g) && g.registered == table.Keys && Named(names, table) && Drawn(names, edges, g)
    requires parent < |names| && name !in table && names[parent] == Parent(name)
    ensures Named(names + [name], table[name := |names|])
    ensures Drawn(names + [name], edges + [(parent, |names|)], g.(registered := g.registered + {name}))
  {
    var h, drawn, node := g.(registered := g.registered + {name}), edges + [(parent, |names|)], |names|;
    forall i: nat, j: nat | i <= node && j <= node
      ensures (i, j) in drawn <==> Implies(h, (names + [name])[i], (names + [name])[j])
    {
      assert (i, j) in drawn <==> (i, j) in edges || (i, j) == (parent, node);
      if i < node && j < node {
        assert Implies(h, names[i], names[j]) <==> Implies(g, names[i], names[j]);
      }
    }
    assert forall e :: e in drawn ==> e in edges || e == (parent, node);
  }

  lemma LinkDrawn(names: seq<string>, edges: Edges, table: map<string, nat>, g: Scopes, a: nat, b: nat)
    requires g.registered == table.Keys && Named(names, table) && Drawn(names, edges, g)
    requires a < |names| && b < |names|
    ensures Drawn(names, edges + [(a, b)], g.(links := g.links + {(names[a], names[b])}))
  {
    var h, drawn := g.(links := g.links + {(names[a], names[b])}), edges + [(a, b)];
    forall i: nat, j: nat | i < |names| && j < |names|
      ensures (i, j) in drawn <==> Implies(h, names[i], names[j])
    {
      assert (i, j) in drawn <==> (i, j) in edges || (i, j) == (a, b);
      assert names[i] == names[a] <==> i == a;
      assert names[j] == names[b] <==> j == b;
      assert Implies(h, names[i], names[j]) <==> Implies(g, names[i], names[j]) || (i == a && j == b);
    }
    assert forall e :: e in drawn ==> e in edges || e == (a, b);
  }

  // ---- Dotted parts ----

  /** The prefixes of `s` that end at a dot before `end`. */
  ghost function PrefixesBefore(s: string, end: nat): set<string>
    requires end <= |s|
  {
    set k | 0 <= k < end && s[k] == '.' :: s[..k]
  }

  /** The end of the part of `s` that starts at `start`: the next dot, or the end of the name. */
  function PartEnd(s: string, start: nat): (end: nat)
    requires start <= |s|
    ensures start <= end <= |s|
    ensures forall k :: start <= k < end ==> s[k] != '.'
    ensures end < |s| ==> s[end] == '.'
    decreases |s| - start
  {
    if start == |s| || s[start] == '.' then start else PartEnd(s, start + 1)
  }

  lemma PartParent(s: string, start: nat)
    requires start <= |s|
    requires start > 0 ==> s[start - 1] == '.'
    ensures Parent(s[..PartEnd(s, start)]) == if start == 0 then ROOT else s[..start - 1]
  {
    var name := s[..PartEnd(s, start)];
    assert LastDot(name, |name|) == start - 1;
  }

  ghost function With(g: Scopes, name: string): Scopes {
    g.(registered := g.registered + {name})
  }

  /** The scopes once every prefix of `s` that ends at a dot before `end` is there. */
  ghost function Grown(g: Scopes, s: string, end: nat): Scopes
    requires end <= |s|
  {
    g.(registered := g.registered + PrefixesBefore(s, end))
  }

  lemma GrownStep(g: Scopes, s: string, start: nat)
    requires start <= |s|
    ensures var end := PartEnd(s, start);
      && (end < |s| ==> With(Grown(g, s, start), s[..end]) == Grown(g, s, end + 1))
      && (end == |s| ==> With(Grown(g, s, start), s[..end]) == g.(registered := g.registered + Ancestors(s)))
  {
    var end := PartEnd(s, start);
    if end < |s| {
      assert PrefixesBefore(s, end + 1) == PrefixesBefore(s, start) + {s[..end]};
    } else {
      assert PrefixesBefore(s, start) + {s[..end]} == Ancestors(s);
    }
  }

  /** One part more: its parent is what was entered before, and it completes the next prefix, or the
      whole name. */
  lemma PartStep(g: Scopes, s: string, start: nat, end: nat)
    requires start <= |s| && end == PartEnd(s, start)
    requires start > 0 ==> s[start - 1] == '.'
    requires s !in g.registered
    ensures Parent(s[..end]) == if start == 0 then ROOT else s[..start - 1]
    ensures end < |s| ==> With(Grown(g, s, start), s[..end]) == Grown(g, s, end + 1)
    ensures end == |s| ==> With(Grown(g, s, start), s[..end]) == ScopeGraph.AddScope(g, s)
  {
    PartParent(s, start);
    GrownStep(g, s, start);
  }

  lemma GrownNone(g: Scopes, s: string)
    ensures Grown(g, s, 0) == g
  {
  }

  // ---- The registry ----

  class CommandScopeRegistry {
    /** Node weights (the last part of each name) and edges, both append-only. */
    var nodes: seq<string>
    var edges: Edges
    var stringToNode: map<string, nat>
    const root: nat := 0

    /** The full name of every node, and the links made so far. */
    ghost var names: seq<string>
    ghost var links: set<(string, string)>

    ghost function Graph(): Scopes
      reads this
    {
      Scopes(stringToNode.Keys, links)
    }

    ghost predicate Valid()
      reads this
    {
      && ScopeGraph.Valid(Graph())
      && |names| == |nodes| > 0 && names[root] == ROOT
      && Named(names, stringToNode)
      && Drawn(names, edges, Graph())
    }

    constructor ()
      ensures Valid() && Graph() == EMPTY
    {
      nodes, edges, stringToNode := [ROOT], [], map[ROOT := 0];
      names, links := [ROOT], {};
    }

    /** The node called `name`, which is below `parent`; it is added when missing. */
    method Enter(parent: nat, part: string, name: string) returns (node: nat)
      requires Valid()
      requires parent < |names| && names[parent] == Parent(name)
      modifies this
      ensures Valid()
      ensures Graph() == With(old(Graph()), name)
      ensures node < |names| && names[node] == name
    {
      if name in stringToNode {
        return stringToNode[name];
      }
      NodeDrawn(names, edges, stringToNode, Graph(), parent, name);
      node := |nodes|;
      ghost var g := Graph();
      nodes := nodes + [part];
      edges := edges + [(parent, node)];
      stringToNode := stringToNode[name := node];
      names := names + [name];
      assert Graph() == With(g, name);
    }

    /** Walk the dotted parts from the root, adding every prefix that is not there yet. */
    method AddScope(scope: string)
      requires Valid()
      modifies this
      ensures Valid()
      ensures Graph() == ScopeGraph.AddScope(old(Graph()), scope)
    {
      if scope in stringToNode {
        return;
      }
      ghost var before := Graph();
      GrownNone(before, scope);
      var currentNode: nat, start: nat := root, 0;
      while true
        invariant Valid() && 0 <= start <= |scope|
        invariant start > 0 ==> scope[start - 1] == '.'
        invariant currentNode < |names|
        invariant names[currentNode] == if start == 0 then ROOT else scope[..start - 1]
        invariant Graph() == Grown(before, scope, start)
        decreases |scope| - start
      {
        var end := PartEnd(scope, start);
        PartStep(before, scope, start, end);
        currentNode := Enter(currentNode, scope[start..end], scope[..end]);
        if end == |scope| {
          break;
        }
        start := end + 1;
      }
    }

    method LinkScopes(scope: string, other: string)
      requires Valid()
      modifies this
      ensures Valid()
      ensures Graph() == Link(old(Graph()), scope, other)
    {
      AddScopeValid(Graph(), scope);
      AddScopeValid(ScopeGraph.AddScope(Graph(), scope), other);
      LinkValid(Graph(), scope, other);
      AddScope(scope);
      AddScope(other);
      var scopeIdx, otherIdx := stringToNode[scope], stringToNode[other];
      LinkDrawn(names, edges, stringToNode, Graph(), scopeIdx, otherIdx);
      edges := edges + [(scopeIdx, otherIdx)];
      links := links + {(scope, other)};
    }

    /** Does holding `scope` give `other`? A depth-first search, with a short cut for the root. */
    method GrantsScope(scope: string, other: string) returns (r: bool)
      requires Valid()
      ensures r <==> Grants(Graph(), scope, other)
    {
      if scope == other {
        return true;
      }
      if scope !in stringToNode || other !in stringToNode {
        return false;
      }
      var scopeIdx, otherIdx := stringToNode[scope], stringToNode[other];
      if scopeIdx == root {
        RootGrantsAll(Graph(), other);
        return true;
      }
      ConnectedIsReaches(names, edges, stringToNode, Graph(), scopeIdx, otherIdx);
      r := Search(edges, |nodes|, scopeIdx, otherIdx);
    }

    method AnyGrants(scopes: seq<string>, other: string) returns (r: bool)
      requires Valid()
      ensures r <==> exists s :: s in scopes && Grants(Graph(), s, other)
    {
      for i := 0 to |scopes|
        invariant forall k :: 0 <= k < i ==> !Grants(Graph(), scopes[k], other)
      {
        var grants := GrantsScope(scopes[i], other);
        if grants {
          return true;
        }
      }
      return false;
    }
  }
}
