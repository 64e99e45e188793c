/** The command tree sent to a client: a worklist copies the permitted part of the graph. */
module CommandTree {
  import opened Wrappers
  import opened ScopeGraph
  import opened GraphSearch
  import opened ScopeRegistry
  import opened CommandGraph

  /** `copy` is the permitted part of `g` with node `n` renamed to `rename[n]`: the kept nodes with
      their data, and exactly one edge for every ordered pair of kept nodes joined by an edge of
      `g`, of the kind of the first such edge. */
  ghost predicate IsPermittedCopy(g: CommandGraph, allowed: set<nat>, copy: CommandGraph, rename: map<nat, nat>) {
    && (forall n :: n in rename <==> Kept(g, allowed, n))
    && g.root in rename && copy.root == rename[g.root]
    && (forall n :: n in rename ==>
          n < |g.nodes| && rename[n] < |copy.nodes| && copy.nodes[rename[n]] == g.nodes[n])
    && (forall a, b :: a in rename && b in rename && rename[a] == rename[b] ==> a == b)
    && (forall i: nat :: i < |copy.nodes| ==> i in rename.Values)
    && (forall e :: e in copy.edges ==> e.source < |copy.nodes| && e.target < |copy.nodes|)
    && (forall a, b :: a in rename && b in rename ==>
          FirstKind(copy.edges, rename[a], rename[b]) == FirstKind(g.edges, a, b))
    && SingleEdges(copy.edges)
  }

  ghost predicate SingleEdges(edges: seq<Edge>) {
    forall i, j :: 0 <= i < j < |edges| ==>
      edges[i].source != edges[j].source || edges[i].target != edges[j].target
  }

  // ---- The worklist ----

  /** A node to visit, and the new node and edge kind it is reached by; the root has no parent. */
  datatype Visit = Visit(parent: Option<(nat, EdgeKind)>, node: nat)

  type Key = (Option<nat>, nat)

  function KeyOf(v: Visit): Key {
    (if v.parent.Some? then Some(v.parent.value.0) else None, v.node)
  }

  /** Everything the loop works on; `newToOld` is the inverse of the renaming. */
  datatype Work = Work(
    toVisit: seq<Visit>,
    visited: set<Key>,
    oldToNew: map<nat, nat>,
    newToOld: seq<nat>,
    nodes: seq<CommandNode>,
    edges: seq<Edge>,
    newRoot: Option<nat>)

  // ---- The loop invariant ----

  ghost predicate Renaming(g: CommandGraph, allowed: set<nat>, w: Work) {
    && |w.newToOld| == |w.nodes|
    && (forall i :: 0 <= i < |w.newToOld| ==>
          && w.newToOld[i] in w.oldToNew && w.oldToNew[w.newToOld[i]] == i
          && w.newToOld[i] < |g.nodes| && w.nodes[i] == g.nodes[w.newToOld[i]]
          && Kept(g, allowed, w.newToOld[i]))
    && (forall n :: n in w.oldToNew ==> w.oldToNew[n] < |w.newToOld| && w.newToOld[w.oldToNew[n]] == n)
  }

  /** A key speaks of the root itself, or of an old edge out of a node that has been copied. */
  ghost predicate SoundKey(g: CommandGraph, newToOld: seq<nat>, key: Key) {
    && key.1 < |g.nodes|
    && (key.0.None? ==> key.1 == g.root)
    && (key.0.Some? ==> key.0.value < |newToOld| && HasEdge(g, newToOld[key.0.value], key.1))
  }

  ghost predicate SoundWork(g: CommandGraph, w: Work) {
    && (forall k :: 0 <= k < |w.toVisit| ==> SoundKey(g, w.newToOld, KeyOf(w.toVisit[k])))
    && (forall key :: key in w.visited ==> SoundKey(g, w.newToOld, key))
  }

  ghost predicate Pending(w: Work, key: Key) {
    key in w.visited || exists k :: 0 <= k < |w.toVisit| && KeyOf(w.toVisit[k]) == key
  }

  /** Every old edge out of a copied node has been visited or waits to be. */
  ghost predicate Expanded(g: CommandGraph, w: Work) {
    && Pending(w, (None, g.root))
    && forall p: nat, n: nat :: p < |w.newToOld| && HasEdge(g, w.newToOld[p], n) ==> Pending(w, (Some(p), n))
  }

  ghost predicate IsFirst(g: CommandGraph, newToOld: seq<nat>, v: Visit) {
    && v.parent.Some? && v.parent.value.0 < |newToOld|
    && FirstKind(g.edges, newToOld[v.parent.value.0], v.node) == Some(v.parent.value.1)
  }

  /** Of the visits waiting under an unvisited key, a later one carries the first edge's kind. */
  ghost predicate FirstOnTop(g: CommandGraph, w: Work) {
    FirstWaits(g, w.newToOld, w.toVisit, w.visited)
  }

  ghost predicate FirstWaits(g: CommandGraph, newToOld: seq<nat>, toVisit: seq<Visit>, visited: set<Key>) {
    forall k :: 0 <= k < |toVisit| && toVisit[k].parent.Some? && KeyOf(toVisit[k]) !in visited ==>
      FirstAbove(g, newToOld, toVisit, k)
  }

  ghost predicate FirstAbove(g: CommandGraph, newToOld: seq<nat>, toVisit: seq<Visit>, k: nat)
    requires k < |toVisit|
  {
    exists j :: k <= j < |toVisit| && KeyOf(toVisit[j]) == KeyOf(toVisit[k]) && IsFirst(g, newToOld, toVisit[j])
  }

  /** What has been visited and is allowed is in the copy, with the edge that led to it. */
  ghost predicate CopiedKey(g: CommandGraph, w: Work, key: Key) {
    && key.1 in w.oldToNew
    && (key.0.None? ==> w.newRoot == Some(w.oldToNew[key.1]))
    && (key.0.Some? ==>
          && key.0.value < |w.newToOld|
          && FirstKind(w.edges, key.0.value, w.oldToNew[key.1]) == FirstKind(g.edges, w.newToOld[key.0.value], key.1))
  }

  /** Every copied edge was visited. */
  ghost predicate VisitedEdge(w: Work, e: Edge) {
    && e.source < |w.newToOld| && e.target < |w.newToOld|
    && (Some(e.source), w.newToOld[e.target]) in w.visited
  }

  ghost predicate Copied(g: CommandGraph, allowed: set<nat>, w: Work) {
    && (forall key :: key in w.visited && key.1 in allowed ==> CopiedKey(g, w, key))
    && (w.newRoot.Some? ==> (None, g.root) in w.visited && g.root in allowed)
    && (forall e :: e in w.edges ==> VisitedEdge(w, e))
    && SingleEdges(w.edges)
  }

  ghost predicate Inv(g: CommandGraph, allowed: set<nat>, w: Work) {
    && Renaming(g, allowed, w)
    && SoundWork(g, w)
    && Expanded(g, w)
    && FirstOnTop(g, w)
    && Copied(g, allowed, w)
  }

  // ---- One turn of the loop ----

  function Front(w: Work): seq<Visit>
    requires w.toVisit != []
  {
    w.toVisit[..|w.toVisit| - 1]
  }

  function Top(w: Work): Visit
    requires w.toVisit != []
  {
    w.toVisit[|w.toVisit| - 1]
  }

  /** The visit on top is taken off; it was seen before. */
  function Skip(w: Work): Work
    requires w.toVisit != []
  {
    w.(toVisit := Front(w))
  }

  /** The visit on top is taken off and marked; its node is not allowed. */
  function Refuse(w: Work): Work
    requires w.toVisit != []
  {
    w.(toVisit := Front(w), visited := w.visited + {KeyOf(Top(w))})
  }

  function NewId(w: Work): nat
    requires w.toVisit != []
  {
    if Top(w).node in w.oldToNew then w.oldToNew[Top(w).node] else |w.nodes|
  }

  function Pushed(id: nat, out: seq<Edge>): seq<Visit> {
    seq(|out|, k requires 0 <= k < |out| => Visit(Some((id, out[k].kind)), out[k].target))
  }

  /** The visit on top is taken off and marked; its node is copied unless it was, its edges are
      pushed, and the edge it came by is added. */
  function Keep(g: CommandGraph, w: Work): Work
    requires w.toVisit != [] && Top(w).node < |g.nodes|
  {
    var v, id := Top(w), NewId(w);
    var isNew := v.node !in w.oldToNew;
    Work(Front(w) + Pushed(id, Outgoing(g.edges, v.node)),
         w.visited + {KeyOf(v)},
         if isNew then w.oldToNew[v.node := id] else w.oldToNew,
         if isNew then w.newToOld + [v.node] else w.newToOld,
         if isNew then w.nodes + [g.nodes[v.node]] else w.nodes,
         if v.parent.Some? then w.edges + [Edge(v.parent.value.0, id, v.parent.value.1)] else w.edges,
         if v.parent.Some? then w.newRoot else Some(id))
  }

  lemma PendingWithout(w: Work, key: Key, visited: set<Key>)
    requires w.toVisit != [] && Pending(w, key)
    requires w.visited <= visited && KeyOf(Top(w)) in visited
    ensures Pending(w.(toVisit := Front(w), visited := visited), key)
  {
    if key !in w.visited {
      var k :| 0 <= k < |w.toVisit| && KeyOf(w.toVisit[k]) == key;
      if k < |w.toVisit| - 1 {
        assert KeyOf(Front(w)[k]) == key;
      }
    }
  }

  lemma FirstAboveFront(g: CommandGraph, newToOld: seq<nat>, toVisit: seq<Visit>, k: nat)
    requires k < |toVisit| - 1 && FirstAbove(g, newToOld, toVisit, k)
    requires KeyOf(toVisit[k]) != KeyOf(toVisit[|toVisit| - 1])
    ensures FirstAbove(g, newToOld, toVisit[..|toVisit| - 1], k)
  {
    var j :| k <= j < |toVisit| && KeyOf(toVisit[j]) == KeyOf(toVisit[k]) && IsFirst(g, newToOld, toVisit[j]);
    assert toVisit[..|toVisit| - 1][j] == toVisit[j];
  }

  lemma TopIsFirst(g: CommandGraph, newToOld: seq<nat>, toVisit: seq<Visit>)
    requires toVisit != [] && FirstAbove(g, newToOld, toVisit, |toVisit| - 1)
    ensures IsFirst(g, newToOld, toVisit[|toVisit| - 1])
  {
    var last := |toVisit| - 1;
    var j :| last <= j < |toVisit| && KeyOf(toVisit[j]) == KeyOf(toVisit[last]) && IsFirst(g, newToOld, toVisit[j]);
  }

  lemma FirstWaitsWithout(g: CommandGraph, newToOld: seq<nat>, toVisit: seq<Visit>, visited: set<Key>, more: set<Key>)
    requires toVisit != [] && FirstWaits(g, newToOld, toVisit, visited)
    requires visited <= more && KeyOf(toVisit[|toVisit| - 1]) in more
    ensures FirstWaits(g, newToOld, toVisit[..|toVisit| - 1], more)
  {
    var front := toVisit[..|toVisit| - 1];
    forall k | 0 <= k < |front| && front[k].parent.Some? && KeyOf(front[k]) !in more
      ensures FirstAbove(g, newToOld, front, k)
    {
      assert toVisit[k] == front[k];
      FirstAboveFront(g, newToOld, toVisit, k);
    }
  }

  lemma ExpandedWithout(g: CommandGraph, w: Work, visited: set<Key>)
    requires w.toVisit != [] && Expanded(g, w)
    requires w.visited <= visited && KeyOf(Top(w)) in visited
    ensures Expanded(g, w.(toVisit := Front(w), visited := visited))
  {
    PendingWithout(w, (None, g.root), visited);
    forall p: nat, n: nat | p < |w.newToOld| && HasEdge(g, w.newToOld[p], n)
      ensures Pending(w.(toVisit := Front(w), visited := visited), (Some(p), n))
    {
      PendingWithout(w, (Some(p), n), visited);
    }
  }

  lemma CopiedWithout(g: CommandGraph, allowed: set<nat>, w: Work, toVisit: seq<Visit>, visited: set<Key>)
    requires Copied(g, allowed, w)
    requires w.visited <= visited
    requires forall key :: key in visited && key.1 in allowed ==> key in w.visited
    ensures Copied(g, allowed, w.(toVisit := toVisit, visited := visited))
  {
    var after := w.(toVisit := toVisit, visited := visited);
    forall key | key in visited && key.1 in allowed
      ensures CopiedKey(g, after, key)
    {
      assert CopiedKey(g, w, key);
    }
    forall e | e in w.edges
      ensures VisitedEdge(after, e)
    {
      assert VisitedEdge(w, e);
    }
  }

  lemma SoundWithout(g: CommandGraph, w: Work, visited: set<Key>)
    requires SoundWork(g, w) && w.toVisit != []
    requires forall key :: key in visited ==> key in w.visited || key == KeyOf(Top(w))
    ensures SoundWork(g, w.(toVisit := Front(w), visited := visited))
  {
    assert SoundKey(g, w.newToOld, KeyOf(w.toVisit[|w.toVisit| - 1]));
  }

  /** Taking off a visit that is marked, or whose node is not allowed, keeps the invariant. */
  lemma WithoutKeeps(g: CommandGraph, allowed: set<nat>, w: Work, visited: set<Key>)
    requires Inv(g, allowed, w) && w.toVisit != []
    requires w.visited <= visited && KeyOf(Top(w)) in visited
    requires forall key :: key in visited ==> key in w.visited || (key == KeyOf(Top(w)) && key.1 !in allowed)
    ensures Inv(g, allowed, w.(toVisit := Front(w), visited := visited))
  {
    SoundWithout(g, w, visited);
    ExpandedWithout(g, w, visited);
    FirstWaitsWithout(g, w.newToOld, w.toVisit, w.visited, visited);
    CopiedWithout(g, allowed, w, Front(w), visited);
  }

  lemma SkipKeeps(g: CommandGraph, allowed: set<nat>, w: Work)
    requires Inv(g, allowed, w) && w.toVisit != [] && KeyOf(Top(w)) in w.visited
    ensures Inv(g, allowed, Skip(w))
  {
    WithoutKeeps(g, allowed, w, w.visited);
    assert Skip(w) == w.(toVisit := Front(w), visited := w.visited);
  }

  lemma RefuseKeeps(g: CommandGraph, allowed: set<nat>, w: Work)
    requires Inv(g, allowed, w) && w.toVisit != []
    requires KeyOf(Top(w)) !in w.visited && Top(w).node !in allowed
    ensures Inv(g, allowed, Refuse(w))
  {
    WithoutKeeps(g, allowed, w, w.visited + {KeyOf(Top(w))});
  }

  /** A turn that copies: the visit on top is new and its node allowed. */
  ghost predicate Keeping(g: CommandGraph, allowed: set<nat>, w: Work) {
    && WellFormed(g) && Inv(g, allowed, w) && w.toVisit != []
    && KeyOf(Top(w)) !in w.visited && Top(w).node in allowed
    && Top(w).node < |g.nodes|
  }

  lemma TopKept(g: CommandGraph, allowed: set<nat>, w: Work)
    requires Keeping(g, allowed, w)
    ensures Kept(g, allowed, Top(w).node)
  {
    assert SoundKey(g, w.newToOld, KeyOf(Top(w)));
    if Top(w).parent.None? {
      KeptRoot(g, allowed);
    } else {
      KeptStep(g, allowed, w.newToOld[Top(w).parent.value.0], Top(w).node);
    }
  }

  lemma KeepExtends(g: CommandGraph, allowed: set<nat>, w: Work)
    requires Keeping(g, allowed, w)
    ensures w.newToOld <= Keep(g, w).newToOld
    ensures NewId(w) < |Keep(g, w).newToOld| && Keep(g, w).newToOld[NewId(w)] == Top(w).node
    ensures forall n :: n in w.oldToNew ==> n in Keep(g, w).oldToNew && Keep(g, w).oldToNew[n] == w.oldToNew[n]
  {
  }

  lemma KeepRenaming(g: CommandGraph, allowed: set<nat>, w: Work)
    requires Keeping(g, allowed, w)
    ensures Renaming(g, allowed, Keep(g, w))
  {
    var after := Keep(g, w);
    TopKept(g, allowed, w);
    KeepExtends(g, allowed, w);
    if Top(w).node in w.oldToNew {
      assert after.oldToNew == w.oldToNew;
    } else {
      forall i | 0 <= i < |after.newToOld|
        ensures after.newToOld[i] in after.oldToNew && after.oldToNew[after.newToOld[i]] == i
      {
        assert i < |w.newToOld| ==> w.newToOld[i] in w.oldToNew;
      }
    }
  }

  lemma SoundKeyKept(g: CommandGraph, before: seq<nat>, after: seq<nat>, key: Key)
    requires SoundKey(g, before, key) && before <= after
    ensures SoundKey(g, after, key)
  {
  }

  lemma PushedSound(g: CommandGraph, newToOld: seq<nat>, id: nat, n: nat, k: nat)
    requires WellFormed(g) && id < |newToOld| && newToOld[id] == n
    requires k < |Outgoing(g.edges, n)|
    ensures SoundKey(g, newToOld, KeyOf(Pushed(id, Outgoing(g.edges, n))[k]))
  {
    var j := OutgoingLast(g.edges, n, k);
    FirstKindFound(g.edges, n, Outgoing(g.edges, n)[k].target);
  }

  lemma KeepSound(g: CommandGraph, allowed: set<nat>, w: Work)
    requires Keeping(g, allowed, w)
    ensures SoundWork(g, Keep(g, w))
  {
    var after, front := Keep(g, w), |Front(w)|;
    var pushed := Pushed(NewId(w), Outgoing(g.edges, Top(w).node));
    KeepExtends(g, allowed, w);
    assert after.toVisit == Front(w) + pushed;
    forall k | 0 <= k < |after.toVisit|
      ensures SoundKey(g, after.newToOld, KeyOf(after.toVisit[k]))
    {
      if k < front {
        assert after.toVisit[k] == w.toVisit[k];
        SoundKeyKept(g, w.newToOld, after.newToOld, KeyOf(w.toVisit[k]));
      } else {
        assert after.toVisit[k] == pushed[k - front];
        PushedSound(g, after.newToOld, NewId(w), Top(w).node, k - front);
      }
    }
    forall key | key in after.visited
      ensures SoundKey(g, after.newToOld, key)
    {
      assert key in w.visited || key == KeyOf(w.toVisit[front]);
      SoundKeyKept(g, w.newToOld, after.newToOld, key);
    }
  }

  lemma PendingAfterKeep(g: CommandGraph, allowed: set<nat>, w: Work, key: Key)
    requires Keeping(g, allowed, w) && Pending(w, key)
    ensures Pending(Keep(g, w), key)
  {
    var after := Keep(g, w);
    PendingWithout(w, key, after.visited);
    if key !in after.visited {
      var k :| 0 <= k < |Front(w)| && KeyOf(Front(w)[k]) == key;
      assert KeyOf(after.toVisit[k]) == key;
    }
  }

  lemma KeepExpanded(g: CommandGraph, allowed: set<nat>, w: Work)
    requires Keeping(g, allowed, w)
    ensures Expanded(g, Keep(g, w))
  {
    var after, out := Keep(g, w), Outgoing(g.edges, Top(w).node);
    KeepExtends(g, allowed, w);
    PendingAfterKeep(g, allowed, w, (None, g.root));
    forall p: nat, n: nat | p < |after.newToOld| && HasEdge(g, after.newToOld[p], n)
      ensures Pending(after, (Some(p), n))
    {
      if p == NewId(w) {
        var i := OutgoingFinds(g.edges, Top(w).node, n);
        assert KeyOf(after.toVisit[|Front(w)| + i]) == (Some(p), n);
      } else {
        PendingAfterKeep(g, allowed, w, (Some(p), n));
      }
    }
  }

  /** Among freshly pushed visits, the topmost of each pair carries the first edge's kind. */
  lemma PushedFirst(g: CommandGraph, newToOld: seq<nat>, front: seq<Visit>, id: nat, n: nat, k: nat)
    requires id < |newToOld| && newToOld[id] == n
    requires k < |Outgoing(g.edges, n)|
    ensures FirstAbove(g, newToOld, front + Pushed(id, Outgoing(g.edges, n)), |front| + k)
  {
    var pushed := Pushed(id, Outgoing(g.edges, n));
    var j := OutgoingLast(g.edges, n, k);
    assert (front + pushed)[|front| + j] == pushed[j] && (front + pushed)[|front| + k] == pushed[k];
    assert IsFirst(g, newToOld, (front + pushed)[|front| + j]);
  }

  lemma FirstAboveMore(g: CommandGraph, before: seq<nat>, after: seq<nat>, front: seq<Visit>, pushed: seq<Visit>,
                       k: nat)
    requires k < |front| && FirstAbove(g, before, front, k) && before <= after
    ensures FirstAbove(g, after, front + pushed, k)
  {
    var j :| k <= j < |front| && KeyOf(front[j]) == KeyOf(front[k]) && IsFirst(g, before, front[j]);
    assert (front + pushed)[j] == front[j];
    assert IsFirst(g, after, (front + pushed)[j]);
  }

  lemma KeepFirstOnTop(g: CommandGraph, w: Work, after: Work)
    requires WellFormed(g) && w.toVisit != [] && FirstOnTop(g, w)
    requires Top(w).node < |g.nodes| && after == Keep(g, w)
    requires w.newToOld <= after.newToOld
    requires NewId(w) < |after.newToOld| && after.newToOld[NewId(w)] == Top(w).node
    ensures FirstOnTop(g, after)
  {
    FirstWaitsWithout(g, w.newToOld, w.toVisit, w.visited, after.visited);
    PushedWaits(g, w.newToOld, after.newToOld, Front(w), NewId(w), Top(w).node, after.visited);
  }

  lemma PushedWaits(g: CommandGraph, before: seq<nat>, after: seq<nat>, front: seq<Visit>, id: nat, n: nat,
                    visited: set<Key>)
    requires WellFormed(g) && before <= after && id < |after| && after[id] == n
    requires FirstWaits(g, before, front, visited)
    ensures FirstWaits(g, after, front + Pushed(id, Outgoing(g.edges, n)), visited)
  {
    var pushed := Pushed(id, Outgoing(g.edges, n));
    var all := front + pushed;
    forall k | 0 <= k < |all| && all[k].parent.Some? && KeyOf(all[k]) !in visited
      ensures FirstAbove(g, after, all, k)
    {
      if k < |front| {
        assert all[k] == front[k];
        FirstAboveMore(g, before, after, front, pushed, k);
      } else {
        PushedFirst(g, after, front, id, n, k - |front|);
      }
    }
  }

  /** No copied edge came by a key that was not visited. */
  lemma EdgeIsNew(w: Work, p: nat, id: nat, n: nat)
    requires forall e :: e in w.edges ==> VisitedEdge(w, e)
    requires id < |w.newToOld| ==> w.newToOld[id] == n
    requires (Some(p), n) !in w.visited
    ensures forall e :: e in w.edges ==> e.source != p || e.target != id
    ensures FirstKind(w.edges, p, id).None?
  {
    forall e | e in w.edges
      ensures e.source != p || e.target != id
    {
      assert VisitedEdge(w, e);
    }
    FirstKindFound(w.edges, p, id);
  }

  lemma NewIdNamesTop(w: Work)
    requires w.toVisit != [] && |w.newToOld| == |w.nodes|
    requires forall n :: n in w.oldToNew ==> w.oldToNew[n] < |w.newToOld| && w.newToOld[w.oldToNew[n]] == n
    ensures NewId(w) < |w.newToOld| ==> w.newToOld[NewId(w)] == Top(w).node
  {
  }

  lemma TopVisitIsFirst(g: CommandGraph, w: Work)
    requires w.toVisit != [] && FirstOnTop(g, w)
    requires Top(w).parent.Some? && KeyOf(Top(w)) !in w.visited
    ensures IsFirst(g, w.newToOld, Top(w))
  {
    var last := |w.toVisit| - 1;
    assert w.toVisit[last].parent.Some? && KeyOf(w.toVisit[last]) !in w.visited;
    TopIsFirst(g, w.newToOld, w.toVisit);
  }

  /** The edge a kept visit adds is the first of its pair in `g`, and new in the copy. */
  lemma KeepEdge(g: CommandGraph, allowed: set<nat>, w: Work)
    requires Keeping(g, allowed, w) && Top(w).parent.Some?
    ensures IsFirst(g, w.newToOld, Top(w))
    ensures FirstKind(w.edges, Top(w).parent.value.0, NewId(w)).None?
    ensures forall e :: e in w.edges ==> e.source != Top(w).parent.value.0 || e.target != NewId(w)
  {
    TopVisitIsFirst(g, w);
    NewIdNamesTop(w);
    EdgeIsNew(w, Top(w).parent.value.0, NewId(w), Top(w).node);
  }

  lemma CopiedKeyKept(g: CommandGraph, w: Work, after: Work, key: Key)
    requires CopiedKey(g, w, key) && w.newToOld <= after.newToOld
    requires key.1 in after.oldToNew && after.oldToNew[key.1] == w.oldToNew[key.1]
    requires key.0.None? ==> after.newRoot == w.newRoot
    requires key.0.Some? ==>
               FirstKind(after.edges, key.0.value, w.oldToNew[key.1])
               == FirstKind(w.edges, key.0.value, w.oldToNew[key.1])
    ensures CopiedKey(g, after, key)
  {
  }

  /** The edge that is added does not come before one of a key visited earlier. */
  lemma KeepFirstKind(g: CommandGraph, allowed: set<nat>, w: Work, key: Key)
    requires Keeping(g, allowed, w) && key in w.visited && key.1 in allowed && key.0.Some?
    ensures key.1 in w.oldToNew
    ensures FirstKind(Keep(g, w).edges, key.0.value, w.oldToNew[key.1])
            == FirstKind(w.edges, key.0.value, w.oldToNew[key.1])
  {
    assert CopiedKey(g, w, key);
    assert SoundKey(g, w.newToOld, key);
    if Top(w).parent.Some? {
      KeepEdge(g, allowed, w);
      var added := Edge(Top(w).parent.value.0, NewId(w), Top(w).parent.value.1);
      FirstKindAppend(w.edges, added, key.0.value, w.oldToNew[key.1]);
    }
  }

  lemma KeepOldKey(g: CommandGraph, allowed: set<nat>, w: Work, key: Key)
    requires Keeping(g, allowed, w) && key in w.visited && key.1 in allowed
    ensures CopiedKey(g, Keep(g, w), key)
  {
    assert CopiedKey(g, w, key);
    assert SoundKey(g, w.newToOld, key);
    KeepExtends(g, allowed, w);
    if key.0.Some? {
      KeepFirstKind(g, allowed, w, key);
    } else {
      assert SoundKey(g, w.newToOld, KeyOf(Top(w)));
    }
    CopiedKeyKept(g, w, Keep(g, w), key);
  }

  lemma KeepTopKey(g: CommandGraph, allowed: set<nat>, w: Work)
    requires Keeping(g, allowed, w)
    ensures CopiedKey(g, Keep(g, w), KeyOf(Top(w)))
  {
    var v := Top(w);
    KeepExtends(g, allowed, w);
    if v.parent.Some? {
      KeepEdge(g, allowed, w);
      FirstKindAppend(w.edges, Edge(v.parent.value.0, NewId(w), v.parent.value.1), v.parent.value.0, NewId(w));
    }
  }

  lemma VisitedEdgeKept(w: Work, after: Work, e: Edge)
    requires VisitedEdge(w, e) && w.newToOld <= after.newToOld && w.visited <= after.visited
    ensures VisitedEdge(after, e)
  {
  }

  lemma SingleEdgesAppend(edges: seq<Edge>, added: Edge)
    requires SingleEdges(edges)
    requires forall e :: e in edges ==> e.source != added.source || e.target != added.target
    ensures SingleEdges(edges + [added])
  {
  }

  lemma KeepEdges(g: CommandGraph, allowed: set<nat>, w: Work)
    requires Keeping(g, allowed, w)
    ensures SingleEdges(Keep(g, w).edges)
    ensures forall e :: e in Keep(g, w).edges ==> VisitedEdge(Keep(g, w), e)
  {
    var after, v := Keep(g, w), Top(w);
    KeepExtends(g, allowed, w);
    forall e | e in w.edges
      ensures VisitedEdge(after, e)
    {
      VisitedEdgeKept(w, after, e);
    }
    if v.parent.Some? {
      KeepEdge(g, allowed, w);
      SingleEdgesAppend(w.edges, Edge(v.parent.value.0, NewId(w), v.parent.value.1));
      AddedVisited(g, allowed, w);
    }
  }

  lemma AddedVisited(g: CommandGraph, allowed: set<nat>, w: Work)
    requires Keeping(g, allowed, w) && Top(w).parent.Some?
    ensures VisitedEdge(Keep(g, w), Edge(Top(w).parent.value.0, NewId(w), Top(w).parent.value.1))
  {
    KeepExtends(g, allowed, w);
    assert SoundKey(g, w.newToOld, KeyOf(Top(w)));
  }

  lemma KeepCopied(g: CommandGraph, allowed: set<nat>, w: Work)
    requires Keeping(g, allowed, w)
    ensures Copied(g, allowed, Keep(g, w))
  {
    var after := Keep(g, w);
    KeepEdges(g, allowed, w);
    assert SoundKey(g, w.newToOld, KeyOf(Top(w)));
    KeepTopKey(g, allowed, w);
    forall key | key in after.visited && key.1 in allowed
      ensures CopiedKey(g, after, key)
    {
      if key in w.visited {
        KeepOldKey(g, allowed, w, key);
      }
    }
  }

  lemma KeepKeeps(g: CommandGraph, allowed: set<nat>, w: Work)
    requires Keeping(g, allowed, w)
    ensures Inv(g, allowed, Keep(g, w))
  {
    KeepRenaming(g, allowed, w);
    KeepSound(g, allowed, w);
    KeepExpanded(g, allowed, w);
    KeepExtends(g, allowed, w);
    KeepFirstOnTop(g, w, Keep(g, w));
    KeepCopied(g, allowed, w);
  }

  // ---- Termination: the keys, in terms of old nodes, that are still to come ----

  ghost function AllKeys(n: nat): set<Key> {
    (set b | b in Below(n) :: (None, b)) + (set a, b | a in Below(n) && b in Below(n) :: (Some(a), b))
  }

  lemma InAllKeys(n: nat, key: Key)
    requires key.1 < n && (key.0.Some? ==> key.0.value < n)
    ensures key in AllKeys(n)
  {
    assert key.1 in Below(n);
    if key.0.Some? {
      assert key.0.value in Below(n);
      assert key == (Some(key.0.value), key.1);
    } else {
      assert key == (None, key.1);
    }
  }

  function OldKey(newToOld: seq<nat>, key: Key): Key {
    (if key.0.Some? && key.0.value < |newToOld| then Some(newToOld[key.0.value]) else None, key.1)
  }

  ghost function Remaining(g: CommandGraph, w: Work): set<Key> {
    AllKeys(|g.nodes|) - set key | key in w.visited :: OldKey(w.newToOld, key)
  }

  /** A turn with an unvisited key uses up one key for good. */
  lemma Progress(g: CommandGraph, allowed: set<nat>, w: Work, after: Work)
    requires Inv(g, allowed, w) && w.toVisit != [] && KeyOf(Top(w)) !in w.visited
    requires w.newToOld <= after.newToOld && after.visited == w.visited + {KeyOf(Top(w))}
    ensures Remaining(g, after) < Remaining(g, w)
  {
    var key := KeyOf(w.toVisit[|w.toVisit| - 1]);
    assert SoundKey(g, w.newToOld, key);
    var spent := OldKey(w.newToOld, key);
    forall k | k in w.visited
      ensures OldKey(w.newToOld, k) != spent && OldKey(after.newToOld, k) == OldKey(w.newToOld, k)
    {
      assert SoundKey(g, w.newToOld, k);
    }
    InAllKeys(|g.nodes|, spent);
    assert key in after.visited && OldKey(after.newToOld, key) == spent;
    assert spent in Remaining(g, w) && spent !in Remaining(g, after);
  }

  // ---- When nothing is left to visit ----

  /** The renaming then reaches every kept node. */
  lemma AllKept(g: CommandGraph, allowed: set<nat>, w: Work, n: nat)
    requires Inv(g, allowed, w) && w.toVisit == []
    requires Kept(g, allowed, n)
    ensures n in w.oldToNew
  {
    var walk :| PermittedWalk(g, allowed, walk) && walk[|walk| - 1] == n;
    var inside := w.oldToNew.Keys;
    assert Pending(w, (None, g.root));
    assert CopiedKey(g, w, (None, g.root));
    forall a, b | a in inside && HasEdge(g, a, b) && b in allowed
      ensures b in inside
    {
      assert Pending(w, (Some(w.oldToNew[a]), b));
      assert CopiedKey(g, w, (Some(w.oldToNew[a]), b));
    }
    KeptInside(g, allowed, inside, walk);
  }

  lemma AllEdges(g: CommandGraph, allowed: set<nat>, w: Work, a: nat, b: nat)
    requires Inv(g, allowed, w) && w.toVisit == []
    requires a in w.oldToNew && b in w.oldToNew
    ensures FirstKind(w.edges, w.oldToNew[a], w.oldToNew[b]) == FirstKind(g.edges, a, b)
  {
    var p, q := w.oldToNew[a], w.oldToNew[b];
    FirstKindFound(w.edges, p, q);
    if HasEdge(g, a, b) {
      assert Pending(w, (Some(p), b));
      KeptIsAllowed(g, allowed, b);
      assert CopiedKey(g, w, (Some(p), b));
    } else {
      forall e | e in w.edges
        ensures e.source != p || e.target != q
      {
        assert VisitedEdge(w, e);
        assert SoundKey(g, w.newToOld, (Some(e.source), w.newToOld[e.target]));
      }
    }
  }

  lemma KeptIsAllowed(g: CommandGraph, allowed: set<nat>, n: nat)
    requires Kept(g, allowed, n)
    ensures n in allowed
  {
  }

  lemma Finished(g: CommandGraph, allowed: set<nat>, w: Work)
    requires Inv(g, allowed, w) && w.toVisit == []
    ensures w.newRoot.Some? <==> g.root in allowed
    ensures w.newRoot.Some? ==>
      IsPermittedCopy(g, allowed, CommandGraph(w.nodes, w.edges, w.newRoot.value), w.oldToNew)
  {
    assert Pending(w, (None, g.root));
    if g.root in allowed {
      assert CopiedKey(g, w, (None, g.root));
      forall n
        ensures n in w.oldToNew <==> Kept(g, allowed, n)
      {
        if Kept(g, allowed, n) {
          AllKept(g, allowed, w, n);
        }
      }
      forall a, b | a in w.oldToNew && b in w.oldToNew
        ensures FirstKind(w.edges, w.oldToNew[a], w.oldToNew[b]) == FirstKind(g.edges, a, b)
      {
        AllEdges(g, allowed, w, a, b);
      }
      forall i: nat | i < |w.nodes|
        ensures i in w.oldToNew.Values
      {
        assert w.oldToNew[w.newToOld[i]] == i;
      }
      forall e | e in w.edges
        ensures e.source < |w.nodes| && e.target < |w.nodes|
      {
        assert VisitedEdge(w, e);
      }
    }
  }

  // ---- Whole turns ----

  ghost function Start(g: CommandGraph): Work {
    Work([Visit(None, g.root)], {}, map[], [], [], [], None)
  }

  lemma StartOk(g: CommandGraph, allowed: set<nat>)
    requires WellFormed(g)
    ensures Inv(g, allowed, Start(g))
  {
    assert KeyOf(Start(g).toVisit[0]) == (None, g.root);
  }

  lemma TopInRange(g: CommandGraph, allowed: set<nat>, w: Work)
    requires Inv(g, allowed, w) && w.toVisit != []
    ensures Top(w).node < |g.nodes|
  {
    assert SoundKey(g, w.newToOld, KeyOf(w.toVisit[|w.toVisit| - 1]));
  }

  ghost function Next(g: CommandGraph, allowed: set<nat>, w: Work): Work
    requires w.toVisit != [] && Top(w).node < |g.nodes|
  {
    if KeyOf(Top(w)) in w.visited then Skip(w)
    else if Top(w).node !in allowed then Refuse(w)
    else Keep(g, w)
  }

  /** A turn keeps the invariant, and uses up a key or shortens the stack. */
  lemma NextKeeps(g: CommandGraph, allowed: set<nat>, w: Work)
    requires WellFormed(g) && Inv(g, allowed, w) && w.toVisit != []
    ensures Top(w).node < |g.nodes|
    ensures var after := Next(g, allowed, w);
      && Inv(g, allowed, after)
      && (Remaining(g, after) < Remaining(g, w) ||
          (Remaining(g, after) == Remaining(g, w) && |after.toVisit| < |w.toVisit|))
  {
    TopInRange(g, allowed, w);
    if KeyOf(Top(w)) in w.visited {
      SkipKeeps(g, allowed, w);
    } else if Top(w).node !in allowed {
      RefuseKeeps(g, allowed, w);
      Progress(g, allowed, w, Refuse(w));
    } else {
      KeepKeeps(g, allowed, w);
      KeepExtends(g, allowed, w);
      Progress(g, allowed, w, Keep(g, w));
    }
  }

  // ---- The program ----

  lemma GrantedAllows(scopes: Scopes, client: seq<string>, node: CommandNode, i: nat)
    requires i < |node.scopes| && exists have :: have in client && Grants(scopes, have, node.scopes[i])
    ensures Allowed(scopes, client, node)
  {
    assert node.scopes[i] in node.scopes;
  }

  /** One scope of the node is enough, granted by one that the client holds. */
  lemma AllowedByOne(scopes: Scopes, client: seq<string>, node: CommandNode)
    ensures Allowed(scopes, client, node) <==>
      |node.scopes| == 0
      || exists i, j :: 0 <= i < |node.scopes| && 0 <= j < |client| && Grants(scopes, client[j], node.scopes[i])
  {
    if need, have :| need in node.scopes && have in client && Grants(scopes, have, need) {
      var i :| 0 <= i < |node.scopes| && node.scopes[i] == need;
      var j :| 0 <= j < |client| && client[j] == have;
      assert Grants(scopes, client[j], node.scopes[i]);
    }
    forall i, j | 0 <= i < |node.scopes| && 0 <= j < |client| && Grants(scopes, client[j], node.scopes[i])
      ensures Allowed(scopes, client, node)
    {
      assert node.scopes[i] in node.scopes && client[j] in client;
    }
  }

  method HasPermission(registry: CommandScopeRegistry, client: seq<string>, node: CommandNode) returns (r: bool)
    requires registry.Valid()
    ensures r <==> Allowed(registry.Graph(), client, node)
  {
    if node.scopes == [] {
      return true;
    }
    for i := 0 to |node.scopes|
      invariant forall k, have :: 0 <= k < i && have in client ==> !Grants(registry.Graph(), have, node.scopes[k])
    {
      var granted := registry.AnyGrants(client, node.scopes[i]);
      if granted {
        GrantedAllows(registry.Graph(), client, node, i);
        return true;
      }
    }
    return false;
  }

  /** One turn of the loop, on its variables. */
  method VisitTop(g: CommandGraph, registry: CommandScopeRegistry, client: seq<string>,
                  toVisit: seq<Visit>, visited: set<Key>, oldToNew: map<nat, nat>, ghost newToOld: seq<nat>,
                  nodes: seq<CommandNode>, edges: seq<Edge>, newRoot: Option<nat>)
    returns (toVisit': seq<Visit>, visited': set<Key>, oldToNew': map<nat, nat>, ghost newToOld': seq<nat>,
             nodes': seq<CommandNode>, edges': seq<Edge>, newRoot': Option<nat>)
    requires registry.Valid()
    requires toVisit != [] && toVisit[|toVisit| - 1].node < |g.nodes|
    ensures var after := Next(g, AllowedNodes(g, registry.Graph(), client),
                              Work(toVisit, visited, oldToNew, newToOld, nodes, edges, newRoot));
      && toVisit' == after.toVisit && visited' == after.visited && oldToNew' == after.oldToNew
      && nodes' == after.nodes && edges' == after.edges && newRoot' == after.newRoot
      && newToOld' == after.newToOld
  {
    var visit := toVisit[|toVisit| - 1];
    toVisit', visited', oldToNew', nodes', edges', newRoot' :=
      toVisit[..|toVisit| - 1], visited, oldToNew, nodes, edges, newRoot;
    newToOld' := newToOld;
    var key, node := KeyOf(visit), visit.node;
    if key in visited {
      return;
    }
    visited' := visited + {key};
    var permitted := HasPermission(registry, client, g.nodes[node]);
    if !permitted {
      return;
    }
    if node !in oldToNew {
      oldToNew' := oldToNew[node := |nodes|];
      nodes' := nodes + [g.nodes[node]];
      newToOld' := newToOld + [node];
    }
    var newNode := oldToNew'[node];
    toVisit' := toVisit' + Pushed(newNode, Outgoing(g.edges, node));
    if visit.parent.Some? {
      edges' := edges + [Edge(visit.parent.value.0, newNode, visit.parent.value.1)];
    } else {
      newRoot' := Some(newNode);
    }
  }

  /** The tree for one client: `None` when even the root is out of bounds. */
  method PermittedTree(g: CommandGraph, registry: CommandScopeRegistry, client: seq<string>)
    returns (tree: Option<CommandGraph>)
    requires WellFormed(g) && registry.Valid()
    ensures var allowed := AllowedNodes(g, registry.Graph(), client);
      && (tree.Some? <==> g.root in allowed)
      && (tree.Some? ==> exists rename :: IsPermittedCopy(g, allowed, tree.value, rename))
  {
    ghost var allowed := AllowedNodes(g, registry.Graph(), client);
    var toVisit: seq<Visit>, visited: set<Key> := [Visit(None, g.root)], {};
    var oldToNew: map<nat, nat> := map[];
    var nodes: seq<CommandNode>, edges: seq<Edge> := [], [];
    var newRoot: Option<nat> := None;
    ghost var newToOld: seq<nat> := [];
    ghost var w := Start(g);
    StartOk(g, allowed);
    while toVisit != []
      invariant w == Work(toVisit, visited, oldToNew, newToOld, nodes, edges, newRoot)
      invariant Inv(g, allowed, w)
      decreases Remaining(g, w), |toVisit|
    {
      NextKeeps(g, allowed, w);
      toVisit, visited, oldToNew, newToOld, nodes, edges, newRoot :=
        VisitTop(g, registry, client, toVisit, visited, oldToNew, newToOld, nodes, edges, newRoot);
      w := Next(g, allowed, w);
    }
    Finished(g, allowed, w);
    tree := None;
    if newRoot.Some? {
      tree := Some(CommandGraph(nodes, edges, newRoot.value));
      assert IsPermittedCopy(g, allowed, tree.value, oldToNew);
    }
  }
}
