/** What it means for one command scope to grant another: dots make a hierarchy, links add to it. */
module ScopeGraph {

  const ROOT := "root"

  // ---- Names ----

  /** The position of the last dot before `end`, or `None` when there is none. */
  function LastDot(s: string, end: nat): (r: int)
    requires end <= |s|
    ensures -1 <= r < end
    ensures r >= 0 ==> s[r] == '.'
    ensures forall k :: r < k < end ==> s[k] != '.'
  {
    if end == 0 then -1 else if s[end - 1] == '.' then end - 1 else LastDot(s, end - 1)
  }

  /** The scope one level up; scopes without a dot hang below the root scope. */
  function Parent(s: string): string {
    var dot := LastDot(s, |s|);
    if dot < 0 then ROOT else s[..dot]
  }

  /** `s` itself and everything before one of its dots. */
  ghost predicate IsAncestor(a: string, s: string) {
    a == s || (|a| < |s| && s[..|a|] == a && s[|a|] == '.')
  }

  // ---- The relation ----

  datatype Scopes = Scopes(registered: set<string>, links: set<(string, string)>)

  ghost predicate Valid(g: Scopes) {
    && ROOT in g.registered
    && (forall s :: s in g.registered && s != ROOT ==> Parent(s) in g.registered)
    && (forall l :: l in g.links ==> l.0 in g.registered && l.1 in g.registered)
  }

  /** One step of implication: from a scope to a sub-scope, or along a link. */
  ghost predicate Implies(g: Scopes, a: string, b: string) {
    && a in g.registered && b in g.registered
    && ((b != ROOT && a == Parent(b)) || (a, b) in g.links)
  }

  ghost predicate IsPath(g: Scopes, path: seq<string>) {
    && path != []
    && forall k :: 0 <= k < |path| - 1 ==> Implies(g, path[k], path[k + 1])
  }

  ghost predicate PathFromTo(g: Scopes, path: seq<string>, a: string, b: string) {
    IsPath(g, path) && path[0] == a && path[|path| - 1] == b
  }

  ghost predicate Reaches(g: Scopes, a: string, b: string) {
    exists path :: PathFromTo(g, path, a, b)
  }

  /** The documented meaning of `grants`: equal names, or a path of implications. */
  ghost predicate Grants(g: Scopes, a: string, b: string) {
    a == b || (a in g.registered && b in g.registered && Reaches(g, a, b))
  }

  // ---- General laws ----

  lemma ReachesSelf(g: Scopes, a: string)
    ensures Reaches(g, a, a)
  {
    assert PathFromTo(g, [a], a, a);
  }

  lemma ReachesStep(g: Scopes, a: string, b: string, c: string)
    requires Reaches(g, a, b) && Implies(g, b, c)
    ensures Reaches(g, a, c)
  {
    var path :| PathFromTo(g, path, a, b);
    assert PathFromTo(g, path + [c], a, c);
  }

  lemma ReachesTransitive(g: Scopes, a: string, b: string, c: string)
    requires Reaches(g, a, b) && Reaches(g, b, c)
    ensures Reaches(g, a, c)
  {
    var p :| PathFromTo(g, p, a, b);
    var q :| PathFromTo(g, q, b, c);
    var joined := p + q[1..];
    forall k | 0 <= k < |joined| - 1
      ensures Implies(g, joined[k], joined[k + 1])
    {
      if k >= |p| - 1 {
        assert joined[k] == q[k - (|p| - 1)] && joined[k + 1] == q[k + 1 - (|p| - 1)];
      }
    }
    assert PathFromTo(g, joined, a, c);
  }

  /** Granting composes. */
  lemma GrantsTransitive(g: Scopes, a: string, b: string, c: string)
    requires Grants(g, a, b) && Grants(g, b, c)
    ensures Grants(g, a, c)
  {
    if a != b && b != c {
      ReachesTransitive(g, a, b, c);
    }
  }

  lemma TailPath(g: Scopes, path: seq<string>)
    requires IsPath(g, path) && |path| > 1
    ensures Implies(g, path[0], path[1]) && IsPath(g, path[1..])
  {
    forall k | 0 <= k < |path| - 2
      ensures Implies(g, path[1..][k], path[1..][k + 1])
    {
      assert Implies(g, path[k + 1], path[k + 2]);
    }
  }

  /** Every registered scope hangs below the root, so the root grants all of them. */
  lemma {:induction false} RootGrantsAll(g: Scopes, s: string)
    requires Valid(g) && s in g.registered
    ensures Reaches(g, ROOT, s)
    decreases |s|
  {
    if s == ROOT {
      ReachesSelf(g, ROOT);
    } else if LastDot(s, |s|) < 0 {
      ReachesSelf(g, ROOT);
      ReachesStep(g, ROOT, ROOT, s);
    } else {
      RootGrantsAll(g, Parent(s));
      ReachesStep(g, ROOT, Parent(s), s);
    }
  }

  // ---- Additions ----

  ghost function Ancestors(s: string): set<string> {
    set k | 0 <= k <= |s| && IsAncestor(s[..k], s) :: s[..k]
  }

  ghost function AddScope(g: Scopes, s: string): Scopes {
    if s in g.registered then g else g.(registered := g.registered + Ancestors(s))
  }

  ghost function Link(g: Scopes, a: string, b: string): Scopes {
    var both := AddScope(AddScope(g, a), b);
    both.(links := both.links + {(a, b)})
  }

  lemma ParentIsAncestor(a: string, s: string)
    requires IsAncestor(a, s) && LastDot(a, |a|) >= 0
    ensures IsAncestor(Parent(a), s) && |Parent(a)| < |s|
  {
  }

  lemma AddScopeValid(g: Scopes, s: string)
    requires Valid(g)
    ensures Valid(AddScope(g, s)) && s in AddScope(g, s).registered
  {
    var h := AddScope(g, s);
    assert IsAncestor(s[..|s|], s) && s[..|s|] == s;
    forall a | a in h.registered && a != ROOT
      ensures Parent(a) in h.registered
    {
      if a !in g.registered && LastDot(a, |a|) >= 0 {
        ParentIsAncestor(a, s);
        assert Parent(a) == s[..|Parent(a)|];
      }
    }
  }

  lemma LinkValid(g: Scopes, a: string, b: string)
    requires Valid(g)
    ensures Valid(Link(g, a, b))
  {
    AddScopeValid(g, a);
    AddScopeValid(AddScope(g, a), b);
  }

  /** More names and more links never revoke a grant. */
  lemma GrantsMonotone(g: Scopes, h: Scopes, a: string, b: string)
    requires g.registered <= h.registered && g.links <= h.links
    requires Grants(g, a, b)
    ensures Grants(h, a, b)
  {
    if a != b {
      var path :| PathFromTo(g, path, a, b);
      assert forall k :: 0 <= k < |path| - 1 ==> Implies(g, path[k], path[k + 1]);
      assert PathFromTo(h, path, a, b);
    }
  }

  /** Adding a scope never grants anything new between the scopes that were already there. */
  lemma AddScopeConservative(g: Scopes, s: string, a: string, b: string)
    requires Valid(g) && a in g.registered && b in g.registered
    ensures Grants(AddScope(g, s), a, b) <==> Grants(g, a, b)
  {
    var h := AddScope(g, s);
    if Grants(g, a, b) {
      GrantsMonotone(g, h, a, b);
    }
    if Grants(h, a, b) && a != b {
      var path :| PathFromTo(h, path, a, b);
      StaysRegistered(g, h, path);
      assert PathFromTo(g, path, a, b);
    }
  }

  /** A path that ends at an old scope ran through old scopes only. */
  lemma {:induction false} StaysRegistered(g: Scopes, h: Scopes, path: seq<string>)
    requires Valid(g) && g.registered <= h.registered && g.links == h.links
    requires IsPath(h, path) && path[|path| - 1] in g.registered
    ensures IsPath(g, path) && path[0] in g.registered
  {
    if |path| > 1 {
      TailPath(h, path);
      StaysRegistered(g, h, path[1..]);
      assert Implies(h, path[0], path[1]);
      forall k | 0 <= k < |path| - 1
        ensures Implies(g, path[k], path[k + 1])
      {
        if k > 0 {
          assert path[k] == path[1..][k - 1] && path[k + 1] == path[1..][k];
        }
      }
    }
  }

  // ---- Runs of additions ----

  datatype Change = Add(scope: string) | AddLink(scope: string, other: string)

  ghost function Apply(g: Scopes, change: Change): Scopes {
    match change
    case Add(s) => AddScope(g, s)
    case AddLink(a, b) => Link(g, a, b)
  }

  ghost function Replay(g: Scopes, changes: seq<Change>): Scopes
    decreases |changes|
  {
    if changes == [] then g else Replay(Apply(g, changes[0]), changes[1..])
  }

  const EMPTY := Scopes({ROOT}, {})

  /** Whatever is added later, what was granted stays granted. */
  lemma {:induction false} NeverRevoked(g: Scopes, changes: seq<Change>, a: string, b: string)
    requires Valid(g)
    ensures Valid(Replay(g, changes))
    ensures Grants(g, a, b) ==> Grants(Replay(g, changes), a, b)
    decreases |changes|
  {
    if changes != [] {
      var h := Apply(g, changes[0]);
      match changes[0] {
        case Add(s) => AddScopeValid(g, s);
        case AddLink(c, d) => LinkValid(g, c, d);
      }
      if Grants(g, a, b) {
        GrantsMonotone(g, h, a, b);
      }
      NeverRevoked(h, changes[1..], a, b);
    }
  }

  // ---- The hierarchy on its own ----

  /** Climbing from a scope to one of its ancestors. */
  lemma {:induction false} AncestorReaches(g: Scopes, a: string, b: string)
    requires Valid(g) && b in g.registered && IsAncestor(a, b)
    ensures a in g.registered && Reaches(g, a, b)
    decreases |b|
  {
    if a == b {
      ReachesSelf(g, a);
    } else {
      var dot := LastDot(b, |b|);
      assert dot >= |a|;
      assert b != ROOT by {
        assert ROOT[0] == 'r' && ROOT[1] == 'o' && ROOT[2] == 'o' && ROOT[3] == 't';
      }
      assert Parent(b) in g.registered;
      assert b[..dot][..|a|] == a;
      AncestorReaches(g, a, Parent(b));
      ReachesStep(g, a, Parent(b), b);
    }
  }

  lemma AncestorTransitive(a: string, b: string, c: string)
    requires IsAncestor(a, b) && IsAncestor(b, c)
    ensures IsAncestor(a, c)
  {
    if a != b && b != c {
      assert c[..|a|] == c[..|b|][..|a|];
    }
  }

  lemma {:induction false} PathDescends(g: Scopes, path: seq<string>)
    requires g.links == {} && IsPath(g, path) && path[0] != ROOT
    ensures IsAncestor(path[0], path[|path| - 1])
  {
    if |path| > 1 {
      TailPath(g, path);
      assert path[0] == Parent(path[1]);
      PathDescends(g, path[1..]);
      AncestorTransitive(path[0], path[1], path[|path| - 1]);
    }
  }

  /** `a` itself, or `a` with a dot and more behind it. */
  ghost predicate IsBelow(s: string, a: string) {
    s == a || a + "." <= s
  }

  lemma AncestorIff(a: string, s: string)
    ensures IsAncestor(a, s) <==> IsBelow(s, a)
  {
    if a + "." <= s {
      assert s[..|a|] == (a + ".")[..|a|] == a && s[|a|] == (a + ".")[|a|];
    }
    if |a| < |s| && s[..|a|] == a && s[|a|] == '.' {
      assert a + "." == s[..|a| + 1];
    }
  }

  /** Before any link is made, one scope grants another exactly when it is the root or an ancestor: the same
      name, or the name up to one of the dots. */
  lemma HierarchyOnly(g: Scopes, a: string, b: string)
    requires Valid(g) && g.links == {}
    requires a in g.registered && b in g.registered
    ensures Grants(g, a, b) <==> a == "root" || IsBelow(b, a)
  {
    AncestorIff(a, b);
    if a == ROOT {
      RootGrantsAll(g, b);
    } else if IsAncestor(a, b) {
      AncestorReaches(g, a, b);
    } else if Grants(g, a, b) {
      var path :| PathFromTo(g, path, a, b);
      PathDescends(g, path);
    }
  }

  /** Adding a scope registers it and everything up to one of its dots, and nothing else. */
  lemma AddScopeMeans(g: Scopes, s: string, x: string)
    requires Valid(g)
    ensures AddScope(g, s).links == g.links
    ensures x in AddScope(g, s).registered <==> x in g.registered || IsBelow(s, x)
  {
    AncestorIff(x, s);
    if s in g.registered && IsAncestor(x, s) {
      AncestorReaches(g, x, s);
    }
    if IsAncestor(x, s) {
      assert x == s[..|x|];
    }
  }

  /** Linking registers both scopes and adds one link. */
  lemma LinkMeans(g: Scopes, a: string, b: string, x: string)
    requires Valid(g)
    ensures Link(g, a, b).links == g.links + {(a, b)}
    ensures x in Link(g, a, b).registered <==> x in g.registered || IsBelow(a, x) || IsBelow(b, x)
  {
    AddScopeMeans(g, a, x);
    AddScopeValid(g, a);
    AddScopeMeans(AddScope(g, a), b, x);
  }

  /** A link passes on everything below its target. */
  lemma LinkGrantsBelow(g: Scopes, a: string, b: string, s: string)
    requires Valid(g) && s in Link(g, a, b).registered && IsAncestor(b, s)
    ensures Grants(Link(g, a, b), a, s)
  {
    var h := Link(g, a, b);
    LinkValid(g, a, b);
    AddScopeValid(g, a);
    AddScopeValid(AddScope(g, a), b);
    ReachesSelf(h, a);
    assert Implies(h, a, b);
    ReachesStep(h, a, a, b);
    AncestorReaches(h, b, s);
    ReachesTransitive(h, a, b, s);
  }
}
