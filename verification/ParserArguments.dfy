/** With which arguments and modifiers executables are run: said of the hops themselves and of the input, not of
    how the program collects them. */
module ParserArguments {
  import opened Wrappers
  import opened CallTree
  import opened CommandGraph
  import opened CommandDispatch
  import opened DispatchEnds
  import opened CommandParser
  import opened ParserLaws

  /** A call that comes to an argument by a child edge. */
  predicate AtArgument(c: Commands, v: Point) {
    v.hop.node < |c.graph.nodes| && !v.hop.redirected && c.graph.nodes[v.hop.node].data.Argument?
  }

  /** The text stands at the front of the call's input, blanks skipped, and the parser accepts just that much. */
  ghost predicate Took(c: Commands, v: Point, text: string) {
    && v.hop.node in c.parsers
    && text <= SkipWhitespace(v.input)
    && c.parsers[v.hop.node](SkipWhitespace(v.input)) == Some(|text|)
  }

  ghost predicate Blank(s: string) {
    forall k :: 0 <= k < |s| ==> IsWhitespace(s[k])
  }

  /** What a hop takes and what it leaves: blanks, its text, blanks, and the rest, which does not begin with one.
      A redirect and the root have no text, a literal its name in some spelling, with a blank or the end behind
      it, and an argument what its parser accepts. */
  lemma AdvanceMeans(c: Commands, hop: Hop, input: string, rest: string)
    returns (lead: string, text: string, gap: string)
    requires WellFormedCommands(c) && hop.node < |c.graph.nodes| && Advance(c, hop, input) == Some(rest)
    ensures input == lead + text + gap + rest && Blank(lead) && Blank(gap)
    ensures rest == "" || !IsWhitespace(rest[0])
    ensures hop.redirected || c.graph.nodes[hop.node].data.Root? ==> text == ""
    ensures !hop.redirected && c.graph.nodes[hop.node].data.Literal? ==>
      SameWord(text, c.graph.nodes[hop.node].data.name) && (if gap == "" then rest == "" else gap[0] == ' ')
    ensures AtArgument(c, Point(hop, input)) ==> Took(c, Point(hop, input), text)
  {
    lead := SkipMeans(input);
    BlankIs(lead);
    if hop.redirected {
      text, gap := "", "";
    } else {
      text, gap := MatchTakes(c, hop.node, input, Match(c, hop.node, input).value.0, rest);
    }
    Concats(lead, text, gap, rest);
  }

  lemma BlankIs(s: string)
    requires forall c :: c in s ==> IsWhitespace(c)
    ensures Blank(s)
  {
    forall k | 0 <= k < |s|
      ensures IsWhitespace(s[k])
    {
      assert s[k] in s;
    }
  }

  lemma Concats(lead: string, text: string, gap: string, rest: string)
    ensures lead + (text + gap + rest) == lead + text + gap + rest
  {
  }

  lemma MatchTakes(c: Commands, node: nat, input: string, left: string, rest: string)
    returns (text: string, gap: string)
    requires WellFormedCommands(c) && node < |c.graph.nodes| && Match(c, node, input).Some?
    requires left == Match(c, node, input).value.0 && rest == SkipWhitespace(left)
    ensures SkipWhitespace(input) == text + gap + rest && Blank(gap)
    ensures rest == "" || !IsWhitespace(rest[0])
    ensures c.graph.nodes[node].data.Root? ==> text == ""
    ensures c.graph.nodes[node].data.Literal? ==>
      SameWord(text, c.graph.nodes[node].data.name) && (if gap == "" then rest == "" else gap[0] == ' ')
    ensures c.graph.nodes[node].data.Argument? ==> Took(c, Point(Hop(node, false), input), text)
  {
    var taken := Match(c, node, input).value.1;
    var blank := SkipMeans(left);
    BlankIs(blank);
    match c.graph.nodes[node].data
    case Root =>
      RootTakes(c, node, input, left, taken, blank, rest);
      text, gap := "", blank;
    case Literal(_) =>
      text, gap := LiteralTakes(c, node, input, left, taken, blank, rest);
    case Argument(_) =>
      text := ArgumentTakes(c, node, input, left, taken, blank, rest);
      gap := blank;
  }

  lemma RootTakes(c: Commands, node: nat, input: string, left: string, taken: seq<string>, blank: string, rest: string)
    requires node < |c.graph.nodes| && c.graph.nodes[node].data.Root?
    requires Match(c, node, input) == Some((left, taken)) && left == blank + rest
    ensures SkipWhitespace(input) == "" + blank + rest
  {
  }

  lemma ArgumentTakes(c: Commands, node: nat, input: string, left: string, taken: seq<string>, blank: string,
                      rest: string) returns (text: string)
    requires WellFormedCommands(c) && node < |c.graph.nodes| && c.graph.nodes[node].data.Argument?
    requires Match(c, node, input) == Some((left, taken)) && left == blank + rest
    ensures SkipWhitespace(input) == text + blank + rest && Took(c, Point(Hop(node, false), input), text)
  {
    ArgumentMatchIff(c, node, input, left, taken);
    text := taken[0];
    assert (text + left)[..|text|] == text;
    assert text + left == text + blank + rest;
  }

  lemma LiteralTakes(c: Commands, node: nat, input: string, left: string, taken: seq<string>, blank: string,
                     rest: string) returns (text: string, gap: string)
    requires node < |c.graph.nodes| && c.graph.nodes[node].data.Literal?
    requires Match(c, node, input) == Some((left, taken)) && left == blank + rest && Blank(blank)
    ensures SkipWhitespace(input) == text + gap + rest && Blank(gap)
    ensures SameWord(text, c.graph.nodes[node].data.name) && (if gap == "" then rest == "" else gap[0] == ' ')
  {
    LiteralMatchIff(c, node, input, left, taken);
    var word :| SameWord(word, c.graph.nodes[node].data.name) && SplitsAt(SkipWhitespace(input), word, left);
    text := word;
    if left == "" && SkipWhitespace(input) == word {
      gap := "";
    } else {
      gap := " " + blank;
      assert word + " " + left == word + gap + rest;
    }
  }

  // ---- What a parse is ----

  /** A hop to an allowed node that takes its part. Its node is executable with nothing left exactly when it is
      the last one. */
  ghost predicate TakesPart(c: Commands, allowed: set<nat>, hop: Hop, input: string, rest: string, last: bool) {
    && hop.node < |c.graph.nodes| && hop.node in allowed
    && Advance(c, hop, input) == Some(rest)
    && (rest == "" && hop.node in c.executables <==> last)
  }

  /** Along the latest edge between the two nodes. */
  ghost predicate Follows(c: Commands, a: Hop, b: Hop) {
    LastKind(c.graph.edges, a.node, b.node) == Some(if b.redirected then Redirect else Child)
  }

  lemma FollowsIff(c: Commands, a: Hop, b: Hop)
    ensures Follows(c, a, b) <==> CanFollow(c, a.node, b)
  {
    var kind := LastKind(c.graph.edges, a.node, b.node);
    assert kind.Some? ==> kind.value.Redirect? || kind.value.Child?;
  }

  /** `inputs` are what is left of the input before each hop and after the last one. */
  ghost predicate IsParse(c: Commands, allowed: set<nat>, hops: seq<Hop>, inputs: seq<string>) {
    && |hops| > 0 && |inputs| == |hops| + 1
    && (forall k :: 0 <= k < |hops| ==>
          TakesPart(c, allowed, hops[k], inputs[k], inputs[k + 1], k == |hops| - 1))
    && forall k :: 0 <= k < |hops| - 1 ==> Follows(c, hops[k], hops[k + 1])
  }

  /** A parse takes the whole input and ends at the first executable node that leaves nothing of it. */
  lemma {:induction false} AcceptsIff(c: Commands, allowed: set<nat>, hops: seq<Hop>, input: string)
    ensures Accepts(c, allowed, hops, input) <==>
      exists inputs :: IsParse(c, allowed, hops, inputs) && inputs[0] == input
  {
    if Accepts(c, allowed, hops, input) {
      var inputs := ParseOf(c, allowed, hops, input);
    }
    if inputs :| IsParse(c, allowed, hops, inputs) && inputs[0] == input {
      ParseAccepts(c, allowed, hops, inputs);
    }
  }

  lemma {:induction false} ParseOf(c: Commands, allowed: set<nat>, hops: seq<Hop>, input: string)
    returns (inputs: seq<string>)
    requires Accepts(c, allowed, hops, input)
    ensures IsParse(c, allowed, hops, inputs) && inputs[0] == input
  {
    var rest := Advance(c, hops[0], input).value;
    if |hops| == 1 {
      inputs := [input, rest];
    } else {
      var more := ParseOf(c, allowed, hops[1..], rest);
      FollowsIff(c, hops[0], hops[1]);
      inputs := [input] + more;
      ParseGrows(c, allowed, hops, input, more);
    }
  }

  lemma ParseGrows(c: Commands, allowed: set<nat>, hops: seq<Hop>, input: string, more: seq<string>)
    requires |hops| > 1 && IsParse(c, allowed, hops[1..], more)
    requires TakesPart(c, allowed, hops[0], input, more[0], false) && Follows(c, hops[0], hops[1])
    ensures IsParse(c, allowed, hops, [input] + more)
  {
    var tail, inputs := hops[1..], [input] + more;
    forall k | 0 <= k < |hops|
      ensures TakesPart(c, allowed, hops[k], inputs[k], inputs[k + 1], k == |hops| - 1)
    {
      if k > 0 {
        assert TakesPart(c, allowed, tail[k - 1], more[k - 1], more[k], k - 1 == |tail| - 1);
      }
    }
    forall k | 0 <= k < |hops| - 1
      ensures Follows(c, hops[k], hops[k + 1])
    {
      if k > 0 {
        assert Follows(c, tail[k - 1], tail[k]);
      }
    }
  }

  lemma {:induction false} ParseAccepts(c: Commands, allowed: set<nat>, hops: seq<Hop>, inputs: seq<string>)
    requires IsParse(c, allowed, hops, inputs)
    ensures Accepts(c, allowed, hops, inputs[0])
    decreases |hops|
  {
    if |hops| == 1 {
      assert TakesPart(c, allowed, hops[0], inputs[0], inputs[1], true);
    } else {
      ParseShrinks(c, allowed, hops, inputs);
      FollowsIff(c, hops[0], hops[1]);
      ParseAccepts(c, allowed, hops[1..], inputs[1..]);
    }
  }

  lemma ParseShrinks(c: Commands, allowed: set<nat>, hops: seq<Hop>, inputs: seq<string>)
    requires IsParse(c, allowed, hops, inputs) && |hops| > 1
    ensures IsParse(c, allowed, hops[1..], inputs[1..])
    ensures TakesPart(c, allowed, hops[0], inputs[0], inputs[1], false) && Follows(c, hops[0], hops[1])
  {
    var tail, more := hops[1..], inputs[1..];
    forall k | 0 <= k < |tail|
      ensures TakesPart(c, allowed, tail[k], more[k], more[k + 1], k == |tail| - 1)
    {
      assert TakesPart(c, allowed, hops[k + 1], inputs[k + 1], inputs[k + 2], k + 1 == |hops| - 1);
    }
    forall k | 0 <= k < |tail| - 1
      ensures Follows(c, tail[k], tail[k + 1])
    {
      assert Follows(c, hops[k + 1], hops[k + 2]);
    }
  }

  // ---- What it collects ----

  /** The indices, in order, of the elements from `from` on that are wanted. */
  ghost predicate Selects(at: seq<nat>, wanted: set<nat>) {
    && (forall j, k :: 0 <= j < k < |at| ==> at[j] < at[k])
    && (forall j: nat :: j in at <==> j in wanted)
  }

  ghost function ArgumentsAfter(c: Commands, visits: seq<Point>, last: int): set<nat> {
    set j: nat | j < |visits| && last < j && AtArgument(c, visits[j])
  }

  ghost predicate IsLastRedirect(visits: seq<Point>, last: int) {
    && -1 <= last < |visits|
    && (last >= 0 ==> visits[last].hop.redirected)
    && forall k :: last < k < |visits| ==> !visits[k].hop.redirected
  }

  /** The arguments after the visits: the texts of the arguments after the last redirect, in order, behind the
      arguments from before the visits if there was no redirect. */
  ghost predicate AreArguments(c: Commands, visits: seq<Point>, before: seq<string>, after: seq<string>,
                               last: int, at: seq<nat>) {
    && IsLastRedirect(visits, last)
    && Selects(at, ArgumentsAfter(c, visits, last))
    && var kept := if last < 0 then before else [];
       && |after| == |kept| + |at| && after[..|kept|] == kept
       && forall k :: 0 <= k < |at| ==> at[k] < |visits| && Took(c, visits[at[k]], after[|kept| + k])
  }

  ghost function Modified(c: Commands, visits: seq<Point>): set<nat> {
    set j: nat | j < |visits| && !visits[j].hop.redirected && visits[j].hop.node in c.modifiers
  }

  /** The modifiers after the visits: behind those from before, one for every visit by a child edge to a node
      that has one, with the argument's text or none; redirects drop nothing. */
  ghost predicate AreModifiers(c: Commands, visits: seq<Point>, before: Modifiers, after: Modifiers, at: seq<nat>) {
    && Selects(at, Modified(c, visits))
    && |after| == |before| + |at| && after[..|before|] == before
    && forall k :: 0 <= k < |at| ==>
         && at[k] < |visits|
         && after[|before| + k].0 == visits[at[k]].hop.node
         && if AtArgument(c, visits[at[k]]) then Took(c, visits[at[k]], after[|before| + k].1)
            else after[|before| + k].1 == ""
  }

  ghost predicate AllPass(c: Commands, allowed: set<nat>, visits: seq<Point>) {
    forall k :: 0 <= k < |visits| ==> Passes(c, allowed, visits[k])
  }

  // ---- One more visit ----

  lemma TookAt(c: Commands, allowed: set<nat>, v: Point) returns (text: string)
    requires WellFormedCommands(c) && Passes(c, allowed, v) && AtArgument(c, v)
    ensures Took(c, v, text)
    ensures Match(c, v.hop.node, v.input).Some? && Match(c, v.hop.node, v.input).value.1 == [text]
  {
    var (rest, taken) := Match(c, v.hop.node, v.input).value;
    ArgumentMatchIff(c, v.hop.node, v.input, rest, taken);
    text := taken[0];
    assert (text + rest)[..|text|] == text;
  }

  lemma TookNothing(c: Commands, allowed: set<nat>, v: Point)
    requires Passes(c, allowed, v) && !v.hop.redirected && !AtArgument(c, v)
    ensures Match(c, v.hop.node, v.input).Some? && Match(c, v.hop.node, v.input).value.1 == []
  {
  }

  lemma SelectsMore(at: seq<nat>, wanted: set<nat>, j: nat)
    requires Selects(at, wanted) && forall i :: i in wanted ==> i < j
    ensures Selects(at + [j], wanted + {j})
  {
    forall i: nat
      ensures i in at + [j] <==> i in wanted + {j}
    {
    }
    forall k | 0 <= k < |at|
      ensures at[k] < j
    {
      assert at[k] in at;
    }
  }

  lemma CollectLast(c: Commands, front: seq<Point>, v: Point, arguments: seq<string>, modifiers: Modifiers)
    requires v.hop.node < |c.graph.nodes|
    ensures CollectAll(c, front + [v], arguments) == Collect(c, v.hop, v.input, CollectAll(c, front, arguments))
    ensures ModifyAll(c, front + [v], modifiers) == Modify(c, v.hop, v.input, ModifyAll(c, front, modifiers))
  {
    CollectSplit(c, front, [v], arguments, modifiers);
    assert [v][1..] == [];
  }

  lemma RedirectClears(c: Commands, front: seq<Point>, v: Point, before: seq<string>)
    requires v.hop.redirected
    ensures AreArguments(c, front + [v], before, [], |front|, [])
  {
  }

  lemma ArgumentAdds(c: Commands, front: seq<Point>, v: Point, before: seq<string>, sofar: seq<string>, last: int,
                     at: seq<nat>, text: string)
    requires AreArguments(c, front, before, sofar, last, at)
    requires AtArgument(c, v) && Took(c, v, text)
    ensures AreArguments(c, front + [v], before, sofar + [text], last, at + [|front|])
  {
    var visits := front + [v];
    SelectsMore(at, ArgumentsAfter(c, front, last), |front|);
    assert ArgumentsAfter(c, visits, last) == ArgumentsAfter(c, front, last) + {|front|};
    var kept := if last < 0 then before else [];
    assert (sofar + [text])[..|kept|] == sofar[..|kept|];
  }

  lemma OtherStays(c: Commands, front: seq<Point>, v: Point, before: seq<string>, sofar: seq<string>, last: int,
                   at: seq<nat>)
    requires AreArguments(c, front, before, sofar, last, at)
    requires !v.hop.redirected && !AtArgument(c, v)
    ensures AreArguments(c, front + [v], before, sofar, last, at)
  {
    assert ArgumentsAfter(c, front + [v], last) == ArgumentsAfter(c, front, last);
  }

  lemma CollectedStep(c: Commands, allowed: set<nat>, front: seq<Point>, v: Point, before: seq<string>,
                      sofar: seq<string>, last: int, at: seq<nat>) returns (newLast: int, newAt: seq<nat>)
    requires WellFormedCommands(c) && Passes(c, allowed, v)
    requires AreArguments(c, front, before, sofar, last, at)
    ensures AreArguments(c, front + [v], before, Collect(c, v.hop, v.input, sofar), newLast, newAt)
  {
    if v.hop.redirected {
      RedirectClears(c, front, v, before);
      newLast, newAt := |front|, [];
    } else if AtArgument(c, v) {
      var text := TookAt(c, allowed, v);
      ArgumentAdds(c, front, v, before, sofar, last, at, text);
      newLast, newAt := last, at + [|front|];
    } else {
      TookNothing(c, allowed, v);
      OtherStays(c, front, v, before, sofar, last, at);
      newLast, newAt := last, at;
    }
  }

  lemma {:induction false} CollectedMeans(c: Commands, allowed: set<nat>, visits: seq<Point>, before: seq<string>)
    returns (last: int, at: seq<nat>)
    requires WellFormedCommands(c) && AllPass(c, allowed, visits)
    ensures AreArguments(c, visits, before, CollectAll(c, visits, before), last, at)
  {
    if visits == [] {
      last, at := -1, [];
      NoneCollected(c, before);
    } else {
      var front, v := visits[..|visits| - 1], visits[|visits| - 1];
      PassFront(c, allowed, visits);
      var frontLast, frontAt := CollectedMeans(c, allowed, front, before);
      CollectLast(c, front, v, before, []);
      last, at := CollectedStep(c, allowed, front, v, before, CollectAll(c, front, before), frontLast, frontAt);
      assert visits == front + [v];
    }
  }

  lemma NoneCollected(c: Commands, before: seq<string>)
    ensures AreArguments(c, [], before, before, -1, [])
  {
  }

  lemma PassFront(c: Commands, allowed: set<nat>, visits: seq<Point>)
    requires visits != [] && AllPass(c, allowed, visits)
    ensures AllPass(c, allowed, visits[..|visits| - 1]) && Passes(c, allowed, visits[|visits| - 1])
  {
  }

  lemma ModifierAdds(c: Commands, front: seq<Point>, v: Point, before: Modifiers, sofar: Modifiers, at: seq<nat>,
                     text: string)
    requires AreModifiers(c, front, before, sofar, at)
    requires !v.hop.redirected && v.hop.node in c.modifiers
    requires if AtArgument(c, v) then Took(c, v, text) else text == ""
    ensures AreModifiers(c, front + [v], before, sofar + [(v.hop.node, text)], at + [|front|])
  {
    SelectsMore(at, Modified(c, front), |front|);
    assert Modified(c, front + [v]) == Modified(c, front) + {|front|};
    assert (sofar + [(v.hop.node, text)])[..|before|] == sofar[..|before|];
  }

  lemma NoModifier(c: Commands, front: seq<Point>, v: Point, before: Modifiers, sofar: Modifiers, at: seq<nat>)
    requires AreModifiers(c, front, before, sofar, at)
    requires v.hop.redirected || v.hop.node !in c.modifiers
    ensures AreModifiers(c, front + [v], before, sofar, at)
  {
    assert Modified(c, front + [v]) == Modified(c, front);
  }

  lemma ModifiedStep(c: Commands, allowed: set<nat>, front: seq<Point>, v: Point, before: Modifiers, sofar: Modifiers,
                     at: seq<nat>) returns (newAt: seq<nat>)
    requires WellFormedCommands(c) && Passes(c, allowed, v)
    requires AreModifiers(c, front, before, sofar, at)
    ensures AreModifiers(c, front + [v], before, Modify(c, v.hop, v.input, sofar), newAt)
  {
    if v.hop.redirected || v.hop.node !in c.modifiers {
      NoModifier(c, front, v, before, sofar, at);
      newAt := at;
    } else {
      var text := "";
      if AtArgument(c, v) {
        text := TookAt(c, allowed, v);
      } else {
        TookNothing(c, allowed, v);
      }
      ModifierAdds(c, front, v, before, sofar, at, text);
      newAt := at + [|front|];
    }
  }

  lemma {:induction false} ModifiedMeans(c: Commands, allowed: set<nat>, visits: seq<Point>, before: Modifiers)
    returns (at: seq<nat>)
    requires WellFormedCommands(c) && AllPass(c, allowed, visits)
    ensures AreModifiers(c, visits, before, ModifyAll(c, visits, before), at)
  {
    if visits == [] {
      at := [];
    } else {
      var front, v := visits[..|visits| - 1], visits[|visits| - 1];
      PassFront(c, allowed, visits);
      at := ModifiedMeans(c, allowed, front, before);
      CollectLast(c, front, v, [], before);
      at := ModifiedStep(c, allowed, front, v, before, ModifyAll(c, front, before), at);
      assert visits == front + [v];
    }
  }

  // ---- What the program reports ----

  lemma {:induction false} PassAppend(c: Commands, allowed: set<nat>, a: seq<Point>, b: seq<Point>)
    requires AllPass(c, allowed, a) && AllPass(c, allowed, b)
    ensures AllPass(c, allowed, a + b)
  {
  }

  /** The calls on the way to an executable all take their part of the input. */
  lemma {:induction false} VisitsPass(c: Commands, allowed: set<nat>, p: Point)
    requires WellFormedCommands(c) && !Loops(c, allowed, p)
    ensures AllPass(c, allowed, Visits(Tree(c, allowed, p)))
    decreases Depth(c, allowed, p), 1, 0
  {
    if Branches(c, allowed, p) {
      TreeBelow(c, allowed, p);
      VisitsPassAll(c, allowed, p, Tree(c, allowed, p).below, SuccessorCount(c, p));
    }
  }

  lemma {:induction false} VisitsPassAll(c: Commands, allowed: set<nat>, p: Point, below: seq<Calls>, n: nat)
    requires WellFormedCommands(c) && !Loops(c, allowed, p) && Branches(c, allowed, p)
    requires |below| == SuccessorCount(c, p) && n <= |below|
    requires forall k :: 0 <= k < |below| ==>
      !Loops(c, allowed, Successor(c, p, k)) && below[k] == Tree(c, allowed, Successor(c, p, k))
    ensures AllPass(c, allowed, VisitsAll(below[..n]))
    ensures n == |below| ==> AllPass(c, allowed, VisitsAll(below))
    decreases Depth(c, allowed, p), 0, n
  {
    if n > 0 {
      VisitsPassAll(c, allowed, p, below, n - 1);
      SuccessorEnds(c, allowed, p, n - 1);
      VisitsPass(c, allowed, Successor(c, p, n - 1));
      VisitsOneMore(below, n - 1);
      PassAppend(c, allowed, VisitsAll(below[..n - 1]), Visits(below[n - 1]));
    }
    assert below[..|below|] == below;
  }

  lemma VisitsOneMore(ts: seq<Calls>, n: nat)
    requires n < |ts|
    ensures VisitsAll(ts[..n + 1]) == VisitsAll(ts[..n]) + Visits(ts[n])
  {
    assert ts[..n + 1][..n] == ts[..n] && ts[..n + 1][n] == ts[n];
  }

  /** What a valid call reports: executables, arguments and modifiers, said of the calls on the way to the
      executables. */
  lemma ReportedMeans(c: Commands, allowed: set<nat>, p: Point, before: Outcome, o: Outcome)
    returns (last: int, arguments: seq<nat>, modifiers: seq<nat>)
    requires WellFormedCommands(c) && !Loops(c, allowed, p)
    requires Reports(c, Tree(c, allowed, p), before, o) && o.valid
    ensures var visits := Visits(Tree(c, allowed, p));
      && AllPass(c, allowed, visits)
      && AreArguments(c, visits, before.arguments, o.arguments, last, arguments)
      && AreModifiers(c, visits, before.modifiers, o.modifiers, modifiers)
  {
    var visits := Visits(Tree(c, allowed, p));
    VisitsPass(c, allowed, p);
    last, arguments := CollectedMeans(c, allowed, visits, before.arguments);
    modifiers := ModifiedMeans(c, allowed, visits, before.modifiers);
  }

  /** With one execution the calls are the hops of its parse, so the arguments are the texts that the argument
      hops after the last redirect took from the input. */
  lemma OneExecutionMeans(c: Commands, allowed: set<nat>, p: Point, before: Outcome, o: Outcome)
    returns (hops: seq<Hop>, visits: seq<Point>, last: int, arguments: seq<nat>, modifiers: seq<nat>)
    requires WellFormedCommands(c) && !Loops(c, allowed, p) && p.hop.node < |c.graph.nodes|
    requires Reports(c, Tree(c, allowed, p), before, o) && o.valid && |o.executed| == |before.executed| + 1
    ensures LeadsTo(c, allowed, hops, p.hop, p.input, o.executed[|before.executed|])
    ensures IsPathOf(c, visits, hops, p.input)
    ensures AreArguments(c, visits, before.arguments, o.arguments, last, arguments)
    ensures AreModifiers(c, visits, before.modifiers, o.modifiers, modifiers)
  {
    visits := Visits(Tree(c, allowed, p));
    hops := OneExecution(c, allowed, p, before.arguments, before.modifiers);
    last, arguments, modifiers := ReportedMeans(c, allowed, p, before, o);
  }
}
