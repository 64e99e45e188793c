/** Dispatch of a typed command: a backtracking walk of the command graph that consumes the input. */
module CommandDispatch {
  import opened Wrappers
  import opened CommandGraph
  import CommandTree

  // ---- Input ----

  /** White space of Unicode: the property White_Space. */
  predicate IsWhitespace(c: char) {
    || c == ' ' || '\t' <= c <= '\r' || c == '\U{85}' || c == '\U{A0}' || c == '\U{1680}'
    || '\U{2000}' <= c <= '\U{200A}' || c == '\U{2028}' || c == '\U{2029}' || c == '\U{202F}' || c == '\U{205F}'
    || c == '\U{3000}'
  }

  lemma WhitespaceIs(c: char)
    ensures IsWhitespace(c) <==>
      || 9 <= c as int <= 13 || 0x2000 <= c as int <= 0x200A
      || c as int in {0x20, 0x85, 0xA0, 0x1680, 0x2028, 0x2029, 0x202F, 0x205F, 0x3000}
  {
  }

  function SkipWhitespace(input: string): (rest: string)
    ensures |rest| <= |input|
  {
    if input != "" && IsWhitespace(input[0]) then SkipWhitespace(input[1..]) else input
  }

  function Lower(c: char): char {
    if 'A' <= c <= 'Z' then (c as int + 32) as char else c
  }

  /** Case-insensitive prefix match; the rest of the input when it matches. */
  function MatchNext(input: string, word: string): Option<string> {
    if |word| <= |input| && forall k :: 0 <= k < |word| ==> Lower(input[k]) == Lower(word[k])
    then Some(input[|word|..]) else None
  }

  /** A parser accepts a prefix of the input, given by its length, or nothing. */
  type Parser = string -> Option<nat>

  ghost predicate ConsumesPrefix(parser: Parser) {
    forall s :: parser(s).Some? ==> parser(s).value <= |s|
  }

  // ---- The registry of commands ----

  datatype Commands = Commands(
    graph: CommandGraph,
    parsers: map<nat, Parser>,
    modifiers: set<nat>,
    executables: set<nat>)

  ghost predicate WellFormedCommands(c: Commands) {
    && WellFormed(c.graph)
    && forall n :: n in c.parsers ==> ConsumesPrefix(c.parsers[n])
  }

  /** The kind of the latest edge from `a` to `b`, which is the one the graph library finds. */
  function LastKind(edges: seq<Edge>, a: nat, b: nat): Option<EdgeKind> {
    if edges == [] then None
    else
      var last := edges[|edges| - 1];
      if last.source == a && last.target == b then Some(last.kind)
      else LastKind(edges[..|edges| - 1], a, b)
  }

  /** A node to be matched, and whether it was reached by a redirect. */
  datatype Hop = Hop(node: nat, redirected: bool)

  /** What a node reached by a child edge takes from the input: the rest, and its argument if any. */
  function Match(c: Commands, node: nat, input: string): Option<(string, seq<string>)>
    requires node < |c.graph.nodes|
  {
    var trimmed := SkipWhitespace(input);
    match c.graph.nodes[node].data
    case Root => Some((trimmed, []))
    case Literal(name) =>
      (match MatchNext(trimmed, name)
       case None => None
       case Some(rest) =>
         if rest == "" then Some((rest, []))
         else if rest[0] == ' ' then Some((rest[1..], []))
         else None)
    case Argument(_) =>
      if node !in c.parsers then None
      else
        match c.parsers[node](trimmed)
        case None => None
        case Some(n) => if n <= |trimmed| then Some((trimmed[n..], [trimmed[..n]])) else None
  }

  /** Skipping takes whitespace off the front, all of it and nothing else. */
  lemma {:induction false} SkipMeans(input: string) returns (blank: string)
    ensures input == blank + SkipWhitespace(input)
    ensures forall c :: c in blank ==> IsWhitespace(c)
    ensures SkipWhitespace(input) != "" ==> !IsWhitespace(SkipWhitespace(input)[0])
  {
    if input != "" && IsWhitespace(input[0]) {
      blank := SkipMeans(input[1..]);
      blank := [input[0]] + blank;
    } else {
      blank := "";
    }
  }

  /** The same character, or the same letter of ASCII in the other case. */
  predicate SameLetter(a: char, b: char) {
    a == b || ('A' <= a <= 'Z' && b as int == a as int + 32) || ('A' <= b <= 'Z' && a as int == b as int + 32)
  }

  ghost predicate SameWord(word: string, name: string) {
    |word| == |name| && forall k :: 0 <= k < |name| ==> SameLetter(word[k], name[k])
  }

  lemma LowerIff(a: char, b: char)
    ensures Lower(a) == Lower(b) <==> SameLetter(a, b)
  {
  }

  lemma SameWordIff(word: string, name: string)
    requires |word| == |name|
    ensures SameWord(word, name) <==> forall k :: 0 <= k < |name| ==> Lower(word[k]) == Lower(name[k])
  {
    forall k | 0 <= k < |name|
      ensures Lower(word[k]) == Lower(name[k]) <==> SameLetter(word[k], name[k])
    {
      LowerIff(word[k], name[k]);
    }
  }

  /** `word`, and after it the end or a blank and the rest. */
  ghost predicate SplitsAt(input: string, word: string, rest: string) {
    (rest == "" && input == word) || input == word + " " + rest
  }

  /** A literal matches when its name stands at the front in any spelling, followed by a blank, which
      is taken too, or by nothing. */
  lemma LiteralMatchIff(c: Commands, node: nat, input: string, rest: string, taken: seq<string>)
    requires node < |c.graph.nodes| && c.graph.nodes[node].data.Literal?
    ensures Match(c, node, input) == Some((rest, taken)) <==>
      && taken == []
      && exists word ::
           SameWord(word, c.graph.nodes[node].data.name) && SplitsAt(SkipWhitespace(input), word, rest)
  {
    var trimmed, name := SkipWhitespace(input), c.graph.nodes[node].data.name;
    if |name| <= |trimmed| {
      var word := trimmed[..|name|];
      assert trimmed == word + trimmed[|name|..];
      SameWordIff(word, name);
      if Match(c, node, input) == Some((rest, taken)) {
        assert SameWord(word, name) && SplitsAt(trimmed, word, rest);
      }
    }
    if word :| SameWord(word, name) && SplitsAt(trimmed, word, rest) {
      assert trimmed[..|name|] == word;
      if trimmed != word {
        assert trimmed[|name|..] == " " + rest;
      }
    }
  }

  /** An argument takes from the front what its parser accepts, and keeps it as its text. */
  lemma ArgumentMatchIff(c: Commands, node: nat, input: string, rest: string, taken: seq<string>)
    requires WellFormedCommands(c)
    requires node < |c.graph.nodes| && c.graph.nodes[node].data.Argument?
    ensures Match(c, node, input) == Some((rest, taken)) <==>
      && node in c.parsers && |taken| == 1
      && taken[0] + rest == SkipWhitespace(input)
      && c.parsers[node](SkipWhitespace(input)) == Some(|taken[0]|)
  {
    var trimmed := SkipWhitespace(input);
    if node in c.parsers && c.parsers[node](trimmed).Some? {
      var n := c.parsers[node](trimmed).value;
      assert trimmed[..n] + trimmed[n..] == trimmed;
    }
    if |taken| == 1 && taken[0] + rest == trimmed {
      assert trimmed[..|taken[0]|] == taken[0] && trimmed[|taken[0]|..] == rest;
      assert taken == [taken[0]];
    }
  }

  /** The input left after a hop, whitespace skipped. A redirect takes nothing. */
  function Advance(c: Commands, hop: Hop, input: string): Option<string>
    requires hop.node < |c.graph.nodes|
  {
    if hop.redirected then Some(SkipWhitespace(input))
    else
      match Match(c, hop.node, input)
      case None => None
      case Some((rest, _)) => Some(SkipWhitespace(rest))
  }

  /** The arguments collected after a hop; a redirect starts over. */
  function Collect(c: Commands, hop: Hop, input: string, arguments: seq<string>): seq<string>
    requires hop.node < |c.graph.nodes|
  {
    if hop.redirected then []
    else
      match Match(c, hop.node, input)
      case None => arguments
      case Some((_, taken)) => arguments + taken
  }

  type Modifiers = seq<(nat, string)>

  function Modify(c: Commands, hop: Hop, input: string, modifiers: Modifiers): Modifiers
    requires hop.node < |c.graph.nodes|
  {
    if hop.redirected || hop.node !in c.modifiers then modifiers
    else
      match Match(c, hop.node, input)
      case None => modifiers
      case Some((_, taken)) => modifiers + [(hop.node, if taken == [] then "" else taken[0])]
  }

  // ---- Parses: what it means for an input to lead to an executable ----

  ghost predicate CanFollow(c: Commands, a: nat, b: Hop) {
    var kind := LastKind(c.graph.edges, a, b.node);
    kind.Some? && b.redirected == (kind == Some(Redirect))
  }

  ghost predicate Stops(c: Commands, node: nat, rest: string) {
    rest == "" && node in c.executables
  }

  /** A path of allowed nodes that takes the whole input, ends at an executable, and did not pass
      an executable with the input already used up. */
  ghost predicate Accepts(c: Commands, allowed: set<nat>, hops: seq<Hop>, input: string) {
    && hops != []
    && hops[0].node < |c.graph.nodes| && hops[0].node in allowed
    && Advance(c, hops[0], input).Some?
    && var rest := Advance(c, hops[0], input).value;
       if |hops| == 1 then Stops(c, hops[0].node, rest)
       else
         && !Stops(c, hops[0].node, rest)
         && CanFollow(c, hops[0].node, hops[1])
         && Accepts(c, allowed, hops[1..], rest)
  }

  ghost predicate LeadsTo(c: Commands, allowed: set<nat>, hops: seq<Hop>, hop: Hop, input: string, leaf: nat) {
    Accepts(c, allowed, hops, input) && hops[0] == hop && hops[|hops| - 1].node == leaf
  }

  /** Some parse of `input`, starting with `hop`, ends at `leaf`. */
  ghost predicate Dispatches(c: Commands, allowed: set<nat>, hop: Hop, input: string, leaf: nat) {
    exists hops :: LeadsTo(c, allowed, hops, hop, input, leaf)
  }

  ghost function PathArguments(c: Commands, allowed: set<nat>, hops: seq<Hop>, input: string, arguments: seq<string>)
    : seq<string>
    requires Accepts(c, allowed, hops, input)
  {
    var next := Collect(c, hops[0], input, arguments);
    if |hops| == 1 then next
    else PathArguments(c, allowed, hops[1..], Advance(c, hops[0], input).value, next)
  }

  ghost function PathModifiers(c: Commands, allowed: set<nat>, hops: seq<Hop>, input: string, modifiers: Modifiers)
    : Modifiers
    requires Accepts(c, allowed, hops, input)
  {
    var next := Modify(c, hops[0], input, modifiers);
    if |hops| == 1 then next
    else PathModifiers(c, allowed, hops[1..], Advance(c, hops[0], input).value, next)
  }

  // ---- What a hop takes ----

  /** Matching this node by a child edge always takes at least one character. */
  ghost predicate TakesInput(c: Commands, node: nat)
    requires node < |c.graph.nodes|
  {
    match c.graph.nodes[node].data
    case Root => false
    case Literal(name) => name != ""
    case Argument(_) =>
      node in c.parsers ==> forall s :: c.parsers[node](s).Some? ==> c.parsers[node](s).value > 0
  }

  lemma AdvanceShrinks(c: Commands, hop: Hop, input: string)
    requires WellFormedCommands(c) && hop.node < |c.graph.nodes|
    ensures Advance(c, hop, input).Some? ==> |Advance(c, hop, input).value| <= |input|
    ensures Advance(c, hop, input).Some? && !hop.redirected && TakesInput(c, hop.node) ==>
      |Advance(c, hop, input).value| < |input|
  {
  }

  lemma {:induction false} LastKindFound(edges: seq<Edge>, a: nat, b: nat)
    ensures LastKind(edges, a, b).Some? <==> exists e :: e in edges && e.source == a && e.target == b
  {
    if edges != [] {
      var front, last := edges[..|edges| - 1], edges[|edges| - 1];
      LastKindFound(front, a, b);
      assert edges == front + [last];
    }
  }

  // ---- One step of the recursion ----

  /** The hop by which the walk goes on from `a` to `b`. */
  function HopTo(c: Commands, a: nat, b: nat): Hop {
    Hop(b, LastKind(c.graph.edges, a, b) == Some(Redirect))
  }

  lemma DispatchHere(c: Commands, allowed: set<nat>, hop: Hop, input: string, leaf: nat)
    requires hop.node < |c.graph.nodes| && hop.node in allowed
    requires Advance(c, hop, input).Some? && Stops(c, hop.node, Advance(c, hop, input).value)
    ensures Dispatches(c, allowed, hop, input, leaf) <==> leaf == hop.node
  {
    assert LeadsTo(c, allowed, [hop], hop, input, hop.node);
    if Dispatches(c, allowed, hop, input, leaf) {
      var hops :| LeadsTo(c, allowed, hops, hop, input, leaf);
    }
  }

  /** Short of stopping, a parse goes on through one of the successors. */
  lemma DispatchOn(c: Commands, allowed: set<nat>, hop: Hop, input: string, leaf: nat)
    requires hop.node < |c.graph.nodes| && hop.node in allowed
    requires Advance(c, hop, input).Some? && !Stops(c, hop.node, Advance(c, hop, input).value)
    ensures Dispatches(c, allowed, hop, input, leaf) <==>
      exists k :: 0 <= k < |Outgoing(c.graph.edges, hop.node)| &&
        Dispatches(c, allowed, HopTo(c, hop.node, Outgoing(c.graph.edges, hop.node)[k].target),
                   Advance(c, hop, input).value, leaf)
  {
    var rest, out := Advance(c, hop, input).value, Outgoing(c.graph.edges, hop.node);
    if Dispatches(c, allowed, hop, input, leaf) {
      var hops: seq<Hop> :| LeadsTo(c, allowed, hops, hop, input, leaf);
      var b := hops[1].node;
      LastKindFound(c.graph.edges, hop.node, b);
      FirstKindFound(c.graph.edges, hop.node, b);
      var i := OutgoingFinds(c.graph.edges, hop.node, b);
      assert LeadsTo(c, allowed, hops[1..], HopTo(c, hop.node, out[i].target), rest, leaf);
    }
    forall k | 0 <= k < |out| && Dispatches(c, allowed, HopTo(c, hop.node, out[k].target), rest, leaf)
      ensures Dispatches(c, allowed, hop, input, leaf)
    {
      var hops :| LeadsTo(c, allowed, hops, HopTo(c, hop.node, out[k].target), rest, leaf);
      var path := ExtendPath(c, allowed, hop, input, k, hops);
      assert LeadsTo(c, allowed, path, hop, input, leaf);
    }
  }

  lemma ExtendPath(c: Commands, allowed: set<nat>, hop: Hop, input: string, k: nat, hops: seq<Hop>)
    returns (path: seq<Hop>)
    requires hop.node < |c.graph.nodes| && hop.node in allowed
    requires Advance(c, hop, input).Some? && !Stops(c, hop.node, Advance(c, hop, input).value)
    requires k < |Outgoing(c.graph.edges, hop.node)|
    requires Accepts(c, allowed, hops, Advance(c, hop, input).value)
    requires hops[0] == HopTo(c, hop.node, Outgoing(c.graph.edges, hop.node)[k].target)
    ensures path == [hop] + hops && Accepts(c, allowed, path, input)
  {
    var j := OutgoingLast(c.graph.edges, hop.node, k);
    LastKindFound(c.graph.edges, hop.node, hops[0].node);
    path := [hop] + hops;
    assert path[1..] == hops;
  }

  // ---- Dispatch stays inside the advertised tree ----

  lemma KindsExistTogether(edges: seq<Edge>, a: nat, b: nat)
    ensures LastKind(edges, a, b).Some? <==> FirstKind(edges, a, b).Some?
  {
    LastKindFound(edges, a, b);
    FirstKindFound(edges, a, b);
  }

  lemma {:induction false} ParseStaysKept(c: Commands, allowed: set<nat>, hops: seq<Hop>, input: string)
    requires Accepts(c, allowed, hops, input)
    requires Kept(c.graph, allowed, hops[0].node)
    ensures Kept(c.graph, allowed, hops[|hops| - 1].node)
  {
    if |hops| > 1 {
      KindsExistTogether(c.graph.edges, hops[0].node, hops[1].node);
      KeptStep(c.graph, allowed, hops[0].node, hops[1].node);
      ParseStaysKept(c, allowed, hops[1..], Advance(c, hops[0], input).value);
    }
  }

  /** Whatever a client's input dispatches to is an executable and a node of the tree that the
      client was sent under the same scopes. */
  lemma DispatchedIsAdvertised(c: Commands, allowed: set<nat>, input: string, leaf: nat,
                               copy: CommandGraph, rename: map<nat, nat>)
    requires Dispatches(c, allowed, Hop(c.graph.root, false), input, leaf)
    requires CommandTree.IsPermittedCopy(c.graph, allowed, copy, rename)
    ensures leaf in c.executables
    ensures leaf in rename && copy.nodes[rename[leaf]] == c.graph.nodes[leaf]
  {
    var hops :| LeadsTo(c, allowed, hops, Hop(c.graph.root, false), input, leaf);
    KeptRoot(c.graph, allowed);
    ParseStaysKept(c, allowed, hops, input);
    EndsExecutable(c, allowed, hops, input);
  }

  lemma {:induction false} EndsExecutable(c: Commands, allowed: set<nat>, hops: seq<Hop>, input: string)
    requires Accepts(c, allowed, hops, input)
    ensures hops[|hops| - 1].node in c.executables
  {
    if |hops| > 1 {
      EndsExecutable(c, allowed, hops[1..], Advance(c, hops[0], input).value);
    }
  }
}
