/** The chunk loader: a main tick and a worker thread that share two queues. */
module LoaderProtocol {
  import opened Wrappers

  type Pos(!new, ==, 00)

  const RESULT_CAPACITY := 4096

  /** Where the tick stands: running user code and view updates, handling finished chunks, or
      sending requests. */
  datatype Phase = Idle | Receiving | Sending

  /** The state shared by the tick and the worker. `pending` holds a priority for a position that
      still has to be sent, and `None` for one that was sent. The last two fields are the history. */
  datatype Loader = Loader(
    phase: Phase,
    pending: map<Pos, Option<nat>>,
    toSend: seq<(nat, Pos)>,
    requests: seq<Pos>,
    hand: Option<Pos>,
    results: seq<Pos>,
    drained: seq<Pos>,
    inserted: seq<Pos>,
    events: seq<Pos>)

  const START := Loader(Idle, map[], [], [], None, [], [], [], [])

  // ---- Steps ----

  datatype Step =
    | ForceLoad(pos: Pos)
    | QueueView(pos: Pos, distance: nat)
    | BeginReceive
    | ReceiveOne
    | Collect
    | SendOne
    | EndTick
    | WorkerTakes
    | WorkerAnswers

  function Min(a: nat, b: nat): nat {
    if a < b then a else b
  }

  /** Ask for a position with a priority; one that was sent already is left alone. */
  function Ask(s: Loader, pos: Pos, priority: nat): Loader {
    if pos !in s.pending then s.(pending := s.pending[pos := Some(priority)], inserted := s.inserted + [pos])
    else if s.pending[pos].Some? then s.(pending := s.pending[pos := Some(priority)])
    else s
  }

  /** The better of the distance and the priority that a waiting position already has. */
  function Priority(s: Loader, pos: Pos, distance: nat): (priority: nat)
    ensures priority <= distance
    ensures pos in s.pending && s.pending[pos].Some? ==> priority <= s.pending[pos].value
    ensures priority == distance || (pos in s.pending && s.pending[pos] == Some(priority))
  {
    if pos in s.pending && s.pending[pos].Some? then Min(s.pending[pos].value, distance) else distance
  }

  function Waiting(pending: map<Pos, Option<nat>>): set<Pos> {
    set pos | pos in pending && pending[pos].Some?
  }

  ghost predicate Ascending(toSend: seq<(nat, Pos)>) {
    forall i, j :: 0 <= i < j < |toSend| ==> toSend[i].0 <= toSend[j].0
  }

  /** Exactly the waiting positions, once each, with their priorities. */
  ghost predicate Lists(toSend: seq<(nat, Pos)>, pending: map<Pos, Option<nat>>) {
    && (forall i :: 0 <= i < |toSend| ==> toSend[i].1 in pending && pending[toSend[i].1] == Some(toSend[i].0))
    && multiset(Positions(toSend)) == multiset(Waiting(pending))
  }

  function Positions(toSend: seq<(nat, Pos)>): seq<Pos> {
    seq(|toSend|, i requires 0 <= i < |toSend| => toSend[i].1)
  }

  function AllSent(pending: map<Pos, Option<nat>>): map<Pos, Option<nat>> {
    map pos | pos in pending :: None
  }

  ghost predicate Takes(s: Loader, step: Step, t: Loader) {
    match step
    case ForceLoad(pos) => s.phase == Idle && t == Ask(s, pos, 0)
    case QueueView(pos, distance) =>
      && s.phase == Idle
      && t == Ask(s, pos, Priority(s, pos, distance))
    case BeginReceive =>
      s.phase == Idle && t == s.(phase := Receiving, drained := s.results, results := [])
    case ReceiveOne =>
      && s.phase == Receiving && s.drained != []
      && t == s.(drained := s.drained[1..], pending := s.pending - {s.drained[0]}, events := s.events + [s.drained[0]])
    case Collect =>
      && s.phase == Receiving && s.drained == []
      && Lists(t.toSend, s.pending) && Ascending(t.toSend)
      && t == s.(phase := Sending, toSend := t.toSend, pending := AllSent(s.pending))
    case SendOne =>
      && s.phase == Sending && s.toSend != []
      && t == s.(toSend := s.toSend[1..], requests := s.requests + [s.toSend[0].1])
    case EndTick => s.phase == Sending && s.toSend == [] && t == s.(phase := Idle)
    case WorkerTakes =>
      s.hand.None? && s.requests != [] && t == s.(hand := Some(s.requests[0]), requests := s.requests[1..])
    case WorkerAnswers =>
      && s.hand.Some? && |s.results| < RESULT_CAPACITY
      && t == s.(hand := None, results := s.results + [s.hand.value])
  }

  /** A run: states linked by steps, in any interleaving. */
  ghost predicate IsRun(states: seq<Loader>, steps: seq<Step>) {
    && |states| == |steps| + 1
    && forall k :: 0 <= k < |steps| ==> Takes(states[k], steps[k], states[k + 1])
  }

  // ---- The invariant ----

  function Count(q: seq<Pos>, pos: Pos): nat {
    multiset(q)[pos]
  }

  lemma CountHead(q: seq<Pos>, pos: Pos)
    requires q != []
    ensures Count(q, pos) == Count(q[1..], pos) + if q[0] == pos then 1 else 0
  {
    assert q == [q[0]] + q[1..];
  }

  lemma CountLast(q: seq<Pos>, last: Pos, pos: Pos)
    ensures Count(q + [last], pos) == Count(q, pos) + if last == pos then 1 else 0
  {
  }

  function InHand(s: Loader, pos: Pos): nat {
    if s.hand == Some(pos) then 1 else 0
  }

  /** How often a position is under way: listed, requested, in the worker's hand, answered, or being
      handled. */
  function UnderWay(s: Loader, pos: Pos): nat {
    Count(Positions(s.toSend), pos) + Count(s.requests, pos) + InHand(s, pos)
    + Count(s.results, pos) + Count(s.drained, pos)
  }

  ghost predicate Sent(s: Loader, pos: Pos) {
    pos in s.pending && s.pending[pos].None?
  }

  /** A position is under way exactly once if it was sent and is unanswered, else not at all; and
      every request made for it was answered, except the one that is pending. */
  ghost predicate Accounted(s: Loader, pos: Pos) {
    && UnderWay(s, pos) == (if Sent(s, pos) then 1 else 0)
    && Count(s.inserted, pos) == Count(s.events, pos) + if pos in s.pending then 1 else 0
  }

  ghost predicate Inv(s: Loader) {
    && (forall pos :: Accounted(s, pos))
    && (s.phase != Sending ==> s.toSend == [])
    && (s.phase != Receiving ==> s.drained == [])
    && Ascending(s.toSend)
    && |s.results| <= RESULT_CAPACITY
  }

  lemma StartInv()
    ensures Inv(START)
  {
  }

  lemma AskKeeps(s: Loader, pos: Pos, priority: nat)
    requires Inv(s)
    ensures Inv(Ask(s, pos, priority))
  {
    var t := Ask(s, pos, priority);
    forall q
      ensures Accounted(t, q)
    {
      assert Accounted(s, q);
      assert Sent(t, q) <==> Sent(s, q);
      CountLast(s.inserted, pos, q);
    }
  }

  lemma CollectKeeps(s: Loader, t: Loader)
    requires Inv(s) && Takes(s, Collect, t)
    ensures Inv(t)
  {
    forall q
      ensures Accounted(t, q)
    {
      assert Accounted(s, q);
      assert Count(Positions(t.toSend), q) == if q in Waiting(s.pending) then 1 else 0;
    }
  }

  lemma ReceiveKeeps(s: Loader, t: Loader)
    requires Inv(s) && Takes(s, ReceiveOne, t)
    ensures Sent(s, s.drained[0])
    ensures Inv(t)
  {
    var pos := s.drained[0];
    assert Accounted(s, pos);
    CountHead(s.drained, pos);
    forall q
      ensures Accounted(t, q)
    {
      assert Accounted(s, q);
      CountHead(s.drained, q);
      CountLast(s.events, pos, q);
      assert q != pos ==> (Sent(t, q) <==> Sent(s, q));
    }
  }

  lemma SendOneKeeps(s: Loader, t: Loader, q: Pos)
    requires Takes(s, SendOne, t)
    ensures UnderWay(t, q) == UnderWay(s, q)
  {
    assert Positions(s.toSend)[1..] == Positions(t.toSend);
    CountHead(Positions(s.toSend), q);
    CountLast(s.requests, s.toSend[0].1, q);
  }

  /** Handing a position on moves it, and neither doubles nor drops it. */
  lemma MoveKeeps(s: Loader, step: Step, t: Loader, q: Pos)
    requires Takes(s, step, t)
    requires (s.phase != Sending ==> s.toSend == []) && (s.phase != Receiving ==> s.drained == [])
    requires step.BeginReceive? || step.SendOne? || step.EndTick? || step.WorkerTakes? || step.WorkerAnswers?
    ensures UnderWay(t, q) == UnderWay(s, q)
  {
    match step
    case BeginReceive =>
    case SendOne => SendOneKeeps(s, t, q);
    case EndTick =>
    case WorkerTakes =>
      CountHead(s.requests, q);
    case WorkerAnswers =>
      CountLast(s.results, s.hand.value, q);
  }

  /** Every step of either thread keeps the invariant. */
  lemma StepKeeps(s: Loader, step: Step, t: Loader)
    requires Inv(s) && Takes(s, step, t)
    ensures Inv(t)
  {
    match step
    case ForceLoad(pos) => AskKeeps(s, pos, 0);
    case QueueView(pos, distance) =>
      AskKeeps(s, pos, Priority(s, pos, distance));
    case ReceiveOne => ReceiveKeeps(s, t);
    case Collect => CollectKeeps(s, t);
    case _ =>
      forall q
        ensures Accounted(t, q)
      {
        assert Accounted(s, q);
        MoveKeeps(s, step, t, q);
      }
  }

  lemma {:induction false} RunKeeps(states: seq<Loader>, steps: seq<Step>)
    requires IsRun(states, steps) && Inv(states[0])
    ensures Inv(states[|steps|])
  {
    if steps != [] {
      var n := |steps| - 1;
      assert IsRun(states[..n + 1], steps[..n]) by {
        forall k | 0 <= k < n
          ensures Takes(states[..n + 1][k], steps[..n][k], states[..n + 1][k + 1])
        {
          assert Takes(states[k], steps[k], states[k + 1]);
        }
      }
      RunKeeps(states[..n + 1], steps[..n]);
      StepKeeps(states[n], steps[n], states[n + 1]);
    }
  }

  /** In every interleaving from the start: a position is under way exactly once if it was sent, and
      not at all otherwise; and its requests were all answered by one load event each, except for one
      that is still pending. */
  lemma EveryInterleaving(states: seq<Loader>, steps: seq<Step>, pos: Pos)
    requires IsRun(states, steps) && states[0] == START
    ensures var s := states[|steps|];
      && UnderWay(s, pos) == (if Sent(s, pos) then 1 else 0)
      && Count(s.inserted, pos) == Count(s.events, pos) + if pos in s.pending then 1 else 0
  {
    StartInv();
    RunKeeps(states, steps);
    assert Accounted(states[|steps|], pos);
  }

  /** The worker can answer while fewer than 4096 answers wait. */
  lemma CanAnswerIff(s: Loader)
    ensures (exists t :: Takes(s, WorkerAnswers, t)) <==> s.hand.Some? && |s.results| < 4096
  {
    if s.hand.Some? && |s.results| < 4096 {
      assert Takes(s, WorkerAnswers, s.(hand := None, results := s.results + [s.hand.value]));
    }
  }

  // ---- Nothing gets stuck ----

  ghost predicate Asks(step: Step) {
    step.ForceLoad? || step.QueueView?
  }

  /** How much handing on is left to do. */
  function Work(s: Loader): nat {
    6 * |Waiting(s.pending)| + 5 * |s.toSend| + 4 * |s.requests| + (if s.hand.Some? then 3 else 0)
    + 2 * |s.results| + |s.drained|
  }

  /** How many turns of the tick's phases lie before the next useful one. */
  function Turns(s: Loader): nat {
    if Waiting(s.pending) != {} then (match s.phase case Sending => 3 case Idle => 2 case Receiving => 1)
    else (match s.phase case Receiving => 3 case Sending => 2 case Idle => 1)
  }

  /** The waiting positions can be listed in ascending order of priority. */
  lemma {:induction false} CanList(pending: map<Pos, Option<nat>>, waiting: set<Pos>) returns (toSend: seq<(nat, Pos)>)
    requires forall pos :: pos in waiting ==> pos in pending && pending[pos].Some?
    ensures forall i :: 0 <= i < |toSend| ==> toSend[i].1 in waiting && pending[toSend[i].1] == Some(toSend[i].0)
    ensures multiset(Positions(toSend)) == multiset(waiting)
    ensures Ascending(toSend) && |toSend| == |waiting|
    decreases waiting
  {
    if waiting == {} {
      toSend := [];
    } else {
      var pos :| pos in waiting;
      var rest := CanList(pending, waiting - {pos});
      toSend := Insert(rest, (pending[pos].value, pos));
      InsertMeans(rest, (pending[pos].value, pos));
      assert multiset(waiting) == multiset(waiting - {pos}) + multiset{pos};
      forall i | 0 <= i < |toSend|
        ensures toSend[i].1 in waiting && pending[toSend[i].1] == Some(toSend[i].0)
      {
        var e := toSend[i];
        assert e in toSend;
        if e in rest {
          var j :| 0 <= j < |rest| && rest[j] == e;
        }
      }
    }
  }

  /** Insertion behind the entries of smaller or equal priority. */
  function Insert(toSend: seq<(nat, Pos)>, entry: (nat, Pos)): seq<(nat, Pos)> {
    if toSend == [] || entry.0 < toSend[0].0 then [entry] + toSend
    else [toSend[0]] + Insert(toSend[1..], entry)
  }

  lemma {:induction false} InsertContents(toSend: seq<(nat, Pos)>, entry: (nat, Pos))
    ensures |Insert(toSend, entry)| == |toSend| + 1
    ensures forall e :: e in Insert(toSend, entry) <==> e in toSend || e == entry
    ensures multiset(Positions(Insert(toSend, entry))) == multiset(Positions(toSend)) + multiset{entry.1}
  {
    if toSend == [] || entry.0 < toSend[0].0 {
      assert Positions([entry] + toSend) == [entry.1] + Positions(toSend);
    } else {
      var rest := Insert(toSend[1..], entry);
      InsertContents(toSend[1..], entry);
      assert toSend == [toSend[0]] + toSend[1..];
      assert Positions([toSend[0]] + rest) == [toSend[0].1] + Positions(rest);
      assert Positions(toSend) == [toSend[0].1] + Positions(toSend[1..]);
    }
  }

  lemma {:induction false} InsertMeans(toSend: seq<(nat, Pos)>, entry: (nat, Pos))
    requires Ascending(toSend)
    ensures Ascending(Insert(toSend, entry))
    ensures |Insert(toSend, entry)| == |toSend| + 1
    ensures forall e :: e in Insert(toSend, entry) <==> e in toSend || e == entry
    ensures multiset(Positions(Insert(toSend, entry))) == multiset(Positions(toSend)) + multiset{entry.1}
  {
    InsertContents(toSend, entry);
    if toSend != [] && toSend[0].0 <= entry.0 {
      var first, rest := toSend[0], Insert(toSend[1..], entry);
      InsertMeans(toSend[1..], entry);
      forall i, j | 0 <= i < j < |rest| + 1
        ensures ([first] + rest)[i].0 <= ([first] + rest)[j].0
      {
        assert rest[j - 1] in rest;
        if i == 0 && rest[j - 1] != entry {
          var m :| 0 <= m < |toSend| - 1 && toSend[1..][m] == rest[j - 1];
          assert toSend[m + 1] == rest[j - 1];
        }
      }
    }
  }

  lemma CollectPossible(s: Loader) returns (t: Loader)
    requires s.phase == Receiving && s.drained == [] && s.toSend == []
    ensures Takes(s, Collect, t) && Waiting(t.pending) == {} && |t.toSend| == |Waiting(s.pending)|
  {
    var toSend := CanList(s.pending, Waiting(s.pending));
    t := s.(phase := Sending, toSend := toSend, pending := AllSent(s.pending));
  }

  /** While something is pending, one of the two threads can take a step that is not a new request
      and that brings the next load event closer. */
  lemma CanAdvance(s: Loader) returns (step: Step, t: Loader)
    requires Inv(s) && s.pending != map[]
    ensures Takes(s, step, t) && !Asks(step)
    ensures Work(t) < Work(s) || (Work(t) == Work(s) && Turns(t) < Turns(s))
  {
    if s.hand.None? && s.requests != [] {
      step, t := WorkerTakes, s.(hand := Some(s.requests[0]), requests := s.requests[1..]);
    } else if s.hand.Some? && |s.results| < RESULT_CAPACITY {
      step, t := WorkerAnswers, s.(hand := None, results := s.results + [s.hand.value]);
    } else {
      match s.phase
      case Idle =>
        step, t := BeginReceive, s.(phase := Receiving, drained := s.results, results := []);
        if s.results == [] {
          SomethingWaits(s);
        }
      case Receiving =>
        if s.drained != [] {
          step := ReceiveOne;
          t := s.(drained := s.drained[1..], pending := s.pending - {s.drained[0]},
                  events := s.events + [s.drained[0]]);
          ReceiveKeeps(s, t);
          assert Waiting(t.pending) == Waiting(s.pending);
        } else {
          step := Collect;
          t := CollectPossible(s);
        }
      case Sending =>
        if s.toSend != [] {
          step, t := SendOne, s.(toSend := s.toSend[1..], requests := s.requests + [s.toSend[0].1]);
        } else {
          step, t := EndTick, s.(phase := Idle);
        }
    }
  }

  /** With no position under way, what is pending has not been sent. */
  lemma SomethingWaits(s: Loader)
    requires Inv(s) && s.pending != map[]
    requires s.toSend == [] && s.requests == [] && s.hand.None? && s.results == [] && s.drained == []
    ensures Waiting(s.pending) != {}
  {
    var pos :| pos in s.pending;
    assert Accounted(s, pos);
    assert pos in Waiting(s.pending);
  }

  /** From every reachable state, without any new request, the two threads can go on until every
      request ever made has been answered by one load event; neither the full result queue nor the
      tick's phases can leave one stuck. */
  lemma {:induction false} CanFinish(s: Loader) returns (states: seq<Loader>, steps: seq<Step>)
    requires Inv(s)
    ensures IsRun(states, steps) && states[0] == s
    ensures forall k :: 0 <= k < |steps| ==> !Asks(steps[k])
    ensures states[|steps|].pending == map[] && states[|steps|].inserted == s.inserted
    ensures forall pos :: Count(states[|steps|].events, pos) == Count(s.inserted, pos)
    decreases Work(s), Turns(s)
  {
    if s.pending == map[] {
      states, steps := [s], [];
      forall pos
        ensures Count(s.events, pos) == Count(s.inserted, pos)
      {
        assert Accounted(s, pos);
      }
    } else {
      var step, t := CanAdvance(s);
      StepKeeps(s, step, t);
      var restStates, restSteps := CanFinish(t);
      states, steps := [s] + restStates, [step] + restSteps;
      assert states[|steps|] == restStates[|restSteps|] && t.inserted == s.inserted;
      forall k | 0 <= k < |steps|
        ensures Takes(states[k], steps[k], states[k + 1])
      {
        assert k > 0 ==> Takes(restStates[k - 1], restSteps[k - 1], restStates[k]);
      }
    }
  }
}
