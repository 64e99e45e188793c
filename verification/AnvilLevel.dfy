/** The main thread's side of the chunk loader, updated in place. Each operation is a step of the
    protocol; one call of `SendRecvChunks` goes through a whole tick. */
module AnvilLevel {
  import opened Wrappers
  import opened LoaderProtocol

  function Elements(q: seq<Pos>): set<Pos> {
    set pos | pos in q
  }

  // ---- A tick as a run of the protocol ----

  /** Some run without new requests leads from one state to the other. */
  ghost predicate Leads(s: Loader, t: Loader) {
    exists states, steps :: IsQuietRun(states, steps, s, t)
  }

  ghost predicate IsQuietRun(states: seq<Loader>, steps: seq<Step>, s: Loader, t: Loader) {
    && IsRun(states, steps) && states[0] == s && states[|steps|] == t
    && forall k :: 0 <= k < |steps| ==> !Asks(steps[k])
  }

  lemma LeadsSelf(s: Loader)
    ensures Leads(s, s)
  {
    assert IsQuietRun([s], [], s, s);
  }

  lemma LeadsStep(s: Loader, step: Step, t: Loader, u: Loader)
    requires Takes(s, step, t) && !Asks(step) && Leads(t, u)
    ensures Leads(s, u)
  {
    var states, steps :| IsQuietRun(states, steps, t, u);
    var longer, more := [s] + states, [step] + steps;
    forall k | 0 <= k < |more|
      ensures Takes(longer[k], more[k], longer[k + 1])
    {
      assert k > 0 ==> Takes(states[k - 1], steps[k - 1], states[k]);
    }
    assert IsQuietRun(longer, more, s, u);
  }

  /** What holds of the protocol's invariant before such a run holds after it. */
  lemma LeadsKeeps(s: Loader, t: Loader)
    requires Inv(s) && Leads(s, t)
    ensures Inv(t)
  {
    var states, steps :| IsQuietRun(states, steps, s, t);
    RunKeeps(states, steps);
  }

  /** All finished chunks received. */
  function Received(s: Loader): Loader {
    s.(drained := [], pending := s.pending - Elements(s.drained), events := s.events + s.drained)
  }

  lemma {:induction false} ReceiveAll(s: Loader, u: Loader)
    requires s.phase == Receiving && Leads(Received(s), u)
    ensures Leads(s, u)
    decreases |s.drained|
  {
    if s.drained == [] {
      assert Received(s) == s by {
        assert s.pending - Elements(s.drained) == s.pending && s.events + [] == s.events;
      }
    } else {
      var first, rest := s.drained[0], s.drained[1..];
      var t := s.(drained := rest, pending := s.pending - {first}, events := s.events + [first]);
      assert s.drained == [first] + rest;
      assert Elements(s.drained) == {first} + Elements(rest);
      assert Received(t) == Received(s) by {
        assert s.events + [first] + rest == s.events + s.drained;
        assert t.pending - Elements(rest) == s.pending - Elements(s.drained);
      }
      ReceiveAll(t, u);
      LeadsStep(s, ReceiveOne, t, u);
    }
  }

  /** All collected positions requested. */
  function Requested(s: Loader): Loader {
    s.(toSend := [], requests := s.requests + Positions(s.toSend))
  }

  lemma {:induction false} SendAll(s: Loader, u: Loader)
    requires s.phase == Sending && Leads(Requested(s), u)
    ensures Leads(s, u)
    decreases |s.toSend|
  {
    if s.toSend == [] {
      assert s.requests + Positions([]) == s.requests;
    } else {
      var t := s.(toSend := s.toSend[1..], requests := s.requests + [s.toSend[0].1]);
      assert Positions(s.toSend) == [s.toSend[0].1] + Positions(s.toSend[1..]);
      assert s.requests + [s.toSend[0].1] + Positions(s.toSend[1..]) == s.requests + Positions(s.toSend);
      SendAll(t, u);
      LeadsStep(s, SendOne, t, u);
    }
  }

  /** What a tick with nothing in between makes of the state, given the order of the waiting positions. */
  function AfterTick(s: Loader, batch: seq<(nat, Pos)>): Loader {
    s.(results := [], events := s.events + s.results, requests := s.requests + Positions(batch),
       pending := AllSent(s.pending - Elements(s.results)))
  }

  lemma TickLeads(s: Loader, batch: seq<(nat, Pos)>)
    requires s.phase == Idle && s.toSend == [] && s.drained == []
    requires Lists(batch, s.pending - Elements(s.results)) && Ascending(batch)
    ensures Leads(s, AfterTick(s, batch))
  {
    var after := AfterTick(s, batch);
    var begun := s.(phase := Receiving, drained := s.results, results := []);
    var received := Received(begun);
    var collected := received.(phase := Sending, toSend := batch, pending := AllSent(received.pending));
    LeadsSelf(after);
    LeadsStep(Requested(collected), EndTick, after, after);
    SendAll(collected, after);
    LeadsStep(received, Collect, collected, after);
    ReceiveAll(begun, after);
    LeadsStep(s, BeginReceive, begun, after);
  }

  class AnvilLevel {
    var pending: map<Pos, Option<nat>>
    /** The request queue, the position the worker holds, and the result queue. */
    var requests: seq<Pos>
    var hand: Option<Pos>
    var results: seq<Pos>
    var toSend: seq<(nat, Pos)>
    var events: seq<Pos>
    ghost var inserted: seq<Pos>

    ghost function State(): Loader
      reads this
    {
      Loader(Idle, pending, toSend, requests, hand, results, [], inserted, events)
    }

    constructor ()
      ensures State() == START
    {
      pending, requests, hand, results, toSend, events := map[], [], None, [], [], [];
      inserted := [];
    }

    method ForceChunkLoad(pos: Pos)
      modifies this`pending, this`inserted
      ensures Takes(old(State()), ForceLoad(pos), State())
      ensures pos in pending && pending[pos] == if pos in old(pending) && old(pending)[pos].None? then None else Some(0)
      ensures pending - {pos} == old(pending) - {pos}
    {
      if pos !in pending {
        pending := pending[pos := Some(0)];
        inserted := inserted + [pos];
      } else if pending[pos].Some? {
        pending := pending[pos := Some(0)];
      }
    }

    /** A position that came into some client's view: nearer clients go first. */
    method QueuePos(pos: Pos, distance: nat)
      modifies this`pending, this`inserted
      ensures Takes(old(State()), QueueView(pos, distance), State())
      ensures pos in pending && pending - {pos} == old(pending) - {pos}
      ensures
        if pos !in old(pending) then pending[pos] == Some(distance)
        else if old(pending)[pos].None? then pending[pos] == None
        else
          && pending[pos].Some? && pending[pos].value <= distance && pending[pos].value <= old(pending)[pos].value
          && (pending[pos].value == distance || pending[pos] == old(pending)[pos])
    {
      if pos !in pending {
        pending := pending[pos := Some(distance)];
        inserted := inserted + [pos];
      } else if pending[pos].Some? {
        pending := pending[pos := Some(Min(pending[pos].value, distance))];
      }
    }

    /** The worker's two steps. */
    method WorkerReceive()
      requires hand.None? && requests != []
      modifies this`hand, this`requests
      ensures Takes(old(State()), WorkerTakes, State())
    {
      hand, requests := Some(requests[0]), requests[1..];
    }

    method WorkerSend()
      requires hand.Some? && |results| < RESULT_CAPACITY
      modifies this`hand, this`results
      ensures Takes(old(State()), WorkerAnswers, State())
    {
      results, hand := results + [hand.value], None;
    }

    /** Collect the waiting positions and sort them; they count as sent from here on. */
    method CollectNew()
      requires toSend == []
      modifies this`toSend, this`pending
      ensures Lists(toSend, old(pending))
      ensures forall i, j :: 0 <= i < j < |toSend| ==> toSend[i].0 <= toSend[j].0
      ensures pending == AllSent(old(pending))
    {
      var left := Waiting(pending);
      ghost var done: set<Pos> := {};
      ghost var before := pending;
      while left != {}
        invariant pending == before && left + done == Waiting(before) && left !! done
        invariant Ascending(toSend)
        invariant forall e :: e in toSend ==> e.1 in done && before[e.1] == Some(e.0)
        invariant multiset(Positions(toSend)) == multiset(done)
        decreases left
      {
        var pos :| pos in left;
        InsertMeans(toSend, (pending[pos].value, pos));
        toSend := Insert(toSend, (pending[pos].value, pos));
        left, done := left - {pos}, done + {pos};
      }
      assert done == Waiting(before);
      assert forall i :: 0 <= i < |toSend| ==> toSend[i] in toSend;
      pending := AllSent(pending);
    }

    /** One tick: a load event for every finished chunk, then one request, nearest first, for every
        position that waited. It is a run of the protocol's steps, none of them a new request. */
    method SendRecvChunks()
      requires toSend == []
      modifies this`pending, this`results, this`events, this`toSend, this`requests
      ensures Leads(old(State()), State())
      ensures events == old(events) + old(results) && results == [] && toSend == []
      ensures var waiting := old(pending) - Elements(old(results));
        && pending == AllSent(waiting)
        && exists batch :: Lists(batch, waiting) && Ascending(batch) && requests == old(requests) + Positions(batch)
    {
      var drained := results;
      results := [];
      for k := 0 to |drained|
        invariant results == [] && toSend == [] && requests == old(requests)
        invariant events == old(events) + drained[..k]
        invariant pending == old(pending) - Elements(drained[..k])
      {
        var pos := drained[k];
        assert drained[..k + 1] == drained[..k] + [pos];
        pending := pending - {pos};
        events := events + [pos];
      }
      assert drained[..|drained|] == drained;
      ghost var waiting := pending;
      CollectNew();
      var batch := toSend;
      assert Lists(batch, waiting);
      for k := 0 to |batch|
        invariant results == [] && events == old(events) + drained && pending == AllSent(waiting)
        invariant requests == old(requests) + Positions(batch[..k])
      {
        assert Positions(batch[..k + 1]) == Positions(batch[..k]) + [batch[k].1];
        requests := requests + [batch[k].1];
      }
      assert batch[..|batch|] == batch;
      toSend := [];
      TickLeads(old(State()), batch);
      assert State() == AfterTick(old(State()), batch);
    }
  }
}
