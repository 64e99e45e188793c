/** Every fair run of the chunk loader finishes. Without new requests, only so many steps can hand a
    position on; and if each thread gets its turn, nothing keeps these steps from being taken. */
module LoaderFairness {
  import opened Wrappers
  import opened LoaderProtocol

  ghost predicate IsQuiet(steps: seq<Step>) {
    forall k :: 0 <= k < |steps| ==> !Asks(steps[k])
  }

  // ---- Useful steps ----

  /** Every step that is not a request leaves no more to do than before; if it leaves as much, it was a turn
      of the tick with nothing to do. */
  lemma StepWork(s: Loader, step: Step, t: Loader)
    requires Inv(s) && Takes(s, step, t) && !Asks(step)
    ensures Work(t) <= Work(s)
    ensures Work(t) == Work(s) ==>
      && t == s.(phase := t.phase)
      && (step.EndTick? || (step.BeginReceive? && s.results == []) || (step.Collect? && Waiting(s.pending) == {}))
    ensures s.pending == map[] ==> t.pending == map[]
  {
    match step
    case ReceiveOne =>
      ReceiveKeeps(s, t);
      assert Waiting(t.pending) == Waiting(s.pending);
    case Collect =>
      assert Waiting(t.pending) == {};
      CollectSize(s, t);
      if Waiting(s.pending) == {} {
        NoneWaits(s.pending);
      }
    case _ =>
  }

  lemma NoneWaits(pending: map<Pos, Option<nat>>)
    requires Waiting(pending) == {}
    ensures AllSent(pending) == pending
  {
    forall pos | pos in pending
      ensures pending[pos] == None
    {
      assert pos !in Waiting(pending);
    }
  }

  lemma CollectSize(s: Loader, t: Loader)
    requires Takes(s, Collect, t)
    ensures |t.toSend| == |Waiting(s.pending)|
  {
    assert |Positions(t.toSend)| == |multiset(Positions(t.toSend))| == |multiset(Waiting(s.pending))|;
  }

  lemma {:induction false} InvAlong(states: seq<Loader>, steps: seq<Step>, n: nat)
    requires IsRun(states, steps) && Inv(states[0]) && n <= |steps|
    ensures Inv(states[n])
  {
    if n > 0 {
      InvAlong(states, steps, n - 1);
      StepKeeps(states[n - 1], steps[n - 1], states[n]);
    }
  }

  /** What `StepWork` says of the `k`-th step of a run. */
  lemma StepAlong(states: seq<Loader>, steps: seq<Step>, k: nat, s: Loader, step: Step, t: Loader)
    requires IsRun(states, steps) && IsQuiet(steps) && Inv(states[0])
    requires k < |steps| && s == states[k] && step == steps[k] && t == states[k + 1]
    ensures Inv(s) && Inv(t) && Work(t) <= Work(s)
    ensures Work(t) == Work(s) ==>
      && t == s.(phase := t.phase)
      && (step.EndTick? || (step.BeginReceive? && s.results == []) || (step.Collect? && Waiting(s.pending) == {}))
      && (step.BeginReceive? ==> s.drained == [] && s.toSend == [])
    ensures s.pending == map[] ==> t.pending == map[]
  {
    InvAlong(states, steps, k);
    InvAlong(states, steps, k + 1);
    StepWork(s, step, t);
  }

  /** The number of steps of a run that leave less to do. */
  ghost function Useful(states: seq<Loader>, steps: seq<Step>, n: nat): nat
    requires IsRun(states, steps) && n <= |steps|
  {
    if n == 0 then 0
    else Useful(states, steps, n - 1) + if Work(states[n]) < Work(states[n - 1]) then 1 else 0
  }

  /** However the threads are scheduled, no more steps are useful than there is work at the start. */
  lemma {:induction false} UsefulBounded(states: seq<Loader>, steps: seq<Step>, n: nat)
    requires IsRun(states, steps) && IsQuiet(steps) && Inv(states[0]) && n <= |steps|
    ensures Useful(states, steps, n) + Work(states[n]) <= Work(states[0])
  {
    if n > 0 {
      UsefulBounded(states, steps, n - 1);
      StepAlong(states, steps, n - 1, states[n - 1], steps[n - 1], states[n]);
    }
  }

  // ---- Fairness ----

  ghost predicate WorkerCan(s: Loader) {
    (s.hand.None? && s.requests != []) || (s.hand.Some? && |s.results| < RESULT_CAPACITY)
  }

  ghost predicate IsIdleStretch(states: seq<Loader>, steps: seq<Step>, from: nat, end: nat)
    requires IsRun(states, steps) && from <= end <= |steps|
  {
    Work(states[end]) == Work(states[from])
  }

  /** Each thread gets its turn within `bound` steps: when these leave as much to do as before, the tick has
      received and collected, and the worker has moved, unless at some point it could not. */
  ghost predicate IsFair(states: seq<Loader>, steps: seq<Step>, bound: nat)
    requires IsRun(states, steps)
  {
    forall from: nat, end: nat :: from + bound == end <= |steps| && IsIdleStretch(states, steps, from, end) ==>
      && (exists k :: from <= k < end && steps[k].BeginReceive?)
      && (exists k :: from <= k < end && steps[k].Collect?)
      && ((exists k :: from <= k < end && (steps[k].WorkerTakes? || steps[k].WorkerAnswers?))
          || exists k :: from <= k < end && !WorkerCan(states[k]))
  }

  /** Along a run the work never grows. */
  lemma {:induction false} WorkFalls(states: seq<Loader>, steps: seq<Step>, from: nat, end: nat)
    requires IsRun(states, steps) && IsQuiet(steps) && Inv(states[0]) && from <= end <= |steps|
    ensures Work(states[end]) <= Work(states[from])
    decreases end
  {
    if end > from {
      WorkFalls(states, steps, from, end - 1);
      StepAlong(states, steps, end - 1, states[end - 1], steps[end - 1], states[end]);
    }
  }

  /** In an idle stretch nothing changes but the tick's phase. */
  lemma {:induction false} IdleStays(states: seq<Loader>, steps: seq<Step>, from: nat, k: nat, end: nat)
    requires IsRun(states, steps) && IsQuiet(steps) && Inv(states[0]) && from <= k <= end <= |steps|
    requires IsIdleStretch(states, steps, from, end)
    ensures states[k] == states[from].(phase := states[k].phase)
    ensures Work(states[k]) == Work(states[from])
    decreases k
  {
    WorkFalls(states, steps, from, k);
    WorkFalls(states, steps, k, end);
    if k > from {
      IdleStays(states, steps, from, k - 1, end);
      StepAlong(states, steps, k - 1, states[k - 1], steps[k - 1], states[k]);
    }
  }

  lemma IdleStep(states: seq<Loader>, steps: seq<Step>, from: nat, k: nat, end: nat)
    requires IsRun(states, steps) && IsQuiet(steps) && Inv(states[0]) && from <= k < end <= |steps|
    requires IsIdleStretch(states, steps, from, end)
    ensures !steps[k].WorkerTakes? && !steps[k].WorkerAnswers?
    ensures steps[k].BeginReceive? ==> states[from].results == [] && states[from].drained == []
                                       && states[from].toSend == []
    ensures steps[k].Collect? ==> Waiting(states[from].pending) == {}
  {
    IdleStays(states, steps, from, k, end);
    IdleStays(states, steps, from, k + 1, end);
    StepAlong(states, steps, k, states[k], steps[k], states[k + 1]);
  }

  /** While something is pending, a fair stretch hands something on. */
  lemma FairAdvances(states: seq<Loader>, steps: seq<Step>, bound: nat, from: nat)
    requires IsRun(states, steps) && IsQuiet(steps) && Inv(states[0]) && IsFair(states, steps, bound)
    requires from + bound <= |steps| && states[from].pending != map[]
    ensures Work(states[from + bound]) < Work(states[from])
  {
    var end := from + bound;
    WorkFalls(states, steps, from, end);
    InvAlong(states, steps, from);
    if Work(states[end]) == Work(states[from]) {
      assert IsIdleStretch(states, steps, from, end);
      var i :| from <= i < end && steps[i].BeginReceive?;
      IdleStep(states, steps, from, i, end);
      var j :| from <= j < end && steps[j].Collect?;
      IdleStep(states, steps, from, j, end);
      forall k | from <= k < end
        ensures !steps[k].WorkerTakes? && !steps[k].WorkerAnswers?
      {
        IdleStep(states, steps, from, k, end);
      }
      var m :| from <= m < end && !WorkerCan(states[m]);
      IdleStays(states, steps, from, m, end);
      SomethingWaits(states[from]);
    }
  }

  lemma NoWorkLeft(s: Loader)
    requires Inv(s) && Work(s) == 0
    ensures s.pending == map[]
  {
    if s.pending != map[] {
      SomethingWaits(s);
    }
  }

  lemma {:induction false} FairProgress(states: seq<Loader>, steps: seq<Step>, bound: nat, n: nat, end: nat)
    requires IsRun(states, steps) && IsQuiet(steps) && Inv(states[0]) && IsFair(states, steps, bound)
    requires end == n * bound <= |steps|
    ensures states[end].pending == map[] || Work(states[end]) + n <= Work(states[0])
    decreases n
  {
    if n > 0 {
      var from := (n - 1) * bound;
      assert from + bound == end;
      FairProgress(states, steps, bound, n - 1, from);
      if states[from].pending == map[] {
        StaysEmpty(states, steps, from, end);
      } else {
        FairAdvances(states, steps, bound, from);
      }
    }
  }

  /** What is finished stays finished. */
  lemma {:induction false} StaysEmpty(states: seq<Loader>, steps: seq<Step>, from: nat, end: nat)
    requires IsRun(states, steps) && IsQuiet(steps) && Inv(states[0]) && from <= end <= |steps|
    requires states[from].pending == map[]
    ensures states[end].pending == map[]
    decreases end
  {
    if end > from {
      StaysEmpty(states, steps, from, end - 1);
      StepAlong(states, steps, end - 1, states[end - 1], steps[end - 1], states[end]);
    }
  }

  lemma {:induction false} NothingAsked(states: seq<Loader>, steps: seq<Step>, n: nat)
    requires IsRun(states, steps) && IsQuiet(steps) && n <= |steps|
    ensures states[n].inserted == states[0].inserted
  {
    if n > 0 {
      NothingAsked(states, steps, n - 1);
      assert Takes(states[n - 1], steps[n - 1], states[n]);
    }
  }

  /** From any reachable state, a fair run without new requests that is long enough for the work at its start
      answers every request ever made by exactly one load event. */
  lemma FairRunFinishes(states: seq<Loader>, steps: seq<Step>, bound: nat)
    requires IsRun(states, steps) && IsQuiet(steps) && Inv(states[0]) && IsFair(states, steps, bound)
    requires Work(states[0]) * bound <= |steps|
    ensures var last := states[|steps|];
      && last.pending == map[]
      && forall pos :: Count(last.events, pos) == Count(states[0].inserted, pos)
  {
    var n := Work(states[0]);
    var end := n * bound;
    FairProgress(states, steps, bound, n, end);
    InvAlong(states, steps, end);
    if states[end].pending != map[] {
      NoWorkLeft(states[end]);
    }
    StaysEmpty(states, steps, end, |steps|);
    InvAlong(states, steps, |steps|);
    NothingAsked(states, steps, |steps|);
    var last := states[|steps|];
    forall pos
      ensures Count(last.events, pos) == Count(states[0].inserted, pos)
    {
      assert Accounted(last, pos);
    }
  }
}
