/** Safety of every run of the lifecycle manager: the retry limit, the life cycle, and isolation of agents. */
module StateMachineSafety {
  import opened Wrappers
  import opened StateMachine
  import opened StateMachineRuns

  // ----- traces as the manager's answers show them -----

  /** The moves granted to an agent since it was last registered. */
  function Trace(maxRetries: nat, ops: seq<Op>, id: string): seq<Request> {
    if ops == [] then []
    else
      var n := |ops| - 1;
      var front := Trace(maxRetries, ops[..n], id);
      if ops[n].id != id then front
      else if !ops[n].Move? then []
      else if Outcome(maxRetries, ops, n) == Ok(()) then front + [ops[n].request]
      else front
  }

  lemma {:induction false} TraceOfLife(maxRetries: nat, ops: seq<Op>, id: string)
    ensures var lives := RunLives(Some(50), maxRetries, ops);
            Trace(maxRetries, ops, id) == if id in lives then lives[id].steps else []
  {
    hide Apply, RetryCount, CanTransition, ValidTransitions;
    if ops != [] {
      var n := |ops| - 1;
      TraceOfLife(maxRetries, ops[..n], id);
      OutcomesRefine(maxRetries, ops, n);
    }
  }

  lemma TraceIsLegal(maxRetries: nat, ops: seq<Op>, id: string)
    ensures Legal(Trace(maxRetries, ops, id))
  {
    TraceOfLife(maxRetries, ops, id);
    RunRefines(maxRetries, ops);
  }

  /** The clock reading of an agent's last registration. */
  function Born(ops: seq<Op>, id: string): Time {
    if ops == [] then 0
    else
      var op := ops[|ops| - 1];
      if op.Register? && op.id == id then op.now else Born(ops[..|ops| - 1], id)
  }

  lemma {:induction false} BornOfLife(maxRetries: nat, ops: seq<Op>, id: string)
    requires id in RunLives(Some(50), maxRetries, ops)
    ensures RunLives(Some(50), maxRetries, ops)[id].born == Born(ops, id)
  {
    hide RetryCount, CanTransition, ValidTransitions;
    var n := |ops| - 1;
    if !(ops[n].Register? && ops[n].id == id) {
      BornOfLife(maxRetries, ops[..n], id);
    }
  }

  /** An agent's context is the one that has seen everything granted since its registration, from that moment on. */
  lemma ContextOfTrace(maxRetries: nat, ops: seq<Op>, id: string)
    requires id in Run(maxRetries, ops)
    ensures Run(maxRetries, ops)[id] == ContextOf(Life(Born(ops, id), Trace(maxRetries, ops, id)))
    ensures Legal(Trace(maxRetries, ops, id))
  {
    hide ContextOf;
    TraceOfLife(maxRetries, ops, id);
    RunRefines(maxRetries, ops);
    BornOfLife(maxRetries, ops, id);
    var life := RunLives(Some(50), maxRetries, ops)[id];
    assert Life(Born(ops, id), Trace(maxRetries, ops, id)) == life;
  }

  // ----- time -----

  /** Clock readings never run backwards along the operations, and none is later than `now`. */
  ghost predicate Timely(ops: seq<Op>, now: Time)
    decreases |ops|
  {
    ops == []
    || (var front, op := ops[..|ops| - 1], ops[|ops| - 1];
        match op
        case Register(_, t) => t <= now && Timely(front, t)
        case Unregister(_) => Timely(front, now)
        case Move(_, r) => r.at <= r.left <= r.entered <= now && Timely(front, r.at))
  }

  lemma {:induction false} TraceIsMonotone(maxRetries: nat, ops: seq<Op>, id: string, now: Time)
    requires Timely(ops, now) && id in RunLives(Some(50), maxRetries, ops)
    ensures var life := RunLives(Some(50), maxRetries, ops)[id];
            Monotone(life) && EnteredAt(life, |life.steps|) <= now
    decreases |ops|
  {
    hide RetryCount, CanTransition, ValidTransitions;
    var n := |ops| - 1;
    var front, op := ops[..n], ops[n];
    if op.id != id || op.Move? {
      var before := match op case Register(_, t) => t case Unregister(_) => now case Move(_, r) => r.at;
      TraceIsMonotone(maxRetries, front, id, before);
      var life := RunLives(Some(50), maxRetries, front)[id];
      if op.Move? && op.id == id {
        MonotoneSnoc(life, op.request);
      }
    }
  }

  lemma MonotoneSnoc(life: Life, r: Request)
    requires Monotone(life) && EnteredAt(life, |life.steps|) <= r.at <= r.left <= r.entered
    ensures Monotone(Life(life.born, life.steps + [r]))
  {
    var longer := Life(life.born, life.steps + [r]);
    forall i | 0 <= i < |longer.steps|
      ensures EnteredAt(longer, i) <= longer.steps[i].at <= longer.steps[i].left <= longer.steps[i].entered
    {
      assert EnteredAt(longer, i) == EnteredAt(life, i);
    }
  }

  /**
   In every run under a monotone clock, an agent's booked times and the gaps between the two
   readings of its transitions add up to the time from its registration to its last transition;
   so booked time falls short exactly when some gap is not empty.
   */
  lemma RunTimeConserved(maxRetries: nat, ops: seq<Op>, id: string, now: Time)
    requires Timely(ops, now) && id in Run(maxRetries, ops)
    ensures var c, steps := Run(maxRetries, ops)[id], Trace(maxRetries, ops, id);
            var booked := TotalTime(c.durations);
            && booked + Unbooked(steps) == c.enteredAt - Born(ops, id)
            && (booked == c.enteredAt - Born(ops, id)
                <==> forall i :: 0 <= i < |steps| ==> steps[i].left == steps[i].entered)
  {
    hide ContextOf, TotalTime, Unbooked, Run, Trace, Born;
    RunRefines(maxRetries, ops);
    TraceIsMonotone(maxRetries, ops, id, now);
    TraceOfLife(maxRetries, ops, id);
    BornOfLife(maxRetries, ops, id);
    ContextOfTrace(maxRetries, ops, id);
    var life := Life(Born(ops, id), Trace(maxRetries, ops, id));
    TimeConserved(life);
    BookedTime(life);
    PlainFieldsRemembered(life);
  }

  // ----- the retry limit -----

  function TrueRetries(steps: seq<Request>): nat {
    RetryCount(Transitions(steps))
  }

  lemma RetriesStep(steps: seq<Request>, r: Request)
    ensures TrueRetries(steps + [r]) ==
              if r.next == Initializing then TrueRetries(steps) + 1
              else if r.next == Error then TrueRetries(steps) else 0
  {
    var all := Transitions(steps + [r]);
    assert all[..|steps|] == Transitions(steps);
  }

  ghost predicate WithinLimit(steps: seq<Request>, maxRetries: nat) {
    forall j :: 0 <= j <= |steps| ==> TrueRetries(steps[..j]) <= maxRetries
  }

  lemma WithinLimitStep(steps: seq<Request>, r: Request, maxRetries: nat)
    requires WithinLimit(steps, maxRetries)
    requires r.next == Initializing ==> TrueRetries(steps) < maxRetries
    ensures WithinLimit(steps + [r], maxRetries)
  {
    hide TrueRetries;
    var all := steps + [r];
    assert steps[..|steps|] == steps;
    RetriesStep(steps, r);
    forall j | 0 <= j <= |all|
      ensures TrueRetries(all[..j]) <= maxRetries
    {
      if j <= |steps| {
        assert all[..j] == steps[..j];
      } else {
        assert all[..j] == all;
      }
    }
  }

  /** A manager that forgets nothing keeps every limit. */
  lemma {:induction false} LivesWithinLimit(maxRetries: nat, ops: seq<Op>, id: string)
    requires id in RunLives(None, maxRetries, ops)
    ensures WithinLimit(RunLives(None, maxRetries, ops)[id].steps, maxRetries)
  {
    hide WithinLimit, RetryCount, CanTransition, ValidTransitions;
    if ops != [] {
      var n := |ops| - 1;
      var lives, op := RunLives(None, maxRetries, ops[..n]), ops[n];
      if id in lives {
        LivesWithinLimit(maxRetries, ops[..n], id);
        if op.Move? && op.id == id && ApplyLife(None, lives, maxRetries, op).1 == Ok(()) {
          WithinLimitStep(lives[id].steps, op.request, maxRetries);
        }
      }
      NothingWithinLimit(maxRetries);
    }
  }

  lemma NothingWithinLimit(maxRetries: nat)
    ensures WithinLimit([], maxRetries)
  {
    var none: seq<Request> := [];
    assert none[..0] == none;
    assert TrueRetries([]) == 0;
  }

  /** Entries i, ..., j - 1 are all Error or Initializing. */
  ghost predicate Stretch(steps: seq<Request>, i: nat, j: nat) {
    i <= j <= |steps| && forall k :: i <= k < j ==> Recovering(steps[k].next)
  }

  function Inits(steps: seq<Request>, i: nat, j: nat): nat
    requires i <= j <= |steps|
  {
    if i == j then 0 else Inits(steps, i, j - 1) + (if steps[j - 1].next == Initializing then 1 else 0)
  }

  lemma {:induction false} StretchCounted(steps: seq<Request>, i: nat, j: nat)
    requires Stretch(steps, i, j)
    ensures Inits(steps, i, j) <= TrueRetries(steps[..j])
  {
    hide TrueRetries;
    if i < j {
      StretchCounted(steps, i, j - 1);
      RetriesStep(steps[..j - 1], steps[j - 1]);
      assert steps[..j - 1] + [steps[j - 1]] == steps[..j];
    }
  }

  lemma {:induction false} StretchAlternates(steps: seq<Request>, i: nat, j: nat)
    requires Legal(steps) && Stretch(steps, i, j)
    ensures j - i <= 2 * Inits(steps, i, j) + 1
  {
    if j >= i + 2 {
      StretchAlternates(steps, i, j - 2);
      assert CanTransition(StateBefore(steps, j - 1), steps[j - 1].next);
      assert Inits(steps, i, j - 1)
          == Inits(steps, i, j - 2) + (if steps[j - 2].next == Initializing then 1 else 0);
      assert Recovering(steps[j - 2].next) && Recovering(steps[j - 1].next);
    }
  }

  /** Every stretch of recovery holds at most `maxRetries` starts, and is as short as that makes it. */
  ghost predicate RetriesBounded(steps: seq<Request>, maxRetries: nat) {
    forall i: nat, j: nat :: Stretch(steps, i, j) ==>
      Inits(steps, i, j) <= maxRetries && j - i <= 2 * maxRetries + 1
  }

  lemma LimitHolds(maxRetries: nat, ops: seq<Op>, id: string)
    requires maxRetries <= 50
    ensures RetriesBounded(Trace(maxRetries, ops, id), maxRetries)
  {
    hide Inits, TrueRetries, Legal;
    var steps := Trace(maxRetries, ops, id);
    TraceOfLife(maxRetries, ops, id);
    TraceIsLegal(maxRetries, ops, id);
    RoomSuffices(maxRetries, ops);
    if id in RunLives(None, maxRetries, ops) {
      LivesWithinLimit(maxRetries, ops, id);
    } else {
      NothingWithinLimit(maxRetries);
    }
    forall i: nat, j: nat | Stretch(steps, i, j)
      ensures Inits(steps, i, j) <= maxRetries && j - i <= 2 * maxRetries + 1
    {
      StretchCounted(steps, i, j);
      StretchAlternates(steps, i, j);
    }
  }

  // ----- a limit above 50 is no limit -----

  function Asking(next: State): Request {
    Request(next, "", 0, 0, 0)
  }

  /** Start and fail, n times. */
  function Failing(n: nat): seq<Request> {
    if n == 0 then [] else Failing(n - 1) + [Asking(Initializing)] + [Asking(Error)]
  }

  function FailingOps(n: nat): seq<Op> {
    if n == 0 then [Register("a", 0)]
    else FailingOps(n - 1) + [Move("a", Asking(Initializing))] + [Move("a", Asking(Error))]
  }

  lemma RunLivesSnoc(memory: Option<nat>, maxRetries: nat, ops: seq<Op>, op: Op)
    ensures RunLives(memory, maxRetries, ops + [op])
         == ApplyLife(memory, RunLives(memory, maxRetries, ops), maxRetries, op).0
  {
    assert (ops + [op])[..|ops|] == ops;
  }

  /** As long as the memory shows fewer restarts than the limit, start and fail are granted. */
  lemma {:induction false} FailingGranted(memory: Option<nat>, maxRetries: nat, n: nat)
    requires forall k: nat :: k < n ==> Seen(memory, k) < maxRetries
    ensures RunLives(memory, maxRetries, FailingOps(n)) == map["a" := Life(0, Failing(n))]
    ensures |Failing(n)| == 2 * n && TrueRetries(Failing(n)) == n
    ensures n > 0 ==> Failing(n)[2 * n - 1].next == Error
  {
    hide CanTransition, RunLives, TrueRetries, Seen;
    if n == 0 {
      RegisteredFirst(memory, maxRetries);
    } else {
      FailingGranted(memory, maxRetries, n - 1);
      var ops, steps := FailingOps(n - 1), Failing(n - 1);
      var start, fail := Asking(Initializing), Asking(Error);
      AsksAlternate();
      RetriesStep(steps, start);
      RetriesStep(steps + [start], fail);
      assert Seen(memory, n - 1) < maxRetries;
      OneMoreMove(memory, maxRetries, ops, steps, start);
      OneMoreMove(memory, maxRetries, ops + [Move("a", start)], steps + [start], fail);
    }
  }

  lemma RegisteredFirst(memory: Option<nat>, maxRetries: nat)
    ensures RunLives(memory, maxRetries, FailingOps(0)) == map["a" := Life(0, Failing(0))]
    ensures TrueRetries(Failing(0)) == 0
  {
    RunLivesSnoc(memory, maxRetries, [], Register("a", 0));
    assert [] + [Register("a", 0)] == FailingOps(0);
  }

  lemma AsksAlternate()
    ensures CanTransition(Pending, Initializing) && CanTransition(Initializing, Error) && CanTransition(Error, Initializing)
  {
  }

  lemma OneMoreMove(memory: Option<nat>, maxRetries: nat, ops: seq<Op>, steps: seq<Request>, r: Request)
    requires RunLives(memory, maxRetries, ops) == map["a" := Life(0, steps)]
    requires CanTransition(StateBefore(steps, |steps|), r.next)
    requires r.next == Initializing ==> Seen(memory, TrueRetries(steps)) < maxRetries
    ensures RunLives(memory, maxRetries, ops + [Move("a", r)]) == map["a" := Life(0, steps + [r])]
  {
    hide CanTransition, RunLives, RetryCount;
    RunLivesSnoc(memory, maxRetries, ops, Move("a", r));
  }

  lemma {:induction false} InitsOfPrefix(steps: seq<Request>, more: seq<Request>, j: nat)
    requires j <= |steps|
    ensures Inits(steps + more, 0, j) == Inits(steps, 0, j)
  {
    if j > 0 {
      InitsOfPrefix(steps, more, j - 1);
    }
  }

  lemma {:induction false} FailingInits(n: nat)
    ensures |Failing(n)| == 2 * n && Stretch(Failing(n), 0, 2 * n) && Inits(Failing(n), 0, 2 * n) == n
  {
    if n > 0 {
      FailingInits(n - 1);
      var front, all := Failing(n - 1), Failing(n);
      InitsOfPrefix(front, [Asking(Initializing)] + [Asking(Error)], 2 * n - 2);
      assert all == front + ([Asking(Initializing)] + [Asking(Error)]);
      assert Inits(all, 0, 2 * n - 1) == Inits(all, 0, 2 * n - 2) + 1;
    }
  }

  /** With a limit above 50, an agent is restarted any number of times in a row. */
  lemma NoLimitAboveFifty(maxRetries: nat, n: nat)
    requires maxRetries > 50
    ensures Trace(maxRetries, FailingOps(n), "a") == Failing(n)
    ensures Stretch(Failing(n), 0, 2 * n) && Inits(Failing(n), 0, 2 * n) == n
  {
    FailingGranted(Some(50), maxRetries, n);
    TraceOfLife(maxRetries, FailingOps(n), "a");
    FailingInits(n);
  }

  /** The retry limit holds in every run exactly when it is at most 50, half the length of the kept history. */
  lemma RetryLimitExactly(maxRetries: nat)
    ensures (forall ops: seq<Op>, id: string :: RetriesBounded(Trace(maxRetries, ops, id), maxRetries))
       <==> maxRetries <= 50
  {
    if maxRetries <= 50 {
      forall ops: seq<Op>, id: string
        ensures RetriesBounded(Trace(maxRetries, ops, id), maxRetries)
      {
        LimitHolds(maxRetries, ops, id);
      }
    } else {
      var n := maxRetries + 1;
      NoLimitAboveFifty(maxRetries, n);
      assert !RetriesBounded(Trace(maxRetries, FailingOps(n), "a"), maxRetries);
    }
  }

  // ----- what forgetting changes -----

  /**
   With a limit above 50, the restart after as many as the limit allows is granted, though the full
   trace forbids it.
   */
  lemma ForgettingShows(maxRetries: nat)
    requires maxRetries > 50
    ensures var ops := FailingOps(maxRetries) + [Move("a", Asking(Initializing))];
            var n := |FailingOps(maxRetries)|;
            Outcome(maxRetries, ops, n) == Ok(()) && FullOutcome(maxRetries, ops, n) == Err(MaxRetriesExceeded)
  {
    hide Outcome, RetryCount, CanTransition, RunLives;
    var before, next := FailingOps(maxRetries), Move("a", Asking(Initializing));
    var ops, n := before + [next], |before|;
    assert ops[..n] == before;
    FailingGranted(Some(50), maxRetries, maxRetries);
    FailingGranted(None, maxRetries, maxRetries);
    AsksAlternate();
    OutcomesRefine(maxRetries, ops, n);
  }

  /** In every run the manager answers as if it kept every agent's full trace, exactly when the limit is at most 50. */
  lemma FullMemoryExactly(maxRetries: nat)
    ensures (forall ops: seq<Op>, n: nat :: n < |ops| ==> Outcome(maxRetries, ops, n) == FullOutcome(maxRetries, ops, n))
       <==> maxRetries <= 50
  {
    hide Outcome, RetryCount, CanTransition, ValidTransitions;
    if maxRetries <= 50 {
      forall ops: seq<Op>, n: nat | n < |ops|
        ensures Outcome(maxRetries, ops, n) == FullOutcome(maxRetries, ops, n)
      {
        OutcomesRefine(maxRetries, ops, n);
        RoomSuffices(maxRetries, ops[..n]);
      }
    } else {
      ForgettingShows(maxRetries);
    }
  }

  // ----- the life cycle -----

  /** States that need a completed start. */
  predicate Started(s: State) {
    s == Idle || s == Working || s == Paused || s == ShuttingDown
  }

  /** Before the first Initializing an agent can only fail and then stop. */
  lemma {:induction false} StartComesFirst(steps: seq<Request>, n: nat)
    requires Legal(steps) && n < |steps| && Started(steps[n].next)
    ensures exists j :: 0 <= j < n && steps[j].next == Initializing
  {
    hide CanTransition, Started;
    StartedFrom(StateBefore(steps, n), steps[n].next);
    if steps[n - 1].next != Initializing {
      StartComesFirst(steps, n - 1);
    }
  }

  lemma StartedFrom(from: State, to: State)
    requires CanTransition(from, to) && Started(to)
    ensures from != Pending && (from == Initializing || Started(from))
  {
  }

  /**
   Stopped ends a trace; shutting down starts from Idle or Paused only, and stopping from
   ShuttingDown or Error only.
   */
  lemma LifeCycle(maxRetries: nat, ops: seq<Op>, id: string, n: nat)
    requires n < |Trace(maxRetries, ops, id)|
    ensures var steps := Trace(maxRetries, ops, id);
            && (steps[n].next == Stopped ==> n == |steps| - 1)
            && (steps[n].next == Stopped ==> n > 0 && steps[n - 1].next in {ShuttingDown, Error})
            && (steps[n].next == ShuttingDown ==> n > 0 && steps[n - 1].next in {Idle, Paused})
            && (Started(steps[n].next) ==> exists j :: 0 <= j < n && steps[j].next == Initializing)
  {
    hide Trace;
    var steps := Trace(maxRetries, ops, id);
    TraceIsLegal(maxRetries, ops, id);
    assert CanTransition(StateBefore(steps, n), steps[n].next);
    if n + 1 < |steps| {
      assert CanTransition(StateBefore(steps, n + 1), steps[n + 1].next);
    }
    if Started(steps[n].next) {
      StartComesFirst(steps, n);
    }
  }

  // ----- isolation -----

  ghost predicate SameAt(m: map<string, Context>, other: map<string, Context>, id: string) {
    (id in m <==> id in other) && (id in m ==> m[id] == other[id])
  }

  /** An operation reads and changes the context of its own agent only; when refused it changes nothing. */
  lemma ApplyIsLocal(m: map<string, Context>, other: map<string, Context>, maxRetries: nat, op: Op, id: string)
    ensures op.id != id ==> SameAt(Apply(m, maxRetries, op).0, m, id)
    ensures SameAt(m, other, op.id) ==>
              && Apply(m, maxRetries, op).1 == Apply(other, maxRetries, op).1
              && SameAt(Apply(m, maxRetries, op).0, Apply(other, maxRetries, op).0, op.id)
    ensures Apply(m, maxRetries, op).1.Err? ==> Apply(m, maxRetries, op).0 == m
  {
    hide RetryCount, CanTransition, ValidTransitions, Record;
    if op.Move? && op.id in m {
      assert m[op.id := m[op.id]] == m;
    }
  }

  function OpsFor(ops: seq<Op>, id: string): seq<Op> {
    if ops == [] then []
    else
      var n := |ops| - 1;
      OpsFor(ops[..n], id) + (if ops[n].id == id then [ops[n]] else [])
  }

  /** What the operations on one agent return, in order. */
  function OutcomesFor(maxRetries: nat, ops: seq<Op>, id: string): seq<Result<(), Failure>> {
    if ops == [] then []
    else
      var n := |ops| - 1;
      OutcomesFor(maxRetries, ops[..n], id) + (if ops[n].id == id then [Outcome(maxRetries, ops, n)] else [])
  }

  lemma RunSnoc(maxRetries: nat, ops: seq<Op>, op: Op)
    ensures Run(maxRetries, ops + [op]) == Apply(Run(maxRetries, ops), maxRetries, op).0
    ensures Outcome(maxRetries, ops + [op], |ops|) == Apply(Run(maxRetries, ops), maxRetries, op).1
  {
    assert (ops + [op])[..|ops|] == ops;
  }

  /** In every run an agent's context is what its own operations alone produce. */
  lemma {:induction false} AgentsAreIsolated(maxRetries: nat, ops: seq<Op>, id: string)
    ensures SameAt(Run(maxRetries, ops), Run(maxRetries, OpsFor(ops, id)), id)
  {
    hide Apply;
    if ops != [] {
      var n := |ops| - 1;
      var front, own := ops[..n], OpsFor(ops[..n], id);
      AgentsAreIsolated(maxRetries, front, id);
      ApplyIsLocal(Run(maxRetries, front), Run(maxRetries, own), maxRetries, ops[n], id);
      if ops[n].id == id {
        RunSnoc(maxRetries, own, ops[n]);
      } else {
        assert own + [] == own;
      }
    }
  }

  /** ... and its operations return what they would return alone. */
  lemma {:induction false} AnswersAreIsolated(maxRetries: nat, ops: seq<Op>, id: string)
    ensures OutcomesFor(maxRetries, ops, id) == OutcomesFor(maxRetries, OpsFor(ops, id), id)
  {
    hide Apply;
    if ops != [] {
      var n := |ops| - 1;
      var front, own := ops[..n], OpsFor(ops[..n], id);
      AnswersAreIsolated(maxRetries, front, id);
      if ops[n].id == id {
        AgentsAreIsolated(maxRetries, front, id);
        ApplyIsLocal(Run(maxRetries, front), Run(maxRetries, own), maxRetries, ops[n], id);
        RunSnoc(maxRetries, own, ops[n]);
        assert (own + [ops[n]])[..|own|] == own;
      } else {
        assert own + [] == own;
      }
    }
  }
}
