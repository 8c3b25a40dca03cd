/** What holds in every run of the lifecycle manager, measured against the full traces of its agents. */
module StateMachineRuns {
  import opened StateMachine
  import opened Util
  import opened Wrappers

  // ----- lives -----

  /** The full trace of an agent since its registration. */
  datatype Life = Life(born: Time, steps: seq<Request>)

  function StateBefore(steps: seq<Request>, n: nat): State
    requires n <= |steps|
  {
    if n == 0 then Pending else steps[n - 1].next
  }

  /** Every entry follows from the one before it by the table. */
  ghost predicate Legal(steps: seq<Request>) {
    forall i :: 0 <= i < |steps| ==> CanTransition(StateBefore(steps, i), steps[i].next)
  }

  function EnteredAt(life: Life, n: nat): Time
    requires n <= |life.steps|
  {
    if n == 0 then life.born else life.steps[n - 1].entered
  }

  function Transitions(steps: seq<Request>): (ts: seq<Transition>)
    ensures |ts| == |steps|
    ensures forall i :: 0 <= i < |steps| ==> ts[i] == Transition(steps[i].next, steps[i].reason, map[], steps[i].at)
  {
    seq(|steps|, i requires 0 <= i < |steps| => MakeTransition(steps[i]))
  }

  /** The entries of the full trace that are Error. */
  function Errors(steps: seq<Request>): nat {
    if steps == [] then 0
    else Errors(steps[..|steps| - 1]) + (if steps[|steps| - 1].next == Error then 1 else 0)
  }

  /**
   The time spent in completed stays in a state, over the first n steps; a stay that ends before it
   began counts nothing.
   */
  function StaysIn(life: Life, s: State, n: nat): Time
    requires n <= |life.steps|
  {
    if n == 0 then 0
    else
      StaysIn(life, s, n - 1)
      + if StateBefore(life.steps, n - 1) != s || life.steps[n - 1].left < EnteredAt(life, n - 1) then 0
        else life.steps[n - 1].left - EnteredAt(life, n - 1)
  }

  /** The context that has seen the whole life. */
  function ContextOf(life: Life): Context
    decreases |life.steps|
  {
    if life.steps == [] then NewContext(life.born)
    else
      var r := life.steps[|life.steps| - 1];
      Record(ContextOf(Life(life.born, life.steps[..|life.steps| - 1])), MakeTransition(r), r.left, r.entered)
  }

  // ----- what a context remembers -----

  lemma ContextStep(life: Life)
    requires life.steps != []
    ensures var n := |life.steps| - 1;
            ContextOf(life) ==
              Record(
                ContextOf(Life(life.born, life.steps[..n])),
                MakeTransition(life.steps[n]), life.steps[n].left, life.steps[n].entered)
  {
  }

  lemma {:induction false} PlainFieldsRemembered(life: Life)
    ensures var c, n := ContextOf(life), |life.steps|;
            && c.current == StateBefore(life.steps, n)
            && c.previous == (if n == 0 then None else Some(StateBefore(life.steps, n - 1)))
            && c.enteredAt == EnteredAt(life, n)
            && c.timeout == None
            && c.transitionCount == n
            && c.errorCount == Errors(life.steps)
    decreases |life.steps|
  {
    if life.steps != [] {
      hide ContextOf, DurationIn, Elapsed;
      ContextStep(life);
      PlainFieldsRemembered(Life(life.born, life.steps[..|life.steps| - 1]));
    }
  }

  lemma {:induction false} HistoryRemembered(life: Life)
    ensures ContextOf(life).history == LastN(Transitions(life.steps), 100)
    decreases |life.steps|
  {
    if life.steps != [] {
      hide ContextOf, DurationIn, Elapsed, LastN, Transitions;
      ContextStep(life);
      HistoryRemembered(Life(life.born, life.steps[..|life.steps| - 1]));
      HistoryGrows(life.steps);
    }
  }

  lemma StayBooked(c: Context, t: Transition, left: Time, entered: Time, s: State)
    ensures DurationIn(Record(c, t, left, entered).durations, s)
         == DurationIn(c.durations, s) + if s == c.current then Elapsed(c.enteredAt, left) else 0
  {
  }

  lemma StaysStep(life: Life, s: State)
    requires life.steps != []
    ensures var n := |life.steps| - 1;
            var front := Life(life.born, life.steps[..n]);
            StaysIn(life, s, n + 1)
              == StaysIn(front, s, n)
                 + if StateBefore(front.steps, n) == s then Elapsed(EnteredAt(front, n), life.steps[n].left) else 0
  {
    var n := |life.steps| - 1;
    StaysOfPrefix(life, s, n, n);
  }

  lemma NoStays(born: Time, s: State)
    ensures DurationIn(ContextOf(Life(born, [])).durations, s) == 0 == StaysIn(Life(born, []), s, 0)
  {
  }

  lemma {:induction false} StaysRemembered(life: Life, s: State)
    ensures DurationIn(ContextOf(life).durations, s) == StaysIn(life, s, |life.steps|)
    decreases |life.steps|
  {
    hide ContextOf, Elapsed, Errors, Record, DurationIn, StaysIn, StateBefore, EnteredAt;
    if life.steps == [] {
      NoStays(life.born, s);
    } else {
      var m := |life.steps| - 1;
      var front := Life(life.born, life.steps[..m]);
      ContextStep(life);
      StayBooked(ContextOf(front), MakeTransition(life.steps[m]), life.steps[m].left, life.steps[m].entered, s);
      StaysRemembered(front, s);
      StaysStep(life, s);
      PlainFieldsRemembered(front);
    }
  }

  /** Every field of a context, in terms of the full trace. */
  lemma ContextRemembers(life: Life)
    ensures var c, n := ContextOf(life), |life.steps|;
            && c.history == LastN(Transitions(life.steps), 100)
            && c.current == StateBefore(life.steps, n)
            && c.previous == (if n == 0 then None else Some(StateBefore(life.steps, n - 1)))
            && c.enteredAt == EnteredAt(life, n)
            && c.timeout == None
            && c.transitionCount == n
            && c.errorCount == Errors(life.steps)
            && (forall s :: DurationIn(c.durations, s) == StaysIn(life, s, n))
  {
    hide *;
    PlainFieldsRemembered(life);
    HistoryRemembered(life);
    forall s: State
      ensures DurationIn(ContextOf(life).durations, s) == StaysIn(life, s, |life.steps|)
    {
      StaysRemembered(life, s);
    }
  }

  lemma HistoryGrows(steps: seq<Request>)
    requires steps != []
    ensures var n := |steps| - 1;
            var h := LastN(Transitions(steps[..n]), 100) + [MakeTransition(steps[n])];
            LastN(Transitions(steps), 100) == if |h| > 100 then h[1..] else h
  {
    var n := |steps| - 1;
    hide LastN;
    assert Transitions(steps) == Transitions(steps[..n]) + [MakeTransition(steps[n])];
    WindowSlides(Transitions(steps[..n]), MakeTransition(steps[n]), 100);
  }

  lemma {:induction false} StaysOfPrefix(life: Life, s: State, m: nat, n: nat)
    requires n <= m <= |life.steps|
    ensures StaysIn(Life(life.born, life.steps[..m]), s, n) == StaysIn(life, s, n)
  {
    if n > 0 {
      StaysOfPrefix(life, s, m, n - 1);
    }
  }

  // ----- time -----

  /** The clock never runs backwards, from the registration on. */
  ghost predicate Monotone(life: Life) {
    forall i :: 0 <= i < |life.steps| ==>
      EnteredAt(life, i) <= life.steps[i].at <= life.steps[i].left <= life.steps[i].entered
  }

  function TotalTime(d: map<State, Time>): Time {
    DurationIn(d, Pending) + DurationIn(d, Initializing) + DurationIn(d, Idle) + DurationIn(d, Working)
    + DurationIn(d, Paused) + DurationIn(d, ShuttingDown) + DurationIn(d, Stopped) + DurationIn(d, Error)
  }

  /** Time that falls between the two clock readings of a transition, and is booked nowhere. */
  function Unbooked(steps: seq<Request>): Time {
    if steps == [] then 0
    else
      var r := steps[|steps| - 1];
      Unbooked(steps[..|steps| - 1]) + Elapsed(r.left, r.entered)
  }

  /** Time is conserved: what is booked and what falls between two readings add up to the life so far. */
  lemma {:induction false} TimeConserved(life: Life)
    requires Monotone(life)
    ensures TotalTime(ContextOf(life).durations) + Unbooked(life.steps)
         == EnteredAt(life, |life.steps|) - life.born
    decreases |life.steps|
  {
    hide TotalTime, DurationIn, ContextOf, Elapsed, Unbooked, Record, Monotone;
    if life.steps == [] {
      NothingBooked(life.born);
    } else {
      var n := |life.steps| - 1;
      var front, r := Life(life.born, life.steps[..n]), life.steps[n];
      MonotoneFront(life);
      TimeConserved(front);
      PlainFieldsRemembered(front);
      ContextStep(life);
      TransitionBooked(ContextOf(front), r);
      UnbookedStep(life.steps);
    }
  }

  lemma MonotoneFront(life: Life)
    requires Monotone(life) && life.steps != []
    ensures var n := |life.steps| - 1;
            var front := Life(life.born, life.steps[..n]);
            && Monotone(front)
            && EnteredAt(front, n) <= life.steps[n].left <= life.steps[n].entered
  {
    var n := |life.steps| - 1;
    var front := Life(life.born, life.steps[..n]);
    assert forall i :: 0 <= i <= n ==> EnteredAt(front, i) == EnteredAt(life, i);
  }

  lemma TransitionBooked(c: Context, r: Request)
    requires c.enteredAt <= r.left
    ensures TotalTime(Record(c, MakeTransition(r), r.left, r.entered).durations)
         == TotalTime(c.durations) + (r.left - c.enteredAt)
  {
    hide TotalTime, DurationIn;
    OneStayBooked(c.durations, c.current, Elapsed(c.enteredAt, r.left));
  }

  lemma UnbookedStep(steps: seq<Request>)
    requires steps != []
    ensures var r := steps[|steps| - 1];
            && Unbooked(steps) == Unbooked(steps[..|steps| - 1]) + Elapsed(r.left, r.entered)
            && (r.left <= r.entered ==> Elapsed(r.left, r.entered) == r.entered - r.left)
  {
  }

  lemma NothingBooked(born: Time)
    ensures TotalTime(NewContext(born).durations) == 0 && ContextOf(Life(born, [])) == NewContext(born)
    ensures Unbooked([]) == 0
  {
  }

  lemma OneStayBooked(d: map<State, Time>, s: State, stay: Time)
    ensures TotalTime(d[s := DurationIn(d, s) + stay]) == TotalTime(d) + stay
  {
    hide DurationIn;
    StayAt(d, s, stay, Pending);
    StayAt(d, s, stay, Initializing);
    StayAt(d, s, stay, Idle);
    StayAt(d, s, stay, Working);
    StayAt(d, s, stay, Paused);
    StayAt(d, s, stay, ShuttingDown);
    StayAt(d, s, stay, Stopped);
    StayAt(d, s, stay, Error);
  }

  lemma StayAt(d: map<State, Time>, s: State, stay: Time, t: State)
    ensures DurationIn(d[s := DurationIn(d, s) + stay], t) == DurationIn(d, t) + if t == s then stay else 0
  {
  }

  lemma {:induction false} UnbookedIsNothing(steps: seq<Request>)
    ensures Unbooked(steps) == 0 <==> forall i :: 0 <= i < |steps| ==> steps[i].entered <= steps[i].left
  {
    if steps != [] {
      UnbookedIsNothing(steps[..|steps| - 1]);
    }
  }

  /**
   The booked time never exceeds the life so far, and equals it exactly when the two readings of
   each transition coincide.
   */
  lemma BookedTime(life: Life)
    requires Monotone(life)
    ensures var booked, lived := TotalTime(ContextOf(life).durations), EnteredAt(life, |life.steps|) - life.born;
            && booked <= lived
            && (booked == lived <==> forall i :: 0 <= i < |life.steps| ==> life.steps[i].left == life.steps[i].entered)
  {
    TimeConserved(life);
    UnbookedIsNothing(life.steps);
  }

  // ----- the retry count reads a truncated history -----

  ghost predicate LegalHistory(h: seq<Transition>) {
    forall i :: 0 < i < |h| ==> CanTransition(h[i - 1].to, h[i].to)
  }

  lemma {:induction false} RetryCountBound(h: seq<Transition>)
    requires LegalHistory(h)
    ensures 2 * RetryCount(h) <= |h| + 1
  {
    var n := |h|;
    if n == 1 {
      assert RetryCount(h[..0]) == 0;
    } else if n > 1 {
      RetryCountBound(h[..n - 2]);
      LastTwo(h);
    }
  }

  /** Two recovering entries in a row hold exactly one Initializing. */
  lemma LastTwo(h: seq<Transition>)
    requires LegalHistory(h) && |h| > 1
    ensures var n := |h|;
            RetryCount(h) ==
              if !Recovering(h[n - 1].to) then 0
              else if !Recovering(h[n - 2].to) then if h[n - 1].to == Initializing then 1 else 0
              else 1 + RetryCount(h[..n - 2])
  {
    var n := |h|;
    assert CanTransition(h[n - 2].to, h[n - 1].to);
    assert h[..n - 1][..n - 2] == h[..n - 2];
  }

  lemma NothingCounted()
    ensures RetryCount([]) == 0
  {
  }

  /** Counting in the last k entries only counts at most k / 2, and otherwise misses nothing. */
  lemma {:induction false} TruncatedRetryCount(h: seq<Transition>, k: nat)
    requires LegalHistory(h) && k % 2 == 0
    ensures var full := RetryCount(h);
            RetryCount(LastN(h, k)) == if full <= k / 2 then full else k / 2
  {
    hide RetryCount;
    var n := |h|;
    NothingCounted();
    if n <= k {
      RetryCountBound(h);
    } else if k == 0 {
      assert LastN(h, k) == [];
    } else {
      var last := LastN(h, k);
      assert forall i :: 0 <= i < k ==> last[i] == h[n - k + i];
      LastTwo(h);
      LastTwo(last);
      TruncatedRetryCount(h[..n - 2], k - 2);
      assert LastN(h[..n - 2], k - 2) == last[..k - 2];
    }
  }

  lemma LegalTransitions(steps: seq<Request>)
    requires Legal(steps)
    ensures LegalHistory(Transitions(steps))
  {
    hide CanTransition;
    var ts := Transitions(steps);
    forall i | 0 < i < |ts|
      ensures CanTransition(ts[i - 1].to, ts[i].to)
    {
      assert CanTransition(StateBefore(steps, i), steps[i].next);
    }
  }

  /** How many restarts in a row a memory shows: all of them, or no more than it has room for. */
  function Seen(memory: Option<nat>, restarts: nat): nat {
    if memory.Some? && restarts > memory.value then memory.value else restarts
  }

  /**
   Restarts alternate with errors, so a history of a hundred entries has room for fifty: a context
   shows the true count up to that.
   */
  lemma RetryCountOfContext(life: Life)
    requires Legal(life.steps)
    ensures RetryCount(ContextOf(life).history)
         == Seen(Some(50), RetryCount(Transitions(life.steps)))
  {
    hide ContextOf, RetryCount, LastN, CanTransition;
    HistoryRemembered(life);
    LegalTransitions(life.steps);
    TruncatedRetryCount(Transitions(life.steps), 100);
  }

  // ----- managers that keep full traces -----

  /**
   A manager that keeps the full trace of every agent.  With no memory limit (`None`) its retry
   count forgets nothing; with a limit the count shows no more restarts than that.
   */
  ghost function ApplyLife(memory: Option<nat>, lives: map<string, Life>, maxRetries: nat, op: Op):
      (map<string, Life>, Result<(), Failure>)
  {
    match op
    case Register(id, now) => (lives[id := Life(now, [])], Ok(()))
    case Unregister(id) => (lives - {id}, Ok(()))
    case Move(id, r) =>
      if id !in lives then (lives, Err(TerminalState(Stopped)))
      else
        var life := lives[id];
        var current := StateBefore(life.steps, |life.steps|);
        if r.next == Initializing && Seen(memory, RetryCount(Transitions(life.steps))) >= maxRetries then
          (lives, Err(MaxRetriesExceeded))
        else if !CanTransition(current, r.next) then
          (lives, Err(InvalidTransition(current, r.next, ValidTransitions(current))))
        else (lives[id := Life(life.born, life.steps + [r])], Ok(()))
  }

  ghost function RunLives(memory: Option<nat>, maxRetries: nat, ops: seq<Op>): map<string, Life> {
    if ops == [] then map[]
    else
      ApplyLife(memory, RunLives(memory, maxRetries, ops[..|ops| - 1]), maxRetries, ops[|ops| - 1]).0
  }

  /** What the n-th operation returns when nothing is forgotten. */
  ghost function FullOutcome(maxRetries: nat, ops: seq<Op>, n: nat): Result<(), Failure>
    requires n < |ops|
  {
    ApplyLife(None, RunLives(None, maxRetries, ops[..n]), maxRetries, ops[n]).1
  }

  /** The contexts that belong to full traces. */
  ghost predicate Refines(contexts: map<string, Context>, lives: map<string, Life>) {
    && contexts.Keys == lives.Keys
    && forall id :: id in lives ==> contexts[id] == ContextOf(lives[id]) && Legal(lives[id].steps)
  }

  lemma ContextOfSnoc(life: Life, r: Request)
    ensures ContextOf(Life(life.born, life.steps + [r]))
         == Record(ContextOf(life), MakeTransition(r), r.left, r.entered)
  {
    assert (life.steps + [r])[..|life.steps|] == life.steps;
    assert Life(life.born, life.steps) == life;
  }

  lemma LegalSnoc(steps: seq<Request>, r: Request)
    requires Legal(steps) && CanTransition(StateBefore(steps, |steps|), r.next)
    ensures Legal(steps + [r])
  {
    hide CanTransition;
    var all := steps + [r];
    forall i | 0 <= i < |all|
      ensures CanTransition(StateBefore(all, i), all[i].next)
    {
      if i < |steps| {
        assert StateBefore(all, i) == StateBefore(steps, i);
        assert CanTransition(StateBefore(steps, i), steps[i].next);
      }
    }
  }

  /**
   One operation on contexts returns what it returns on traces seen through the history's room, and
   keeps them in step.
   */
  lemma StepRefines(contexts: map<string, Context>, lives: map<string, Life>, maxRetries: nat, op: Op)
    requires Refines(contexts, lives)
    ensures var (contexts', result) := Apply(contexts, maxRetries, op);
            var (lives', expected) := ApplyLife(Some(50), lives, maxRetries, op);
            result == expected && Refines(contexts', lives')
  {
    hide Record, RetryCount, CanTransition, ValidTransitions, ContextOf;
    if op.Register? {
      NothingBooked(op.now);
    } else if op.Move? && op.id in lives {
      var life := lives[op.id];
      PlainFieldsRemembered(life);
      RetryCountOfContext(life);
      ContextOfSnoc(life, op.request);
      if CanTransition(StateBefore(life.steps, |life.steps|), op.request.next) {
        LegalSnoc(life.steps, op.request);
      }
    }
  }

  lemma {:induction false} RunRefines(maxRetries: nat, ops: seq<Op>)
    ensures Refines(Run(maxRetries, ops), RunLives(Some(50), maxRetries, ops))
  {
    if ops != [] {
      var n := |ops| - 1;
      RunRefines(maxRetries, ops[..n]);
      StepRefines(
        Run(maxRetries, ops[..n]), RunLives(Some(50), maxRetries, ops[..n]), maxRetries, ops[n]);
    }
  }

  lemma OutcomesRefine(maxRetries: nat, ops: seq<Op>, n: nat)
    requires n < |ops|
    ensures Outcome(maxRetries, ops, n)
         == ApplyLife(Some(50), RunLives(Some(50), maxRetries, ops[..n]), maxRetries, ops[n]).1
  {
    RunRefines(maxRetries, ops[..n]);
    StepRefines(
      Run(maxRetries, ops[..n]), RunLives(Some(50), maxRetries, ops[..n]), maxRetries, ops[n]);
  }

  /** Up to a limit of 50 the history's room decides as the full trace would. */
  lemma {:induction false} RoomSuffices(maxRetries: nat, ops: seq<Op>)
    requires maxRetries <= 50
    ensures RunLives(Some(50), maxRetries, ops) == RunLives(None, maxRetries, ops)
  {
    hide RetryCount, CanTransition, ValidTransitions;
    if ops != [] {
      RoomSuffices(maxRetries, ops[..|ops| - 1]);
    }
  }
}
