/**
 Which moves the lifecycle manager grants, in terms of the set of allowed moves: for one
 operation, in every run, and for whole sequences of moves.
 */
module StateMachineMoves {
  import opened Wrappers
  import opened StateMachine
  import opened StateMachineRuns
  import opened StateMachineSafety

  // ----- one operation -----

  /**
   A known agent is granted exactly the allowed moves, of the starts only those below the retry
   limit; the limit is looked at first.
   */
  lemma MoveGrantedExactly(contexts: map<string, Context>, maxRetries: nat, id: string, r: Request)
    requires id in contexts
    ensures var (after, answer) := Apply(contexts, maxRetries, Move(id, r));
            var from, next := contexts[id].current, r.next;
            var exhausted := next == Initializing && RetryCount(contexts[id].history) >= maxRetries;
            && (answer == Ok(()) <==> (from, next) in EDGES && !exhausted)
            && (answer == Err(MaxRetriesExceeded) <==> exhausted)
            && (answer.Err? && answer.error.InvalidTransition?
                <==> (from, next) !in EDGES && !exhausted)
            && (answer.Err? && answer.error.InvalidTransition?
                ==> answer.error.from == from && answer.error.to == next && ListsMoves(from, answer.error.valid))
            && (answer == Ok(()) ==>
                  && after[id].current == next && after[id].previous == Some(from)
                  && after[id].enteredAt == r.entered && after[id].timeout == None)
            && (answer.Err? ==> after == contexts)
  {
    hide RetryCount, CanTransition, EDGES, ValidTransitions;
    var from := contexts[id].current;
    TableIsEdges(from, r.next);
    MovesListed(from);
    assert contexts[id := contexts[id]] == contexts;
  }

  // ----- every run -----

  /** The agent was registered, and not unregistered since. */
  ghost predicate Registered(ops: seq<Op>, id: string) {
    exists k :: 0 <= k < |ops| && ops[k].Register? && ops[k].id == id
      && forall j :: k < j < |ops| ==> !(ops[j].Unregister? && ops[j].id == id)
  }

  lemma RegisteredStep(ops: seq<Op>, id: string)
    requires ops != []
    ensures var n := |ops| - 1;
            Registered(ops, id) <==>
              if ops[n].id != id || ops[n].Move? then Registered(ops[..n], id) else ops[n].Register?
  {
    var n := |ops| - 1;
    var front := ops[..n];
    if Registered(front, id) {
      var k :| 0 <= k < n && front[k].Register? && front[k].id == id
        && forall j :: k < j < n ==> !(front[j].Unregister? && front[j].id == id);
      assert ops[k] == front[k] && forall j :: 0 <= j < n ==> ops[j] == front[j];
    }
    if Registered(ops, id) {
      var k :| 0 <= k < |ops| && ops[k].Register? && ops[k].id == id
        && forall j :: k < j < |ops| ==> !(ops[j].Unregister? && ops[j].id == id);
      if k < n {
        assert front[k] == ops[k] && forall j :: 0 <= j < n ==> front[j] == ops[j];
      }
    }
  }

  lemma NobodyRegistered(id: string)
    ensures !Registered([], id)
  {
  }

  /** The manager knows exactly the registered agents. */
  lemma {:induction false} KnownExactly(maxRetries: nat, ops: seq<Op>, id: string)
    ensures id in Run(maxRetries, ops) <==> Registered(ops, id)
  {
    hide RetryCount, CanTransition, ValidTransitions, Record, Registered;
    if ops != [] {
      KnownExactly(maxRetries, ops[..|ops| - 1], id);
      RegisteredStep(ops, id);
    } else {
      NobodyRegistered(id);
    }
  }

  /** Where the stretch of Error and Initializing entries that ends a trace begins. */
  function RecoveryStart(steps: seq<Request>): (i: nat)
    ensures i <= |steps| && forall k :: i <= k < |steps| ==> Recovering(steps[k].next)
    ensures i > 0 ==> !Recovering(steps[i - 1].next)
  {
    if steps == [] || !Recovering(steps[|steps| - 1].next) then |steps| else RecoveryStart(steps[..|steps| - 1])
  }

  /** The starts in that stretch. */
  function Restarts(steps: seq<Request>): nat {
    Inits(steps, RecoveryStart(steps), |steps|)
  }

  lemma {:induction false} RestartsUpTo(steps: seq<Request>, i: nat, j: nat)
    requires i <= j <= |steps| && forall k :: i <= k < j ==> Recovering(steps[k].next)
    requires i > 0 ==> !Recovering(steps[i - 1].next)
    ensures TrueRetries(steps[..j]) == Inits(steps, i, j)
  {
    hide TrueRetries;
    if i < j {
      RestartsUpTo(steps, i, j - 1);
      RetriesStep(steps[..j - 1], steps[j - 1]);
      assert steps[..j - 1] + [steps[j - 1]] == steps[..j];
    } else if i > 0 {
      RetriesStep(steps[..i - 1], steps[i - 1]);
      assert steps[..i - 1] + [steps[i - 1]] == steps[..j];
    } else {
      NothingRetried();
      assert steps[..j] == [];
    }
  }

  lemma NothingRetried()
    ensures TrueRetries([]) == 0
  {
  }

  /**
   The move that would extend a trace is granted: it is in the table, and a start finds fewer
   restarts, of which fifty are remembered, than the limit.
   */
  predicate Grants(maxRetries: nat, steps: seq<Request>, next: State) {
    && (StateBefore(steps, |steps|), next) in EDGES
    && (next == Initializing ==> (if Restarts(steps) <= 50 then Restarts(steps) else 50) < maxRetries)
  }

  /** What a manager's context shows of the agent's trace: the state it is in, and its restarts up to fifty. */
  lemma ContextShows(maxRetries: nat, ops: seq<Op>, id: string)
    requires id in Run(maxRetries, ops)
    ensures var c, steps := Run(maxRetries, ops)[id], Trace(maxRetries, ops, id);
            && c.current == StateBefore(steps, |steps|)
            && RetryCount(c.history) == if Restarts(steps) <= 50 then Restarts(steps) else 50
  {
    hide ContextOf, RetryCount, Inits, Trace, Run, Born, Legal, Transitions, RecoveryStart;
    var steps := Trace(maxRetries, ops, id);
    var life := Life(Born(ops, id), steps);
    ContextOfTrace(maxRetries, ops, id);
    PlainFieldsRemembered(life);
    RetryCountOfContext(life);
    RestartsUpTo(steps, RecoveryStart(steps), |steps|);
    assert steps[..|steps|] == steps;
  }

  /** In every run: a move is granted exactly when the agent is registered and its trace so far grants it. */
  lemma RunGrantsExactly(maxRetries: nat, ops: seq<Op>, n: nat)
    requires n < |ops| && ops[n].Move?
    ensures var id, next := ops[n].id, ops[n].request.next;
            Outcome(maxRetries, ops, n) == Ok(()) <==>
              Registered(ops[..n], id) && Grants(maxRetries, Trace(maxRetries, ops[..n], id), next)
  {
    hide RetryCount, TransitionTo, EDGES, Restarts, Registered, Trace, Run, StateBefore;
    var id, front := ops[n].id, ops[..n];
    KnownExactly(maxRetries, front, id);
    if id in Run(maxRetries, front) {
      ContextShows(maxRetries, front, id);
      MoveGrantedExactly(Run(maxRetries, front), maxRetries, id, ops[n].request);
    }
  }

  // ----- whole sequences of moves -----

  function Moves(id: string, steps: seq<Request>): seq<Op> {
    seq(|steps|, i requires 0 <= i < |steps| => Move(id, steps[i]))
  }

  /** Registration, and then these moves. */
  function Story(id: string, born: Time, steps: seq<Request>): seq<Op> {
    [Register(id, born)] + Moves(id, steps)
  }

  lemma StoryStep(maxRetries: nat, id: string, born: Time, steps: seq<Request>)
    requires steps != []
    ensures var n := |steps| - 1;
            var before := Trace(maxRetries, Story(id, born, steps[..n]), id);
            Trace(maxRetries, Story(id, born, steps), id)
              == if Grants(maxRetries, before, steps[n].next) then before + [steps[n]] else before
  {
    hide Grants;
    var n := |steps| - 1;
    var ops := Story(id, born, steps);
    assert ops[..n + 1] == Story(id, born, steps[..n]);
    assert ops[n + 1] == Move(id, steps[n]);
    assert Registered(ops[..n + 1], id) by {
      assert ops[..n + 1][0] == Register(id, born);
    }
    RunGrantsExactly(maxRetries, ops, n + 1);
  }

  lemma StoryStart(maxRetries: nat, id: string, born: Time)
    ensures Trace(maxRetries, Story(id, born, []), id) == []
  {
    assert Story(id, born, []) == [Register(id, born)];
  }

  /**
   A registered agent makes all the moves of a sequence exactly when every one of them is granted
   after those before it.
   */
  lemma {:induction false} StoryGrantedExactly(maxRetries: nat, id: string, born: Time, steps: seq<Request>)
    ensures var trace := Trace(maxRetries, Story(id, born, steps), id);
            && |trace| <= |steps|
            && (trace == steps <==> forall j :: 0 <= j < |steps| ==> Grants(maxRetries, steps[..j], steps[j].next))
  {
    hide Grants, Story, Trace, EDGES;
    if steps == [] {
      StoryStart(maxRetries, id, born);
    } else {
      var n := |steps| - 1;
      var front := steps[..n];
      StoryGrantedExactly(maxRetries, id, born, front);
      StoryStep(maxRetries, id, born, steps);
      assert forall j :: 0 <= j < n ==> front[..j] == steps[..j] && front[j] == steps[j];
      assert steps == front + [steps[n]];
    }
  }
}
