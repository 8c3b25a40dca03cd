/** The lifecycle objects, updated in place, proved to follow the functions of `StateMachine`. */
module StateMachineObjects {
  import opened Wrappers
  import opened StateMachine

  class StateMachineContext {
    var currentState: State
    var previousState: Option<State>
    var history: seq<Transition>
    var stateEnteredAt: Time
    var stateDurations: map<State, Time>
    var stateTimeout: Option<Time>
    var transitionCount: nat
    var errorCount: nat

    ghost function View(): Context
      reads this
    {
      Context(currentState, previousState, history, stateEnteredAt, stateDurations, stateTimeout, transitionCount, errorCount)
    }

    constructor (now: Time)
      ensures View() == NewContext(now)
    {
      currentState := Pending;
      previousState := None;
      history := [];
      stateEnteredAt := now;
      stateDurations := map[];
      stateTimeout := None;
      transitionCount := 0;
      errorCount := 0;
    }

    /** `left` and `entered` are the two clock readings, in this order. */
    method RecordTransition(t: Transition, left: Time, entered: Time)
      modifies this
      ensures View() == Record(old(View()), t, left, entered)
    {
      hide Elapsed, DurationIn;
      var timeInState := Elapsed(stateEnteredAt, left);
      var soFar := DurationIn(stateDurations, currentState);
      stateDurations := stateDurations[currentState := soFar + timeInState];

      previousState := Some(currentState);
      currentState := t.to;
      stateEnteredAt := entered;
      stateTimeout := None;
      transitionCount := transitionCount + 1;

      if t.to == Error {
        errorCount := errorCount + 1;
      }

      history := history + [t];
      if |history| > HISTORY_LIMIT {
        history := history[1..];
      }
    }

    method TransitionTo(r: Request) returns (result: Result<(), Failure>)
      modifies this
      ensures (View(), result) == StateMachine.TransitionTo(old(View()), r)
      ensures result == Ok(()) <==> (old(View()).current, r.next) in EDGES
    {
      hide EDGES;
      TableIsEdges(currentState, r.next);
      if !CanTransition(currentState, r.next) {
        return Err(InvalidTransition(currentState, r.next, ValidTransitions(currentState)));
      }
      RecordTransition(Transition(r.next, r.reason, map[], r.at), r.left, r.entered);
      result := Ok(());
    }

    /** Scans the history backwards, up to the first entry that is neither Error nor Initializing. */
    method ErrorRetryCount() returns (count: nat)
      ensures count == RetryCount(history)
    {
      count := 0;
      var i := |history|;
      assert history[..i] == history;
      while i > 0
        invariant 0 <= i <= |history|
        invariant RetryCount(history) == count + RetryCount(history[..i])
      {
        i := i - 1;
        assert history[..i + 1][..i] == history[..i];
        if history[i].to == Initializing {
          count := count + 1;
        } else if history[i].to != Error {
          break;
        }
      }
    }

    method ShouldStopRetrying(maxRetries: nat) returns (stop: bool)
      ensures stop <==> RetryCount(View().history) >= maxRetries
    {
      var count := ErrorRetryCount();
      stop := count >= maxRetries;
    }
  }

  class StateMachineManager {
    var contexts: map<string, StateMachineContext>
    const maxRetries: nat

    /** No two agents share a context. */
    ghost predicate Valid()
      reads this
    {
      forall a, b :: a in contexts && b in contexts && contexts[a] == contexts[b] ==> a == b
    }

    ghost function View(): map<string, Context>
      reads this, contexts.Values
    {
      map id | id in contexts :: contexts[id].View()
    }

    constructor (maxRetries: nat)
      ensures Valid() && View() == map[] && this.maxRetries == maxRetries
    {
      contexts := map[];
      this.maxRetries := maxRetries;
    }

    method RegisterAgent(id: string, now: Time)
      requires Valid()
      modifies this
      ensures Valid() && fresh(contexts.Values - old(contexts.Values))
      ensures View() == Apply(old(View()), maxRetries, Register(id, now)).0
    {
      hide NewContext, StateMachineContext.View;
      ghost var before := View();
      var context := new StateMachineContext(now);
      contexts := contexts[id := context];
      assert View() == before[id := context.View()];
    }

    method UnregisterAgent(id: string)
      requires Valid()
      modifies this
      ensures Valid() && contexts.Values <= old(contexts.Values)
      ensures View() == Apply(old(View()), maxRetries, Unregister(id)).0
    {
      contexts := contexts - {id};
    }

    method Transition(id: string, r: Request) returns (result: Result<(), Failure>)
      requires Valid()
      modifies contexts.Values
      ensures Valid() && contexts == old(contexts)
      ensures (View(), result) == Apply(old(View()), maxRetries, Move(id, r))
      ensures id in contexts ==>
                (result == Ok(()) <==>
                  && (old(View())[id].current, r.next) in EDGES
                  && (r.next == Initializing ==> RetryCount(old(View())[id].history) < maxRetries))
    {
      hide StateMachine.TransitionTo, RetryCount, StateMachineContext.View, EDGES;
      ghost var before := View();
      if id !in contexts {
        return Err(TerminalState(Stopped));
      }
      var context := contexts[id];
      if r.next == Initializing {
        var stop := context.ShouldStopRetrying(maxRetries);
        if stop {
          return Err(MaxRetriesExceeded);
        }
      }
      result := context.TransitionTo(r);
      assert View() == before[id := context.View()];
    }
  }
}
