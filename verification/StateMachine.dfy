/**
 The agent lifecycle: the transition table, the context of one agent, and the manager.

 A context keeps the last hundred transitions only.  The full story of an agent is its `Life`;
 `StateMachineRuns.dfy` proves what a context remembers of it.
 */
module StateMachine {
  import opened Util
  import opened Wrappers

  /** Clock readings and durations, in nanoseconds. */
  type Time = nat

  const HISTORY_LIMIT: nat := 100

  datatype State = Pending | Initializing | Idle | Working | Paused | ShuttingDown | Stopped | Error

  /** The allowed moves, as the description of the states lists them. */
  const EDGES: set<(State, State)> := {
    (Pending, Initializing), (Pending, Error),
    (Initializing, Idle), (Initializing, Error),
    (Idle, Working), (Idle, Paused), (Idle, ShuttingDown), (Idle, Error),
    (Working, Idle), (Working, Paused), (Working, Error),
    (Paused, Idle), (Paused, Working), (Paused, ShuttingDown),
    (ShuttingDown, Stopped), (ShuttingDown, Error),
    (Error, Stopped), (Error, Initializing)
  }

  predicate CanTransition(from: State, to: State) {
    match from
    case Pending => to == Initializing || to == Error
    case Initializing => to == Idle || to == Error
    case Idle => to == Working || to == Paused || to == ShuttingDown || to == Error
    case Working => to == Idle || to == Paused || to == Error
    case Paused => to == Idle || to == Working || to == ShuttingDown
    case ShuttingDown => to == Stopped || to == Error
    case Error => to == Stopped || to == Initializing
    case Stopped => false
  }

  /** The table of the code has exactly the allowed moves. */
  lemma TableIsEdges(from: State, to: State)
    ensures CanTransition(from, to) <==> (from, to) in EDGES
  {
  }

  /** A list of the states that an allowed move leads to, each once. */
  predicate ListsMoves(from: State, next: seq<State>) {
    && (forall t :: t in next <==> (from, t) in EDGES)
    && (forall i, j :: 0 <= i < j < |next| ==> next[i] != next[j])
  }

  function ValidTransitions(s: State): (next: seq<State>)
    ensures forall t :: t in next <==> CanTransition(s, t)
    ensures forall i, j :: 0 <= i < j < |next| ==> next[i] != next[j]
  {
    match s
    case Pending => [Initializing, Error]
    case Initializing => [Idle, Error]
    case Idle => [Working, Paused, ShuttingDown, Error]
    case Working => [Idle, Paused, Error]
    case Paused => [Idle, Working, ShuttingDown]
    case ShuttingDown => [Stopped, Error]
    case Error => [Stopped, Initializing]
    case Stopped => []
  }

  lemma MovesListed(from: State)
    ensures ListsMoves(from, ValidTransitions(from))
  {
    hide EDGES, ValidTransitions, CanTransition;
    forall t
      ensures CanTransition(from, t) <==> (from, t) in EDGES
    {
      TableIsEdges(from, t);
    }
  }

  datatype Transition = Transition(to: State, reason: string, metadata: map<string, string>, at: Time)

  datatype Context = Context(
    current: State,
    previous: Option<State>,
    history: seq<Transition>,
    enteredAt: Time,
    durations: map<State, Time>,
    timeout: Option<Time>,
    transitionCount: nat,
    errorCount: nat)

  datatype Failure =
    | InvalidTransition(from: State, to: State, valid: seq<State>)
    | MaxRetriesExceeded
    | TerminalState(state: State)

  // ----- one context -----

  function NewContext(now: Time): Context {
    Context(Pending, None, [], now, map[], None, 0, 0)
  }

  function DurationIn(durations: map<State, Time>, s: State): Time {
    if s in durations then durations[s] else 0
  }

  /** Time between two readings; it saturates at zero. */
  function Elapsed(since: Time, now: Time): Time {
    if now >= since then now - since else 0
  }

  /** The clock is read twice: when the old state's stay is measured, and when the new state is entered. */
  function Record(c: Context, t: Transition, left: Time, entered: Time): Context {
    var stay := DurationIn(c.durations, c.current) + Elapsed(c.enteredAt, left);
    var history := c.history + [t];
    Context(
      t.to,
      Some(c.current),
      if |history| > HISTORY_LIMIT then history[1..] else history,
      entered,
      c.durations[c.current := stay],
      None,
      c.transitionCount + 1,
      c.errorCount + (if t.to == Error then 1 else 0))
  }

  /** A request for a transition, with the three clock readings it makes. */
  datatype Request = Request(next: State, reason: string, at: Time, left: Time, entered: Time)

  function MakeTransition(r: Request): Transition {
    Transition(r.next, r.reason, map[], r.at)
  }

  function TransitionTo(c: Context, r: Request): (Context, Result<(), Failure>) {
    if !CanTransition(c.current, r.next) then
      (c, Err(InvalidTransition(c.current, r.next, ValidTransitions(c.current))))
    else
      (Record(c, MakeTransition(r), r.left, r.entered), Ok(()))
  }

  predicate Recovering(s: State) {
    s == Initializing || s == Error
  }

  /** Initializing entries in the stretch of Error and Initializing entries that ends the history. */
  function RetryCount(history: seq<Transition>): nat {
    if history == [] then 0
    else
      var n := |history| - 1;
      if history[n].to == Initializing then 1 + RetryCount(history[..n])
      else if history[n].to == Error then RetryCount(history[..n])
      else 0
  }

  // ----- the manager -----

  datatype Op =
    | Register(id: string, now: Time)
    | Unregister(id: string)
    | Move(id: string, request: Request)

  /** Registering again replaces the context; moving an unknown agent is an error. */
  function Apply(contexts: map<string, Context>, maxRetries: nat, op: Op):
      (map<string, Context>, Result<(), Failure>)
  {
    match op
    case Register(id, now) => (contexts[id := NewContext(now)], Ok(()))
    case Unregister(id) => (contexts - {id}, Ok(()))
    case Move(id, r) =>
      if id !in contexts then (contexts, Err(TerminalState(Stopped)))
      else if r.next == Initializing && RetryCount(contexts[id].history) >= maxRetries then
        (contexts, Err(MaxRetriesExceeded))
      else
        var (c, result) := TransitionTo(contexts[id], r);
        (contexts[id := c], result)
  }

  function Run(maxRetries: nat, ops: seq<Op>): map<string, Context> {
    if ops == [] then map[]
    else Apply(Run(maxRetries, ops[..|ops| - 1]), maxRetries, ops[|ops| - 1]).0
  }

  /** What the n-th operation returns. */
  function Outcome(maxRetries: nat, ops: seq<Op>, n: nat): Result<(), Failure>
    requires n < |ops|
  {
    Apply(Run(maxRetries, ops[..n]), maxRetries, ops[n]).1
  }
}
