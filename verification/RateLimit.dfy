/**
 The token bucket, as a function of the calls made so far.

 A bucket is a value here; `RateLimitObjects.dfy` holds the objects that are updated
 in place and proves that they follow these functions.  The results are about whole
 runs: what a run grants is exactly what the sliding-window rule allows.  The limiter holds
 its lock over a whole call, so calls come one after the other, each with later clock readings.
 */
module RateLimit {
  import opened Util
  import opened Wrappers

  /** Seconds on the monotonic clock. */
  type Time = real

  datatype Bucket = Bucket(capacity: nat, tokens: real, rate: real, last: Time)

  /** One call of the limiter: how many tokens it asks for, and the clock reading it makes. */
  datatype Call = Call(cost: nat, at: Time)

  /** The tokens that come in over a length of time. */
  function Inflow(rate: real, length: real): real {
    rate * length
  }

  lemma InflowLaws(rate: real, d: real, e: real)
    ensures Inflow(rate, 0.0) == 0.0
    ensures Inflow(rate, d + e) == Inflow(rate, d) + Inflow(rate, e)
    ensures rate >= 0.0 && d >= 0.0 ==> Inflow(rate, d) >= 0.0
    ensures rate < 0.0 && d > 0.0 ==> Inflow(rate, d) < 0.0
  {
  }

  lemma InflowIsProduct(rate: real, length: real)
    ensures Inflow(rate, length) == rate * length
  {
  }

  function NewBucket(capacity: nat, rate: real, now: Time): Bucket {
    Bucket(capacity, capacity as real, rate, now)
  }

  /** The elapsed time saturates at zero when the clock reads earlier than `last`. */
  function Refill(b: Bucket, now: Time): Bucket {
    var elapsed := if now >= b.last then now - b.last else 0.0;
    b.(tokens := MinReal(b.tokens + Inflow(b.rate, elapsed), b.capacity as real), last := now)
  }

  /** Take the tokens if there are enough of them. */
  function Take(b: Bucket, cost: nat): (Bucket, bool) {
    if b.tokens >= cost as real then (b.(tokens := b.tokens - cost as real), true) else (b, false)
  }

  function TryConsume(b: Bucket, c: Call): (Bucket, bool) {
    Take(Refill(b, c.at), c.cost)
  }

  // ----- runs -----

  /** The bucket after a sequence of calls. */
  function Run(b: Bucket, calls: seq<Call>): Bucket {
    if calls == [] then b
    else TryConsume(Run(b, calls[..|calls| - 1]), calls[|calls| - 1]).0
  }

  /** The answer to the n-th call of a run. */
  predicate Answer(b: Bucket, calls: seq<Call>, n: nat)
    requires n < |calls|
  {
    TryConsume(Run(b, calls[..n]), calls[n]).1
  }

  function Answers(b: Bucket, calls: seq<Call>): (ans: seq<bool>)
    ensures |ans| == |calls|
  {
    seq(|calls|, n requires 0 <= n < |calls| => Answer(b, calls, n))
  }

  /** The tokens the n-th call finds after its refill. */
  function Level(b: Bucket, calls: seq<Call>, n: nat): real
    requires n < |calls|
  {
    Refill(Run(b, calls[..n]), calls[n].at).tokens
  }

  /** The clock never runs backwards, from the creation of the bucket on. */
  ghost predicate Monotone(start: Time, calls: seq<Call>) {
    && (forall i :: 0 <= i < |calls| ==> start <= calls[i].at)
    && (forall i, j :: 0 <= i <= j < |calls| ==> calls[i].at <= calls[j].at)
  }

  lemma RunNothing(b: Bucket)
    ensures Run(b, []) == b
  {
  }

  lemma RunSnoc(b: Bucket, calls: seq<Call>, n: nat)
    requires n < |calls|
    ensures Run(b, calls[..n + 1]) == TryConsume(Run(b, calls[..n]), calls[n]).0
  {
    assert calls[..n + 1][..n] == calls[..n];
  }

  lemma RunAppend(b: Bucket, calls: seq<Call>, c: Call)
    ensures Run(b, calls + [c]) == TryConsume(Run(b, calls), c).0
  {
    assert (calls + [c])[..|calls|] == calls;
  }

  /** What every run keeps: the configuration, the time of the last call, and a level within capacity. */
  lemma {:induction false} RunInvariant(b: Bucket, calls: seq<Call>)
    requires b.tokens <= b.capacity as real
    ensures var r := Run(b, calls);
            && r.capacity == b.capacity && r.rate == b.rate
            && r.tokens <= r.capacity as real
            && r.last == (if calls == [] then b.last else calls[|calls| - 1].at)
  {
    if calls != [] {
      RunInvariant(b, calls[..|calls| - 1]);
    }
  }

  /** A reading that is not later than the last one brings nothing in: the call is granted if what is left suffices. */
  lemma EarlierBringsNothing(b: Bucket, calls: seq<Call>, c: Call)
    requires b.tokens <= b.capacity as real
    requires c.at <= if calls == [] then b.last else calls[|calls| - 1].at
    ensures var left := Run(b, calls).tokens;
            && (TryConsume(Run(b, calls), c).1 <==> left >= c.cost as real)
            && Run(b, calls + [c]).tokens == if left >= c.cost as real then left - c.cost as real else left
  {
    hide Run;
    RunInvariant(b, calls);
    RunAppend(b, calls, c);
    InflowLaws(b.rate, 0.0, 0.0);
  }

  /** With a rate that is not negative and a clock that never runs back, no run overdraws the bucket. */
  lemma {:induction false} NeverOverdrawn(b: Bucket, calls: seq<Call>)
    requires 0.0 <= b.tokens <= b.capacity as real && b.rate >= 0.0
    ensures 0.0 <= Run(b, calls).tokens <= b.capacity as real
  {
    if calls != [] {
      var front := calls[..|calls| - 1];
      NeverOverdrawn(b, front);
      RunInvariant(b, front);
      var r := Run(b, front);
      InflowLaws(r.rate, if calls[|calls| - 1].at >= r.last then calls[|calls| - 1].at - r.last else 0.0, 0.0);
    }
  }

  // ----- the sliding-window rule -----

  /** Instant 0 is the creation of the bucket, instant i + 1 is the i-th call. */
  function Instant(start: Time, calls: seq<Call>, i: nat): Time
    requires i <= |calls|
  {
    if i == 0 then start else calls[i - 1].at
  }

  /** The first call that a window opened at instant i sees: the call made at that instant, if any. */
  function FirstSeen(i: nat): nat {
    if i == 0 then 0 else i - 1
  }

  /** Tokens granted to the calls i, ..., n - 1. */
  function Granted(calls: seq<Call>, ans: seq<bool>, i: nat, n: nat): nat
    requires n <= |calls| && n <= |ans|
  {
    if n <= i then 0
    else Granted(calls, ans, i, n - 1) + (if ans[n - 1] then calls[n - 1].cost else 0)
  }

  /** What a stretch of time of the given length may grant. */
  function Allowance(capacity: nat, rate: real, length: real): real {
    capacity as real + rate * length
  }

  lemma AllowanceIsInflow(capacity: nat, rate: real, length: real)
    ensures Allowance(capacity, rate, length) == capacity as real + Inflow(rate, length)
  {
  }

  /** What a window from instant i to call n still has room for. */
  function Room(capacity: nat, rate: real, start: Time, calls: seq<Call>, ans: seq<bool>, i: nat, n: nat): real
    requires n < |calls| && n <= |ans| && i <= n + 1
  {
    Allowance(capacity, rate, calls[n].at - Instant(start, calls, i)) - Granted(calls, ans, FirstSeen(i), n) as real
  }

  /** The rule: granting call n would leave every window that ends at it within capacity + rate * length. */
  ghost predicate WindowsAllow(capacity: nat, rate: real, start: Time, calls: seq<Call>, ans: seq<bool>, n: nat)
    requires n < |calls| && n <= |ans|
  {
    forall i: nat :: i <= n + 1 ==> calls[n].cost as real <= Room(capacity, rate, start, calls, ans, i, n)
  }

  lemma {:induction false} RoomStep(
      capacity: nat, rate: real, start: Time, calls: seq<Call>, ans: seq<bool>, i: nat, n: nat)
    requires 0 < n < |calls| && n <= |ans| && i <= n
    ensures Room(capacity, rate, start, calls, ans, i, n)
         == Room(capacity, rate, start, calls, ans, i, n - 1)
            + Inflow(rate, calls[n].at - calls[n - 1].at)
            - (if ans[n - 1] then calls[n - 1].cost else 0) as real
  {
    hide Inflow, Allowance;
    InflowLaws(rate, calls[n].at - calls[n - 1].at, calls[n - 1].at - Instant(start, calls, i));
    AllowanceIsInflow(capacity, rate, calls[n].at - Instant(start, calls, i));
    AllowanceIsInflow(capacity, rate, calls[n - 1].at - Instant(start, calls, i));
    assert FirstSeen(i) <= n - 1;
  }

  lemma RefillForward(b: Bucket, now: Time)
    requires b.last <= now
    ensures Refill(b, now) == b.(tokens := MinReal(b.tokens + Inflow(b.rate, now - b.last), b.capacity as real), last := now)
  {
  }

  lemma RefillFrame(b: Bucket, now: Time)
    ensures var r := Refill(b, now);
            r.last == now && r.capacity == b.capacity && r.rate == b.rate && r.tokens <= b.capacity as real
  {
  }

  lemma LevelStep(capacity: nat, rate: real, start: Time, calls: seq<Call>, n: nat)
    requires n < |calls| && Monotone(start, calls)
    ensures var b := NewBucket(capacity, rate, start);
            Level(b, calls, n) ==
              if n == 0 then MinReal(capacity as real + Inflow(rate, calls[0].at - start), capacity as real)
              else
                MinReal(
                  Level(b, calls, n - 1) - (if Answer(b, calls, n - 1) then calls[n - 1].cost else 0) as real
                  + Inflow(rate, calls[n].at - calls[n - 1].at),
                  capacity as real)
  {
    hide Refill, Run, Inflow;
    var b := NewBucket(capacity, rate, start);
    var r := Run(b, calls[..n]);
    RunInvariant(b, calls[..n]);
    RefillForward(r, calls[n].at);
    if n > 0 {
      RunSnoc(b, calls, n - 1);
    } else {
      RunNothing(b);
    }
  }

  lemma RoomEnds(capacity: nat, rate: real, start: Time, calls: seq<Call>, ans: seq<bool>, n: nat)
    requires n < |calls| && n <= |ans|
    ensures Room(capacity, rate, start, calls, ans, n + 1, n) == capacity as real
    ensures n == 0 ==> Room(capacity, rate, start, calls, ans, 0, 0) == capacity as real + Inflow(rate, calls[0].at - start)
  {
    hide Inflow, Allowance;
    assert calls[n].at - Instant(start, calls, n + 1) == 0.0;
    InflowLaws(rate, 0.0, 0.0);
    AllowanceIsInflow(capacity, rate, 0.0);
    AllowanceIsInflow(capacity, rate, calls[0].at - start);
  }

  /** The level a call finds is the least room over all windows that end at it, for any rate. */
  lemma {:induction false} LevelIsLeastRoom(capacity: nat, rate: real, start: Time, calls: seq<Call>, n: nat)
    requires n < |calls| && Monotone(start, calls)
    ensures var b := NewBucket(capacity, rate, start);
            var ans := Answers(b, calls);
            && (forall i: nat :: i <= n + 1 ==> Level(b, calls, n) <= Room(capacity, rate, start, calls, ans, i, n))
            && (exists i: nat :: i <= n + 1 && Level(b, calls, n) == Room(capacity, rate, start, calls, ans, i, n))
  {
    hide Room, Level, Answer, Inflow;
    var b := NewBucket(capacity, rate, start);
    var ans := Answers(b, calls);
    LevelStep(capacity, rate, start, calls, n);
    RoomEnds(capacity, rate, start, calls, ans, n);
    if n > 0 {
      LevelIsLeastRoom(capacity, rate, start, calls, n - 1);
      var gain := Inflow(rate, calls[n].at - calls[n - 1].at);
      var paid := (if ans[n - 1] then calls[n - 1].cost else 0) as real;
      forall i: nat | i <= n
        ensures Room(capacity, rate, start, calls, ans, i, n)
             == Room(capacity, rate, start, calls, ans, i, n - 1) + gain - paid
      {
        RoomStep(capacity, rate, start, calls, ans, i, n);
      }
      var k: nat :| k <= n && Level(b, calls, n - 1) == Room(capacity, rate, start, calls, ans, k, n - 1);
      assert Level(b, calls, n) == Room(capacity, rate, start, calls, ans, k, n)
          || Level(b, calls, n) == Room(capacity, rate, start, calls, ans, n + 1, n);
    }
  }

  /** A call is granted exactly when the sliding-window rule allows it. */
  lemma GrantedIffWindowsAllow(capacity: nat, rate: real, start: Time, calls: seq<Call>, n: nat)
    requires n < |calls| && Monotone(start, calls)
    ensures var b := NewBucket(capacity, rate, start);
            Answer(b, calls, n) <==> WindowsAllow(capacity, rate, start, calls, Answers(b, calls), n)
  {
    LevelIsLeastRoom(capacity, rate, start, calls, n);
  }

  lemma {:induction false} GrantedDependsOnPrefix(
      calls: seq<Call>, ans: seq<bool>, other: seq<bool>, i: nat, n: nat)
    requires n <= |calls| && n <= |ans| && n <= |other|
    requires forall k :: 0 <= k < n ==> ans[k] == other[k]
    ensures Granted(calls, ans, i, n) == Granted(calls, other, i, n)
  {
    if n > i {
      GrantedDependsOnPrefix(calls, ans, other, i, n - 1);
    }
  }

  lemma RuleDependsOnPrefix(
      capacity: nat, rate: real, start: Time, calls: seq<Call>, ans: seq<bool>, other: seq<bool>, n: nat)
    requires n < |calls| && n <= |ans| && n <= |other|
    requires forall k :: 0 <= k < n ==> ans[k] == other[k]
    ensures WindowsAllow(capacity, rate, start, calls, ans, n) <==> WindowsAllow(capacity, rate, start, calls, other, n)
  {
    forall i: nat | i <= n + 1
      ensures Room(capacity, rate, start, calls, ans, i, n) == Room(capacity, rate, start, calls, other, i, n)
    {
      GrantedDependsOnPrefix(calls, ans, other, FirstSeen(i), n);
    }
  }

  /** The greedy machine computes the one and only answer sequence that obeys the sliding-window rule. */
  lemma RuleDeterminesAnswers(capacity: nat, rate: real, start: Time, calls: seq<Call>, ans: seq<bool>)
    requires |ans| == |calls| && Monotone(start, calls)
    ensures ans == Answers(NewBucket(capacity, rate, start), calls)
       <==> (forall n: nat :: n < |calls| ==> (ans[n] <==> WindowsAllow(capacity, rate, start, calls, ans, n)))
  {
    var greedy := Answers(NewBucket(capacity, rate, start), calls);
    forall n: nat | n < |calls|
      ensures greedy[n] <==> WindowsAllow(capacity, rate, start, calls, greedy, n)
    {
      GrantedIffWindowsAllow(capacity, rate, start, calls, n);
    }
    if forall n: nat :: n < |calls| ==> (ans[n] <==> WindowsAllow(capacity, rate, start, calls, ans, n)) {
      AgreeUpTo(capacity, rate, start, calls, ans, greedy, |calls|);
    }
  }

  lemma {:induction false} AgreeUpTo(
      capacity: nat, rate: real, start: Time, calls: seq<Call>, ans: seq<bool>, other: seq<bool>, m: nat)
    requires m <= |calls| == |ans| == |other|
    requires forall n: nat :: n < |calls| ==> (ans[n] <==> WindowsAllow(capacity, rate, start, calls, ans, n))
    requires forall n: nat :: n < |calls| ==> (other[n] <==> WindowsAllow(capacity, rate, start, calls, other, n))
    ensures forall n :: 0 <= n < m ==> ans[n] == other[n]
  {
    if m > 0 {
      AgreeUpTo(capacity, rate, start, calls, ans, other, m - 1);
      RuleDependsOnPrefix(capacity, rate, start, calls, ans, other, m - 1);
    }
  }

  // ----- no stretch of time is over-served -----

  /** Tokens granted to those of the first n calls that were made between two moments. */
  function GrantedBetween(calls: seq<Call>, ans: seq<bool>, from: Time, to: Time, n: nat): nat
    requires n <= |calls| && n <= |ans|
  {
    if n == 0 then 0
    else
      GrantedBetween(calls, ans, from, to, n - 1)
      + (if ans[n - 1] && from <= calls[n - 1].at <= to then calls[n - 1].cost else 0)
  }

  /** Either nothing was granted since `from`, or the grants are those of a window opened by a call since `from`. */
  lemma {:induction false} WindowOpener(calls: seq<Call>, ans: seq<bool>, from: Time, to: Time, n: nat)
    returns (f: nat)
    requires n <= |calls| == |ans|
    requires forall i, j :: 0 <= i <= j < |calls| ==> calls[i].at <= calls[j].at
    requires n > 0 ==> calls[n - 1].at <= to
    ensures f <= n && (forall k :: 0 <= k < f ==> calls[k].at < from)
    ensures f < n ==> from <= calls[f].at
    ensures GrantedBetween(calls, ans, from, to, n) == Granted(calls, ans, f, n)
  {
    f := 0;
    if n > 0 {
      f := WindowOpener(calls, ans, from, to, n - 1);
      if f == n - 1 && calls[n - 1].at < from {
        f := n;
      }
    }
  }

  /** Between any two moments, a run grants at most capacity + rate * (length of the stretch). */
  lemma {:induction false} NeverOverServed(
      capacity: nat, rate: real, start: Time, calls: seq<Call>, from: Time, to: Time, n: nat)
    requires rate >= 0.0 && from <= to && Monotone(start, calls) && n <= |calls|
    ensures GrantedBetween(calls, Answers(NewBucket(capacity, rate, start), calls), from, to, n) as real
         <= Allowance(capacity, rate, to - from)
  {
    hide Answer, Allowance, Run;
    var ans := Answers(NewBucket(capacity, rate, start), calls);
    AllowanceGrows(capacity, rate, 0.0, to - from);
    if n > 0 {
      NeverOverServed(capacity, rate, start, calls, from, to, n - 1);
      var c := calls[n - 1];
      if ans[n - 1] && from <= c.at <= to {
        var f := WindowOpener(calls, ans, from, to, n - 1);
        GrantedIffWindowsAllow(capacity, rate, start, calls, n - 1);
        assert c.cost as real <= Room(capacity, rate, start, calls, ans, f + 1, n - 1);
        AllowanceGrows(capacity, rate, c.at - calls[f].at, to - from);
      }
    }
  }

  /** What the calls since instant i were granted is granted since that instant. */
  lemma {:induction false} GrantedSince(calls: seq<Call>, ans: seq<bool>, i: nat, from: Time, to: Time, n: nat)
    requires n <= |calls| == |ans|
    requires forall k :: i <= k < n ==> from <= calls[k].at <= to
    ensures Granted(calls, ans, i, n) <= GrantedBetween(calls, ans, from, to, n)
  {
    if n > i {
      GrantedSince(calls, ans, i, from, to, n - 1);
    }
  }

  /** The rule over every stretch of time that ends at the call, not only those that begin with a call. */
  ghost predicate MomentsAllow(capacity: nat, rate: real, start: Time, calls: seq<Call>, ans: seq<bool>, n: nat)
    requires n < |calls| && n <= |ans|
  {
    forall from: Time :: start <= from <= calls[n].at ==>
      (GrantedBetween(calls, ans, from, calls[n].at, n) + calls[n].cost) as real
        <= Allowance(capacity, rate, calls[n].at - from)
  }

  /** With a rate that is not negative, windows that begin with a call speak for all stretches of time. */
  lemma WindowsSpeakForMoments(capacity: nat, rate: real, start: Time, calls: seq<Call>, ans: seq<bool>, n: nat)
    requires rate >= 0.0 && Monotone(start, calls) && n < |calls| == |ans|
    ensures WindowsAllow(capacity, rate, start, calls, ans, n) <==> MomentsAllow(capacity, rate, start, calls, ans, n)
  {
    hide Allowance;
    var now := calls[n].at;
    if WindowsAllow(capacity, rate, start, calls, ans, n) {
      forall from: Time | start <= from <= now
        ensures (GrantedBetween(calls, ans, from, now, n) + calls[n].cost) as real <= Allowance(capacity, rate, now - from)
      {
        var f := WindowOpener(calls, ans, from, now, n);
        assert calls[n].cost as real <= Room(capacity, rate, start, calls, ans, f + 1, n);
        AllowanceGrows(capacity, rate, now - calls[f].at, now - from);
      }
    }
    if MomentsAllow(capacity, rate, start, calls, ans, n) {
      forall i: nat | i <= n + 1
        ensures calls[n].cost as real <= Room(capacity, rate, start, calls, ans, i, n)
      {
        var from := Instant(start, calls, i);
        GrantedSince(calls, ans, FirstSeen(i), from, now, n);
        assert start <= from <= now;
      }
    }
  }

  /**
   With a rate that is not negative, a call is granted exactly when no stretch of time that ends at
   it would exceed capacity + rate * length.
   */
  lemma GrantedIffMomentsAllow(capacity: nat, rate: real, start: Time, calls: seq<Call>, n: nat)
    requires rate >= 0.0 && n < |calls| && Monotone(start, calls)
    ensures var b := NewBucket(capacity, rate, start);
            Answer(b, calls, n) <==> MomentsAllow(capacity, rate, start, calls, Answers(b, calls), n)
  {
    hide Answer, Answers, WindowsAllow, MomentsAllow;
    GrantedIffWindowsAllow(capacity, rate, start, calls, n);
    WindowsSpeakForMoments(capacity, rate, start, calls, Answers(NewBucket(capacity, rate, start), calls), n);
  }

  lemma AllowanceGrows(capacity: nat, rate: real, short: real, long: real)
    requires rate >= 0.0 && 0.0 <= short <= long
    ensures 0.0 <= Allowance(capacity, rate, short) <= Allowance(capacity, rate, long)
  {
    hide Inflow, Allowance;
    AllowanceIsInflow(capacity, rate, short);
    AllowanceIsInflow(capacity, rate, long);
    InflowLaws(rate, short, long - short);
    InflowLaws(rate, long - short, 0.0);
  }

  // ----- refused calls leave no mark -----

  /** Two buckets that no later call can tell apart. */
  ghost predicate SameFrom(b: Bucket, other: Bucket, now: Time) {
    && b.last <= now && other.last <= now
    && b.tokens <= b.capacity as real && other.tokens <= other.capacity as real
    && Refill(b, now) == Refill(other, now)
  }

  /** Refilling twice is refilling once. */
  lemma RefillComposes(b: Bucket, now: Time, later: Time)
    requires b.last <= now <= later && b.tokens <= b.capacity as real
    ensures Refill(Refill(b, now), later) == Refill(b, later)
  {
    hide Inflow;
    InflowLaws(b.rate, now - b.last, later - now);
    InflowLaws(b.rate, later - now, 0.0);
  }

  lemma SameLater(b: Bucket, other: Bucket, now: Time, later: Time)
    requires SameFrom(b, other, now) && now <= later
    ensures SameFrom(b, other, later)
  {
    RefillComposes(b, now, later);
    RefillComposes(other, now, later);
  }

  /** The calls kept by a mask. */
  function Kept<T>(calls: seq<T>, keep: seq<bool>): seq<T>
    requires |keep| == |calls|
  {
    if calls == [] then []
    else
      var n := |calls| - 1;
      Kept(calls[..n], keep[..n]) + (if keep[n] then [calls[n]] else [])
  }

  lemma AnswersOfFront(b: Bucket, calls: seq<Call>)
    requires calls != []
    ensures var n := |calls| - 1;
            && calls == calls[..n] + [calls[n]]
            && (forall i :: 0 <= i < n ==> Answer(b, calls[..n], i) == Answer(b, calls, i))
            && Answers(b, calls) == Answers(b, calls[..n]) + [Answer(b, calls, n)]
            && Answer(b, calls, n) == TryConsume(Run(b, calls[..n]), calls[n]).1
  {
    var n := |calls| - 1;
    var front := calls[..n];
    assert calls == front + [calls[n]];
    AnswersAppend(b, front, calls[n]);
    forall i | 0 <= i < n
      ensures Answer(b, front, i) == Answer(b, calls, i)
    {
      assert front[..i] == calls[..i];
    }
  }

  /** Deleting any set of refused calls leaves a bucket that no later call can tell apart. */
  lemma {:induction false} RefusalsKeepBucket(b: Bucket, calls: seq<Call>, keep: seq<bool>, now: Time)
    requires b.tokens <= b.capacity as real && b.last <= now
    requires |keep| == |calls| && Monotone(b.last, calls)
    requires forall i :: 0 <= i < |calls| ==> calls[i].at <= now
    requires forall i :: 0 <= i < |calls| ==> keep[i] || !Answer(b, calls, i)
    ensures SameFrom(Run(b, Kept(calls, keep)), Run(b, calls), now)
  {
    hide Refill, Run, Answer;
    if calls == [] {
      RunNothing(b);
    } else {
      var n := |calls| - 1;
      var front, c := calls[..n], calls[n];
      AnswersOfFront(b, calls);
      RefusalsKeepBucket(b, front, keep[..n], c.at);
      var kept := Kept(front, keep[..n]);
      RunAppend(b, front, c);
      AnswersAppend(b, front, c);
      if keep[n] {
        RunAppend(b, kept, c);
        SameAfterCall(Run(b, kept), Run(b, front), c, now);
      } else {
        assert kept + [] == kept;
        SameAfterRefusal(Run(b, kept), Run(b, front), c, now);
      }
    }
  }

  /** ... and each remaining call gets the answer it had. */
  lemma {:induction false} RefusalsKeepAnswers(b: Bucket, calls: seq<Call>, keep: seq<bool>, now: Time)
    requires b.tokens <= b.capacity as real && b.last <= now
    requires |keep| == |calls| && Monotone(b.last, calls)
    requires forall i :: 0 <= i < |calls| ==> calls[i].at <= now
    requires forall i :: 0 <= i < |calls| ==> keep[i] || !Answer(b, calls, i)
    ensures Answers(b, Kept(calls, keep)) == Kept(Answers(b, calls), keep)
  {
    hide Refill, Run, Answer;
    if calls != [] {
      var n := |calls| - 1;
      var front, c := calls[..n], calls[n];
      AnswersOfFront(b, calls);
      AnswersAppend(b, front, c);
      RefusalsKeepBucket(b, front, keep[..n], c.at);
      RefusalsKeepAnswers(b, front, keep[..n], c.at);
      var kept := Kept(front, keep[..n]);
      assert Answers(b, calls)[..n] == Answers(b, front);
      if keep[n] {
        AnswersAppend(b, kept, c);
        SameAfterCall(Run(b, kept), Run(b, front), c, now);
      } else {
        assert kept + [] == kept && Answers(b, kept) + [] == Answers(b, kept);
      }
    }
  }

  lemma SameAfterCall(b: Bucket, other: Bucket, c: Call, now: Time)
    requires SameFrom(b, other, c.at) && c.at <= now
    ensures TryConsume(b, c) == TryConsume(other, c)
    ensures SameFrom(TryConsume(b, c).0, TryConsume(other, c).0, now)
  {
  }

  lemma SameAfterRefusal(b: Bucket, other: Bucket, c: Call, now: Time)
    requires SameFrom(b, other, c.at) && c.at <= now && !TryConsume(other, c).1
    ensures SameFrom(b, TryConsume(other, c).0, now)
  {
    SameLater(b, other, c.at, now);
    RefillComposes(other, c.at, now);
  }

  lemma AnswersAppend(b: Bucket, calls: seq<Call>, c: Call)
    ensures Answers(b, calls + [c]) == Answers(b, calls) + [TryConsume(Run(b, calls), c).1]
  {
    var all := calls + [c];
    forall n | 0 <= n <= |calls|
      ensures Answer(b, all, n) == (Answers(b, calls) + [TryConsume(Run(b, calls), c).1])[n]
    {
      assert all[..n] == calls[..n];
      if n == |calls| {
        assert calls[..n] == calls;
      }
    }
  }

  // ----- when a refused request gets through -----

  /** A cost above capacity is never granted. */
  lemma AboveCapacityNeverGranted(b: Bucket, calls: seq<Call>, n: nat)
    requires n < |calls| && calls[n].cost > b.capacity && b.tokens <= b.capacity as real
    ensures !Answer(b, calls, n)
  {
    RunInvariant(b, calls[..n]);
  }

  /** With no grant since, a request is granted later exactly when what has come in is enough. */
  lemma GrantedOnceRefilled(b: Bucket, calls: seq<Call>, n: nat, later: Time)
    requires n < |calls| && Monotone(b.last, calls) && calls[|calls| - 1].at <= later
    requires b.tokens <= b.capacity as real && calls[n].cost <= b.capacity
    requires forall i :: n <= i < |calls| ==> !Answer(b, calls, i)
    ensures TryConsume(Run(b, calls), Call(calls[n].cost, later)).1
       <==> Inflow(b.rate, later - calls[n].at) >= calls[n].cost as real - Level(b, calls, n)
  {
    hide Run, Refill, Answer, Inflow;
    var r, t := Run(b, calls[..n]), calls[n].at;
    RunInvariant(b, calls[..n]);
    IdleSince(b, calls, n, later);
    RefillComposes(r, t, later);
    RefillFrame(r, t);
    RefillForward(Refill(r, t), later);
  }

  /**
   With no grant since, a request that found `Level` tokens is granted later exactly when the
   missing tokens have come in, for any rate.
   */
  lemma WaitingTime(b: Bucket, calls: seq<Call>, n: nat, later: Time, wait: real)
    requires n < |calls| && Monotone(b.last, calls) && calls[|calls| - 1].at <= later
    requires b.tokens <= b.capacity as real && calls[n].cost <= b.capacity
    requires forall i :: n <= i < |calls| ==> !Answer(b, calls, i)
    requires wait == later - calls[n].at
    ensures TryConsume(Run(b, calls), Call(calls[n].cost, later)).1
       <==> b.rate * wait >= calls[n].cost as real - Level(b, calls, n)
  {
    hide Run, TryConsume, Answer, Inflow, Level;
    GrantedOnceRefilled(b, calls, n, later);
    InflowIsProduct(b.rate, wait);
  }

  /** A refused request within capacity is granted once cost / rate seconds have passed without a grant. */
  lemma GrantedOnceEarned(b: Bucket, calls: seq<Call>, n: nat, later: Time)
    requires n < |calls| && Monotone(b.last, calls) && calls[|calls| - 1].at <= later
    requires 0.0 <= b.tokens <= b.capacity as real && calls[n].cost <= b.capacity
    requires forall i :: n <= i < |calls| ==> !Answer(b, calls, i)
    requires b.rate > 0.0 && later >= calls[n].at + calls[n].cost as real / b.rate
    ensures TryConsume(Run(b, calls), Call(calls[n].cost, later)).1
  {
    hide Run, TryConsume, Answer, Level;
    var wait := later - calls[n].at;
    WaitingTime(b, calls, n, later, wait);
    LevelNotNegative(b, calls, n);
    DivideOut(calls[n].cost as real, b.rate, wait);
  }

  lemma LevelNotNegative(b: Bucket, calls: seq<Call>, n: nat)
    requires n < |calls| && 0.0 <= b.tokens <= b.capacity as real && b.rate >= 0.0
    ensures Level(b, calls, n) >= 0.0
  {
    NeverOverdrawn(b, calls[..n]);
    RunInvariant(b, calls[..n]);
    var r := Run(b, calls[..n]);
    InflowLaws(r.rate, if calls[n].at >= r.last then calls[n].at - r.last else 0.0, 0.0);
  }

  lemma DivideOut(x: real, rate: real, wait: real)
    requires rate > 0.0 && wait >= x / rate
    ensures rate * wait >= x
  {
    assert x / rate * rate == x;
    assert rate * (wait - x / rate) >= 0.0;
  }

  /** A tail of refused calls leaves the bucket to its refill. */
  lemma {:induction false} IdleSince(b: Bucket, calls: seq<Call>, n: nat, later: Time)
    requires n <= |calls| && Monotone(b.last, calls) && b.tokens <= b.capacity as real && b.last <= later
    requires forall i :: 0 <= i < |calls| ==> calls[i].at <= later
    requires forall i :: n <= i < |calls| ==> !Answer(b, calls, i)
    ensures Refill(Run(b, calls), later) == Refill(Run(b, calls[..n]), later)
  {
    hide Refill;
    if n == |calls| {
      assert calls[..n] == calls;
    } else {
      var m := |calls| - 1;
      var front := calls[..m];
      forall i | n <= i < m
        ensures !Answer(b, front, i)
      {
        assert front[..i] == calls[..i];
        assert !Answer(b, calls, i);
      }
      IdleSince(b, front, n, later);
      assert front[..n] == calls[..n];
      RunInvariant(b, front);
      assert !Answer(b, calls, m);
      RefillComposes(Run(b, front), calls[m].at, later);
    }
  }

  // ----- many keys -----

  /** A call for a key: `created` is the clock reading of the bucket's constructor, should one be needed. */
  datatype KeyCall = KeyCall(key: string, cost: nat, created: Time, at: Time)

  /** The bucket of a key is looked up, or created full. */
  function Looked(m: map<string, Bucket>, capacity: nat, rate: real, c: KeyCall): Bucket {
    if c.key in m then m[c.key] else NewBucket(capacity, rate, c.created)
  }

  function CheckKey(m: map<string, Bucket>, capacity: nat, rate: real, c: KeyCall): (map<string, Bucket>, bool) {
    var (b, ok) := TryConsume(Looked(m, capacity, rate, c), Call(c.cost, c.at));
    (m[c.key := b], ok)
  }

  function RunKeys(capacity: nat, rate: real, trace: seq<KeyCall>): map<string, Bucket> {
    if trace == [] then map[]
    else CheckKey(RunKeys(capacity, rate, trace[..|trace| - 1]), capacity, rate, trace[|trace| - 1]).0
  }

  predicate KeyAnswer(capacity: nat, rate: real, trace: seq<KeyCall>, n: nat)
    requires n < |trace|
  {
    CheckKey(RunKeys(capacity, rate, trace[..n]), capacity, rate, trace[n]).1
  }

  /** The calls made for one key. */
  function CallsFor(trace: seq<KeyCall>, key: string): seq<Call> {
    if trace == [] then []
    else
      var c := trace[|trace| - 1];
      CallsFor(trace[..|trace| - 1], key) + (if c.key == key then [Call(c.cost, c.at)] else [])
  }

  /** The answers given to one key. */
  function AnswersFor(capacity: nat, rate: real, trace: seq<KeyCall>, key: string): seq<bool> {
    if trace == [] then []
    else
      var n := |trace| - 1;
      AnswersFor(capacity, rate, trace[..n], key)
      + (if trace[n].key == key then [KeyAnswer(capacity, rate, trace, n)] else [])
  }

  ghost predicate MonotoneKeys(start: Time, trace: seq<KeyCall>) {
    && (forall i :: 0 <= i < |trace| ==> start <= trace[i].created <= trace[i].at)
    && (forall i, j :: 0 <= i < j < |trace| ==> trace[i].at <= trace[j].created)
  }

  /** The clock reading of a key's bucket when it was created, at the key's first call. */
  function FirstUse(trace: seq<KeyCall>, key: string): Option<Time> {
    if trace == [] then None
    else
      var n := |trace| - 1;
      var before := FirstUse(trace[..n], key);
      if before.None? && trace[n].key == key then Some(trace[n].created) else before
  }

  /** For any rate and any clock, what the map holds for a key is the run of the key's own calls since its first use. */
  lemma {:induction false} KeyBucketSinceFirstUse(capacity: nat, rate: real, trace: seq<KeyCall>, key: string)
    ensures var m, t := RunKeys(capacity, rate, trace), FirstUse(trace, key);
            && (key in m <==> t.Some?)
            && (t.None? ==> CallsFor(trace, key) == [])
            && (t.Some? ==> m[key] == Run(NewBucket(capacity, rate, t.value), CallsFor(trace, key)))
  {
    hide TryConsume, Run;
    if trace != [] {
      var n := |trace| - 1;
      var front, c := trace[..n], trace[n];
      KeyBucketSinceFirstUse(capacity, rate, front, key);
      var own := CallsFor(front, key);
      if c.key == key {
        var b := NewBucket(capacity, rate, FirstUse(trace, key).value);
        RunNothing(b);
        RunAppend(b, own, Call(c.cost, c.at));
      } else {
        assert own + [] == own;
      }
    }
  }

  /** ... and the key gets the answers of that bucket, as if no other key existed. */
  lemma {:induction false} KeyAnswersSinceFirstUse(capacity: nat, rate: real, trace: seq<KeyCall>, key: string, created: Time)
    requires FirstUse(trace, key) == None || FirstUse(trace, key) == Some(created)
    ensures AnswersFor(capacity, rate, trace, key) == Answers(NewBucket(capacity, rate, created), CallsFor(trace, key))
  {
    hide TryConsume, Run;
    if trace != [] {
      var n := |trace| - 1;
      var front, c := trace[..n], trace[n];
      var b, own := NewBucket(capacity, rate, created), CallsFor(front, key);
      KeyAnswersSinceFirstUse(capacity, rate, front, key, created);
      if c.key == key {
        KeyBucketSinceFirstUse(capacity, rate, front, key);
        RunNothing(b);
        AnswersAppend(b, own, Call(c.cost, c.at));
      } else {
        assert own + [] == own;
      }
    }
  }

  /** What the map holds for a key cannot be told apart from one bucket run on that key's calls alone. */
  lemma {:induction false} KeyBucketRunsAlone(
      capacity: nat, rate: real, start: Time, trace: seq<KeyCall>, key: string, now: Time)
    requires rate >= 0.0 && MonotoneKeys(start, trace) && start <= now
    requires forall i :: 0 <= i < |trace| ==> trace[i].at <= now
    ensures var m := RunKeys(capacity, rate, trace);
            var alone := Run(NewBucket(capacity, rate, start), CallsFor(trace, key));
            if key in m then SameFrom(m[key], alone, now) else CallsFor(trace, key) == []
  {
    hide Refill, Run;
    var b := NewBucket(capacity, rate, start);
    if trace != [] {
      var n := |trace| - 1;
      var front, c := trace[..n], trace[n];
      KeyBucketRunsAlone(capacity, rate, start, front, key, c.created);
      var m := RunKeys(capacity, rate, front);
      var own := CallsFor(front, key);
      RunNothing(b);
      if c.key == key {
        BucketUsed(capacity, rate, start, m, c, Run(b, own));
        SameAfterCall(Looked(m, capacity, rate, c), Run(b, own), Call(c.cost, c.at), now);
        RunAppend(b, own, Call(c.cost, c.at));
      } else {
        assert own + [] == own;
        if key in m {
          SameLater(m[key], Run(b, own), c.created, now);
        }
      }
    }
  }

  lemma BucketUsed(capacity: nat, rate: real, start: Time, m: map<string, Bucket>, c: KeyCall, alone: Bucket)
    requires rate >= 0.0 && start <= c.created <= c.at
    requires if c.key in m then SameFrom(m[c.key], alone, c.created) else alone == NewBucket(capacity, rate, start)
    ensures SameFrom(Looked(m, capacity, rate, c), alone, c.at)
  {
    if c.key !in m {
      FullBucketsAlike(capacity, rate, c.created, start, c.created);
    }
    SameLater(Looked(m, capacity, rate, c), alone, c.created, c.at);
  }

  /** Interleaving with other keys changes no answer: each key is served as if it were alone. */
  lemma {:induction false} KeyAnswersRunAlone(
      capacity: nat, rate: real, start: Time, trace: seq<KeyCall>, key: string)
    requires rate >= 0.0 && MonotoneKeys(start, trace)
    ensures AnswersFor(capacity, rate, trace, key)
         == Answers(NewBucket(capacity, rate, start), CallsFor(trace, key))
  {
    hide Refill, Run;
    var b := NewBucket(capacity, rate, start);
    if trace != [] {
      var n := |trace| - 1;
      var front, c := trace[..n], trace[n];
      KeyAnswersRunAlone(capacity, rate, start, front, key);
      var m := RunKeys(capacity, rate, front);
      var own := CallsFor(front, key);
      if c.key == key {
        KeyBucketRunsAlone(capacity, rate, start, front, key, c.created);
        RunNothing(b);
        BucketUsed(capacity, rate, start, m, c, Run(b, own));
        SameAfterCall(Looked(m, capacity, rate, c), Run(b, own), Call(c.cost, c.at), c.at);
        AnswersAppend(b, own, Call(c.cost, c.at));
      } else {
        assert own + [] == own;
      }
    }
  }

  /** Full buckets created at different times are alike, since a bucket never fills above capacity. */
  lemma FullBucketsAlike(capacity: nat, rate: real, created: Time, earlier: Time, now: Time)
    requires rate >= 0.0 && earlier <= created <= now
    ensures SameFrom(NewBucket(capacity, rate, created), NewBucket(capacity, rate, earlier), now)
  {
    InflowLaws(rate, now - created, 0.0);
    InflowLaws(rate, now - earlier, 0.0);
  }

  /**
   Creating a bucket at its first use goes unnoticed, for every trace and key, exactly when the rate
   is not negative.
   */
  lemma LazyCreationUnnoticed(capacity: nat, rate: real, start: Time)
    ensures rate >= 0.0 <==>
      forall trace: seq<KeyCall>, key: string :: MonotoneKeys(start, trace) ==>
        AnswersFor(capacity, rate, trace, key) == Answers(NewBucket(capacity, rate, start), CallsFor(trace, key))
  {
    if rate >= 0.0 {
      forall trace: seq<KeyCall>, key: string | MonotoneKeys(start, trace)
        ensures AnswersFor(capacity, rate, trace, key) == Answers(NewBucket(capacity, rate, start), CallsFor(trace, key))
      {
        KeyAnswersRunAlone(capacity, rate, start, trace, key);
      }
    } else {
      LazyCreationNoticed(capacity, rate, start);
    }
  }

  /** With a negative rate an eagerly created bucket has drained below capacity a second later. */
  lemma LazyCreationNoticed(capacity: nat, rate: real, start: Time)
    requires rate < 0.0
    ensures exists trace: seq<KeyCall>, key: string ::
              && MonotoneKeys(start, trace)
              && AnswersFor(capacity, rate, trace, key)
              != Answers(NewBucket(capacity, rate, start), CallsFor(trace, key))
  {
    var c := KeyCall("k", capacity, start + 1.0, start + 1.0);
    var trace := [c];
    var b := NewBucket(capacity, rate, start);
    assert trace[..0] == [];
    assert CallsFor(trace, "k") == [Call(capacity, start + 1.0)];
    AnswersAppend(b, [], Call(capacity, start + 1.0));
    assert [] + [Call(capacity, start + 1.0)] == CallsFor(trace, "k");
    assert !Answers(b, CallsFor(trace, "k"))[0];
    assert AnswersFor(capacity, rate, trace, "k") == [KeyAnswer(capacity, rate, trace, 0)];
    assert RunKeys(capacity, rate, []) == map[];
    assert KeyAnswer(capacity, rate, trace, 0);
  }
}
