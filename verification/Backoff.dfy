/**
 The two exponential backoffs of the command-line client: `with_retry` multiplies its last
 delay, the network client computes each delay from the attempt number.
 */
module Backoff {
  import opened Util

  /** Durations are in nanoseconds; both backoffs compute in whole milliseconds. */
  type Duration = nat

  const MILLI: nat := 1_000_000
  const MAX_U64: nat := 0xFFFF_FFFF_FFFF_FFFF

  function Min(x: int, y: int): int {
    if x <= y then x else y
  }

  function Millis(d: Duration): nat {
    d / MILLI
  }

  function FromMillis(ms: nat): Duration {
    ms * MILLI
  }

  /** The saturating cast to an unsigned 64-bit integer. */
  function CastU64(x: real): (n: nat)
    ensures n <= MAX_U64
  {
    if x <= 0.0 then 0
    else if x >= MAX_U64 as real then MAX_U64
    else
      FloorBelow(x, MAX_U64);
      x.Floor
  }

  lemma FloorBelow(x: real, n: int)
    requires x < n as real
    ensures x.Floor <= n
  {
  }

  function Pow(m: real, k: nat): real {
    if k == 0 then 1.0 else Pow(m, k - 1) * m
  }

  function IntPow(m: nat, k: nat): nat {
    if k == 0 then 1 else IntPow(m, k - 1) * m
  }

  // ----- the iterative form -----

  /** Milliseconds times the multiplier. */
  function Scaled(delay: Duration, multiplier: real): real {
    Millis(delay) as real * multiplier
  }

  function NextDelay(delay: Duration, multiplier: real, max: Duration): Duration {
    Min(FromMillis(CastU64(Scaled(delay, multiplier))), max)
  }

  /** The k-th delay of `with_retry`; the first is the initial delay as it stands. */
  function IterativeDelay(initial: Duration, multiplier: real, max: Duration, k: nat): Duration {
    if k == 0 then initial else NextDelay(IterativeDelay(initial, multiplier, max, k - 1), multiplier, max)
  }

  // ----- the closed form -----

  /** Milliseconds times the multiplier to the power of the attempt. */
  function Grown(base: Duration, multiplier: real, attempt: nat): real {
    Millis(base) as real * Pow(multiplier, attempt)
  }

  function CalculateDelay(base: Duration, multiplier: real, max: Duration, attempt: nat): Duration {
    FromMillis(CastU64(MinReal(Grown(base, multiplier, attempt), Millis(max) as real)))
  }

  // ----- in whole milliseconds -----

  /** The longest delay that either form can reach, in milliseconds. */
  function CapMillis(max: Duration): nat {
    Min(Millis(max), MAX_U64)
  }

  lemma MillisOfMin(ms: nat, d: Duration)
    ensures Millis(Min(FromMillis(ms), d)) == Min(ms, Millis(d))
    ensures Millis(FromMillis(ms)) == ms
  {
  }

  lemma CastOfInt(n: nat)
    ensures CastU64(n as real) == Min(n, MAX_U64)
  {
  }

  lemma CastBelow(x: real, y: real)
    requires x <= y
    ensures CastU64(x) <= CastU64(y)
    ensures x >= 0.0 ==> CastU64(x) as real <= x
  {
  }

  lemma CastOfMin(x: real, n: nat)
    ensures CastU64(MinReal(x, n as real)) == Min(CastU64(x), Min(n, MAX_U64))
  {
    hide CastU64;
    CastOfInt(n);
    if x <= n as real {
      CastBelow(x, n as real);
    } else {
      CastBelow(n as real, x);
    }
    assert forall y :: CastU64(y) <= MAX_U64;
  }

  /** One step of the iterative form, for any multiplier. */
  lemma NextMillis(delay: Duration, multiplier: real, max: Duration)
    ensures Millis(NextDelay(delay, multiplier, max)) == Min(CastU64(Scaled(delay, multiplier)), CapMillis(max))
  {
    hide Scaled, CastU64, Millis, FromMillis;
    MillisOfMin(CastU64(Scaled(delay, multiplier)), max);
  }

  /** The closed form, for any multiplier. */
  lemma ClosedMillis(base: Duration, multiplier: real, max: Duration, k: nat)
    ensures Millis(CalculateDelay(base, multiplier, max, k)) == Min(CastU64(Grown(base, multiplier, k)), CapMillis(max))
  {
    hide Grown, CastU64, Millis, FromMillis;
    CastOfMin(Grown(base, multiplier, k), Millis(max));
    MillisOfMin(CastU64(MinReal(Grown(base, multiplier, k), Millis(max) as real)), 0);
  }

  /** The whole milliseconds of a real number of them, between nothing and a cap. */
  predicate IsFloor(ms: nat, x: real, cap: nat) {
    && ms <= cap
    && (x <= 0.0 ==> ms == 0)
    && (x >= cap as real ==> ms == cap)
    && (0.0 <= x < cap as real ==> ms as real <= x < ms as real + 1.0)
  }

  lemma CastIsFloor(x: real, cap: nat)
    requires cap <= MAX_U64
    ensures IsFloor(Min(CastU64(x), cap), x, cap)
  {
    if x > cap as real {
      CastBelow(cap as real, x);
      CastOfInt(cap);
    }
  }

  /**
   In milliseconds, for any multiplier: a step of `with_retry` is the last delay times the
   multiplier, rounded down, and never more than the maximum or than 64 bits hold.
   */
  lemma NextIsFloor(delay: Duration, multiplier: real, max: Duration)
    ensures IsFloor(
              NextDelay(delay, multiplier, max) / 1_000_000, (delay / 1_000_000) as real * multiplier,
              Min(max / 1_000_000, 18_446_744_073_709_551_615))
  {
    hide CastU64, NextDelay, IsFloor;
    NextMillis(delay, multiplier, max);
    CastIsFloor(Scaled(delay, multiplier), CapMillis(max));
    InLiterals(max, NextDelay(delay, multiplier, max));
    assert Scaled(delay, multiplier) == (delay / 1_000_000) as real * multiplier;
  }

  /** ... and the calculated delay is the base times the power of the multiplier, rounded and capped in the same way. */
  lemma ClosedIsFloor(base: Duration, multiplier: real, max: Duration, k: nat)
    ensures IsFloor(
              CalculateDelay(base, multiplier, max, k) / 1_000_000, (base / 1_000_000) as real * Pow(multiplier, k),
              Min(max / 1_000_000, 18_446_744_073_709_551_615))
  {
    hide CastU64, CalculateDelay, IsFloor;
    ClosedMillis(base, multiplier, max, k);
    CastIsFloor(Grown(base, multiplier, k), CapMillis(max));
    InLiterals(max, CalculateDelay(base, multiplier, max, k));
    assert Grown(base, multiplier, k) == (base / 1_000_000) as real * Pow(multiplier, k);
  }

  lemma InLiterals(max: Duration, d: Duration)
    ensures CapMillis(max) == Min(max / 1_000_000, 18_446_744_073_709_551_615) && Millis(d) == d / 1_000_000
  {
  }

  lemma {:induction false} PowLaws(m: real, j: nat, k: nat)
    ensures Pow(m, 0) == 1.0 && Pow(m, 1) == m
    ensures Pow(m, j + k) == Pow(m, j) * Pow(m, k)
  {
    assert Pow(m, 1) == Pow(m, 0) * m;
    if k > 0 {
      PowLaws(m, j, k - 1);
      RealAssoc(Pow(m, j), Pow(m, k - 1), m);
    }
  }

  lemma RealAssoc(x: real, y: real, z: real)
    ensures x * y * z == x * (y * z)
  {
  }

  // ----- integral multipliers -----

  lemma CastProduct(x: int, y: int)
    ensures (x * y) as real == x as real * y as real
  {
  }

  lemma {:induction false} PowOfInt(m: nat, k: nat)
    ensures Pow(m as real, k) == IntPow(m, k) as real
  {
    if k > 0 {
      PowOfInt(m, k - 1);
      CastProduct(IntPow(m, k - 1), m);
    }
  }

  lemma ScaledByInt(d: Duration, m: nat, multiplier: real)
    requires multiplier == m as real
    ensures CastU64(Scaled(d, multiplier)) == Min(Millis(d) * m, MAX_U64)
  {
    hide CastU64, Millis;
    CastProduct(Millis(d), m);
    CastOfInt(Times(Millis(d), m));
  }

  lemma GrownByInt(base: Duration, m: nat, multiplier: real, k: nat)
    requires multiplier == m as real
    ensures CastU64(Grown(base, multiplier, k)) == Min(Millis(base) * IntPow(m, k), MAX_U64)
  {
    hide CastU64, Millis, Pow, IntPow;
    PowOfInt(m, k);
    CastProduct(Millis(base), IntPow(m, k));
    CastOfInt(Times(Millis(base), IntPow(m, k)));
  }

  function Times(x: nat, y: nat): (z: nat)
    ensures z == x * y
  {
    TimesNotNegative(x, y);
    x * y
  }

  lemma TimesNotNegative(x: nat, y: nat)
    ensures x * y >= 0
  {
  }

  /** Capping before a multiplication changes nothing once the product is capped. */
  lemma CapAbsorbs(x: nat, cap: nat, m: nat)
    ensures Min(Min(x, cap) * m, cap) == Min(x * m, cap)
  {
    if x > cap && m > 0 {
      TimesNotNegative(cap, m - 1);
      TimesNotNegative(x - cap, m);
      assert cap * m == cap * (m - 1) + cap;
      assert x * m == cap * m + (x - cap) * m;
    }
  }

  lemma MulAssoc(x: int, y: int, z: int)
    ensures x * y * z == x * (y * z)
  {
  }

  /** With an integral multiplier, zero included, the k-th iterative delay is initial * m^k, capped. */
  lemma {:induction false} IterativeMillis(initial: Duration, m: nat, multiplier: real, max: Duration, k: nat)
    requires multiplier == m as real && Millis(initial) <= CapMillis(max)
    ensures Millis(IterativeDelay(initial, multiplier, max, k)) == Min(Millis(initial) * IntPow(m, k), CapMillis(max))
  {
    hide NextDelay, Millis, Scaled, CastU64;
    if k > 0 {
      var before := IterativeDelay(initial, multiplier, max, k - 1);
      IterativeMillis(initial, m, multiplier, max, k - 1);
      NextMillis(before, multiplier, max);
      ScaledByInt(before, m, multiplier);
      CapAbsorbs(Times(Millis(initial), IntPow(m, k - 1)), CapMillis(max), m);
      MulAssoc(Millis(initial), IntPow(m, k - 1), m);
    }
  }

  lemma FirstDelays(initial: Duration, multiplier: real, max: Duration)
    ensures IterativeDelay(initial, multiplier, max, 0) == initial
    ensures Millis(CalculateDelay(initial, multiplier, max, 0)) == Min(Millis(initial), CapMillis(max))
  {
    hide CastU64, Millis, CalculateDelay;
    ClosedMillis(initial, multiplier, max, 0);
    assert Grown(initial, multiplier, 0) == Millis(initial) as real;
    CastOfInt(Millis(initial));
  }

  /**
   With an integral multiplier both forms give the same whole milliseconds for every attempt exactly
   when the initial delay is within the maximum.
   */
  lemma MillisAgreeExactly(initial: Duration, m: nat, multiplier: real, max: Duration)
    requires multiplier == m as real
    ensures (forall k: nat :: Millis(IterativeDelay(initial, multiplier, max, k))
                           == Millis(CalculateDelay(initial, multiplier, max, k)))
       <==> Millis(initial) <= CapMillis(max)
  {
    hide Millis, CapMillis, CalculateDelay, IterativeDelay;
    if Millis(initial) <= CapMillis(max) {
      forall k: nat
        ensures Millis(IterativeDelay(initial, multiplier, max, k)) == Millis(CalculateDelay(initial, multiplier, max, k))
      {
        hide CastU64, Grown;
        IterativeMillis(initial, m, multiplier, max, k);
        ClosedMillis(initial, multiplier, max, k);
        GrownByInt(initial, m, multiplier, k);
        CapBelowU64(max);
      }
    } else {
      FirstDelays(initial, multiplier, max);
    }
  }

  lemma CapBelowU64(max: Duration)
    ensures CapMillis(max) <= MAX_U64 && CapMillis(max) <= Millis(max)
    ensures Millis(max) <= MAX_U64 ==> CapMillis(max) == Millis(max)
  {
  }

  // ----- to the nanosecond -----

  /** A duration of whole milliseconds. */
  predicate Whole(d: Duration) {
    d % MILLI == 0
  }

  lemma WholeMillis(d: Duration)
    ensures Whole(d) <==> d == FromMillis(Millis(d))
    ensures FromMillis(Millis(d)) <= d < FromMillis(Millis(d) + 1)
  {
  }

  lemma CalculatedIsWhole(base: Duration, multiplier: real, max: Duration, k: nat)
    ensures var c := CalculateDelay(base, multiplier, max, k);
            c == FromMillis(Millis(c))
  {
    hide CastU64, Millis, FromMillis;
    MillisOfMin(CastU64(MinReal(Grown(base, multiplier, k), Millis(max) as real)), 0);
  }

  /**
   A step that stays within the maximum, or whose maximum is whole, gives whole milliseconds; one
   that passes it gives the maximum.
   */
  lemma NextExactly(d: Duration, multiplier: real, max: Duration)
    ensures var x, next := CastU64(Scaled(d, multiplier)), NextDelay(d, multiplier, max);
            next == if x <= Millis(max) then FromMillis(x) else max
  {
    hide CastU64, Scaled;
    WholeMillis(max);
    var x := CastU64(Scaled(d, multiplier));
    FromMillisGrows(x, Millis(max));
    FromMillisGrows(Millis(max) + 1, x);
  }

  lemma FromMillisGrows(x: nat, y: nat)
    ensures x <= y ==> FromMillis(x) <= FromMillis(y)
  {
  }

  /**
   The settings under which no rounding to milliseconds shows: the maximum is whole, or is never
   what stops the growth.
   */
  predicate RoundingHidden(initial: Duration, m: nat, max: Duration) {
    Whole(max) || m <= 1 || Millis(initial) == 0 || Millis(max) >= MAX_U64
  }

  lemma StepWithin(initial: Duration, m: nat, multiplier: real, max: Duration, k: nat)
    requires multiplier == m as real && Millis(initial) <= CapMillis(max)
    requires m <= 1 || Millis(initial) == 0 || Millis(max) >= MAX_U64
    ensures CastU64(Scaled(IterativeDelay(initial, multiplier, max, k), multiplier)) <= Millis(max)
  {
    hide Millis, Scaled, CastU64, CapMillis, IterativeDelay, IntPow;
    var d := IterativeDelay(initial, multiplier, max, k);
    IterativeMillis(initial, m, multiplier, max, k);
    ScaledByInt(d, m, multiplier);
    CapBelowU64(max);
    if Millis(initial) == 0 {
      assert Millis(d) == 0 && Millis(d) * m == 0;
    } else if m <= 1 {
      AtMostItself(Millis(d), m);
    }
  }

  lemma AtMostItself(x: nat, m: nat)
    requires m <= 1
    ensures x * m <= x
  {
  }

  lemma IterativeWhole(initial: Duration, m: nat, multiplier: real, max: Duration, k: nat)
    requires multiplier == m as real && Millis(initial) <= CapMillis(max)
    requires Whole(initial) && RoundingHidden(initial, m, max)
    ensures var d := IterativeDelay(initial, multiplier, max, k);
            d == FromMillis(Millis(d))
  {
    hide Whole, Millis, FromMillis, Scaled, CastU64, CapMillis, NextDelay;
    if k == 0 {
      WholeMillis(initial);
    } else {
      var before := IterativeDelay(initial, multiplier, max, k - 1);
      var x := CastU64(Scaled(before, multiplier));
      NextExactly(before, multiplier, max);
      MillisOfMin(x, 0);
      WholeMillis(max);
      if !Whole(max) {
        StepWithin(initial, m, multiplier, max, k - 1);
      }
    }
  }

  lemma {:induction false} PowersGrow(m: nat, k: nat)
    requires m >= 2
    ensures IntPow(m, k) > k
  {
    if k > 0 {
      PowersGrow(m, k - 1);
      TimesNotNegative(IntPow(m, k - 1), m - 2);
      assert IntPow(m, k - 1) * m == IntPow(m, k - 1) * (m - 2) + 2 * IntPow(m, k - 1);
    }
  }

  /** Growth that is stopped by a maximum between two milliseconds reaches that maximum itself. */
  lemma MaximumReached(initial: Duration, m: nat, multiplier: real, max: Duration)
    requires multiplier == m as real && Millis(initial) <= CapMillis(max)
    requires m >= 2 && Millis(initial) > 0 && Millis(max) < MAX_U64
    ensures IterativeDelay(initial, multiplier, max, Millis(max) + 1) == max
  {
    hide Millis, Scaled, CastU64, CapMillis, IntPow, NextDelay;
    var top := Millis(max);
    var d := IterativeDelay(initial, multiplier, max, top);
    IterativeMillis(initial, m, multiplier, max, top);
    PowersGrow(m, top);
    TimesNotNegative(Millis(initial) - 1, IntPow(m, top));
    assert Millis(initial) * IntPow(m, top) == (Millis(initial) - 1) * IntPow(m, top) + IntPow(m, top);
    CapBelowU64(max);
    assert Millis(d) == top;
    ScaledByInt(d, m, multiplier);
    TimesNotNegative(top, m - 2);
    assert top * m == top * (m - 2) + 2 * top;
    NextExactly(d, multiplier, max);
  }

  /**
   With an integral multiplier the two forms give the same durations for every attempt exactly
   when the initial delay is whole and within the maximum, and no rounding of the maximum shows.
   */
  lemma FormsAgreeExactly(initial: Duration, m: nat, multiplier: real, max: Duration)
    requires multiplier == m as real
    ensures (forall k: nat :: IterativeDelay(initial, multiplier, max, k) == CalculateDelay(initial, multiplier, max, k))
       <==> Millis(initial) <= CapMillis(max) && Whole(initial) && RoundingHidden(initial, m, max)
  {
    hide Millis, FromMillis, CapMillis, CalculateDelay, IterativeDelay, Whole;
    MillisAgreeExactly(initial, m, multiplier, max);
    if Millis(initial) <= CapMillis(max) && Whole(initial) && RoundingHidden(initial, m, max) {
      forall k: nat
        ensures IterativeDelay(initial, multiplier, max, k) == CalculateDelay(initial, multiplier, max, k)
      {
        IterativeWhole(initial, m, multiplier, max, k);
        CalculatedIsWhole(initial, multiplier, max, k);
        assert Millis(IterativeDelay(initial, multiplier, max, k)) == Millis(CalculateDelay(initial, multiplier, max, k));
      }
    } else if forall k: nat :: IterativeDelay(initial, multiplier, max, k) == CalculateDelay(initial, multiplier, max, k) {
      FirstDelays(initial, multiplier, max);
      CalculatedIsWhole(initial, multiplier, max, 0);
      WholeMillis(initial);
      MaximumReached(initial, m, multiplier, max);
      CalculatedIsWhole(initial, multiplier, max, Millis(max) + 1);
      WholeMillis(max);
      assert false;
    }
  }

  // ----- any multiplier -----

  lemma SignOfProduct(a: nat, m: real)
    ensures a == 0 ==> a as real * m == 0.0
    ensures m < 0.0 ==> a as real * m <= 0.0
  {
  }

  lemma NextBelow(d: Duration, multiplier: real, max: Duration)
    ensures var a := Millis(NextDelay(d, multiplier, max));
            && a <= CapMillis(max)
            && (a == 0 || (a as real <= Scaled(d, multiplier) && Millis(d) > 0 && multiplier >= 0.0))
  {
    hide Millis, CapMillis, NextDelay;
    NextMillis(d, multiplier, max);
    CastBelow(Scaled(d, multiplier), Scaled(d, multiplier));
    SignOfProduct(Millis(d), multiplier);
  }

  lemma ScaleUp(a: real, x: real, p: real, m: real)
    requires m >= 0.0 && a <= x * p
    ensures a * m <= x * (p * m)
  {
    assert x * (p * m) == x * p * m;
    assert (x * p - a) * m >= 0.0;
  }

  lemma GrownStep(d: Duration, base: Duration, multiplier: real, k: nat)
    requires multiplier >= 0.0 && Millis(d) as real <= Grown(base, multiplier, k)
    ensures Scaled(d, multiplier) <= Grown(base, multiplier, k + 1)
  {
    hide Millis;
    ScaleUp(Millis(d) as real, Millis(base) as real, Pow(multiplier, k), multiplier);
  }

  lemma {:induction false} IterativeBelow(initial: Duration, multiplier: real, max: Duration, k: nat)
    requires Millis(initial) <= CapMillis(max)
    ensures var a := Millis(IterativeDelay(initial, multiplier, max, k));
            a <= CapMillis(max) && (a == 0 || a as real <= Grown(initial, multiplier, k))
  {
    hide NextDelay, Millis, CapMillis, Scaled, Grown;
    if k == 0 {
      assert Grown(initial, multiplier, 0) == Millis(initial) as real by {
        GrownFirst(initial, multiplier);
      }
    } else {
      IterativeBelow(initial, multiplier, max, k - 1);
      var d := IterativeDelay(initial, multiplier, max, k - 1);
      NextBelow(d, multiplier, max);
      if Millis(d) > 0 && multiplier >= 0.0 {
        GrownStep(d, initial, multiplier, k - 1);
      }
    }
  }

  lemma GrownFirst(base: Duration, multiplier: real)
    ensures Grown(base, multiplier, 0) == Millis(base) as real
  {
  }

  lemma BelowClosed(base: Duration, multiplier: real, max: Duration, k: nat, a: nat)
    requires a <= CapMillis(max) && (a == 0 || a as real <= Grown(base, multiplier, k))
    ensures a <= Millis(CalculateDelay(base, multiplier, max, k))
  {
    hide Grown, Millis, CastU64, CalculateDelay, CapMillis;
    ClosedMillis(base, multiplier, max, k);
    if a > 0 {
      CastBelow(a as real, Grown(base, multiplier, k));
      CastOfInt(a);
      CapBelowU64(max);
    }
  }

  /**
   For any real multiplier the iterative form never waits a whole millisecond longer than the
   closed form, exactly when the initial delay is within the maximum.
   */
  lemma IterativeNeverLonger(initial: Duration, multiplier: real, max: Duration)
    ensures (forall k: nat :: IterativeDelay(initial, multiplier, max, k)
                            < CalculateDelay(initial, multiplier, max, k) + MILLI)
       <==> Millis(initial) <= CapMillis(max)
  {
    hide IterativeDelay, CalculateDelay, Millis, CapMillis;
    if Millis(initial) <= CapMillis(max) {
      forall k: nat
        ensures IterativeDelay(initial, multiplier, max, k) < CalculateDelay(initial, multiplier, max, k) + MILLI
      {
        var i, c := IterativeDelay(initial, multiplier, max, k), CalculateDelay(initial, multiplier, max, k);
        IterativeBelow(initial, multiplier, max, k);
        BelowClosed(initial, multiplier, max, k, Millis(i));
        CalculatedIsWhole(initial, multiplier, max, k);
        WithinMilli(i, c);
      }
    } else {
      var c := CalculateDelay(initial, multiplier, max, 0);
      FirstDelays(initial, multiplier, max);
      CalculatedIsWhole(initial, multiplier, max, 0);
      WithinMilli(initial, c);
    }
  }

  lemma WithinMilli(i: Duration, c: Duration)
    requires c == FromMillis(Millis(c))
    ensures i < c + MILLI <==> Millis(i) <= Millis(c)
  {
  }

  /** The milliseconds that one step makes of a delay. */
  function Stepped(delay: Duration, multiplier: real, max: Duration): nat {
    Min(CastU64(Scaled(delay, multiplier)), CapMillis(max))
  }

  lemma SteppedAlike(d: Duration, other: Duration, multiplier: real, max: Duration)
    requires Millis(d) == Millis(other)
    ensures Stepped(d, multiplier, max) == Stepped(other, multiplier, max)
    ensures Millis(NextDelay(d, multiplier, max)) == Stepped(d, multiplier, max)
  {
    hide Millis, CapMillis, NextDelay, CastU64;
    NextMillis(d, multiplier, max);
    assert Scaled(d, multiplier) == Scaled(other, multiplier);
  }

  lemma {:induction false} StaysPut(initial: Duration, multiplier: real, max: Duration, k: nat)
    requires Stepped(initial, multiplier, max) == Millis(initial)
    ensures Millis(IterativeDelay(initial, multiplier, max, k)) == Millis(initial)
  {
    hide Millis, Stepped, NextDelay;
    if k > 0 {
      StaysPut(initial, multiplier, max, k - 1);
      SteppedAlike(IterativeDelay(initial, multiplier, max, k - 1), initial, multiplier, max);
    }
  }

  /**
   The iterative form never leaves its initial milliseconds, however often it is iterated, exactly
   when one step does not leave them.
   */
  lemma SlowGrowthIsLost(initial: Duration, multiplier: real, max: Duration)
    ensures (forall k: nat :: Millis(IterativeDelay(initial, multiplier, max, k)) == Millis(initial))
       <==> Stepped(initial, multiplier, max) == Millis(initial)
  {
    hide Millis, Stepped, NextDelay;
    if Stepped(initial, multiplier, max) == Millis(initial) {
      forall k: nat
        ensures Millis(IterativeDelay(initial, multiplier, max, k)) == Millis(initial)
      {
        StaysPut(initial, multiplier, max, k);
      }
    } else {
      SteppedAlike(initial, initial, multiplier, max);
      assert IterativeDelay(initial, multiplier, max, 1) == NextDelay(initial, multiplier, max);
    }
  }

  /**
   From one millisecond a multiplier of one and a half never backs off, while the closed form does
   at the second attempt.
   */
  lemma OneMillisecondNeverGrows(k: nat)
    ensures Millis(IterativeDelay(FromMillis(1), 1.5, FromMillis(30_000), k)) == 1
    ensures Millis(CalculateDelay(FromMillis(1), 1.5, FromMillis(30_000), 2)) == 2
  {
    hide Millis, IterativeDelay, CalculateDelay, CastU64, FromMillis;
    MillisOfMin(1, 0);
    MillisOfMin(30_000, 0);
    CastBetween(1.5, 1);
    CastBetween(2.25, 2);
    assert Pow(1.5, 2) == 2.25 by {
      assert Pow(1.5, 1) == 1.5;
    }
    StaysPut(FromMillis(1), 1.5, FromMillis(30_000), k);
    ClosedMillis(FromMillis(1), 1.5, FromMillis(30_000), 2);
  }

  lemma CastBetween(x: real, n: nat)
    requires n as real <= x < (n + 1) as real
    ensures CastU64(x) == Min(n, MAX_U64)
  {
  }

  // ----- bounds and instances -----

  /** Every delay of the iterative form but the first is within the maximum. */
  lemma IterativeBounded(initial: Duration, multiplier: real, max: Duration, k: nat)
    requires k > 0
    ensures IterativeDelay(initial, multiplier, max, k) <= max
  {
  }

  /** Every delay of the closed form is within the maximum. */
  lemma ClosedBounded(base: Duration, multiplier: real, max: Duration, k: nat)
    ensures CalculateDelay(base, multiplier, max, k) <= max
  {
    hide Millis, FromMillis, CapMillis, CalculateDelay, CastU64, Grown;
    ClosedMillis(base, multiplier, max, k);
    CalculatedIsWhole(base, multiplier, max, k);
    CapBelowU64(max);
    FromMillisGrows(Millis(CalculateDelay(base, multiplier, max, k)), Millis(max));
    WholeMillis(max);
  }

  /**
   A first delay of a minute under a maximum of half a minute, and settings between milliseconds:
   the forms differ at once.
   */
  lemma FormsDiffer()
    ensures IterativeDelay(FromMillis(60_000), 2.0, FromMillis(30_000), 0) == FromMillis(60_000)
    ensures CalculateDelay(FromMillis(60_000), 2.0, FromMillis(30_000), 0) == FromMillis(30_000)
    ensures IterativeDelay(1_500_000, 2.0, 2_000_000, 0) == 1_500_000
    ensures CalculateDelay(1_500_000, 2.0, 2_000_000, 0) == 1_000_000
  {
    hide CalculateDelay, Millis;
    FirstDelays(FromMillis(60_000), 2.0, FromMillis(30_000));
    CalculatedIsWhole(FromMillis(60_000), 2.0, FromMillis(30_000), 0);
    MillisOfMin(60_000, 0);
    MillisOfMin(30_000, 0);
    FirstDelays(1_500_000, 2.0, 2_000_000);
    CalculatedIsWhole(1_500_000, 2.0, 2_000_000, 0);
    assert Millis(1_500_000) == 1 && Millis(2_000_000) == 2 by {
      MillisBetween(1_500_000, 1);
      MillisBetween(2_000_000, 2);
    }
  }

  lemma MillisBetween(d: Duration, ms: nat)
    requires FromMillis(ms) <= d < FromMillis(ms + 1)
    ensures Millis(d) == ms
  {
  }
}
