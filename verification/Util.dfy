/** Small functions used by several modules. */
module Util {

  function MinReal(x: real, y: real): (m: real)
    ensures m <= x && m <= y && (m == x || m == y)
  {
    if x <= y then x else y
  }

  /** The last n items. */
  function LastN<T>(xs: seq<T>, n: nat): seq<T> {
    if |xs| <= n then xs else xs[|xs| - n..]
  }

  /** They are the only end of the sequence that has n items, or all of them if there are fewer. */
  lemma LastNExactly<T>(front: seq<T>, back: seq<T>, n: nat)
    ensures LastN(front + back, n) == back <==> |back| == n || (front == [] && |back| < n)
  {
    if LastN(front + back, n) == back {
      assert |back| == |LastN(front + back, n)|;
    }
  }

  /** One more item pushes the oldest out of a full window. */
  lemma WindowSlides<T>(before: seq<T>, x: T, n: nat)
    ensures var all := LastN(before, n) + [x];
            LastN(before + [x], n) == if |all| > n then all[1..] else all
  {
  }
}
