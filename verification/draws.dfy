/** Randomness as an explicit stream of draws. Each call to the generator in
    the game consumes exactly one draw; the value it returns is a fixed
    function of that draw, so every property proved about the generator
    holds for every possible sequence of random outcomes. A stream that runs
    dry keeps yielding 0. */
module Draws {

  type Stream = seq<nat>

  /** The next raw draw and the stream after it. */
  function Next(ds: Stream): (nat, Stream) {
    if |ds| == 0 then (0, []) else (ds[0], ds[1..])
  }

  /** The k-th raw draw of the stream. */
  function DrawAt(ds: Stream, k: nat): nat {
    if k < |ds| then ds[k] else 0
  }

  /** `gen_range(lo, hi)`: a value of the half-open range [lo, hi). */
  function GenRange(ds: Stream, lo: int, hi: int): (r: (int, Stream))
    requires lo < hi
    ensures lo <= r.0 < hi
    ensures r.1 == Next(ds).1
  {
    var (d, rest) := Next(ds);
    (lo + d % (hi - lo), rest)
  }

  /** Every value of the range is the outcome of some draw, so restricting
      attention to draws loses none of the generator's behaviours. */
  lemma GenRangeReachesEveryValue(lo: int, hi: int, v: int)
    requires lo <= v < hi
    ensures GenRange([v - lo], lo, hi).0 == v
  {
  }

  /** `rand::random::<bool>()`. */
  function Coin(ds: Stream): (r: (bool, Stream))
    ensures r.0 == (DrawAt(ds, 0) % 2 == 0)
    ensures r.1 == Next(ds).1
  {
    var (d, rest) := Next(ds);
    (d % 2 == 0, rest)
  }

  /** Both sides of the coin are possible. */
  lemma CoinBothOutcomes()
    ensures Coin([0]).0 && !Coin([1]).0
  {
  }

  /** The flip is fair over the draws: it depends only on the draw's parity,
      and exactly one of every two consecutive draw values gives heads. */
  lemma CoinOneInTwo(d: nat)
    ensures Coin([d]).0 == Coin([d % 2]).0
    ensures |set k | 0 <= k < 2 && Coin([k]).0| == 1
  {
    assert (set k | 0 <= k < 2 && Coin([k]).0) == {0};
  }

  /** `rand::random::<f32>() < 0.8`, as eight outcomes in ten. */
  function Chance80(ds: Stream): (r: (bool, Stream))
    ensures r.0 == (Next(ds).0 % 10 < 8)
    ensures r.1 == Next(ds).1
  {
    var (d, rest) := Next(ds);
    (d % 10 < 8, rest)
  }

  /** Both outcomes of the 80% test are possible. */
  lemma Chance80BothOutcomes()
    ensures Chance80([0]).0 && !Chance80([9]).0
  {
  }

  /** The test holds for eight of every ten consecutive draw values: it
      depends only on the last decimal digit, and holds for eight digits. */
  lemma Chance80EightInTen(d: nat)
    ensures Chance80([d]).0 == Chance80([d % 10]).0
    ensures |set k | 0 <= k < 10 && Chance80([k]).0| == 8
  {
    assert (set k | 0 <= k < 10 && Chance80([k]).0) == {0, 1, 2, 3, 4, 5, 6, 7};
  }
}
