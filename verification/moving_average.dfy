/** The exponential moving average of utils/math.go over fixed-point decimals: a decimal
    is an integer scaled by 10^18, and products and quotients round half to even on
    the magnitude. */
module MovingAverages {
  import opened Bits

  const BLOCKS_PER_MINUTE := 60
  const BLOCKS_PER_HOUR := BLOCKS_PER_MINUTE * 60
  const BLOCKS_PER_DAY := BLOCKS_PER_HOUR * 24

  /** The scale, and the scaled one half. */
  const ONE: int := 1_000_000_000_000_000_000
  const HALF: int := 500_000_000_000_000_000

  type Dec = int

  // ------------------------------------------------------------- decimals

  function ChopMagnitude(d: nat): int {
    var quo, rem := d / ONE, d % ONE;
    if rem < HALF then quo
    else if rem > HALF then quo + 1
    else if quo % 2 == 0 then quo
    else quo + 1
  }

  /** Division by the scale, rounding half to even. */
  function Chop(d: int): int {
    if d < 0 then -ChopMagnitude(-d) else ChopMagnitude(d)
  }

  function Mul(a: Dec, b: Dec): Dec {
    Chop(a * b)
  }

  /** Integer division toward zero. */
  function TruncatedQuotient(a: int, b: int): int
    requires b != 0
  {
    var q := (if a < 0 then -a else a) / (if b < 0 then -b else b);
    if (a < 0) != (b < 0) then -q else q
  }

  function Quo(a: Dec, b: Dec): Dec
    requires b != 0
  {
    Chop(TruncatedQuotient(a * ONE * ONE, b))
  }

  function FacNew(): Dec {
    Quo(ONE, BLOCKS_PER_DAY * ONE)
  }

  function FacOld(): Dec {
    ONE - FacNew()
  }

  function MovingAverage(amountOld: Dec, amountNew: Dec): Dec {
    var sum := 0;
    var sum := sum + Mul(amountOld, FacOld());
    sum + Mul(amountNew, FacNew())
  }

  function Abs(x: int): nat {
    if x < 0 then -x else x
  }

  // -------------------------------------------------------------- rounding

  /** The weights at 18 decimals. */
  const NEW_WEIGHT: int := 11_574_074_074_074
  const OLD_WEIGHT: int := 999_988_425_925_925_926

  lemma Weights()
    ensures FacNew() == NEW_WEIGHT && FacOld() == OLD_WEIGHT
  {
    assert TruncatedQuotient(ONE * ONE * ONE, BLOCKS_PER_DAY * ONE)
        == 11_574_074_074_074_074_074_074_074_074_074;
  }

  lemma Unfold(a: Dec, b: Dec)
    ensures MovingAverage(a, b) == Chop(a * OLD_WEIGHT) + Chop(b * NEW_WEIGHT)
  {
    Weights();
  }

  /** Rounding is within one half, monotone, and odd. */
  lemma ChopNear(d: int)
    ensures -ONE <= 2 * (ONE * Chop(d) - d) <= ONE
    ensures Chop(-d) == -Chop(d)
  {
  }

  /** `n` is the integer nearest to d / 10^18, the even one when two are equally near. */
  predicate NearestOrEven(d: int, n: int) {
    var distance := Abs(1_000_000_000_000_000_000 * n - d);
    2 * distance <= 1_000_000_000_000_000_000 && (2 * distance == 1_000_000_000_000_000_000 ==> n % 2 == 0)
  }

  /** Rounding is half to even, for every amount of either sign. */
  lemma RoundsHalfToEven(d: int, n: int)
    ensures Chop(d) == n <==> NearestOrEven(d, n)
  {
    var q := ChopMagnitude(Abs(d));
    assert NearestOrEven(Abs(d), q);
    assert NearestOrEven(d, Chop(d));
  }

  /** The average is the sum of two products, each rounded half to even at 18 decimals. */
  lemma AverageRoundsTwice(a: Dec, b: Dec, n: int, m: int)
    requires NearestOrEven(a * 999_988_425_925_925_926, n)
    requires NearestOrEven(b * 11_574_074_074_074, m)
    ensures MovingAverage(a, b) == n + m
  {
    hide Chop, NearestOrEven;
    Unfold(a, b);
    RoundsHalfToEven(a * OLD_WEIGHT, n);
    RoundsHalfToEven(b * NEW_WEIGHT, m);
  }

  lemma ChopMonotone(d: int, e: int)
    requires d <= e
    ensures Chop(d) <= Chop(e)
  {
    ChopNear(d);
    ChopNear(e);
  }

  /** Two amounts that add up to `v` units round to `v` together: at a tie the two
      quotients add up to v - 1, so for an even `v` exactly one of them rounds up. */
  lemma ChopComplement(d: nat, e: nat, v: nat)
    requires d + e == v * ONE && (d % ONE == HALF ==> v % 2 == 0)
    ensures Chop(d) + Chop(e) == v
  {
    var q1, r1, q2, r2 := d / ONE, d % ONE, e / ONE, e % ONE;
    assert r1 + r2 == (v - q1 - q2) * ONE;
    assert v - q1 - q2 == if r1 == 0 then 0 else 1;
  }

  /** A product with a weight can be half way only for an even scaled integer: an odd
      one leaves remainder 2 modulo 4, which one half does not. */
  lemma TieIsEven(v: nat, q: nat)
    requires v * OLD_WEIGHT == q * ONE + HALF
    ensures v % 2 == 0
  {
    var half := q * 250_000_000_000_000_000 + 125_000_000_000_000_000 - v * 249_997_106_481_481_481;
    Quartered(v, q, half);
    Doubled(v, half);
  }

  lemma Doubled(v: int, half: int)
    requires v == half + half
    ensures v % 2 == 0
  {
  }

  lemma Quartered(v: int, q: int, half: int)
    requires v * 999_988_425_925_925_926 == q * 1_000_000_000_000_000_000 + 500_000_000_000_000_000
    requires half == q * 250_000_000_000_000_000 + 125_000_000_000_000_000 - v * 249_997_106_481_481_481
    ensures v == half + half
  {
  }

  // --------------------------------------------------------- one step

  /** No drift: an average that is fed its own value stays exactly there. */
  lemma NoDrift(v: Dec)
    ensures MovingAverage(v, v) == v
  {
    hide Chop, MovingAverage;
    Unfold(v, v);
    var w := Abs(v);
    if w * OLD_WEIGHT % ONE == HALF {
      TieIsEven(w, w * OLD_WEIGHT / ONE);
    }
    ChopComplement(w * OLD_WEIGHT, w * NEW_WEIGHT, w);
    ChopNear(w * OLD_WEIGHT);
    ChopNear(w * NEW_WEIGHT);
  }

  lemma Monotone(a: Dec, a': Dec, b: Dec, b': Dec)
    requires a <= a' && b <= b'
    ensures MovingAverage(a, b) <= MovingAverage(a', b')
  {
    Unfold(a, b);
    Unfold(a', b');
    ChopMonotone(a * OLD_WEIGHT, a' * OLD_WEIGHT);
    ChopMonotone(b * NEW_WEIGHT, b' * NEW_WEIGHT);
  }

  /** No overshoot: the average lies between its arguments. */
  lemma Between(a: Dec, b: Dec, lo: Dec, hi: Dec)
    requires lo <= a <= hi && lo <= b <= hi
    ensures lo <= MovingAverage(a, b) <= hi
  {
    NoDrift(lo);
    NoDrift(hi);
    Monotone(lo, a, lo, b);
    Monotone(a, hi, b, hi);
  }

  /** The distance from the ideal average (86399 old + new) / 86400, in units of
      1 / (86400 * 10^18): two roundings, and the truncation of the weight. */
  lemma ErrorBound(a: Dec, b: Dec)
    ensures ONE * Abs(BLOCKS_PER_DAY * MovingAverage(a, b) - ((BLOCKS_PER_DAY - 1) * a + b))
         <= BLOCKS_PER_DAY * ONE + 6400 * Abs(b - a)
  {
    hide Chop, MovingAverage;
    Unfold(a, b);
    ChopNear(a * OLD_WEIGHT);
    ChopNear(b * NEW_WEIGHT);
    RoundedTwice(a, b, Chop(a * OLD_WEIGHT), Chop(b * NEW_WEIGHT));
  }

  /** The error of two roundings and of weights off by 6400 parts of 86400 * 10^18. */
  lemma RoundedTwice(a: int, b: int, s: int, t: int)
    requires -ONE <= 2 * (ONE * s - a * OLD_WEIGHT) <= ONE
    requires -ONE <= 2 * (ONE * t - b * NEW_WEIGHT) <= ONE
    ensures ONE * Abs(86400 * (s + t) - (86399 * a + b)) <= 86400 * ONE + 6400 * Abs(b - a)
  {
    var error := 86400 * (s + t) - (86399 * a + b);
    assert ONE * error == 86400 * ((ONE * s - a * OLD_WEIGHT) + (ONE * t - b * NEW_WEIGHT)) + 6400 * (a - b);
  }

  // ------------------------------------------------------------- whole runs

  /** The average after a run of samples. */
  function Run(start: Dec, samples: seq<Dec>): Dec {
    if samples == [] then start
    else MovingAverage(Run(start, samples[..|samples| - 1]), samples[|samples| - 1])
  }

  /** A run whose start and samples lie in a range never leaves it. */
  lemma {:induction false} RunBetween(start: Dec, samples: seq<Dec>, lo: Dec, hi: Dec)
    requires lo <= start <= hi
    requires forall i :: 0 <= i < |samples| ==> lo <= samples[i] <= hi
    ensures lo <= Run(start, samples) <= hi
  {
    if samples != [] {
      RunBetween(start, samples[..|samples| - 1], lo, hi);
      Between(Run(start, samples[..|samples| - 1]), samples[|samples| - 1], lo, hi);
    }
  }

  /** Runs keep their order: larger starts and samples give no smaller average. */
  lemma {:induction false} RunMonotone(start: Dec, start': Dec, samples: seq<Dec>, samples': seq<Dec>)
    requires start <= start' && |samples| == |samples'|
    requires forall i :: 0 <= i < |samples| ==> samples[i] <= samples'[i]
    ensures Run(start, samples) <= Run(start', samples')
    decreases |samples|
  {
    if samples != [] {
      var n := |samples| - 1;
      RunMonotone(start, start', samples[..n], samples'[..n]);
      Monotone(Run(start, samples[..n]), Run(start', samples'[..n]), samples[n], samples'[n]);
    }
  }

  // ------------------------------------------------------------ convergence

  /** One step towards a constant target: the gap keeps its sign, does not grow, and
      follows the exact decay factor within one unit. */
  lemma GapStep(a: Dec, target: Dec)
    ensures var gap, next := a - target, MovingAverage(a, target) - target;
            && (0 <= gap ==> 0 <= next <= gap)
            && (gap <= 0 ==> gap <= next <= 0)
            && -ONE <= ONE * next - OLD_WEIGHT * gap <= ONE
  {
    if target <= a {
      Between(a, target, target, a);
    } else {
      Between(a, target, a, target);
    }
    NoDrift(target);
    Unfold(a, target);
    Unfold(target, target);
    ChopNear(a * OLD_WEIGHT);
    ChopNear(target * OLD_WEIGHT);
  }

  /** A gap of more than a day's blocks strictly shrinks. */
  lemma GapShrinks(a: Dec, target: Dec)
    requires Abs(a - target) > BLOCKS_PER_DAY
    ensures Abs(MovingAverage(a, target) - target) < Abs(a - target)
  {
    GapStep(a, target);
  }

  /** The average after `n` steps against a constant target. */
  function Follow(a: Dec, target: Dec, n: nat): Dec {
    if n == 0 then a else MovingAverage(Follow(a, target, n - 1), target)
  }

  lemma {:induction false} GapNeverGrows(a: Dec, target: Dec, m: nat, n: nat)
    requires m <= n
    ensures Abs(Follow(a, target, n) - target) <= Abs(Follow(a, target, m) - target)
    decreases n
  {
    hide MovingAverage;
    if m < n {
      GapNeverGrows(a, target, m, n - 1);
      GapStep(Follow(a, target, n - 1), target);
    }
  }

  lemma {:induction false} GapAfter(a: Dec, target: Dec, n: nat)
    ensures var gap := Abs(Follow(a, target, n) - target);
            gap <= BLOCKS_PER_DAY || gap + n <= Abs(a - target)
  {
    hide MovingAverage;
    if n > 0 {
      GapAfter(a, target, n - 1);
      GapStep(Follow(a, target, n - 1), target);
      if Abs(Follow(a, target, n - 1) - target) > BLOCKS_PER_DAY {
        GapShrinks(Follow(a, target, n - 1), target);
      }
    }
  }

  /** While more than half of a gap `g` is left, every step takes at least
      g / (2 * 86400) - 1 of it. */
  lemma {:induction false} GapDecay(a: Dec, target: Dec, n: nat)
    ensures var g, gap := Abs(a - target), Abs(Follow(a, target, n) - target);
            2 * gap <= g || 2 * ONE * (g - gap) >= n * (NEW_WEIGHT * g - 2 * ONE)
  {
    hide MovingAverage;
    if n > 0 {
      var g, before := Abs(a - target), Follow(a, target, n - 1);
      GapDecay(a, target, n - 1);
      GapStep(before, target);
      var rate := NEW_WEIGHT * g - 2 * ONE;
      assert n * rate == (n - 1) * rate + rate;
    }
  }

  /** A gap of at least four days' blocks halves within two days and one block. */
  lemma HalvesInTwoDays(a: Dec, target: Dec)
    requires Abs(a - target) >= 4 * BLOCKS_PER_DAY
    ensures 2 * Abs(Follow(a, target, 2 * BLOCKS_PER_DAY + 1) - target) <= Abs(a - target)
  {
    hide Follow;
    GapDecay(a, target, 2 * BLOCKS_PER_DAY + 1);
  }

  lemma {:induction false} FollowAdds(a: Dec, target: Dec, m: nat, n: nat)
    ensures Follow(a, target, m + n) == Follow(Follow(a, target, m), target, n)
  {
    hide MovingAverage;
    if n > 0 {
      FollowAdds(a, target, m, n - 1);
    }
  }

  /** The steps of `k` halvings. */
  function HalvingSteps(k: nat): nat {
    k * (2 * BLOCKS_PER_DAY + 1)
  }

  /** Every two days and one block the gap halves again, until it is below four days'
      blocks: the number of steps is logarithmic in the gap. */
  lemma {:induction false} HalvesRepeatedly(a: Dec, target: Dec, k: nat)
    ensures var gap := Abs(Follow(a, target, HalvingSteps(k)) - target);
            gap < 4 * BLOCKS_PER_DAY || Pow2(k) * gap <= Abs(a - target)
  {
    hide MovingAverage, Follow, HalvingSteps;
    if k == 0 {
      NoSteps(a, target);
    } else {
      var steps, before := 2 * BLOCKS_PER_DAY + 1, Follow(a, target, HalvingSteps(k - 1));
      HalvesRepeatedly(a, target, k - 1);
      FollowAdds(a, target, HalvingSteps(k - 1), steps);
      HalvingStepsGrow(k);
      var gap, next := Abs(before - target), Abs(Follow(before, target, steps) - target);
      if gap < 4 * BLOCKS_PER_DAY {
        GapNeverGrows(before, target, 0, steps);
        NoSteps(before, target);
      } else {
        HalvesInTwoDays(before, target);
        DoubledPower(k, next, gap);
      }
    }
  }

  lemma NoSteps(a: Dec, target: Dec)
    ensures HalvingSteps(0) == 0 && Follow(a, target, 0) == a
  {
  }

  lemma HalvingStepsGrow(k: nat)
    requires k > 0
    ensures HalvingSteps(k) == HalvingSteps(k - 1) + (2 * BLOCKS_PER_DAY + 1)
  {
  }

  lemma DoubledPower(k: nat, next: nat, gap: nat)
    requires k > 0 && 2 * next <= gap
    ensures Pow2(k) * next <= Pow2(k - 1) * gap
  {
    Twice(Pow2(k - 1), next);
    assert Pow2(k) * next == Pow2(k - 1) * (2 * next);
    Times(Pow2(k - 1), 2 * next, gap);
  }

  lemma Times(p: nat, x: nat, y: nat)
    requires x <= y
    ensures p * x <= p * y
  {
  }

  // ------------------------------------------------------------- the limit

  /** What the new amount contributes to the average. */
  function Share(a: Dec): Dec {
    Mul(a, FacNew())
  }

  lemma ShareMonotone(a: Dec, b: Dec)
    requires a <= b
    ensures Share(a) <= Share(b)
  {
    hide Chop, FacNew;
    Weights();
    ChopMonotone(a * NEW_WEIGHT, b * NEW_WEIGHT);
  }

  /** The step in exact form: the amount moves by the difference of two rounded shares. */
  lemma ExactStep(a: Dec, b: Dec)
    ensures MovingAverage(a, b) == a + Share(b) - Share(a)
  {
    hide Mul, FacOld, FacNew;
    NoDrift(a);
  }

  /** The average stands still exactly when the shares of amount and target round alike,
      and then for ever. */
  lemma {:induction false} StallsExactly(a: Dec, target: Dec, n: nat)
    ensures MovingAverage(a, target) == a <==> Share(a) == Share(target)
    ensures MovingAverage(a, target) == a ==> Follow(a, target, n) == a
  {
    hide Share, MovingAverage;
    ExactStep(a, target);
    if n > 0 {
      StallsExactly(a, target, n - 1);
    }
  }

  /** Every step moves at least one unit until the shares are alike. */
  lemma {:induction false} SettlesOrMoves(a: Dec, target: Dec, n: nat)
    ensures var x := Follow(a, target, n);
            Share(x) == Share(target) || Abs(x - target) + n <= Abs(a - target)
  {
    hide Share, MovingAverage;
    if n > 0 {
      var x := Follow(a, target, n - 1);
      SettlesOrMoves(a, target, n - 1);
      StallsExactly(x, target, 1);
      GapStep(x, target);
    }
  }

  lemma {:induction false} FollowMonotone(a: Dec, b: Dec, target: Dec, n: nat)
    requires a <= b
    ensures Follow(a, target, n) <= Follow(b, target, n)
  {
    hide MovingAverage;
    if n > 0 {
      FollowMonotone(a, b, target, n - 1);
      Monotone(Follow(a, target, n - 1), Follow(b, target, n - 1), target, target);
    }
  }

  /** A settled run never goes further than the nearest amount with the target's share. */
  lemma SettledIsNearest(a: Dec, target: Dec, n: nat, x: Dec)
    requires Share(Follow(a, target, n)) == Share(target) == Share(x)
    ensures Abs(a - Follow(a, target, n)) <= Abs(a - x)
  {
    hide Share, MovingAverage, Follow;
    StallsExactly(x, target, n);
    StallsExactly(a, target, n);
    StaysBetween(a, target, n);
    if a <= x {
      FollowMonotone(a, x, target, n);
    } else {
      FollowMonotone(x, a, target, n);
    }
    if target <= a <= x {
      ShareMonotone(target, a);
      ShareMonotone(a, x);
    } else if x <= a <= target {
      ShareMonotone(x, a);
      ShareMonotone(a, target);
    }
  }

  lemma {:induction false} StaysBetween(a: Dec, target: Dec, n: nat)
    ensures target <= a ==> target <= Follow(a, target, n) <= a
    ensures a <= target ==> a <= Follow(a, target, n) <= target
  {
    hide MovingAverage;
    if n > 0 {
      StaysBetween(a, target, n - 1);
      GapStep(Follow(a, target, n - 1), target);
    }
  }

  /** Once settled, a run stays where it is. */
  lemma StaysSettled(a: Dec, target: Dec, n: nat, m: nat)
    requires n <= m && Share(Follow(a, target, n)) == Share(target)
    ensures Follow(a, target, m) == Follow(a, target, n)
  {
    hide Share, MovingAverage, Follow;
    FollowAdds(a, target, n, m - n);
    StallsExactly(Follow(a, target, n), target, m - n);
  }

  /** Every run against a constant target ends, after at most as many steps as the gap has
      units, at the amount nearest to its start whose share rounds like the target's, and
      stays there; the gap that remains is at most a day's blocks in units of 10^-18. */
  lemma Converges(a: Dec, target: Dec, n: nat)
    requires n >= Abs(a - target)
    ensures var limit := Follow(a, target, n);
            && Share(limit) == Share(target)
            && (forall x :: Share(x) == Share(target) ==> Abs(a - limit) <= Abs(a - x))
            && (forall m :: m >= n ==> Follow(a, target, m) == limit)
            && Abs(limit - target) <= BLOCKS_PER_DAY
  {
    hide Share, MovingAverage, Follow;
    var limit := Follow(a, target, n);
    SettlesOrMoves(a, target, n);
    GapAfter(a, target, n);
    forall x | Share(x) == Share(target)
      ensures Abs(a - limit) <= Abs(a - x)
    {
      SettledIsNearest(a, target, n, x);
    }
    forall m | m >= n
      ensures Follow(a, target, m) == limit
    {
      StaysSettled(a, target, n, m);
    }
  }

  /** The same limit after logarithmically many steps. */
  lemma SettlesSoon(a: Dec, target: Dec, k: nat)
    requires Abs(a - target) < Pow2(k) * (4 * BLOCKS_PER_DAY)
    ensures Share(Follow(a, target, HalvingSteps(k) + 4 * BLOCKS_PER_DAY)) == Share(target)
  {
    hide Share, MovingAverage, Follow, HalvingSteps;
    var x := Follow(a, target, HalvingSteps(k));
    HalvesRepeatedly(a, target, k);
    if Abs(x - target) >= 4 * BLOCKS_PER_DAY {
      Times(Pow2(k), 4 * BLOCKS_PER_DAY, Abs(x - target));
    }
    FollowAdds(a, target, HalvingSteps(k), 4 * BLOCKS_PER_DAY);
    SettlesOrMoves(x, target, 4 * BLOCKS_PER_DAY);
  }

  /** A run reaches its target exactly when it starts there, or when the neighbour of the
      target on the side of the start has a share that rounds differently. */
  lemma ReachesTargetExactly(a: Dec, target: Dec)
    ensures (exists n: nat :: Follow(a, target, n) == target) <==>
            || a == target
            || (target < a && Share(target + 1) != Share(target))
            || (a < target && Share(target - 1) != Share(target))
  {
    hide Share, MovingAverage, Follow;
    var n := Abs(a - target);
    var limit := Follow(a, target, n);
    SettlesOrMoves(a, target, n);
    StaysBetween(a, target, n);
    if target < a {
      if target < limit {
        ShareMonotone(target, target + 1);
        ShareMonotone(target + 1, limit);
      }
      if Share(target + 1) == Share(target) {
        StaysBeyond(a, target, target + 1);
      }
    } else if a < target {
      if limit < target {
        ShareMonotone(limit, target - 1);
        ShareMonotone(target - 1, target);
      }
      if Share(target - 1) == Share(target) {
        StaysBeyond(a, target, target - 1);
      }
    }
  }

  /** A run never passes an amount that stands still between it and the target. */
  lemma StaysBeyond(a: Dec, target: Dec, x: Dec)
    requires Share(x) == Share(target)
    ensures x <= a ==> forall n: nat :: x <= Follow(a, target, n)
    ensures a <= x ==> forall n: nat :: Follow(a, target, n) <= x
  {
    hide Share, MovingAverage, Follow;
    forall n: nat
      ensures x <= a ==> x <= Follow(a, target, n)
      ensures a <= x ==> Follow(a, target, n) <= x
    {
      StallsExactly(x, target, n);
      if x <= a {
        FollowMonotone(x, a, target, n);
      }
      if a <= x {
        FollowMonotone(a, x, target, n);
      }
    }
  }

  /** Towards zero the average stands still at the amounts up to half a day's blocks. */
  lemma StallsNearZero(a: Dec)
    ensures MovingAverage(a, 0) == a <==> Abs(a) <= BLOCKS_PER_DAY / 2
  {
    Unfold(a, 0);
    ChopNear(a * OLD_WEIGHT);
  }

  /** An amount that moves but never arrives: from 100000 towards zero, a run descends to
      43200 and stays there. */
  lemma NeverReachesZero(n: nat)
    ensures MovingAverage(100_000, 0) != 100_000
    ensures Follow(100_000, 0, n) >= 43_200
    ensures n >= 100_000 ==> Follow(100_000, 0, n) == 43_200
  {
    hide MovingAverage, Follow;
    StallsNearZero(100_000);
    StallsNearZero(43_200);
    StallsExactly(43_200, 0, n);
    StaysBeyond(100_000, 0, 43_200);
    if n >= 100_000 {
      Converges(100_000, 0, n);
      var limit := Follow(100_000, 0, n);
      StallsExactly(limit, 0, 1);
      StallsNearZero(limit);
    }
  }
}
