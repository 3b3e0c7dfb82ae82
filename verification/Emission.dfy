/**
  Block rewards (CalculateBlockReward in code/go/pkg/consensus/consensus.go and
  calculateBlockRewardByHeight in code/go/pkg/stake/reward.go).

  The reward starts at 100 V6 and is halved, rounding down, every 12614400 blocks.  The main
  results bound everything that can ever be issued below 2^64 nano-V6, so no 64-bit sum of rewards
  over a chain wraps, and relate the two implementations.
 */
module Emission {

  const INITIAL_REWARD: nat := 100_000_000_000 // 100 * 10^9
  const HALVING_INTERVAL: nat := 12_614_400     // 4 * 365 * 24 * 3600 / 10
  const SUPPLY_BOUND: nat := 2_522_880_000_000_000_000 // 2 * INITIAL_REWARD * HALVING_INTERVAL
  const UINT64: nat := 0x1_0000_0000_0000_0000

  function Pow2(n: nat): (p: nat)
    ensures p >= 1
  {
    if n == 0 then 1 else 2 * Pow2(n - 1)
  }

  /** Go's `x >> n` on an unsigned integer. */
  function ShiftRight(x: nat, n: nat): (r: nat)
    ensures Pow2(n) * r <= x < Pow2(n) * (r + 1)
  {
    FloorBounds(x, Pow2(n));
    x / Pow2(n)
  }

  lemma FloorBounds(x: nat, d: nat)
    requires d >= 1
    ensures x / d >= 0 && d * (x / d) <= x < d * (x / d + 1)
  {
    assert x == d * (x / d) + x % d;
  }

  lemma FloorUnique(x: nat, d: nat, q: nat, q': nat)
    requires d * q <= x < d * (q + 1)
    requires d * q' <= x < d * (q' + 1)
    ensures q == q'
  {
    if q < q' {
      Monotone(d, q + 1, q');
    } else if q' < q {
      Monotone(d, q' + 1, q);
    }
  }

  lemma Monotone(d: nat, a: nat, b: nat)
    requires a <= b
    ensures d * a <= d * b
  {
  }

  lemma Doubled(p: nat, h: nat)
    ensures p * (2 * h) == 2 * p * h
    ensures p * (2 * h + 1) == 2 * p * h + p
    ensures p * (2 * h + 2) == 2 * p * (h + 1)
  {
  }

  /** Halving once more, rounding down each time, is one shift by one more bit. */
  lemma ShiftOnce(x: nat, n: nat)
    ensures ShiftRight(x, n) / 2 == ShiftRight(x, n + 1)
  {
    var p, h := Pow2(n), ShiftRight(x, n) / 2;
    Doubled(p, h);
    assert ShiftRight(x, n) == 2 * h || ShiftRight(x, n) == 2 * h + 1;
    FloorUnique(x, 2 * p, h, ShiftRight(x, n + 1));
  }

  function EpochReward(epoch: nat): nat {
    ShiftRight(INITIAL_REWARD, epoch)
  }

  /** The reward at a height, stated directly. */
  function Reward(height: nat): nat {
    EpochReward(height / HALVING_INTERVAL)
  }

  /** The halving loop computes INITIAL_REWARD div 2^(height div HALVING_INTERVAL). */
  method CalculateBlockReward(height: nat) returns (reward: nat)
    requires height < UINT64
    ensures reward == Reward(height)
  {
    reward := INITIAL_REWARD;
    var halvings := height / HALVING_INTERVAL;
    for i := 0 to halvings
      invariant reward == EpochReward(i)
    {
      ShiftOnce(INITIAL_REWARD, i);
      reward := reward / 2;
    }
  }

  /** The staking schedule shifts its configured base reward and never pays less than one nano-V6. */
  method CalculateBlockRewardByHeight(baseReward: nat, height: nat) returns (reward: nat)
    requires baseReward < UINT64 && height < UINT64
    ensures reward == AtLeastOne(ShiftRight(baseReward, height / HALVING_INTERVAL))
    ensures reward >= 1 && (reward == ShiftRight(baseReward, height / HALVING_INTERVAL) || reward == 1)
    ensures baseReward == INITIAL_REWARD ==> reward == AtLeastOne(Reward(height))
  {
    var halvings := height / HALVING_INTERVAL;
    reward := ShiftRight(baseReward, halvings);
    if reward < 1 {
      reward := 1;
    }
  }

  function AtLeastOne(reward: nat): nat {
    if reward == 0 then 1 else reward
  }

  /** The two schedules agree, and consensus pays at all, exactly during the first 37 intervals. */
  lemma SchedulesAgreeExactlyWhen(height: nat)
    ensures AtLeastOne(Reward(height)) == Reward(height) <==> height < 37 * HALVING_INTERVAL
  {
    EpochValues();
    hide Reward, EpochReward, ShiftRight;
    if height < 37 * HALVING_INTERVAL {
      NonIncreasing(height, 37 * HALVING_INTERVAL - 1);
    } else {
      NonIncreasing(37 * HALVING_INTERVAL, height);
    }
  }

  lemma EpochValues()
    ensures Reward(37 * HALVING_INTERVAL - 1) == 1 && Reward(37 * HALVING_INTERVAL) == 0
  {
    assert Pow2(12) == 4096;
    Pow2Adds(12, 12);
    Pow2Adds(24, 12);
    assert Pow2(36) == 68_719_476_736 && Pow2(37) == 2 * Pow2(36);
    FloorUnique(INITIAL_REWARD, Pow2(36), ShiftRight(INITIAL_REWARD, 36), 1);
    FloorUnique(INITIAL_REWARD, Pow2(37), ShiftRight(INITIAL_REWARD, 37), 0);
  }

  lemma {:induction false} Pow2Adds(m: nat, n: nat)
    ensures Pow2(m + n) == Pow2(m) * Pow2(n)
  {
    if n > 0 {
      Pow2Adds(m, n - 1);
    }
  }

  /** From one height to the next the reward stays or, at multiples of the interval, is halved. */
  lemma RewardStep(height: nat)
    ensures (height + 1) % HALVING_INTERVAL == 0 ==> Reward(height + 1) == Reward(height) / 2
    ensures (height + 1) % HALVING_INTERVAL != 0 ==> Reward(height + 1) == Reward(height)
  {
    var e := height / HALVING_INTERVAL;
    ShiftOnce(INITIAL_REWARD, e);
    if (height + 1) % HALVING_INTERVAL == 0 {
      assert (height + 1) / HALVING_INTERVAL == e + 1;
    } else {
      assert (height + 1) / HALVING_INTERVAL == e;
    }
  }

  lemma {:induction false} NonIncreasing(low: nat, high: nat)
    requires low <= high
    ensures Reward(high) <= Reward(low)
    decreases high - low
  {
    if low < high {
      NonIncreasing(low, high - 1);
      RewardStep(high - 1);
    }
  }

  lemma OneFewer(n: nat, x: nat)
    requires n > 0
    ensures n * x == (n - 1) * x + x
  {
  }

  /** All rewards below a height. */
  function Issued(height: nat): nat {
    if height == 0 then 0 else Issued(height - 1) + Reward(height - 1)
  }

  lemma InitialReward()
    ensures Reward(0) == INITIAL_REWARD == 100_000_000_000
  {
    assert Pow2(0) == 1;
  }

  /** The first reward, and the first halving. */
  lemma FirstRewards()
    ensures Reward(0) == 100_000_000_000 && Reward(12_614_399) == 100_000_000_000 && Reward(12_614_400) == 50_000_000_000
  {
    InitialReward();
    RewardStep(12_614_399);
    assert 12_614_399 / HALVING_INTERVAL == 0;
  }

  /** One reward and two intervals of half of it are at most one interval and one reward. */
  lemma HalvingStep(r: nat, interval: nat)
    ensures r + (2 * interval) * (r / 2) <= (interval + 1) * r
  {
    OneFewer(interval + 1, r);
    Doubled(r / 2, interval);
    Monotone(interval, 2 * (r / 2), r);
  }

  /**
    `left` counts down from two intervals to one within an epoch: issued coins plus `left` times
    the current reward never exceed the bound, and once rewards are zero it is not even reached.
   */
  lemma {:induction false} IssuedPlusOutlook(height: nat, left: nat)
    requires left == 2 * HALVING_INTERVAL - height % HALVING_INTERVAL
    ensures Issued(height) + left * Reward(height) <= SUPPLY_BOUND
    ensures Reward(height) == 0 ==> Issued(height) < SUPPLY_BOUND
  {
    hide Reward, EpochReward, ShiftRight;
    if height == 0 {
      InitialReward();
    } else {
      var h := height - 1;
      var before, r := 2 * HALVING_INTERVAL - h % HALVING_INTERVAL, Reward(h);
      IssuedPlusOutlook(h, before);
      RewardStep(h);
      if height % HALVING_INTERVAL == 0 {
        assert before == HALVING_INTERVAL + 1 && left == 2 * HALVING_INTERVAL;
        HalvingStep(r, HALVING_INTERVAL);
      } else {
        assert left == before - 1;
        OneFewer(before, r);
      }
    }
  }

  /** For every height, everything issued below it stays under the bound, which fits in 64 bits. */
  lemma EmissionBound(height: nat)
    ensures SUPPLY_BOUND == 2 * INITIAL_REWARD * HALVING_INTERVAL
    ensures Issued(height) < SUPPLY_BOUND < UINT64
  {
    var left, r := 2 * HALVING_INTERVAL - height % HALVING_INTERVAL, Reward(height);
    IssuedPlusOutlook(height, left);
    if r > 0 {
      Monotone(left, 1, r);
    }
  }

  /** The rewards of the heights `low`, ..., `high` - 1. */
  function Span(low: nat, high: nat): int {
    if low <= high then Issued(high) - Issued(low) else 0
  }

  lemma {:induction false} SpanBound(low: nat, high: nat)
    ensures 0 <= Span(low, high) < UINT64
  {
    EmissionBound(high);
    if low < high {
      SpanBound(low, high - 1);
    }
  }

  /** A span is summed from its top; it is empty when it starts at or above its end. */
  lemma SpanDown(low: nat, high: nat)
    ensures low < high ==> Span(low, high) == Span(low + 1, high) + Reward(low)
    ensures low >= high ==> Span(low, high) == 0
    ensures 0 <= Span(low, high) < UINT64
  {
    SpanBound(low, high);
  }
}
