/** The block reward, and its sum over all blocks: the money supply. */
module BlockRewards {
  import opened Arithmetic

  const HALVING_INTERVAL: nat := 210000
  const INITIAL_REWARD: nat := 5_000_000_000
  const MAX_SUPPLY: nat := 2_099_999_997_690_000

  function EraReward(era: nat): nat {
    INITIAL_REWARD / Pow2(era)
  }

  function BlockReward(height: nat): nat {
    EraReward(height / HALVING_INTERVAL)
  }

  /** The reward starts with 50 coins, and halves after every 210,000 blocks. */
  lemma RewardHalves(height: nat)
    ensures height < 210_000 ==> BlockReward(height) == 50_0000_0000
    ensures BlockReward(height + 210_000) == BlockReward(height) / 2
  {
    var era := height / 210_000;
    QuotientIs(height + 210_000, 210_000, era + 1, height % 210_000);
    assert Pow2(era + 1) == Pow2(era) * 2 && Pow2(0) == 1;
    HalveLast(INITIAL_REWARD, Pow2(era));
  }

  lemma HalveLast(n: nat, k: nat)
    requires k > 0
    ensures n / (k * 2) == n / k / 2
  {
    var q, r := n / k, n % k;
    assert n == q * k + r;
    var h, b := q / 2, q % 2;
    assert q * k == (2 * h + b) * k == h * (k * 2) + b * k;
    assert b * k + r < k * 2;
    QuotientIs(n, k * 2, h, b * k + r);
  }

  /** The rewards of the first `n` blocks, genesis included. */
  function RewardSum(n: nat): nat {
    if n == 0 then 0 else RewardSum(n - 1) + BlockReward(n - 1)
  }

  /** The sum of the first `n` eras' rewards, one block of each. */
  function EraSum(n: nat): nat {
    if n == 0 then 0 else EraSum(n - 1) + EraReward(n - 1)
  }

  /** The rewards of `e` whole eras and `k` blocks more. */
  function Eras(e: nat, k: nat): nat {
    HALVING_INTERVAL * EraSum(e) + k * EraReward(e)
  }

  lemma OneMoreBlock(e: nat, k: nat)
    ensures Eras(e, k + 1) == Eras(e, k) + EraReward(e)
  {
    hide EraReward, EraSum;
    assert (k + 1) * EraReward(e) == k * EraReward(e) + EraReward(e);
  }

  lemma WholeEra(e: nat)
    ensures Eras(e + 1, 0) == Eras(e, HALVING_INTERVAL)
  {
    hide EraReward;
    assert EraSum(e + 1) == EraSum(e) + EraReward(e);
  }

  lemma NoEras()
    ensures Eras(0, 0) == 0
  {
    hide EraReward;
  }

  lemma {:induction false} SumByEras(n: nat)
    ensures RewardSum(n) == Eras(n / HALVING_INTERVAL, n % HALVING_INTERVAL)
  {
    hide EraReward, EraSum, Eras;
    if n > 0 {
      SumByEras(n - 1);
      var e, k := (n - 1) / HALVING_INTERVAL, (n - 1) % HALVING_INTERVAL;
      OneMoreBlock(e, k);
      WholeEra(e);
      if k + 1 < HALVING_INTERVAL {
        QuotientIs(n, HALVING_INTERVAL, e, k + 1);
      } else {
        QuotientIs(n, HALVING_INTERVAL, e + 1, 0);
      }
    } else {
      NoEras();
    }
  }

  lemma EraStep(n: nat, power: nat, sum: nat)
    requires Pow2(n) == power && EraSum(n) == sum
    ensures Pow2(n + 1) == 2 * power && EraSum(n + 1) == sum + INITIAL_REWARD / power
  {
  }

  lemma AllEras()
    ensures EraSum(33) * HALVING_INTERVAL == MAX_SUPPLY && Pow2(33) > INITIAL_REWARD
  {
    hide Pow2, EraSum, EraReward;
    FirstEra();
    EraStep(0, 0x1, 0);
    EraStep(1, 0x2, 5000000000);
    EraStep(2, 0x4, 7500000000);
    EraStep(3, 0x8, 8750000000);
    EraStep(4, 0x10, 9375000000);
    EraStep(5, 0x20, 9687500000);
    EraStep(6, 0x40, 9843750000);
    EraStep(7, 0x80, 9921875000);
    EraStep(8, 0x100, 9960937500);
    EraStep(9, 0x200, 9980468750);
    EraStep(10, 0x400, 9990234375);
    EraStep(11, 0x800, 9995117187);
    EraStep(12, 0x1000, 9997558593);
    EraStep(13, 0x2000, 9998779296);
    EraStep(14, 0x4000, 9999389647);
    EraStep(15, 0x8000, 9999694822);
    EraStep(16, 0x10000, 9999847409);
    EraStep(17, 0x20000, 9999923702);
    EraStep(18, 0x40000, 9999961848);
    EraStep(19, 0x80000, 9999980921);
    EraStep(20, 0x100000, 9999990457);
    EraStep(21, 0x200000, 9999995225);
    EraStep(22, 0x400000, 9999997609);
    EraStep(23, 0x800000, 9999998801);
    EraStep(24, 0x1000000, 9999999397);
    EraStep(25, 0x2000000, 9999999695);
    EraStep(26, 0x4000000, 9999999844);
    EraStep(27, 0x8000000, 9999999918);
    EraStep(28, 0x10000000, 9999999955);
    EraStep(29, 0x20000000, 9999999973);
    EraStep(30, 0x40000000, 9999999982);
    EraStep(31, 0x80000000, 9999999986);
    EraStep(32, 0x100000000, 9999999988);
  }

  lemma FirstEra()
    ensures Pow2(0) == 1 && EraSum(0) == 0
  {
  }

  lemma {:induction false} LateEra(n: nat)
    requires n >= 33
    ensures EraReward(n) == 0 && EraSum(n) == EraSum(33)
  {
    hide Pow2, EraSum;
    AllEras();
    PowersGrow(33, n);
    QuotientIs(INITIAL_REWARD, Pow2(n), 0, INITIAL_REWARD);
    if n > 33 {
      EraSumStep(n - 1);
      LateEra(n - 1);
    }
  }

  lemma {:induction false} PowersGrow(m: nat, n: nat)
    requires m <= n
    ensures Pow2(n) >= Pow2(m)
  {
    if n > m { PowersGrow(m, n - 1); }
  }

  lemma {:induction false} EraSumGrows(m: nat, n: nat)
    requires m <= n
    ensures EraSum(m) <= EraSum(n)
  {
    if m < n { EraSumGrows(m, n - 1); }
  }

  /** The supply never exceeds 2,099,999,997,690,000, and reaches it after 33 halvings. */
  lemma SupplyLimit(n: nat)
    ensures RewardSum(n) <= MAX_SUPPLY
    ensures n >= 33 * HALVING_INTERVAL ==> RewardSum(n) == MAX_SUPPLY
  {
    hide EraReward, EraSum, Pow2;
    SumByEras(n);
    AllEras();
    var e := n / HALVING_INTERVAL;
    if e >= 33 {
      LateEra(e);
      assert (n % HALVING_INTERVAL) * 0 == 0;
    } else {
      EraSumGrows(e + 1, 33);
      EraSumStep(e);
      PartOfEra(n % HALVING_INTERVAL, EraReward(e));
    }
  }

  lemma EraSumStep(e: nat)
    ensures EraSum(e + 1) == EraSum(e) + EraReward(e)
  {
  }

  lemma PartOfEra(k: nat, r: nat)
    requires k < HALVING_INTERVAL
    ensures k * r <= HALVING_INTERVAL * r
  {
  }
}
