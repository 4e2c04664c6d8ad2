/**
 * Token fees from Uniswap pools: contracts/enclave-smart-account/paymaster/EnclaveFeeLogicUniswap.sol.
 */
module FeeLogic {
  import opened Options
  import opened Words
  import opened FullMath
  import opened Congruence

  const Q96: nat := 0x1000000000000000000000000

  const WEI: nat := 1000000000000000000

  /** The state of the contract. */
  datatype Config = Config(weth: Address, markup: nat, markupDenominator: nat, feeTiers: seq<nat>)

  /** What the factory, the pools and the token answer; address 0 means that there is no pool. */
  datatype Market = Market(
    getPool: (Address, Address, nat) -> Address,
    liquidity: Address -> nat,
    sqrtPriceX96: Address -> nat,
    decimals: Address -> nat)

  /** Every answer is a word. */
  ghost predicate ValidMarket(m: Market) {
    forall pool :: m.liquidity(pool) < R && m.sqrtPriceX96(pool) < R
  }

  ghost predicate ValidConfig(cfg: Config) {
    cfg.markup < R && cfg.markupDenominator < R
  }

  // ---------------------------------------------------------------------------------------------
  // The pool with the most liquidity

  predicate Exists(cfg: Config, m: Market, token: Address, i: nat)
    requires i < |cfg.feeTiers|
  {
    m.getPool(cfg.weth, token, cfg.feeTiers[i]) != 0
  }

  function LiquidityAt(cfg: Config, m: Market, token: Address, i: nat): (r: nat)
    requires i < |cfg.feeTiers|
  {
    m.liquidity(m.getPool(cfg.weth, token, cfg.feeTiers[i]))
  }

  /** Pool i is among the best of the first n: no existing pool has more liquidity, or as much at a lower fee. */
  ghost predicate BestOf(cfg: Config, m: Market, token: Address, n: nat, i: nat)
    requires n <= |cfg.feeTiers|
  {
    && i < n && Exists(cfg, m, token, i)
    && forall j: nat :: j < n && Exists(cfg, m, token, j) ==>
         (|| LiquidityAt(cfg, m, token, j) < LiquidityAt(cfg, m, token, i)
          || (&& LiquidityAt(cfg, m, token, j) == LiquidityAt(cfg, m, token, i)
              && cfg.feeTiers[i] <= cfg.feeTiers[j]))
  }

  ghost predicate NoLiquidity(cfg: Config, m: Market, token: Address, n: nat)
    requires n <= |cfg.feeTiers|
  {
    forall j: nat :: j < n && Exists(cfg, m, token, j) ==> LiquidityAt(cfg, m, token, j) == 0
  }

  /** The fee is the least among existing pools of maximal liquidity, or 0 when no existing pool has any. */
  ghost predicate Optimal(cfg: Config, m: Market, token: Address, n: nat, fee: nat)
    requires n <= |cfg.feeTiers|
  {
    || (fee == 0 && NoLiquidity(cfg, m, token, n))
    || exists i: nat :: BestOf(cfg, m, token, n, i) && LiquidityAt(cfg, m, token, i) > 0 && fee == cfg.feeTiers[i]
  }

  /** The same tiers, in any order and with any repetitions. */
  ghost predicate SameTiers(cfg: Config, cfg': Config) {
    cfg.weth == cfg'.weth && forall f :: f in cfg.feeTiers <==> f in cfg'.feeTiers
  }

  /** A pool is known by its fee, so it is found under both configurations. */
  lemma SamePool(cfg: Config, cfg': Config, m: Market, token: Address, i: nat) returns (j: nat)
    requires SameTiers(cfg, cfg') && i < |cfg.feeTiers|
    ensures j < |cfg'.feeTiers| && cfg'.feeTiers[j] == cfg.feeTiers[i]
    ensures Exists(cfg', m, token, j) == Exists(cfg, m, token, i)
    ensures LiquidityAt(cfg', m, token, j) == LiquidityAt(cfg, m, token, i)
  {
    assert cfg.feeTiers[i] in cfg'.feeTiers;
    j :| 0 <= j < |cfg'.feeTiers| && cfg'.feeTiers[j] == cfg.feeTiers[i];
  }

  /** Two optimal fees under the same tiers: the second has no more liquidity, or as much at no lower fee. */
  lemma OptimalAtMost(cfg: Config, cfg': Config, m: Market, token: Address, i: nat, j: nat)
    requires SameTiers(cfg, cfg') && BestOf(cfg, m, token, |cfg.feeTiers|, i)
    requires j < |cfg'.feeTiers| && Exists(cfg', m, token, j)
    ensures || LiquidityAt(cfg', m, token, j) < LiquidityAt(cfg, m, token, i)
            || (&& LiquidityAt(cfg', m, token, j) == LiquidityAt(cfg, m, token, i)
                && cfg.feeTiers[i] <= cfg'.feeTiers[j])
  {
    var k := SamePool(cfg', cfg, m, token, j);
  }

  lemma NoLiquidityAnywhere(cfg: Config, cfg': Config, m: Market, token: Address, j: nat)
    requires SameTiers(cfg, cfg') && NoLiquidity(cfg, m, token, |cfg.feeTiers|)
    requires j < |cfg'.feeTiers| && Exists(cfg', m, token, j)
    ensures LiquidityAt(cfg', m, token, j) == 0
  {
    var k := SamePool(cfg', cfg, m, token, j);
  }

  /** The criterion fixes the fee, whatever the order and the repetitions of the tiers. */
  lemma OptimalUnique(cfg: Config, cfg': Config, m: Market, token: Address, fee: nat, fee': nat)
    requires SameTiers(cfg, cfg')
    requires Optimal(cfg, m, token, |cfg.feeTiers|, fee) && Optimal(cfg', m, token, |cfg'.feeTiers|, fee')
    ensures fee == fee'
  {
    hide Exists, LiquidityAt;
    if fee == 0 && NoLiquidity(cfg, m, token, |cfg.feeTiers|) {
      if j: nat :| BestOf(cfg', m, token, |cfg'.feeTiers|, j) && LiquidityAt(cfg', m, token, j) > 0
                   && fee' == cfg'.feeTiers[j] {
        NoLiquidityAnywhere(cfg, cfg', m, token, j);
      }
    } else {
      var i: nat :| BestOf(cfg, m, token, |cfg.feeTiers|, i) && LiquidityAt(cfg, m, token, i) > 0
                    && fee == cfg.feeTiers[i];
      if fee' == 0 && NoLiquidity(cfg', m, token, |cfg'.feeTiers|) {
        NoLiquidityAnywhere(cfg', cfg, m, token, i);
      } else {
        var j: nat :| BestOf(cfg', m, token, |cfg'.feeTiers|, j) && LiquidityAt(cfg', m, token, j) > 0
                      && fee' == cfg'.feeTiers[j];
        OptimalAtMost(cfg, cfg', m, token, i, j);
        OptimalAtMost(cfg', cfg, m, token, j, i);
      }
    }
  }

  /** findOptimalPool. */
  method FindOptimalPool(cfg: Config, m: Market, token: Address) returns (fee: nat)
    ensures Optimal(cfg, m, token, |cfg.feeTiers|, fee)
  {
    var bestLiquidity := 0;
    fee := 0;
    ghost var best: nat := 0;
    for i := 0 to |cfg.feeTiers|
      invariant bestLiquidity == 0 ==> fee == 0 && NoLiquidity(cfg, m, token, i)
      invariant bestLiquidity > 0 ==>
                  && BestOf(cfg, m, token, i, best)
                  && LiquidityAt(cfg, m, token, best) == bestLiquidity && fee == cfg.feeTiers[best]
    {
      var poolAddress := m.getPool(cfg.weth, token, cfg.feeTiers[i]);
      if poolAddress != 0 {
        var liquidity := m.liquidity(poolAddress);
        if liquidity > bestLiquidity || (liquidity == bestLiquidity && cfg.feeTiers[i] < fee) {
          fee := cfg.feeTiers[i];
          bestLiquidity := liquidity;
          best := i;
        }
      }
    }
  }

  /** A best pool of the first k stays best when pool k does not exist or is worse. */
  lemma BestStays(cfg: Config, m: Market, token: Address, k: nat, i: nat)
    requires k < |cfg.feeTiers| && BestOf(cfg, m, token, k, i)
    requires !Exists(cfg, m, token, k) || LiquidityAt(cfg, m, token, k) < LiquidityAt(cfg, m, token, i)
          || (LiquidityAt(cfg, m, token, k) == LiquidityAt(cfg, m, token, i) && cfg.feeTiers[i] <= cfg.feeTiers[k])
    ensures BestOf(cfg, m, token, k + 1, i)
  {
    hide Exists, LiquidityAt;
  }

  /** Pool k takes over from a best pool that it beats. */
  lemma BestReplaced(cfg: Config, m: Market, token: Address, k: nat, i: nat)
    requires k < |cfg.feeTiers| && BestOf(cfg, m, token, k, i) && Exists(cfg, m, token, k)
    requires LiquidityAt(cfg, m, token, k) > LiquidityAt(cfg, m, token, i)
          || (LiquidityAt(cfg, m, token, k) == LiquidityAt(cfg, m, token, i) && cfg.feeTiers[k] < cfg.feeTiers[i])
    ensures BestOf(cfg, m, token, k + 1, k)
  {
    hide Exists, LiquidityAt;
  }

  /** Pool k is the first with liquidity. */
  lemma BestFirst(cfg: Config, m: Market, token: Address, k: nat)
    requires k < |cfg.feeTiers| && NoLiquidity(cfg, m, token, k) && Exists(cfg, m, token, k)
    requires LiquidityAt(cfg, m, token, k) > 0
    ensures BestOf(cfg, m, token, k + 1, k)
  {
    hide Exists, LiquidityAt;
  }

  lemma {:induction false} OptimalExists(cfg: Config, m: Market, token: Address, n: nat) returns (fee: nat)
    requires n <= |cfg.feeTiers|
    ensures Optimal(cfg, m, token, n, fee)
  {
    hide Exists, LiquidityAt;
    if n == 0 {
      return 0;
    }
    var k := n - 1;
    fee := OptimalExists(cfg, m, token, k);
    if fee == 0 && NoLiquidity(cfg, m, token, k) {
      if Exists(cfg, m, token, k) && LiquidityAt(cfg, m, token, k) > 0 {
        BestFirst(cfg, m, token, k);
        fee := cfg.feeTiers[k];
      }
    } else {
      var i: nat :| BestOf(cfg, m, token, k, i) && LiquidityAt(cfg, m, token, i) > 0 && fee == cfg.feeTiers[i];
      var li, lk := LiquidityAt(cfg, m, token, i), LiquidityAt(cfg, m, token, k);
      if Exists(cfg, m, token, k) && (lk > li || (lk == li && cfg.feeTiers[k] < fee)) {
        BestReplaced(cfg, m, token, k, i);
        fee := cfg.feeTiers[k];
      } else {
        BestStays(cfg, m, token, k, i);
      }
    }
  }

  lemma SomeOptimal(cfg: Config, m: Market, token: Address)
    ensures exists fee: nat :: Optimal(cfg, m, token, |cfg.feeTiers|, fee)
  {
    var fee := OptimalExists(cfg, m, token, |cfg.feeTiers|);
  }

  ghost function OptimalFee(cfg: Config, m: Market, token: Address): (fee: nat)
    ensures Optimal(cfg, m, token, |cfg.feeTiers|, fee)
  {
    SomeOptimal(cfg, m, token);
    var fee: nat :| Optimal(cfg, m, token, |cfg.feeTiers|, fee);
    fee
  }

  // ---------------------------------------------------------------------------------------------
  // The fee pipeline

  function CheckedAdd(a: nat, b: nat): (r: Option<nat>) {
    if a + b < R then Some(a + b) else None
  }

  function CheckedSub(a: nat, b: nat): (r: Option<nat>) {
    if b <= a then Some(a - b) else None
  }

  function Pow10(e: nat): (r: nat) {
    if e == 0 then 1 else 10 * Pow10(e - 1)
  }

  function CheckedPow10(e: nat): (r: Option<nat>) {
    if Pow10(e) < R then Some(Pow10(e)) else None
  }

  /** What getAmountIn computes, given the fee of the chosen pool. */
  ghost function AmountIn(cfg: Config, m: Market, token: Address, fee: nat, amountOut: nat): (r: Option<nat>) {
    var pool := m.getPool(token, cfg.weth, fee);
    if pool == 0 then None else
    var priceX96 :- CheckedQuotient(m.sqrtPriceX96(pool), m.sqrtPriceX96(pool), Q96);
    var kept :- CheckedSub(1000, fee / 1000);
    var withFee :- CheckedQuotient(amountOut, 1000, kept);
    var impact :- CheckedQuotient(withFee, Q96, m.liquidity(pool));
    var newPriceX96 :- CheckedAdd(priceX96, impact);
    var raw :- CheckedQuotient(amountOut, newPriceX96, Q96);
    var unit :- CheckedPow10(m.decimals(token));
    var scaled :- CheckedQuotient(raw, unit, WEI);
    CheckedQuotient(scaled, cfg.markup, cfg.markupDenominator)
  }

  /** What calculateFee computes. */
  ghost function Fee(cfg: Config, m: Market, token: Address, gasPrice: nat, gasUsed: nat): (r: Option<nat>) {
    var baseFee :- CheckedQuotient(gasUsed, gasPrice, 1);
    if token == cfg.weth then Some(baseFee) else
    var amountIn :- AmountIn(cfg, m, token, OptimalFee(cfg, m, token), baseFee);
    CheckedQuotient(amountIn, cfg.markup, 100)
  }

  lemma HighMonotone(a: nat, b: nat, a': nat, b': nat)
    requires a * b <= a' * b'
    ensures MulHigh(a, b) <= MulHigh(a', b')
  {
    hide MulHigh, WMul;
    ProductSplit(a, b);
    ProductSplit(a', b');
    var h, h' := MulHigh(a, b), MulHigh(a', b');
    assert h' * R + R == (h' + 1) * R;
    MulLess(h, h' + 1, R);
  }

  lemma DivMonotone(t: nat, t': nat, d: nat)
    requires d > 0 && t <= t'
    ensures t / d <= t' / d
  {
    var q, q' := t / d, t' / d;
    assert t == q * d + t % d && t' == q' * d + t' % d;
    assert q' * d + d == (q' + 1) * d;
    MulLess(q, q' + 1, d);
  }

  /** The checked quotient is monotone, and so is the set on which it returns. */
  lemma QuotientMonotone(a: nat, b: nat, a': nat, b': nat, d: nat)
    requires a <= a' && b <= b' && CheckedQuotient(a', b', d).Some?
    ensures CheckedQuotient(a, b, d).Some? && CheckedQuotient(a, b, d).value <= CheckedQuotient(a', b', d).value
  {
    hide MulHigh, IsPowerOfTwo;
    MulMono(a, a', b);
    MulMono(b, b', a');
    HighMonotone(a, b, a', b');
    DivMonotone(a * b, a' * b', d);
  }

  lemma AmountMonotone(cfg: Config, m: Market, token: Address, fee: nat, out: nat, out': nat)
    requires out <= out' && AmountIn(cfg, m, token, fee, out').Some?
    ensures AmountIn(cfg, m, token, fee, out).Some?
    ensures AmountIn(cfg, m, token, fee, out).value <= AmountIn(cfg, m, token, fee, out').value
  {
    hide CheckedQuotient, Pow10;
    var pool := m.getPool(token, cfg.weth, fee);
    var kept := CheckedSub(1000, fee / 1000).value;
    QuotientMonotone(out, 1000, out', 1000, kept);
    var w, w' := CheckedQuotient(out, 1000, kept).value, CheckedQuotient(out', 1000, kept).value;
    QuotientMonotone(w, Q96, w', Q96, m.liquidity(pool));
    var i, i' := CheckedQuotient(w, Q96, m.liquidity(pool)).value, CheckedQuotient(w', Q96, m.liquidity(pool)).value;
    var price := CheckedQuotient(m.sqrtPriceX96(pool), m.sqrtPriceX96(pool), Q96).value;
    QuotientMonotone(out, price + i, out', price + i', Q96);
    var raw, raw' := CheckedQuotient(out, price + i, Q96).value, CheckedQuotient(out', price + i', Q96).value;
    var unit := CheckedPow10(m.decimals(token)).value;
    QuotientMonotone(raw, unit, raw', unit, WEI);
    QuotientMonotone(CheckedQuotient(raw, unit, WEI).value, cfg.markup,
                     CheckedQuotient(raw', unit, WEI).value, cfg.markup, cfg.markupDenominator);
  }

  /** More gas never costs less, and a fee that can be computed can be computed for less gas. */
  lemma FeeMonotone(cfg: Config, m: Market, token: Address, gasPrice: nat, gas: nat, gas': nat)
    requires gas <= gas' && Fee(cfg, m, token, gasPrice, gas').Some?
    ensures Fee(cfg, m, token, gasPrice, gas).Some?
    ensures Fee(cfg, m, token, gasPrice, gas).value <= Fee(cfg, m, token, gasPrice, gas').value
  {
    hide CheckedQuotient, AmountIn, OptimalFee;
    QuotientMonotone(gas, gasPrice, gas', gasPrice, 1);
    if token != cfg.weth {
      var fee := OptimalFee(cfg, m, token);
      var base, base' := CheckedQuotient(gas, gasPrice, 1).value, CheckedQuotient(gas', gasPrice, 1).value;
      AmountMonotone(cfg, m, token, fee, base, base');
      QuotientMonotone(AmountIn(cfg, m, token, fee, base).value, cfg.markup,
                       AmountIn(cfg, m, token, fee, base').value, cfg.markup, 100);
    }
  }

  // ---------------------------------------------------------------------------------------------
  // The value of the fee, in plain integers and up to the roundings

  /**
   * The price after the swap, in units of 2^-96: sqrtPrice^2 / 2^96 plus 1000 * out / kept * 2^96 / liquidity,
   * less at most the roundings of the three divisions.
   */
  ghost predicate PriceWithin(sqrtPrice: nat, liquidity: nat, kept: nat, out: nat, price: nat) {
    var unit := Q96 * liquidity * kept;
    var exact := sqrtPrice * sqrtPrice * (liquidity * kept) + 1000 * out * (Q96 * Q96);
    && liquidity > 0 && kept > 0
    && price * unit <= exact < price * unit + 2 * unit + kept * (Q96 * Q96)
  }

  /** out * price * tokenUnit * markup over 2^96 * 10^18 * denominator, less at most the three roundings. */
  ghost predicate AmountWithin(out: nat, price: nat, tokenUnit: nat, markup: nat, denominator: nat, amount: nat) {
    var unit := Q96 * WEI * denominator;
    var exact := out * price * (tokenUnit * markup);
    && denominator > 0
    && amount * unit <= exact < amount * unit + unit + Q96 * WEI * markup + Q96 * tokenUnit * markup
  }

  /** The amount with the markup applied once more, in percent. */
  ghost predicate FeeWithin(out: nat, price: nat, tokenUnit: nat, markup: nat, denominator: nat, fee: nat) {
    var unit := Q96 * WEI * denominator;
    var exact := out * price * (tokenUnit * markup) * markup;
    && denominator > 0
    && fee * (100 * unit) <= exact
    && exact < fee * (100 * unit) + 100 * unit
               + (unit + Q96 * WEI * markup + Q96 * tokenUnit * markup) * markup
  }

  /** The price belongs to the pool of the fee tier. */
  ghost predicate PriceOf(cfg: Config, m: Market, token: Address, fee: nat, out: nat, price: nat) {
    var pool := m.getPool(token, cfg.weth, fee);
    && pool != 0 && fee / 1000 < 1000
    && PriceWithin(m.sqrtPriceX96(pool), m.liquidity(pool), 1000 - fee / 1000, out, price)
  }

  ghost predicate AmountOf(cfg: Config, m: Market, token: Address, fee: nat, out: nat, amount: nat) {
    exists price: nat :: PriceOf(cfg, m, token, fee, out, price)
      && AmountWithin(out, price, Pow10(m.decimals(token)), cfg.markup, cfg.markupDenominator, amount)
  }

  ghost predicate FeeOf(cfg: Config, m: Market, token: Address, fee: nat, out: nat, charge: nat) {
    exists price: nat :: PriceOf(cfg, m, token, fee, out, price)
      && FeeWithin(out, price, Pow10(m.decimals(token)), cfg.markup, cfg.markupDenominator, charge)
  }

  /** Decimal powers against the constants of the source. */
  lemma DecimalPowers(e: nat)
    ensures Pow10(0) == 1 && Pow10(e + 1) == 10 * Pow10(e) && Pow10(18) == WEI
  {
    assert Pow10(2) == 100;
    assert Pow10(4) == 10000;
    assert Pow10(6) == 1000000;
    assert Pow10(8) == 100000000;
    assert Pow10(10) == 10000000000;
    assert Pow10(12) == 1000000000000;
    assert Pow10(14) == 100000000000000;
    assert Pow10(16) == 10000000000000000;
  }

  lemma QuotientBounds(a: nat, b: nat, d: nat)
    requires CheckedQuotient(a, b, d).Some?
    ensures var q := CheckedQuotient(a, b, d).value; d > 0 && q * d <= a * b < q * d + d
  {
    DivideWith(a * b, d);
    hide IsPowerOfTwo, MulHigh;
  }

  /** Scaling both sides of a rounded quotient. */
  lemma ScaleBounds(q: nat, d: nat, t: nat, k: nat)
    requires q * d <= t < q * d + d
    ensures (q * d) * k <= t * k <= (q * d) * k + d * k
    ensures k > 0 ==> t * k < (q * d) * k + d * k
  {
    MulMono(q * d, t, k);
    MulMono(t + 1, q * d + d, k);
    assert (t + 1) * k == t * k + k && (q * d + d) * k == (q * d) * k + d * k;
  }

  lemma Exchange(a: int, b: int, c: int, d: int)
    ensures (a * b) * (c * d) == (a * c) * (b * d)
  {
  }

  lemma PriceBounds(x: nat, liquidity: nat, kept: nat, out: nat, priceX96: nat, withFee: nat, impact: nat, q: nat)
    requires q > 0 && liquidity > 0 && kept > 0
    requires priceX96 * q <= x < priceX96 * q + q
    requires withFee * kept <= out * 1000 < withFee * kept + kept
    requires impact * liquidity <= withFee * q < impact * liquidity + liquidity
    ensures var unit := q * liquidity * kept;
      var exact := x * (liquidity * kept) + 1000 * out * (q * q);
      (priceX96 + impact) * unit <= exact < (priceX96 + impact) * unit + 2 * unit + kept * (q * q)
  {
    ScaleBounds(priceX96, q, x, liquidity * kept);
    ScaleBounds(impact, liquidity, withFee * q, q * kept);
    ScaleBounds(withFee, kept, out * 1000, q * q);
    Exchange(withFee, q, q, kept);
    Exchange(withFee, kept, q, q);
    PriceUnits(priceX96, impact, q, liquidity, kept);
    assert withFee * q * (q * kept) == withFee * kept * (q * q);
  }

  lemma PriceUnits(priceX96: int, impact: int, q: int, liquidity: int, kept: int)
    ensures var unit := q * liquidity * kept;
      && (priceX96 * q) * (liquidity * kept) == priceX96 * unit && q * (liquidity * kept) == unit
      && (impact * liquidity) * (q * kept) == impact * unit && liquidity * (q * kept) == unit
      && (priceX96 + impact) * unit == priceX96 * unit + impact * unit
  {
    Regroup(q, liquidity, kept);
    Regroup(priceX96, q, liquidity * kept);
    Regroup(liquidity, q, kept);
    Regroup(impact, liquidity, q * kept);
    assert liquidity * q == q * liquidity;
  }

  lemma AmountBounds(t: nat, unit: nat, markup: nat, d: nat, q: nat, w: nat, raw: nat, scaled: nat, r: nat)
    requires q > 0 && w > 0 && d > 0
    requires raw * q <= t < raw * q + q
    requires scaled * w <= raw * unit < scaled * w + w
    requires r * d <= scaled * markup < r * d + d
    ensures r * (q * w * d) <= t * (unit * markup)
    ensures t * (unit * markup) < r * (q * w * d) + q * w * d + q * w * markup + q * unit * markup
  {
    ScaleBounds(raw, q, t, unit * markup);
    ScaleBounds(scaled, w, raw * unit, q * markup);
    ScaleBounds(r, d, scaled * markup, w * q);
    Exchange(raw, q, unit, markup);
    Exchange(scaled, w, markup, q);
    assert scaled * w * (q * markup) == (scaled * markup) * (w * q);
    AmountUnits(r, q, w, d, markup, unit);
  }

  lemma AmountUnits(r: int, q: int, w: int, d: int, markup: int, unit: int)
    ensures (r * d) * (w * q) == r * (q * w * d) && d * (w * q) == q * w * d
    ensures w * (q * markup) == q * w * markup && q * (unit * markup) == q * unit * markup
  {
    Regroup(r, d, w * q);
    Regroup(q, w, markup);
    SwapFactors(w, q, markup);
    Regroup(q, unit, markup);
    assert d * (w * q) == q * w * d;
  }

  lemma FeeBounds(amount: nat, unit: nat, exact: nat, slack: nat, markup: nat, fee: nat)
    requires unit > 0 && amount * unit <= exact < amount * unit + slack
    requires fee * 100 <= amount * markup < fee * 100 + 100
    ensures fee * (100 * unit) <= exact * markup < fee * (100 * unit) + 100 * unit + slack * markup
  {
    ScaleBounds(fee, 100, amount * markup, unit);
    MulMono(amount * unit, exact, markup);
    MulMono(exact, amount * unit + slack, markup);
    assert (amount * unit + slack) * markup == (amount * unit) * markup + slack * markup;
    assert (amount * unit) * markup == (amount * markup) * unit;
    Regroup(fee, 100, unit);
  }

  /** Whatever getAmountIn returns is the amount of the plain formula, up to the roundings. */
  lemma AmountValue(cfg: Config, m: Market, token: Address, fee: nat, out: nat)
    returns (price: nat)
    requires AmountIn(cfg, m, token, fee, out).Some?
    ensures PriceOf(cfg, m, token, fee, out, price)
    ensures AmountWithin(out, price, Pow10(m.decimals(token)), cfg.markup, cfg.markupDenominator,
                         AmountIn(cfg, m, token, fee, out).value)
  {
    Positive();
    hide CheckedQuotient, Pow10, Q96, WEI;
    var pool := m.getPool(token, cfg.weth, fee);
    var s, l, kept := m.sqrtPriceX96(pool), m.liquidity(pool), 1000 - fee / 1000;
    QuotientBounds(s, s, Q96);
    QuotientBounds(out, 1000, kept);
    var priceX96, withFee := CheckedQuotient(s, s, Q96).value, CheckedQuotient(out, 1000, kept).value;
    QuotientBounds(withFee, Q96, l);
    var impact := CheckedQuotient(withFee, Q96, l).value;
    PriceBounds(s * s, l, kept, out, priceX96, withFee, impact, Q96);
    price := priceX96 + impact;
    AmountSteps(cfg, out, price, Pow10(m.decimals(token)));
  }

  /** The three divisions after the price. */
  lemma AmountSteps(cfg: Config, out: nat, price: nat, unit: nat)
    requires var raw := CheckedQuotient(out, price, Q96);
      raw.Some? && var scaled := CheckedQuotient(raw.value, unit, WEI);
      scaled.Some? && CheckedQuotient(scaled.value, cfg.markup, cfg.markupDenominator).Some?
    ensures var raw := CheckedQuotient(out, price, Q96).value;
      var scaled := CheckedQuotient(raw, unit, WEI).value;
      AmountWithin(out, price, unit, cfg.markup, cfg.markupDenominator,
                   CheckedQuotient(scaled, cfg.markup, cfg.markupDenominator).value)
  {
    Positive();
    hide CheckedQuotient, Q96, WEI;
    QuotientBounds(out, price, Q96);
    var raw := CheckedQuotient(out, price, Q96).value;
    QuotientBounds(raw, unit, WEI);
    var scaled := CheckedQuotient(raw, unit, WEI).value;
    QuotientBounds(scaled, cfg.markup, cfg.markupDenominator);
    AmountBounds(out * price, unit, cfg.markup, cfg.markupDenominator, Q96, WEI, raw, scaled,
                 CheckedQuotient(scaled, cfg.markup, cfg.markupDenominator).value);
  }

  lemma Positive()
    ensures Q96 > 0 && WEI > 0
  {
  }

  /** Whatever calculateFee returns: the price of the gas for WETH, and the plain formula for any other token. */
  lemma FeeValue(cfg: Config, m: Market, token: Address, gasPrice: nat, gasUsed: nat)
    ensures var fee := Fee(cfg, m, token, gasPrice, gasUsed);
      && (token == cfg.weth ==> fee == if gasUsed * gasPrice < R then Some(gasUsed * gasPrice) else None)
      && (token != cfg.weth && fee.Some? ==>
            FeeOf(cfg, m, token, OptimalFee(cfg, m, token), gasUsed * gasPrice, fee.value))
  {
    GasQuotient(gasUsed, gasPrice);
    hide CheckedQuotient, AmountIn, OptimalFee;
    var fee := Fee(cfg, m, token, gasPrice, gasUsed);
    if token != cfg.weth && fee.Some? {
      FeeSteps(cfg, m, token, OptimalFee(cfg, m, token), gasUsed * gasPrice);
    }
  }

  lemma FeeSteps(cfg: Config, m: Market, token: Address, tier: nat, out: nat)
    requires AmountIn(cfg, m, token, tier, out).Some?
    requires CheckedQuotient(AmountIn(cfg, m, token, tier, out).value, cfg.markup, 100).Some?
    ensures FeeOf(cfg, m, token, tier, out,
                  CheckedQuotient(AmountIn(cfg, m, token, tier, out).value, cfg.markup, 100).value)
  {
    Positive();
    hide CheckedQuotient, AmountIn, Pow10, Q96, WEI, PriceOf;
    var amount := AmountIn(cfg, m, token, tier, out).value;
    var price := AmountValue(cfg, m, token, tier, out);
    QuotientBounds(amount, cfg.markup, 100);
    var fee := CheckedQuotient(amount, cfg.markup, 100).value;
    var tokenUnit, unit := Pow10(m.decimals(token)), Q96 * WEI * cfg.markupDenominator;
    UnitPositive(cfg.markupDenominator);
    FeeBounds(amount, unit, out * price * (tokenUnit * cfg.markup),
              unit + Q96 * WEI * cfg.markup + Q96 * tokenUnit * cfg.markup, cfg.markup, fee);
    assert FeeWithin(out, price, tokenUnit, cfg.markup, cfg.markupDenominator, fee);
  }

  lemma UnitPositive(d: nat)
    requires d > 0
    ensures Q96 * WEI * d > 0
  {
  }

  /** Dividing by 1 returns exactly the products that fit a word. */
  lemma GasQuotient(a: nat, b: nat)
    ensures CheckedQuotient(a, b, 1) == if a * b < R then Some(a * b) else None
  {
    hide WMul, MulHigh;
    ProductSplit(a, b);
    if MulHigh(a, b) < 1 {
      assert MulHigh(a, b) * R == 0;
    }
    assert (a * b) / 1 == a * b;
  }

  // ---------------------------------------------------------------------------------------------
  // The contract's functions

  lemma QuotientWord(a: nat, b: nat, d: nat)
    ensures CheckedQuotient(a, b, d).Some? ==> CheckedQuotient(a, b, d).value < R
  {
    if CheckedReturns(a, b, d) {
      QuotientInWord(a, b, d);
    }
  }

  /** A checked mulDiv whose result is known to be a word. */
  method Scale(a: nat, b: nat, d: nat) returns (result: Option<nat>)
    requires a < R && b < R && d < R
    ensures result == CheckedQuotient(a, b, d)
    ensures result.Some? ==> result.value < R
  {
    hide *;
    QuotientWord(a, b, d);
    result := CheckedMulDiv(a, b, d);
  }

  /** getAmountIn. */
  method GetAmountIn(cfg: Config, m: Market, token: Address, amountOut: nat) returns (result: Option<nat>)
    requires ValidMarket(m) && ValidConfig(cfg) && amountOut < R
    ensures result == AmountIn(cfg, m, token, OptimalFee(cfg, m, token), amountOut)
    ensures result.Some? ==>
              result.value < R && AmountOf(cfg, m, token, OptimalFee(cfg, m, token), amountOut, result.value)
  {
    hide AmountIn, PriceOf, AmountWithin;
    var fee := FindOptimalPool(cfg, m, token);
    OptimalUnique(cfg, cfg, m, token, fee, OptimalFee(cfg, m, token));
    result := AmountAtFee(cfg, m, token, fee, amountOut);
    if result.Some? {
      ghost var price := AmountValue(cfg, m, token, fee, amountOut);
    }
  }

  method AmountAtFee(cfg: Config, m: Market, token: Address, fee: nat, amountOut: nat) returns (result: Option<nat>)
    requires ValidMarket(m) && ValidConfig(cfg) && amountOut < R
    ensures result == AmountIn(cfg, m, token, fee, amountOut)
    ensures result.Some? ==> result.value < R
  {
    SmallWords();
    hide CheckedQuotient, Pow10, Q96, WEI;
    var poolAddress := m.getPool(token, cfg.weth, fee);
    if poolAddress == 0 { return None; }
    var sqrtPriceX96 := m.sqrtPriceX96(poolAddress);
    var priceX96 :- Scale(sqrtPriceX96, sqrtPriceX96, Q96);
    var kept :- CheckedSub(1000, fee / 1000);
    var ethAmountWithFee :- Scale(amountOut, 1000, kept);
    var impact :- Scale(ethAmountWithFee, Q96, m.liquidity(poolAddress));
    var newPriceX96 :- CheckedAdd(priceX96, impact);
    var amountIn :- Scale(amountOut, newPriceX96, Q96);
    var unit :- CheckedPow10(m.decimals(token));
    amountIn :- Scale(amountIn, unit, WEI);
    result := Scale(amountIn, cfg.markup, cfg.markupDenominator);
  }

  lemma SmallWords()
    ensures Q96 < R && WEI < R && 1000 < R
  {
    WordValue();
  }

  /** calculateFee. */
  method CalculateFee(cfg: Config, m: Market, token: Address, gasPrice: nat, gasUsed: nat) returns (result: Option<nat>)
    requires ValidMarket(m) && ValidConfig(cfg) && gasPrice < R && gasUsed < R
    ensures result == Fee(cfg, m, token, gasPrice, gasUsed)
    ensures token == cfg.weth ==> result == if gasUsed * gasPrice < R then Some(gasUsed * gasPrice) else None
    ensures token != cfg.weth && result.Some? ==>
              FeeOf(cfg, m, token, OptimalFee(cfg, m, token), gasUsed * gasPrice, result.value)
  {
    SmallWords();
    FeeValue(cfg, m, token, gasPrice, gasUsed);
    hide CheckedQuotient, AmountIn, OptimalFee, FeeOf, AmountOf;
    var baseFeeInEth :- Scale(gasUsed, gasPrice, 1);
    if token == cfg.weth { return Some(baseFeeInEth); }
    var amountIn :- GetAmountIn(cfg, m, token, baseFeeInEth);
    result := Scale(amountIn, cfg.markup, 100);
  }

}
