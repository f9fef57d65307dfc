/** Shrinking a purchase until its notional and costs fit the cash available. */
module Affordable {
  import opened Arithmetic
  import opened Domain
  import opened Costs

  /** Truncation toward zero, as an integer conversion of a quotient does. */
  function Truncate(x: real): int {
    if x >= 0.0 then x.Floor else -((-x).Floor)
  }

  function Notional(price: Positive, shares: int): Positive
    requires shares > 0
  {
    TimesPositive(price, shares as real);
    Times(price, shares as real)
  }

  /** Everything a purchase takes out of cash. */
  function Outlay(cfg: CostConfig, sid: SecurityId, price: Positive, liquidity: Option<real>, shares: int): real
    requires shares > 0
  {
    Notional(price, shares) + Cost(cfg, sid, Buy, Notional(price, shares), liquidity).Total()
  }

  lemma OutlayPositive(cfg: CostConfig, sid: SecurityId, price: Positive, liquidity: Option<real>, shares: int)
    requires shares > 0
    ensures Outlay(cfg, sid, price, liquidity, shares) >= Notional(price, shares) > 0.0
  {
    CostsAreNonNegative(cfg, sid, Buy, Notional(price, shares), liquidity);
  }

  /** The share count reduced in the proportion of cash to outlay. */
  function Proportional(shares: int, cash: real, outlay: real): int
    requires outlay > 0.0
  {
    Truncate(Times(shares as real, cash) / outlay)
  }

  /** The next candidate when `shares` cost `outlay`, more than `cash`. */
  function Shrunk(shares: int, cash: real, outlay: real): (r: int)
    requires outlay > 0.0
    ensures r < shares
  {
    Min(shares - 1, Proportional(shares, cash, outlay))
  }

  function AffordableShares(cfg: CostConfig, sid: SecurityId, price: Positive, liquidity: Option<real>,
                            cash: real, shares: int): int
    decreases if shares > 0 then shares else 0
  {
    if shares <= 0 then 0
    else
      var outlay := Outlay(cfg, sid, price, liquidity, shares);
      OutlayPositive(cfg, sid, price, liquidity, shares);
      if outlay <= cash then shares
      else AffordableShares(cfg, sid, price, liquidity, cash, Shrunk(shares, cash, outlay))
  }

  /** The shrinking loop; it ends because every candidate is smaller than the last. */
  method FindAffordableShares(cfg: CostConfig, sid: SecurityId, price: Positive, liquidity: Option<real>,
                              cash: real, requested: int) returns (shares: int)
    ensures shares == AffordableShares(cfg, sid, price, liquidity, cash, requested)
    ensures 0 <= shares <= Max(0, requested)
    ensures shares > 0 ==> Outlay(cfg, sid, price, liquidity, shares) <= cash
  {
    shares := requested;
    while shares > 0
      invariant shares <= Max(0, requested)
      invariant AffordableShares(cfg, sid, price, liquidity, cash, shares)
             == AffordableShares(cfg, sid, price, liquidity, cash, requested)
    {
      var outlay := Outlay(cfg, sid, price, liquidity, shares);
      OutlayPositive(cfg, sid, price, liquidity, shares);
      if outlay <= cash {
        return;
      }
      shares := Shrunk(shares, cash, outlay);
    }
    shares := 0;
  }

  /** Never above the request, and always within the cash. */
  lemma {:induction false} AffordableSharesFit(cfg: CostConfig, sid: SecurityId, price: Positive, liquidity: Option<real>,
                                               cash: real, shares: int)
    ensures var r := AffordableShares(cfg, sid, price, liquidity, cash, shares);
            0 <= r <= Max(0, shares) && (r > 0 ==> Outlay(cfg, sid, price, liquidity, r) <= cash)
    decreases if shares > 0 then shares else 0
  {
    if shares > 0 {
      OutlayPositive(cfg, sid, price, liquidity, shares);
      var outlay := Outlay(cfg, sid, price, liquidity, shares);
      if outlay > cash {
        AffordableSharesFit(cfg, sid, price, liquidity, cash, Shrunk(shares, cash, outlay));
      }
    }
  }

  // ----- the outlay as a function of the share count

  ghost function MaxReal(x: real, y: real): real {
    if x >= y then x else y
  }

  /** A linear charge, a charge with a floor, and a charge on the square of the size. */
  ghost function Charge(a: real, c: real, m: real, b: real, n: real): real {
    Times(a, n) + MaxReal(Times(c, n), m) + Times(Times(b, n), n)
  }

  /** The impact charge that does not grow with participation. */
  ghost function FlatImpact(cfg: CostConfig, liquidity: Option<real>): real {
    if Evidence(liquidity) then 0.0 else cfg.impactBps * BPS
  }

  ghost function StampRate(cfg: CostConfig, sid: SecurityId): real {
    if cfg.stampExempt(sid) then 0.0 else cfg.stampDutyBps * BPS
  }

  /** What a share costs apart from the commission and market impact that grows with size. */
  ghost function FlatRate(cfg: CostConfig, sid: SecurityId, price: Positive, liquidity: Option<real>): real {
    Times(price, 1.0 + cfg.spreadBps / 2.0 * BPS + StampRate(cfg, sid) + FlatImpact(cfg, liquidity))
  }

  ghost function CommissionRate(cfg: CostConfig, price: Positive): real {
    Times(price, cfg.commissionBps * BPS)
  }

  /** Coefficient of the squared share count. */
  ghost function ImpactRate(cfg: CostConfig, price: Positive, liquidity: Option<real>): real {
    if Evidence(liquidity) then Times(Times(price, cfg.impactBps * BPS), price / liquidity.value) else 0.0
  }

  lemma TimesSwap(p: real, n: real, r: real)
    ensures Times(Times(p, n), r) == Times(Times(p, r), n)
  {
  }

  lemma TimesQuotient(p: real, n: real, l: real)
    requires l > 0.0
    ensures Times(p, n) / l == Times(p / l, n)
  {
  }

  lemma TimesBoth(a: real, b: real, n: real)
    ensures Times(Times(a, n), Times(b, n)) == Times(Times(Times(a, b), n), n)
  {
  }

  lemma TimesSum(p: real, n: real, s: real, d: real, f: real)
    ensures Times(p, n) + Times(Times(p, n), s) + Times(Times(p, n), d) + Times(Times(p, n), f)
         == Times(Times(p, 1.0 + s + d + f), n)
  {
  }

  lemma ImpactSplit(cfg: CostConfig, price: Positive, liquidity: Option<real>, n: real)
    ensures Impact(cfg, Times(price, n), liquidity)
         == Times(Times(price, n), FlatImpact(cfg, liquidity)) + Times(Times(ImpactRate(cfg, price, liquidity), n), n)
  {
    hide Times;
    var k := cfg.impactBps * BPS;
    var x := Times(price, n);
    TimesUnits(x);
    TimesUnits(n);
    TimesUnits(Times(x, k));
    if Evidence(liquidity) {
      var l := liquidity.value;
      TimesSwap(price, n, k);
      TimesQuotient(price, n, l);
      TimesBoth(Times(price, k), price / l, n);
    }
  }

  lemma OutlayIsCharge(cfg: CostConfig, sid: SecurityId, price: Positive, liquidity: Option<real>, shares: int)
    requires shares > 0
    ensures Outlay(cfg, sid, price, liquidity, shares)
         == Charge(FlatRate(cfg, sid, price, liquidity), CommissionRate(cfg, price), cfg.commissionMin,
                   ImpactRate(cfg, price, liquidity), shares as real)
  {
    hide Times;
    hide Impact;
    hide ImpactRate;
    hide FlatImpact;
    var n := shares as real;
    TimesUnits(Times(price, n));
    ImpactSplit(cfg, price, liquidity, n);
    TimesSum(price, n, cfg.spreadBps / 2.0 * BPS, StampRate(cfg, sid), FlatImpact(cfg, liquidity));
    TimesSwap(price, n, cfg.commissionBps * BPS);
  }

  // ----- when the count found is the largest affordable one

  ghost predicate Fits(cfg: CostConfig, sid: SecurityId, price: Positive, liquidity: Option<real>, cash: real, shares: int) {
    shares > 0 && Outlay(cfg, sid, price, liquidity, shares) <= cash
  }

  ghost predicate FindsLargest(cfg: CostConfig, sid: SecurityId, price: Positive, liquidity: Option<real>,
                               cash: real, shares: int) {
    forall n :: AffordableShares(cfg, sid, price, liquidity, cash, shares) < n <= shares
                ==> !Fits(cfg, sid, price, liquidity, cash, n)
  }

  /** Without size-dependent impact a smaller order never costs less per share. */
  lemma SmallerIsNoCheaper(a: real, c: real, m: real, j: real, n: real)
    requires 0.0 < j <= n && m >= 0.0
    ensures Times(Charge(a, c, m, 0.0, j), n) >= Times(Charge(a, c, m, 0.0, n), j)
  {
    assert (a * j) * n == (a * n) * j;
    if c * n >= m {
      assert MaxReal(c * j, m) * n >= (c * j) * n == (c * n) * j;
    } else {
      assert MaxReal(c * j, m) * n >= m * n >= m * j;
    }
  }

  lemma QuotientAtLeast(s: real, cash: real, whole: real, part: real, n: real)
    requires s > 0.0 && whole > 0.0 && part <= cash && Times(part, s) >= Times(whole, n)
    ensures Times(s, cash) / whole >= n
  {
    var t := Times(s, cash);
    assert t >= s * part;
    assert t >= whole * n;
    QuotientBound(t, whole, n);
  }

  lemma QuotientBound(t: real, whole: real, n: real)
    requires whole > 0.0
    ensures t >= whole * n <==> t / whole >= n
  {
  }

  lemma TruncateAtLeast(q: real, n: int)
    requires n >= 0 && q >= n as real
    ensures Truncate(q) >= n
  {
  }

  /** Without size-dependent impact one shrinking step skips no count that fits. */
  lemma FlatImpactKeeps(cfg: CostConfig, sid: SecurityId, price: Positive, liquidity: Option<real>,
                        cash: real, shares: int, n: int)
    requires cfg.impactBps == 0.0 || !Evidence(liquidity)
    requires 0 < n <= shares && Outlay(cfg, sid, price, liquidity, n) <= cash
    requires Outlay(cfg, sid, price, liquidity, shares) > cash
    requires Outlay(cfg, sid, price, liquidity, shares) > 0.0
    ensures n <= Shrunk(shares, cash, Outlay(cfg, sid, price, liquidity, shares))
  {
    hide Outlay;
    hide FlatRate;
    hide CommissionRate;
    hide Charge;
    hide Truncate;
    assert ImpactRate(cfg, price, liquidity) == 0.0 by {
      hide Times;
      TimesUnits(price);
      if Evidence(liquidity) {
        TimesUnits(price / liquidity.value);
      }
    }
    hide ImpactRate;
    hide Times;
    var whole, part := Outlay(cfg, sid, price, liquidity, shares), Outlay(cfg, sid, price, liquidity, n);
    OutlayIsCharge(cfg, sid, price, liquidity, n);
    OutlayIsCharge(cfg, sid, price, liquidity, shares);
    SmallerIsNoCheaper(FlatRate(cfg, sid, price, liquidity), CommissionRate(cfg, price), cfg.commissionMin,
                       n as real, shares as real);
    QuotientAtLeast(shares as real, cash, whole, part, n as real);
    TruncateAtLeast(Times(shares as real, cash) / whole, n);
  }

  lemma {:induction false} FlatImpactFindsLargest(cfg: CostConfig, sid: SecurityId, price: Positive, liquidity: Option<real>,
                                                  cash: real, shares: int)
    requires cfg.impactBps == 0.0 || !Evidence(liquidity)
    ensures FindsLargest(cfg, sid, price, liquidity, cash, shares)
    decreases if shares > 0 then shares else 0
  {
    if shares > 0 {
      OutlayPositive(cfg, sid, price, liquidity, shares);
      var outlay := Outlay(cfg, sid, price, liquidity, shares);
      if outlay > cash {
        var next := Shrunk(shares, cash, outlay);
        FlatImpactFindsLargest(cfg, sid, price, liquidity, cash, next);
        AffordableSharesFit(cfg, sid, price, liquidity, cash, next);
        forall n | 0 < n <= shares && Fits(cfg, sid, price, liquidity, cash, n)
          ensures n <= next
        {
          FlatImpactKeeps(cfg, sid, price, liquidity, cash, shares, n);
        }
      }
    }
  }

  /** Once impact outgrows the commission floor, dropping one share saves more than its proportion. */
  lemma LargerIsDearer(a: real, c: real, m: real, b: real, j: real, n: real)
    requires c >= 0.0 && m >= 0.0 && b > 0.0 && j >= 1.0 && Times(b, j) >= m && n == j + 1.0
    ensures Times(Charge(a, c, m, b, j), n) < Times(Charge(a, c, m, b, n), j)
  {
    assert (a * j) * n == (a * n) * j;
    assert (b * n * n) * j - (b * j * j) * n == (b * j) * n;
    assert (b * j) * n > m by {
      assert (b * j) * n == (b * j) + (b * j) * j;
      assert (b * j) * j > 0.0;
    }
    if c * j >= m {
      assert MaxReal(c * j, m) * n == (c * j) * n == (c * n) * j <= MaxReal(c * n, m) * j;
    } else {
      assert MaxReal(c * j, m) * n == m * n == m * j + m;
      assert m * j <= MaxReal(c * n, m) * j;
    }
  }

  lemma StrictlyDearer(part: real, whole: real, j: real, n: real)
    requires 0.0 < j <= n && part >= 0.0 && Times(part, n) < Times(whole, j)
    ensures part < whole
  {
    assert part * j <= part * n;
    assert (whole - part) * j > 0.0;
  }

  lemma QuotientBelow(s: real, cash: real, whole: real, j: real)
    requires s > 0.0 && whole > 0.0 && cash >= 0.0 && Times(cash, s) < Times(whole, j)
    ensures 0.0 <= Times(s, cash) / whole < j
  {
    var t := Times(s, cash);
    assert 0.0 <= t < whole * j;
    QuotientBound(t, whole, j);
    QuotientNonNegative(t, whole);
  }

  lemma TruncateBelow(q: real, j: int)
    requires 0.0 <= q < j as real
    ensures Truncate(q) < j
  {
  }

  lemma ImpactOutgrows(b: real, m: real) returns (j: int)
    requires b > 0.0 && m >= 0.0
    ensures j >= 1 && Times(b, j as real) >= m
  {
    QuotientNonNegative(m, b);
    j := (m / b).Floor + 1;
    QuotientBound(m, b, j as real);
  }

  lemma ImpactRatePositive(cfg: CostConfig, price: Positive, liquidity: Option<real>)
    requires cfg.impactBps > 0.0 && Evidence(liquidity)
    ensures ImpactRate(cfg, price, liquidity) > 0.0
    ensures CommissionRate(cfg, price) >= 0.0
  {
    hide Times;
    TimesPositive(price, cfg.impactBps * BPS);
    assert price / liquidity.value > 0.0;
    TimesPositive(Times(price, cfg.impactBps * BPS), price / liquidity.value);
    TimesNonNegative(price, cfg.commissionBps * BPS);
  }

  /** With size-dependent impact some request is cut below a count that still fits: one more
      share than fits, at the point where impact has outgrown the commission floor. */
  lemma RisingImpactUndershoots(cfg: CostConfig, sid: SecurityId, price: Positive, liquidity: Option<real>)
    returns (cash: real, shares: int)
    requires cfg.impactBps > 0.0 && Evidence(liquidity)
    ensures !FindsLargest(cfg, sid, price, liquidity, cash, shares)
  {
    hide Outlay;
    hide Charge;
    hide ImpactRate;
    hide FlatRate;
    hide CommissionRate;
    hide Notional;
    hide Times;
    hide Truncate;
    var a, c, b := FlatRate(cfg, sid, price, liquidity), CommissionRate(cfg, price), ImpactRate(cfg, price, liquidity);
    ImpactRatePositive(cfg, price, liquidity);
    var j := ImpactOutgrows(b, cfg.commissionMin);
    shares := j + 1;
    cash := Outlay(cfg, sid, price, liquidity, j);
    var outlay := Outlay(cfg, sid, price, liquidity, shares);
    OutlayPositive(cfg, sid, price, liquidity, j);
    OutlayPositive(cfg, sid, price, liquidity, shares);
    OutlayIsCharge(cfg, sid, price, liquidity, j);
    OutlayIsCharge(cfg, sid, price, liquidity, shares);
    LargerIsDearer(a, c, cfg.commissionMin, b, j as real, shares as real);
    QuotientBelow(shares as real, cash, outlay, j as real);
    TruncateBelow(Times(shares as real, cash) / outlay, j);
    StrictlyDearer(cash, outlay, j as real, shares as real);
    AffordableSharesFit(cfg, sid, price, liquidity, cash, Shrunk(shares, cash, outlay));
    assert Fits(cfg, sid, price, liquidity, cash, j);
  }

  /** The count found is the largest affordable one for every cash balance and request exactly
      when market impact does not grow with the order: no liquidity evidence, or no impact term. */
  lemma LargestExactlyWhen(cfg: CostConfig, sid: SecurityId, price: Positive, liquidity: Option<real>)
    ensures (forall cash: real, shares: int :: FindsLargest(cfg, sid, price, liquidity, cash, shares))
       <==> cfg.impactBps == 0.0 || !Evidence(liquidity)
  {
    if cfg.impactBps == 0.0 || !Evidence(liquidity) {
      forall cash: real, shares: int
        ensures FindsLargest(cfg, sid, price, liquidity, cash, shares)
      {
        FlatImpactFindsLargest(cfg, sid, price, liquidity, cash, shares);
      }
    } else {
      var cash, shares := RisingImpactUndershoots(cfg, sid, price, liquidity);
      assert !FindsLargest(cfg, sid, price, liquidity, cash, shares);
    }
  }

  // ----- how far one shrink goes

  /** With the commission above its floor, a smaller order costs no more per share. */
  lemma SmallerIsNoDearer(a: real, c: real, m: real, b: real, j: real, n: real)
    requires 0.0 < j <= n && b >= 0.0 && c >= 0.0 && Times(c, j) >= m
    ensures Times(Charge(a, c, m, b, j), n) <= Times(Charge(a, c, m, b, n), j)
  {
    assert c * n >= c * j;
    assert (a * j) * n == (a * n) * j && (c * j) * n == (c * n) * j;
    assert (b * j * j) * n == (b * j * n) * j;
    assert b * j * n <= b * n * n by {
      assert b * n * (n - j) >= 0.0;
    }
    assert (b * j * n) * j <= (b * n * n) * j;
  }

  lemma ProportionFits(s: real, cash: real, whole: real, part: real, n: real)
    requires s > 0.0 && whole > 0.0 && Times(part, s) <= Times(whole, n) && n <= Times(s, cash) / whole
    ensures part <= cash
  {
    var t := Times(s, cash);
    QuotientBound(t, whole, n);
    assert part * s <= cash * s;
    assert (cash - part) * s >= 0.0;
  }

  lemma TruncateAtMost(q: real)
    ensures Truncate(q) > 0 ==> Truncate(q) as real <= q
  {
  }

  /** Whatever impact does, one shrink is enough when the count it gives still pays a proportional
      commission: the answer is that count, the request cut in the proportion of cash to outlay. */
  lemma OneShrinkSuffices(cfg: CostConfig, sid: SecurityId, price: Positive, liquidity: Option<real>, cash: real, shares: int)
    requires shares > 0 && Outlay(cfg, sid, price, liquidity, shares) > cash
    requires Outlay(cfg, sid, price, liquidity, shares) > 0.0
    requires var next := Shrunk(shares, cash, Outlay(cfg, sid, price, liquidity, shares));
             next > 0 ==> Times(CommissionRate(cfg, price), next as real) >= cfg.commissionMin
    ensures AffordableShares(cfg, sid, price, liquidity, cash, shares)
         == Max(0, Shrunk(shares, cash, Outlay(cfg, sid, price, liquidity, shares)))
  {
    var whole := Outlay(cfg, sid, price, liquidity, shares);
    var next := Shrunk(shares, cash, whole);
    if next > 0 {
      ShrunkFits(cfg, sid, price, liquidity, cash, shares, next);
    }
  }

  lemma ShrunkFits(cfg: CostConfig, sid: SecurityId, price: Positive, liquidity: Option<real>, cash: real, shares: int, next: int)
    requires shares > 0 && Outlay(cfg, sid, price, liquidity, shares) > 0.0
    requires next == Shrunk(shares, cash, Outlay(cfg, sid, price, liquidity, shares)) > 0
    requires Times(CommissionRate(cfg, price), next as real) >= cfg.commissionMin
    ensures Outlay(cfg, sid, price, liquidity, next) <= cash
  {
    hide Outlay;
    hide FlatRate;
    hide Charge;
    hide Times;
    hide Truncate;
    var whole, part := Outlay(cfg, sid, price, liquidity, shares), Outlay(cfg, sid, price, liquidity, next);
    OutlayIsCharge(cfg, sid, price, liquidity, next);
    OutlayIsCharge(cfg, sid, price, liquidity, shares);
    TimesNonNegative(price, cfg.commissionBps * BPS);
    ImpactRateNonNegative(cfg, price, liquidity);
    hide CommissionRate;
    hide ImpactRate;
    SmallerIsNoDearer(FlatRate(cfg, sid, price, liquidity), CommissionRate(cfg, price), cfg.commissionMin,
                      ImpactRate(cfg, price, liquidity), next as real, shares as real);
    TruncateAtMost(Times(shares as real, cash) / whole);
    ProportionFits(shares as real, cash, whole, part, next as real);
  }

  lemma ImpactRateNonNegative(cfg: CostConfig, price: Positive, liquidity: Option<real>)
    ensures ImpactRate(cfg, price, liquidity) >= 0.0
  {
    hide Times;
    if Evidence(liquidity) {
      TimesNonNegative(price, cfg.impactBps * BPS);
      QuotientNonNegative(price, liquidity.value);
      TimesNonNegative(Times(price, cfg.impactBps * BPS), price / liquidity.value);
    }
  }
}
