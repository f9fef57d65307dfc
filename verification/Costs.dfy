/** The transaction-cost model: commission with a floor, half-spread, stamp duty, impact. */
module Costs {
  import opened Arithmetic
  import opened Domain

  const BPS: real := 0.0001

  datatype Side = Buy | Sell

  datatype CostConfig = CostConfig(
    commissionBps: NonNegative, commissionMin: NonNegative, spreadBps: NonNegative,
    stampDutyBps: NonNegative, impactBps: NonNegative, stampExempt: SecurityId -> bool)

  datatype TradeCosts = TradeCosts(commission: real, spread: real, stampDuty: real, impact: real) {
    function Total(): real {
      commission + spread + stampDuty + impact
    }
  }

  /** Usable liquidity evidence: a median traded value above zero. */
  predicate Evidence(liquidity: Option<real>) {
    liquidity.Some? && liquidity.value > 0.0
  }

  /** A proportion of the notional, never less than the floor. */
  function Commission(cfg: CostConfig, notional: real): real {
    var proportional := Times(notional, cfg.commissionBps * BPS);
    if proportional >= cfg.commissionMin then proportional else cfg.commissionMin
  }

  function HalfSpread(cfg: CostConfig, notional: real): real {
    Times(notional, cfg.spreadBps / 2.0 * BPS)
  }

  /** Purchases only, unless the security is exempt. */
  function StampDuty(cfg: CostConfig, sid: SecurityId, side: Side, notional: real): real {
    if side.Buy? && !cfg.stampExempt(sid) then Times(notional, cfg.stampDutyBps * BPS) else 0.0
  }

  /** The order's share of the trailing traded value; all of it without evidence. */
  function Participation(notional: real, liquidity: Option<real>): real {
    if Evidence(liquidity) then notional / liquidity.value else 1.0
  }

  function Impact(cfg: CostConfig, notional: real, liquidity: Option<real>): real {
    Times(Times(notional, cfg.impactBps * BPS), Participation(notional, liquidity))
  }

  function Cost(cfg: CostConfig, sid: SecurityId, side: Side, notional: Positive, liquidity: Option<real>): TradeCosts {
    TradeCosts(Commission(cfg, notional), HalfSpread(cfg, notional), StampDuty(cfg, sid, side, notional),
               Impact(cfg, notional, liquidity))
  }

  /** No component is ever a rebate, and every trade pays at least the commission floor. */
  lemma CostsAreNonNegative(cfg: CostConfig, sid: SecurityId, side: Side, notional: Positive, liquidity: Option<real>)
    ensures var c := Cost(cfg, sid, side, notional, liquidity);
            && c.commission >= cfg.commissionMin
            && c.spread >= 0.0 && c.stampDuty >= 0.0 && c.impact >= 0.0
            && c.Total() >= cfg.commissionMin
  {
    hide Times;
    TimesNonNegative(notional, cfg.spreadBps / 2.0 * BPS);
    TimesNonNegative(notional, cfg.stampDutyBps * BPS);
    TimesNonNegative(notional, cfg.impactBps * BPS);
    if Evidence(liquidity) {
      QuotientNonNegative(notional, liquidity.value);
    }
    TimesNonNegative(Times(notional, cfg.impactBps * BPS), Participation(notional, liquidity));
  }

  /** Buying and selling the same amount differ by the stamp duty alone, which sales and exempt
      securities never pay; the two together pay the whole spread. */
  lemma SidesDifferByStamp(cfg: CostConfig, sid: SecurityId, notional: Positive, liquidity: Option<real>)
    ensures var buy, sell := Cost(cfg, sid, Buy, notional, liquidity), Cost(cfg, sid, Sell, notional, liquidity);
            && sell.stampDuty == 0.0
            && buy.Total() - sell.Total() == (if cfg.stampExempt(sid) then 0.0 else Times(notional, cfg.stampDutyBps * BPS))
            && buy.spread + sell.spread == Times(notional, cfg.spreadBps * BPS)
  {
    assert cfg.spreadBps / 2.0 * BPS + cfg.spreadBps / 2.0 * BPS == cfg.spreadBps * BPS;
    TimesOverSum(notional, cfg.spreadBps / 2.0 * BPS, cfg.spreadBps / 2.0 * BPS);
  }
}
