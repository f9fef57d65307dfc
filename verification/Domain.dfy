/** Types shared by every component: results, time, prices and corporate actions. */
module Domain {

  datatype Option<+T> = None | Some(value: T)

  datatype Result<+T, +E> = Success(value: T) | Failure(error: E) {
    predicate IsFailure() {
      Failure?
    }

    function PropagateFailure<U>(): Result<U, E>
      requires Failure?
    {
      Failure(error)
    }

    function Extract(): T
      requires Success?
    {
      value
    }
  }

  /** What a state-changing method reports in place of raising an exception. */
  datatype Outcome<+E> = Pass | Fail(error: E)

  /** Security ids are compared for equality and order only, so an int stands for the id. */
  type SecurityId = int

  /** Days on a fixed count; only order and differences matter. */
  type Date = int

  /** Microseconds, UTC, counted from the start of day 0. */
  type Instant = int

  const MICROS_PER_DAY := 86_400_000_000

  /** The calendar date an instant falls on. */
  function DayOf(t: Instant): Date {
    t / MICROS_PER_DAY
  }

  /** 23:59:59 on day `d`: the knowledge instant of a context bound to that day. */
  function EndOfDay(d: Date): Instant {
    d * MICROS_PER_DAY + 86_399_000_000
  }

  type Positive = r: real | r > 0.0 witness 1.0
  type NonNegative = r: real | r >= 0.0 witness 0.0
  type PositiveInt = n: int | n > 0 witness 1

  /** One raw, as-traded daily bar (the fields the engine reads). */
  datatype Bar = Bar(sid: SecurityId, date: Date, close: Positive, volume: nat)

  /** Sterling in its two units, or money that no unit shift converts to pence. */
  datatype Currency = GBX | GBP | Foreign

  datatype DelistingReason =
    | FailureExit | AcquisitionExit | VoluntaryExit | RegulatoryExit | ExchangeMoveExit | UnknownExit

  datatype Action =
    | Split(sid: SecurityId, exDate: Date, availableAt: Instant, newShares: PositiveInt, oldShares: PositiveInt)
    | Dividend(sid: SecurityId, exDate: Date, availableAt: Instant, amount: Positive, currency: Currency)
    | Merger(sid: SecurityId, exDate: Date, availableAt: Instant, cash: Option<Positive>, cashCurrency: Currency)
    | DelistingAction(sid: SecurityId, exDate: Date, availableAt: Instant, reason: DelistingReason)
    | RightsIssue(sid: SecurityId, exDate: Date, availableAt: Instant)
    | TickerChangeAction(sid: SecurityId, exDate: Date, availableAt: Instant)

  function Max(a: int, b: int): int {
    if a >= b then a else b
  }

  function Min(a: int, b: int): int {
    if a <= b then a else b
  }
}
