/** The portfolio ledger: cash, whole-share positions and an append-only event log. */
module Ledger {
  import opened Arithmetic
  import opened Domain
  import Sums

  datatype EventKind =
    | Deposit | BuyTrade | SellTrade | DividendCredit | SplitApplied | CashInLieu
    | DelistingProceeds | DelistingWriteoff

  datatype LedgerEvent = LedgerEvent(
    on: Date, kind: EventKind, sid: Option<SecurityId>, quantityDelta: int, cashDelta: real,
    price: Option<real>, costs: NonNegative)

  datatype LedgerError = GoesShort | CashBelowZero | NonPositiveShares | NoPrice | IdentityBroken

  type Positions = map<SecurityId, int>

  /** The ledger's state as a value. */
  datatype Book = Book(cash: real, positions: Positions, events: seq<LedgerEvent>)

  function Quantity(positions: Positions, sid: SecurityId): int {
    if sid in positions then positions[sid] else 0
  }

  /** A position that reaches zero leaves the book. */
  function SetQuantity(positions: Positions, sid: SecurityId, quantity: int): Positions {
    if quantity == 0 then positions - {sid} else positions[sid := quantity]
  }

  function Moved(positions: Positions, e: LedgerEvent): Positions {
    if e.quantityDelta == 0 || e.sid.None? then positions
    else SetQuantity(positions, e.sid.value, Quantity(positions, e.sid.value) + e.quantityDelta)
  }

  /** Quantity changes name a security. */
  predicate Attributed(e: LedgerEvent) {
    e.quantityDelta != 0 ==> e.sid.Some?
  }

  predicate Shorts(b: Book, e: LedgerEvent) {
    e.quantityDelta != 0 && e.sid.Some? && Quantity(b.positions, e.sid.value) + e.quantityDelta < 0
  }

  function Record(b: Book, e: LedgerEvent): Result<Book, LedgerError>
    requires Attributed(e)
  {
    if Shorts(b, e) then Failure(GoesShort)
    else if b.cash + e.cashDelta < 0.0 then Failure(CashBelowZero)
    else Success(Book(b.cash + e.cashDelta, Moved(b.positions, e), b.events + [e]))
  }

  // ----- the log as an independent witness

  /** Cash and positions reconstructed from the log alone. */
  function Replay(events: seq<LedgerEvent>): (real, Positions) {
    if events == [] then (0.0, map[])
    else
      var (cash, positions) := Replay(events[..|events| - 1]);
      var e := events[|events| - 1];
      (cash + e.cashDelta, Moved(positions, e))
  }

  method ReplayLog(events: seq<LedgerEvent>) returns (cash: real, positions: Positions)
    ensures (cash, positions) == Replay(events)
  {
    cash, positions := 0.0, map[];
    for i := 0 to |events|
      invariant (cash, positions) == Replay(events[..i])
    {
      assert events[..i + 1][..i] == events[..i];
      var event := events[i];
      cash := cash + event.cashDelta;
      if event.quantityDelta != 0 && event.sid.Some? {
        var sid := event.sid.value;
        assert positions[sid := 0] - {sid} == positions - {sid};
        positions := positions[sid := Quantity(positions, sid) + event.quantityDelta];
        if positions[sid] == 0 {
          positions := positions - {sid};
        }
      }
    }
    assert events[..|events|] == events;
  }

  ghost predicate Solvent(cash: real, positions: Positions) {
    cash >= 0.0 && forall sid :: sid in positions ==> positions[sid] > 0
  }

  /** The log never passes through a short position or an overdraft, not even between events. */
  ghost predicate AlwaysSolvent(events: seq<LedgerEvent>) {
    forall n :: 0 <= n <= |events| ==> Solvent(Replay(events[..n]).0, Replay(events[..n]).1)
  }

  /** What every book reachable through the ledger satisfies: the log replays to exactly the cash
      and positions held, and has been solvent throughout. */
  ghost predicate Sound(b: Book) {
    Replay(b.events) == (b.cash, b.positions) && AlwaysSolvent(b.events)
  }

  lemma SoundIsSolvent(b: Book)
    requires Sound(b)
    ensures Solvent(b.cash, b.positions)
  {
    assert b.events[..|b.events|] == b.events;
  }

  /** Recording keeps the book sound, whatever the event. */
  lemma RecordKeepsSound(b: Book, e: LedgerEvent)
    requires Sound(b) && Attributed(e) && Record(b, e).Success?
    ensures Sound(Record(b, e).value)
  {
    var r := Record(b, e).value;
    assert r.events[..|r.events| - 1] == b.events;
    SoundIsSolvent(b);
    forall n | 0 <= n <= |r.events|
      ensures Solvent(Replay(r.events[..n]).0, Replay(r.events[..n]).1)
    {
      if n == |r.events| {
        assert r.events[..n] == r.events;
      } else {
        assert r.events[..n] == b.events[..n];
      }
    }
  }

  // ----- mutators as functions of the book

  const EMPTY := Book(0.0, map[], [])

  function DepositEvent(amount: real, on: Date): LedgerEvent {
    LedgerEvent(on, Deposit, None, 0, amount, None, 0.0)
  }

  function Opened(initialCash: real, on: Date): Result<Book, LedgerError> {
    Record(EMPTY, DepositEvent(initialCash, on))
  }

  function BuyShares(b: Book, sid: SecurityId, shares: int, price: real, costs: NonNegative, on: Date): Result<Book, LedgerError> {
    if shares <= 0 then Failure(NonPositiveShares)
    else Record(b, LedgerEvent(on, BuyTrade, Some(sid), shares, -(Times(price, shares as real) + costs), Some(price), costs))
  }

  function SellShares(b: Book, sid: SecurityId, shares: int, price: real, costs: NonNegative, on: Date): Result<Book, LedgerError> {
    if shares <= 0 then Failure(NonPositiveShares)
    else Record(b, LedgerEvent(on, SellTrade, Some(sid), -shares, Times(price, shares as real) - costs, Some(price), costs))
  }

  function CreditDividend(b: Book, sid: SecurityId, perShare: real, on: Date): Result<Book, LedgerError> {
    var held := Quantity(b.positions, sid);
    if held <= 0 then Success(b)
    else Record(b, LedgerEvent(on, DividendCredit, Some(sid), 0, Times(perShare, held as real), Some(perShare), 0.0))
  }

  /** Whole shares after a split: the exact count rounded down. */
  function WholeAfterSplit(held: int, newShares: PositiveInt, oldShares: PositiveInt): int {
    held * newShares / oldShares
  }

  /** The fraction of a share left over by the rounding. */
  function FractionAfterSplit(held: int, newShares: PositiveInt, oldShares: PositiveInt): real {
    (held * newShares % oldShares) as real / oldShares as real
  }

  function ApplySplit(b: Book, sid: SecurityId, newShares: PositiveInt, oldShares: PositiveInt, mark: real, on: Date)
    : Result<Book, LedgerError>
  {
    var held := Quantity(b.positions, sid);
    if held <= 0 then Success(b)
    else
      var whole := WholeAfterSplit(held, newShares, oldShares);
      var remainder := FractionAfterSplit(held, newShares, oldShares);
      var split := Record(b, LedgerEvent(on, SplitApplied, Some(sid), whole - held, 0.0, None, 0.0));
      if split.Failure? || remainder == 0.0 then split
      else Record(split.value, LedgerEvent(on, CashInLieu, Some(sid), 0, Times(mark, remainder), Some(mark), 0.0))
  }

  /** Proceeds where terms are known; otherwise the conservative write-off. */
  function ResolveDelisting(b: Book, sid: SecurityId, proceeds: Option<real>, on: Date): Result<Book, LedgerError> {
    var held := Quantity(b.positions, sid);
    if held <= 0 then Success(b)
    else if proceeds.None? then Record(b, LedgerEvent(on, DelistingWriteoff, Some(sid), -held, 0.0, None, 0.0))
    else Record(b, LedgerEvent(on, DelistingProceeds, Some(sid), -held, Times(proceeds.value, held as real), proceeds, 0.0))
  }

  // ----- value at marks

  type Marks = map<SecurityId, real>

  ghost function Worth(positions: Positions, marks: Marks): real {
    Sums.Total(map sid | sid in positions && sid in marks :: Times(marks[sid], positions[sid] as real))
  }

  /** Cash plus quantity times mark over every holding; an unmarked holding is an error. */
  ghost function ValueAt(b: Book, marks: Marks): Result<real, LedgerError> {
    if forall sid :: sid in b.positions ==> sid in marks then Success(b.cash + Worth(b.positions, marks))
    else Failure(NoPrice)
  }

  ghost function WorthOf(positions: Positions, marks: Marks, sid: SecurityId): real {
    if sid in positions && sid in marks then Times(marks[sid], positions[sid] as real) else 0.0
  }

  lemma WorthSplit(positions: Positions, marks: Marks, sid: SecurityId)
    ensures Worth(positions, marks) == WorthOf(positions, marks, sid) + Worth(positions - {sid}, marks)
  {
    var m := map s | s in positions && s in marks :: Times(marks[s], positions[s] as real);
    var rest := map s | s in positions - {sid} && s in marks :: Times(marks[s], (positions - {sid})[s] as real);
    assert rest == m - {sid};
    if sid in m {
      Sums.TotalRemove(m, sid);
    } else {
      assert m - {sid} == m;
    }
  }

  lemma NothingHeld(positions: Positions, marks: Marks)
    requires positions == map[]
    ensures Worth(positions, marks) == 0.0
  {
    assert (map sid | sid in positions && sid in marks :: Times(marks[sid], positions[sid] as real)) == map[];
  }

  /** Changing one quantity changes the worth by that holding alone. */
  lemma WorthAfter(positions: Positions, marks: Marks, sid: SecurityId, quantity: int)
    requires sid in marks
    ensures Worth(SetQuantity(positions, sid, quantity), marks)
         == Worth(positions, marks) - WorthOf(positions, marks, sid) + Times(marks[sid], quantity as real)
  {
    var after := SetQuantity(positions, sid, quantity);
    WorthSplit(positions, marks, sid);
    WorthSplit(after, marks, sid);
    assert after - {sid} == positions - {sid};
  }

  /** What recording an event does to the book's value at fixed marks. */
  lemma RecordValue(b: Book, e: LedgerEvent, marks: Marks)
    requires Attributed(e) && Record(b, e).Success?
    requires e.quantityDelta != 0 ==> e.sid.value in marks
    ensures var r := Record(b, e).value;
            r.cash + Worth(r.positions, marks)
            == b.cash + Worth(b.positions, marks) + e.cashDelta
               + (if e.quantityDelta == 0 then 0.0 else Times(marks[e.sid.value], e.quantityDelta as real))
  {
    hide Times;
    if e.quantityDelta != 0 {
      var sid := e.sid.value;
      var q := Quantity(b.positions, sid);
      WorthAfter(b.positions, marks, sid, q + e.quantityDelta);
      hide Worth;
      TimesUnits(marks[sid]);
      TimesOverSum(marks[sid], q as real, e.quantityDelta as real);
      assert (q + e.quantityDelta) as real == q as real + e.quantityDelta as real;
      assert WorthOf(b.positions, marks, sid) == Times(marks[sid], q as real);
    }
  }

  /** A split leaves the position's worth unchanged at the post-split mark: the whole shares and
      the cash in lieu together are worth `held * new / old` shares. */
  lemma SplitConservesValue(b: Book, sid: SecurityId, newShares: PositiveInt, oldShares: PositiveInt, mark: real, on: Date, marks: Marks)
    requires Sound(b) && mark >= 0.0 && sid in b.positions && sid in marks && marks[sid] == mark
    ensures var r := ApplySplit(b, sid, newShares, oldShares, mark, on);
            && r.Success?
            && r.value.cash + Worth(r.value.positions, marks)
               == b.cash + Worth(b.positions, marks) - Times(mark, b.positions[sid] as real)
                  + Times(mark, (b.positions[sid] * newShares) as real / oldShares as real)
  {
    SoundIsSolvent(b);
    var held := b.positions[sid];
    var whole := WholeAfterSplit(held, newShares, oldShares);
    var remainder := FractionAfterSplit(held, newShares, oldShares);
    SplitParts(held * newShares, oldShares);
    var e := LedgerEvent(on, SplitApplied, Some(sid), whole - held, 0.0, None, 0.0);
    RecordValue(b, e, marks);
    TimesOverSum(mark, whole as real, remainder);
    TimesOverDifference(mark, whole as real, held as real);
    if remainder != 0.0 {
      var lieu := LedgerEvent(on, CashInLieu, Some(sid), 0, Times(mark, remainder), Some(mark), 0.0);
      TimesNonNegative(mark, remainder);
      RecordValue(Record(b, e).value, lieu, marks);
    }
  }

  lemma SplitParts(n: int, d: int)
    requires n >= 0 && d > 0
    ensures n / d >= 0 && n % d >= 0
    ensures n as real / d as real == (n / d) as real + (n % d) as real / d as real
    ensures (n % d) as real / d as real >= 0.0
  {
    assert n == n / d * d + n % d;
    assert n as real == (n / d) as real * d as real + (n % d) as real;
  }

  // ----- the ledger object

  /** How a mutating call relates to its specification: it succeeds on the same inputs, and on
      success leaves exactly the specified book. */
  ghost predicate Refines(r: Outcome<LedgerError>, after: Book, spec: Result<Book, LedgerError>) {
    && (r.Pass? <==> spec.Success?)
    && (r.Pass? ==> after == spec.value)
    && (r.Fail? ==> r.error == spec.error)
  }

  class Portfolio {
    var cash: real
    var positions: Positions
    var events: seq<LedgerEvent>

    function View(): Book
      reads this
    {
      Book(cash, positions, events)
    }

    /** The deposit of the initial cash is the log's first event. */
    constructor (initialCash: NonNegative, start: Date)
      ensures Opened(initialCash, start) == Success(View())
      ensures Sound(View())
    {
      cash, positions, events := 0.0, map[], [];
      new;
      var outcome := RecordEvent(DepositEvent(initialCash, start));
      assert Sound(EMPTY) by {
        assert forall n :: 0 <= n <= 0 ==> EMPTY.events[..n] == [];
      }
      RecordKeepsSound(EMPTY, DepositEvent(initialCash, start));
    }

    /** Positions and cash move before either check can refuse the event, so a refused event may
        leave them moved; only the log is untouched then. */
    method RecordEvent(e: LedgerEvent) returns (r: Outcome<LedgerError>)
      requires Attributed(e)
      modifies this
      ensures Refines(r, View(), Record(old(View()), e))
      ensures r == Fail(GoesShort) ==> View() == old(View())
      ensures r == Fail(CashBelowZero) ==>
                View() == Book(old(cash) + e.cashDelta, Moved(old(positions), e), old(events))
      ensures Sound(old(View())) ==> (Sound(View()) <==> r != Fail(CashBelowZero))
    {
      ghost var before := View();
      if Sound(before) && Record(before, e).Success? {
        RecordKeepsSound(before, e);
      }
      if e.quantityDelta != 0 {
        var sid := e.sid.value;
        var quantity := Quantity(positions, sid) + e.quantityDelta;
        if quantity < 0 {
          return Fail(GoesShort);
        }
        if quantity == 0 {
          positions := positions - {sid};
        } else {
          positions := positions[sid := quantity];
        }
      }
      cash := cash + e.cashDelta;
      if cash < 0.0 {
        if Sound(View()) {
          SoundIsSolvent(View());
        }
        return Fail(CashBelowZero);
      }
      events := events + [e];
      return Pass;
    }

    method Buy(sid: SecurityId, shares: int, price: real, costs: NonNegative, on: Date) returns (r: Outcome<LedgerError>)
      modifies this
      ensures Refines(r, View(), BuyShares(old(View()), sid, shares, price, costs, on))
    {
      if shares <= 0 {
        return Fail(NonPositiveShares);
      }
      r := RecordEvent(LedgerEvent(on, BuyTrade, Some(sid), shares, -(Times(price, shares as real) + costs), Some(price), costs));
    }

    method Sell(sid: SecurityId, shares: int, price: real, costs: NonNegative, on: Date) returns (r: Outcome<LedgerError>)
      modifies this
      ensures Refines(r, View(), SellShares(old(View()), sid, shares, price, costs, on))
    {
      if shares <= 0 {
        return Fail(NonPositiveShares);
      }
      r := RecordEvent(LedgerEvent(on, SellTrade, Some(sid), -shares, Times(price, shares as real) - costs, Some(price), costs));
    }

    method Credit(sid: SecurityId, perShare: real, on: Date) returns (r: Outcome<LedgerError>)
      modifies this
      ensures Refines(r, View(), CreditDividend(old(View()), sid, perShare, on))
    {
      var held := Quantity(positions, sid);
      if held <= 0 {
        return Pass;
      }
      r := RecordEvent(LedgerEvent(on, DividendCredit, Some(sid), 0, Times(perShare, held as real), Some(perShare), 0.0));
    }

    method Split(sid: SecurityId, newShares: PositiveInt, oldShares: PositiveInt, mark: real, on: Date)
      returns (r: Outcome<LedgerError>)
      modifies this
      ensures Refines(r, View(), ApplySplit(old(View()), sid, newShares, oldShares, mark, on))
    {
      var held := Quantity(positions, sid);
      if held <= 0 {
        return Pass;
      }
      var whole := WholeAfterSplit(held, newShares, oldShares);
      var remainder := FractionAfterSplit(held, newShares, oldShares);
      r := RecordEvent(LedgerEvent(on, SplitApplied, Some(sid), whole - held, 0.0, None, 0.0));
      if r.Pass? && remainder != 0.0 {
        r := RecordEvent(LedgerEvent(on, CashInLieu, Some(sid), 0, Times(mark, remainder), Some(mark), 0.0));
      }
    }

    method Resolve(sid: SecurityId, proceeds: Option<real>, on: Date) returns (r: Outcome<LedgerError>)
      modifies this
      ensures Refines(r, View(), ResolveDelisting(old(View()), sid, proceeds, on))
    {
      var held := Quantity(positions, sid);
      if held <= 0 {
        return Pass;
      }
      if proceeds.None? {
        r := RecordEvent(LedgerEvent(on, DelistingWriteoff, Some(sid), -held, 0.0, None, 0.0));
      } else {
        r := RecordEvent(LedgerEvent(on, DelistingProceeds, Some(sid), -held, Times(proceeds.value, held as real), proceeds, 0.0));
      }
    }

    /** Adds up the holdings one by one, in any order. */
    method Value(marks: Marks) returns (r: Result<real, LedgerError>)
      ensures r == ValueAt(View(), marks)
    {
      var total := cash;
      var left := positions;
      while left != map[]
        invariant left.Keys <= positions.Keys && forall sid :: sid in left ==> left[sid] == positions[sid]
        invariant total + Worth(left, marks) == cash + Worth(positions, marks)
        invariant forall sid :: sid in positions && sid !in left ==> sid in marks
        decreases |left|
      {
        ghost var some := Sums.AnyKey(left);
        var sid :| sid in left;
        if sid !in marks {
          return Failure(NoPrice);
        }
        WorthSplit(left, marks, sid);
        total := total + Times(marks[sid], left[sid] as real);
        left := left - {sid};
      }
      NothingHeld(left, marks);
      return Success(total);
    }
  }
}
