/** Continuity repair of price series whose unit flips between pounds and pence.

    A one-bar ratio near 100 or 1/100 is read as a change of unit, anything else as a move of the
    price. A series is put into the unit of its first bar by one running scale. */
module UnitRepair {
  import opened Arithmetic

  const RATIO_BAND_LOW := 70.0
  const RATIO_BAND_HIGH := 140.0

  /** 0 for no flip; +1 when the unit became 100 times smaller, -1 when 100 times larger. */
  function IsFlip(ratio: real): int {
    if 1.0 / RATIO_BAND_HIGH <= ratio <= 1.0 / RATIO_BAND_LOW then 1
    else if RATIO_BAND_LOW <= ratio <= RATIO_BAND_HIGH then -1
    else 0
  }

  /** 100 to the power of a flip. */
  function Factor(flip: int): real {
    if flip == 1 then 100.0 else if flip == -1 then 0.01 else 1.0
  }

  /** The scales a series may need relative to its leading unit. */
  predicate InLattice(scale: real) {
    scale == 1.0 || scale == 100.0 || scale == 0.01
  }

  /** A flip is looked for only between two positive closes. */
  function FlipAt(closes: seq<real>, i: nat): int
    requires 0 < i < |closes|
  {
    if closes[i - 1] > 0.0 && closes[i] > 0.0 then IsFlip(closes[i] / closes[i - 1]) else 0
  }

  /** The scale that restores bar `i` to the leading unit. */
  function ScaleAt(closes: seq<real>, i: nat): real
    requires i < |closes|
  {
    if i == 0 then 1.0 else Times(ScaleAt(closes, i - 1), Factor(FlipAt(closes, i)))
  }

  datatype Repair = Resolved(scales: seq<real>, flips: seq<nat>) | Unresolved(flips: seq<nat>)

  ghost predicate Flips(closes: seq<real>, flips: seq<nat>, n: nat)
    requires n <= |closes|
  {
    && (forall i, j :: 0 <= i < j < |flips| ==> flips[i] < flips[j])
    && (forall i :: i in flips <==> 0 < i < n && FlipAt(closes, i) != 0)
  }

  /** Every flip leaves the running scale in the lattice. */
  ghost predicate StaysInLattice(closes: seq<real>, n: nat)
    requires n <= |closes|
  {
    forall i :: 0 < i < n && FlipAt(closes, i) != 0 ==> InLattice(ScaleAt(closes, i))
  }

  lemma NoFlipsYet(closes: seq<real>)
    requires closes != []
    ensures Flips(closes, [], 1) && StaysInLattice(closes, 1) && ScaleAt(closes, 0) == 1.0
  {
  }

  lemma FlipsNext(closes: seq<real>, flips: seq<nat>, i: nat)
    requires 0 < i < |closes| && Flips(closes, flips, i)
    ensures Flips(closes, if FlipAt(closes, i) != 0 then flips + [i] else flips, i + 1)
  {
    hide FlipAt;
    if FlipAt(closes, i) != 0 {
      assert forall k :: k in flips + [i] <==> k in flips || k == i;
      assert forall k :: 0 <= k < |flips| ==> flips[k] in flips;
    }
  }

  lemma LatticeNext(closes: seq<real>, i: nat)
    requires 0 < i < |closes| && StaysInLattice(closes, i)
    requires FlipAt(closes, i) != 0 ==> InLattice(ScaleAt(closes, i))
    ensures StaysInLattice(closes, i + 1)
  {
    hide FlipAt;
    hide ScaleAt;
  }

  lemma LeftLattice(closes: seq<real>, i: nat)
    requires 0 < i < |closes| && FlipAt(closes, i) != 0 && !InLattice(ScaleAt(closes, i))
    ensures !StaysInLattice(closes, |closes|)
  {
    hide FlipAt;
    hide ScaleAt;
  }

  lemma ScaleNext(closes: seq<real>, i: nat)
    requires 0 < i < |closes|
    ensures ScaleAt(closes, i) == if FlipAt(closes, i) == 0 then ScaleAt(closes, i - 1)
                                  else Times(ScaleAt(closes, i - 1), Factor(FlipAt(closes, i)))
  {
    TimesUnits(ScaleAt(closes, i - 1));
  }

  /** The continuity loop: one running scale, multiplied at every flip; it gives up at the first
      flip that takes the scale off the lattice. */
  method Continuity(closes: seq<real>) returns (r: Repair)
    requires closes != []
    ensures r.Resolved? <==> StaysInLattice(closes, |closes|)
    ensures r.Resolved? ==> |r.scales| == |closes| && forall i :: 0 <= i < |closes| ==> r.scales[i] == ScaleAt(closes, i)
    ensures r.Resolved? ==> Flips(closes, r.flips, |closes|)
  {
    hide *;
    var current := 1.0;
    var rowScale := [1.0];
    var flips: seq<nat> := [];
    NoFlipsYet(closes);
    for i := 1 to |closes|
      invariant |rowScale| == i && forall k :: 0 <= k < i ==> rowScale[k] == ScaleAt(closes, k)
      invariant current == ScaleAt(closes, i - 1)
      invariant Flips(closes, flips, i) && StaysInLattice(closes, i)
    {
      ScaleNext(closes, i);
      FlipsNext(closes, flips, i);
      var flip := FlipAt(closes, i);
      if flip != 0 {
        current := Times(current, Factor(flip));
        flips := flips + [i];
        if !InLattice(current) {
          LeftLattice(closes, i);
          return Unresolved(flips);
        }
      }
      LatticeNext(closes, i);
      rowScale := rowScale + [current];
    }
    return Resolved(rowScale, flips);
  }

  /** The series in its leading unit. */
  function Continuous(closes: seq<real>): (r: seq<real>)
    ensures |r| == |closes|
  {
    seq(|closes|, i requires 0 <= i < |closes| => Times(closes[i], ScaleAt(closes, i)))
  }

  lemma {:induction false} ScalePositive(closes: seq<real>, i: nat)
    requires i < |closes|
    ensures ScaleAt(closes, i) > 0.0
  {
    if i > 0 {
      ScalePositive(closes, i - 1);
      TimesPositive(ScaleAt(closes, i - 1), Factor(FlipAt(closes, i)));
    }
  }

  // ----- a second pass

  lemma FlippedRatioSettles(ratio: real)
    ensures IsFlip(Times(ratio, Factor(IsFlip(ratio)))) == 0
  {
  }

  lemma RatioOfScaled(x: real, y: real, s: real, f: real)
    requires x > 0.0 && s > 0.0
    ensures Times(x, s) > 0.0
    ensures Times(y, Times(s, f)) / Times(x, s) == Times(y / x, f)
  {
    TimesPositive(x, s);
    var q := y / x;
    assert q * x == y;
    assert (y * (s * f)) == (q * f) * (x * s);
  }

  /** Whatever the input, positive or not, a second pass over the repaired series finds no flip. */
  lemma SecondPassFindsNothing(closes: seq<real>, i: nat)
    requires 0 < i < |closes|
    ensures FlipAt(Continuous(closes), i) == 0
  {
    hide Times;
    hide IsFlip;
    ScalePositive(closes, i - 1);
    ScalePositive(closes, i);
    var c := Continuous(closes);
    SignKept(closes[i - 1], ScaleAt(closes, i - 1));
    SignKept(closes[i], ScaleAt(closes, i));
    if closes[i - 1] > 0.0 && closes[i] > 0.0 {
      RatioOfScaled(closes[i - 1], closes[i], ScaleAt(closes, i - 1), Factor(FlipAt(closes, i)));
      FlippedRatioSettles(closes[i] / closes[i - 1]);
    }
  }

  lemma SignKept(x: real, s: real)
    requires s > 0.0
    ensures Times(x, s) > 0.0 <==> x > 0.0
  {
  }

  // ----- undoing unit corruption

  /** A true series, and units relative to the first bar's: each 1, 100 or 1/100, moving by at most
      one factor of 100 per bar. */
  ghost predicate Corruption(truth: seq<real>, units: seq<real>) {
    && |truth| == |units| > 0 && units[0] == 1.0
    && (forall i :: 0 <= i < |truth| ==> truth[i] > 0.0 && InLattice(units[i]))
    && (forall i :: 0 < i < |truth| ==> Moves(units, i))
  }

  /** The move `m` in {-1, 0, 1}: the unit is divided by 100 to the `m`. */
  ghost predicate Move(units: seq<real>, i: nat, m: int)
    requires 0 < i < |units|
  {
    -1 <= m <= 1 && units[i - 1] == Times(units[i], Factor(m))
  }

  ghost predicate Moves(units: seq<real>, i: nat)
    requires 0 < i < |units|
  {
    exists m :: Move(units, i, m)
  }

  function Corrupted(truth: seq<real>, units: seq<real>): (r: seq<real>)
    requires |truth| == |units|
    ensures |r| == |truth|
  {
    seq(|truth|, i requires 0 <= i < |truth| => Times(truth[i], units[i]))
  }

  /** What a true one-bar ratio must satisfy for the flip test to read the move right: a steady unit
      needs a ratio outside both flip bands; a switch needs the ratio, seen through it, inside one. */
  predicate Readable(ratio: real, m: int) {
    if m == 0 then !(70.0 <= ratio <= 140.0) && !(1.0 / 140.0 <= ratio <= 1.0 / 70.0)
    else if m == 1 then 5.0 / 7.0 <= ratio <= 10.0 / 7.0
    else 0.7 <= ratio <= 1.4
  }

  ghost predicate AllReadable(truth: seq<real>, units: seq<real>)
    requires |truth| == |units| && forall i :: 0 <= i < |truth| ==> truth[i] > 0.0
  {
    forall i, m :: 0 < i < |truth| && Move(units, i, m) ==> Readable(truth[i] / truth[i - 1], m)
  }

  lemma ReadableIsReadRight(ratio: real, m: int)
    requires -1 <= m <= 1
    ensures IsFlip(Times(ratio, Factor(-m))) == m <==> Readable(ratio, m)
  {
  }

  lemma CorruptedRatio(p0: real, p1: real, u0: real, u1: real, m: int)
    requires p0 > 0.0 && u1 > 0.0 && -1 <= m <= 1 && u0 == Times(u1, Factor(m))
    ensures Times(p0, u0) > 0.0
    ensures Times(p1, u1) / Times(p0, u0) == Times(p1 / p0, Factor(-m))
  {
    TimesPositive(u1, Factor(m));
    TimesPositive(p0, u0);
    var q := p1 / p0;
    assert q * p0 == p1;
    assert Factor(m) * Factor(-m) == 1.0;
    assert p1 * u1 == (q * Factor(-m)) * (p0 * (u1 * Factor(m)));
  }

  lemma FlipOfCorrupted(truth: seq<real>, units: seq<real>, i: nat, m: int)
    requires Corruption(truth, units) && 0 < i < |truth| && Move(units, i, m)
    ensures FlipAt(Corrupted(truth, units), i) == m <==> Readable(truth[i] / truth[i - 1], m)
  {
    hide Times;
    hide IsFlip;
    hide Readable;
    CorruptedRatio(truth[i - 1], truth[i], units[i - 1], units[i], m);
    TimesPositive(truth[i - 1], units[i - 1]);
    TimesPositive(truth[i], units[i]);
    ReadableIsReadRight(truth[i] / truth[i - 1], m);
  }

  /** The scale found undoes the unit. */
  ghost predicate Undone(truth: seq<real>, units: seq<real>, i: nat)
    requires |truth| == |units| && i < |truth|
  {
    Times(units[i], ScaleAt(Corrupted(truth, units), i)) == 1.0
  }

  lemma UndoneStep(u0: real, u1: real, s: real, f: real, m: int)
    requires u1 > 0.0 && -1 <= m <= 1 && u0 == Times(u1, Factor(m)) && Times(u0, s) == 1.0
    ensures f == Factor(m) <==> Times(u1, Times(s, f)) == 1.0
  {
    assert u1 * Factor(m) * s == 1.0;
    var k := u1 * s;
    assert k * Factor(m) == 1.0;
    assert u1 * (s * f) == k * f;
    assert k != 0.0;
    if k * f == 1.0 {
      assert k * (f - Factor(m)) == 0.0;
    }
  }

  lemma {:induction false} ReadableUndone(truth: seq<real>, units: seq<real>, i: nat)
    requires Corruption(truth, units) && i < |truth|
    requires forall j, m :: 0 < j <= i && Move(units, j, m) ==> Readable(truth[j] / truth[j - 1], m)
    ensures Undone(truth, units, i)
  {
    hide Times;
    hide Readable;
    if i == 0 {
      TimesUnits(units[0]);
    } else {
      ReadableUndone(truth, units, i - 1);
      assert Moves(units, i);
      var m :| Move(units, i, m);
      FlipOfCorrupted(truth, units, i, m);
      UndoneStep(units[i - 1], units[i], ScaleAt(Corrupted(truth, units), i - 1), Factor(m), m);
    }
  }

  /** A misread move leaves the bar in the wrong unit. */
  lemma UndoneIsReadable(truth: seq<real>, units: seq<real>, i: nat, m: int)
    requires Corruption(truth, units) && 0 < i < |truth| && Move(units, i, m)
    requires Undone(truth, units, i - 1) && Undone(truth, units, i)
    ensures Readable(truth[i] / truth[i - 1], m)
  {
    hide Times;
    hide Readable;
    var closes := Corrupted(truth, units);
    FlipOfCorrupted(truth, units, i, m);
    var flip := FlipAt(closes, i);
    UndoneStep(units[i - 1], units[i], ScaleAt(closes, i - 1), Factor(flip), m);
    FactorsDiffer(flip, m);
  }

  lemma FactorsDiffer(a: int, b: int)
    requires -1 <= a <= 1 && -1 <= b <= 1
    ensures Factor(a) == Factor(b) ==> a == b
  {
  }

  lemma ReciprocalInLattice(u: real, s: real)
    requires InLattice(u) && Times(u, s) == 1.0
    ensures InLattice(s)
  {
  }

  lemma TimesBack(p: real, u: real, s: real)
    requires Times(u, s) == 1.0
    ensures Times(Times(p, u), s) == p
  {
    TimesAssociates(p, u, s);
    TimesUnits(p);
  }

  lemma TimesBackOnly(p: real, u: real, s: real)
    requires p > 0.0 && Times(Times(p, u), s) == p
    ensures Times(u, s) == 1.0
  {
    TimesAssociates(p, u, s);
    assert p * (u * s - 1.0) == 0.0;
  }

  lemma ReadableRestored(truth: seq<real>, units: seq<real>)
    requires Corruption(truth, units) && AllReadable(truth, units)
    ensures Continuous(Corrupted(truth, units)) == truth
    ensures StaysInLattice(Corrupted(truth, units), |truth|)
  {
    hide Times;
    hide Readable;
    hide ScaleAt;
    var closes := Corrupted(truth, units);
    forall i | 0 <= i < |truth|
      ensures Continuous(closes)[i] == truth[i] && InLattice(ScaleAt(closes, i))
    {
      ReadableUndone(truth, units, i);
      TimesBack(truth[i], units[i], ScaleAt(closes, i));
      ReciprocalInLattice(units[i], ScaleAt(closes, i));
    }
  }

  lemma ReadableFlagged(truth: seq<real>, units: seq<real>, i: nat)
    requires Corruption(truth, units) && AllReadable(truth, units) && 0 < i < |truth|
    ensures FlipAt(Corrupted(truth, units), i) != 0 <==> units[i] != units[i - 1]
  {
    hide Times;
    hide Readable;
    hide FlipAt;
    assert Moves(units, i);
    var m :| Move(units, i, m);
    FlipOfCorrupted(truth, units, i, m);
    SteadyMove(units[i - 1], units[i], m);
  }

  lemma RestoredReadable(truth: seq<real>, units: seq<real>)
    requires Corruption(truth, units) && Continuous(Corrupted(truth, units)) == truth
    ensures AllReadable(truth, units)
  {
    hide Times;
    hide Readable;
    hide ScaleAt;
    var closes := Corrupted(truth, units);
    forall i | 0 <= i < |truth|
      ensures Undone(truth, units, i)
    {
      assert Continuous(closes)[i] == truth[i];
      TimesBackOnly(truth[i], units[i], ScaleAt(closes, i));
    }
    forall i, m | 0 < i < |truth| && Move(units, i, m)
      ensures Readable(truth[i] / truth[i - 1], m)
    {
      UndoneIsReadable(truth, units, i, m);
    }
  }

  /** Continuity repair gives back the true series exactly when every true one-bar ratio is readable
      through its unit move; the loop then never gives up, and it flags exactly the switches. */
  lemma RepairRestoresExactlyWhen(truth: seq<real>, units: seq<real>)
    requires Corruption(truth, units)
    ensures Continuous(Corrupted(truth, units)) == truth <==> AllReadable(truth, units)
    ensures AllReadable(truth, units) ==>
              && StaysInLattice(Corrupted(truth, units), |truth|)
              && forall i :: 0 < i < |truth| ==> (FlipAt(Corrupted(truth, units), i) != 0 <==> units[i] != units[i - 1])
  {
    hide AllReadable;
    hide Times;
    hide ScaleAt;
    hide FlipAt;
    if AllReadable(truth, units) {
      ReadableRestored(truth, units);
      forall i | 0 < i < |truth|
        ensures FlipAt(Corrupted(truth, units), i) != 0 <==> units[i] != units[i - 1]
      {
        ReadableFlagged(truth, units, i);
      }
    }
    if Continuous(Corrupted(truth, units)) == truth {
      RestoredReadable(truth, units);
    }
  }

  lemma SteadyMove(u0: real, u1: real, m: int)
    requires u1 > 0.0 && -1 <= m <= 1 && u0 == Times(u1, Factor(m))
    ensures m != 0 <==> u1 != u0
  {
  }

  /** Neighbouring true closes within 5/7 and 7/5 of each other are readable through any move. */
  lemma ModerateMovesAreReadable(truth: seq<real>, units: seq<real>)
    requires Corruption(truth, units)
    requires forall i :: 0 < i < |truth| ==> 5.0 / 7.0 <= truth[i] / truth[i - 1] <= 7.0 / 5.0
    ensures AllReadable(truth, units)
    ensures Continuous(Corrupted(truth, units)) == truth
  {
    RepairRestoresExactlyWhen(truth, units);
  }
}
