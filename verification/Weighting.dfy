/** Position limits: capping with pro-rata redistribution inside dropping with rescaling.

    The names weighted may be of any type; the order they are visited in never matters. */
module Weighting {
  import opened Arithmetic
  import opened Domain
  import Sorting
  import Sums

  datatype WeightingError = CapInfeasible | DropsEverything | NotConverged | ZeroDivision

  ghost predicate NonNegativeWeights<K(!new)>(w: map<K, real>) {
    forall s :: s in w ==> w[s] >= 0.0
  }

  function Least(x: real, y: real): real {
    if x <= y then x else y
  }

  function Limited(cap: Option<Positive>, x: real): real {
    if cap.Some? then Least(cap.value, x) else x
  }

  /** The capped proportional allocation at one multiple of the given weights. */
  ghost function Allocation<K(!new)>(w: map<K, real>, cap: Option<Positive>, multiple: real): map<K, real> {
    map s | s in w :: Limited(cap, Times(multiple, w[s]))
  }

  ghost function PositiveNames<K(!new)>(w: map<K, real>): set<K> {
    set s | s in w && w[s] > 0.0
  }

  lemma TimesMonotone(x: real, y: real, w: real)
    requires x <= y && w >= 0.0
    ensures Times(x, w) <= Times(y, w)
  {
  }

  // ----- one capping pass

  /** What the redistribution loop keeps: capped names sit at the cap and exceed it at the current
      multiple, free names sit at that multiple, and everything invested is placed. */
  ghost predicate Capping<K(!new)>(w: map<K, real>, cap: Positive, invested: real, capped: map<K, real>, free: map<K, real>, mu: real) {
    && capped.Keys + free.Keys == w.Keys && capped.Keys !! free.Keys
    && mu >= 1.0
    && (forall s :: s in capped ==> capped[s] == cap && Times(mu, w[s]) > cap)
    && (forall s :: s in free ==> free[s] == Times(mu, w[s]))
    && Sums.Total(free) == invested - Times(cap, |capped| as real)
  }

  /** `over` holds exactly the free names above the cap. */
  ghost predicate OverCap<K(!new)>(free: map<K, real>, cap: real, over: set<K>) {
    forall s :: s in over <==> s in free && free[s] > cap
  }

  function Above<K(!new)>(free: map<K, real>, cap: real): (over: set<K>)
    ensures OverCap(free, cap, over)
  {
    set s | s in free && free[s] > cap
  }

  lemma OverWithin<K(!new)>(free: map<K, real>, cap: real, over: set<K>)
    requires OverCap(free, cap, over)
    ensures over <= free.Keys
  {
  }

  lemma CappedTotal<K(!new)>(capped: map<K, real>, cap: real)
    requires forall s :: s in capped ==> capped[s] == cap
    ensures Sums.Total(capped) == Times(cap, |capped| as real)
  {
    assert capped == Sums.Uniform(capped.Keys, cap);
    Sums.TotalUniform(capped.Keys, cap);
  }

  lemma OverTotal<K(!new)>(over: map<K, real>, cap: real)
    requires forall s :: s in over ==> over[s] > cap
    requires over != map[]
    ensures Sums.Total(over) > Times(cap, |over| as real)
  {
    var floor := Sums.Uniform(over.Keys, cap);
    Sums.TotalUniform(over.Keys, cap);
    Sums.TotalOrder(floor, over);
    var s := Sums.AnyKey(over);
    assert floor[s] != over[s];
  }

  /** The over-cap names of a round, and what their excess does to the free total. */
  lemma RoundTotals<K(!new)>(free: map<K, real>, cap: real, over: set<K>)
    requires OverCap(free, cap, over) && over != {}
    ensures Sums.Total(free) > Times(cap, |over| as real) + Sums.Total(free - over)
  {
    Sums.TotalSplit(free, over);
    var part := map s | s in over :: free[s];
    var s := Sorting.AnyMember(over);
    assert s in part;
    assert part.Keys == over;
    OverTotal(part, cap);
  }

  lemma AddedCount<K(!new)>(capped: map<K, real>, over: set<K>, cap: real)
    requires capped.Keys !! over
    ensures (capped + Sums.Uniform(over, cap)).Keys == capped.Keys + over
    ensures |capped + Sums.Uniform(over, cap)| == |capped| + |over|
  {
    var after := capped + Sums.Uniform(over, cap);
    assert after.Keys == capped.Keys + over;
    assert |after.Keys| == |capped.Keys| + |over|;
    assert |after| == |after.Keys| && |capped| == |capped.Keys|;
  }

  lemma TimesOfCount(cap: real, a: nat, b: nat)
    ensures Times(cap, (a + b) as real) == Times(cap, a as real) + Times(cap, b as real)
  {
    TimesOverSum(cap, a as real, b as real);
  }

  lemma AddCapped<K(!new)>(capped: map<K, real>, over: set<K>, cap: real)
    requires capped.Keys !! over
    ensures (capped + Sums.Uniform(over, cap)).Keys == capped.Keys + over
    ensures |capped + Sums.Uniform(over, cap)| == |capped| + |over|
    ensures Times(cap, (|capped| + |over|) as real) == Times(cap, |capped| as real) + Times(cap, |over| as real)
  {
    hide *;
    AddedCount(capped, over, cap);
    TimesOfCount(cap, |capped|, |over|);
  }

  /** Redistributing the remainder pro rata over the free names raises the multiple. */
  lemma RaisedMultiple(mu: real, remaining: real, freeTotal: real, w: real)
    requires mu >= 1.0 && freeTotal > 0.0 && remaining > freeTotal
    ensures remaining * mu / freeTotal > mu
    ensures Times(remaining / freeTotal, Times(mu, w)) == Times(remaining * mu / freeTotal, w)
  {
    var q := remaining / freeTotal;
    assert q * freeTotal == remaining;
    assert q > 1.0 by {
      assert (q - 1.0) * freeTotal > 0.0;
    }
    assert remaining * mu / freeTotal == q * mu;
    assert q * mu > mu;
    assert q * (mu * w) == (q * mu) * w;
  }

  lemma CappingStarts<K(!new)>(w: map<K, real>, cap: Positive, invested: real)
    requires Sums.Total(w) == invested
    ensures Capping(w, cap, invested, map[], w, 1.0)
  {
    TimesUnits(cap);
    forall s | s in w
      ensures w[s] == Times(1.0, w[s])
    {
    }
  }

  lemma CappingEnds<K(!new)>(w: map<K, real>, cap: Positive, invested: real, capped: map<K, real>, free: map<K, real>, mu: real)
    requires Capping(w, cap, invested, capped, free, mu)
    requires forall s :: s in free ==> free[s] <= cap
    ensures capped + free == Allocation(w, Some(cap), mu)
    ensures Sums.Total(capped + free) == invested
  {
    hide Times;
    CappedTotal(capped, cap);
    Sums.TotalUnion(capped, free);
    hide Sums.Total;
    var all := capped + free;
    assert all.Keys == w.Keys;
  }

  /** Every free name scaled by a common factor. */
  ghost function Scaled<K(!new)>(m: map<K, real>, c: real): map<K, real> {
    map s | s in m :: Times(c, m[s])
  }

  lemma StepCapped<K(!new)>(w: map<K, real>, cap: Positive, invested: real, capped: map<K, real>, free: map<K, real>, mu: real,
                            over: set<K>, next: real)
    requires NonNegativeWeights(w) && Capping(w, cap, invested, capped, free, mu) && mu <= next
    requires OverCap(free, cap, over)
    ensures var topped := capped + Sums.Uniform(over, cap);
            forall s :: s in topped ==> topped[s] == cap && Times(next, w[s]) > cap
  {
    hide Times;
    var topped := capped + Sums.Uniform(over, cap);
    forall s | s in topped
      ensures topped[s] == cap && Times(next, w[s]) > cap
    {
      TimesMonotone(mu, next, w[s]);
    }
  }

  lemma StepFree<K(!new)>(w: map<K, real>, cap: Positive, invested: real, capped: map<K, real>, free: map<K, real>, mu: real,
                          over: set<K>, remaining: real, freeTotal: real)
    requires Capping(w, cap, invested, capped, free, mu) && freeTotal > 0.0 && remaining > freeTotal
    ensures var rescaled := Scaled(free - over, remaining / freeTotal);
            forall s :: s in rescaled ==> rescaled[s] == Times(remaining * mu / freeTotal, w[s])
  {
    hide Times;
    var rescaled := Scaled(free - over, remaining / freeTotal);
    forall s | s in rescaled
      ensures rescaled[s] == Times(remaining * mu / freeTotal, w[s])
    {
      RaisedMultiple(mu, remaining, freeTotal, w[s]);
    }
  }

  lemma StepTotal<K(!new)>(rest: map<K, real>, remaining: real, freeTotal: real)
    requires freeTotal == Sums.Total(rest) && freeTotal > 0.0
    ensures Sums.Total(Scaled(rest, remaining / freeTotal)) == remaining
  {
    Sums.TotalScaled(rest, remaining / freeTotal);
    QuotientBack(remaining, freeTotal);
  }

  /** The next round's state, once the over-cap names are moved and the rest rescaled. */
  lemma CappingStep<K(!new)>(w: map<K, real>, cap: Positive, invested: real, capped: map<K, real>, free: map<K, real>, mu: real,
                             over: set<K>, remaining: real, freeTotal: real)
    requires NonNegativeWeights(w) && Capping(w, cap, invested, capped, free, mu)
    requires OverCap(free, cap, over) && over != {}
    requires freeTotal == Sums.Total(free - over) && freeTotal > 0.0
    requires remaining == invested - Times(cap, (|capped| + |over|) as real)
    ensures Capping(w, cap, invested, capped + Sums.Uniform(over, cap), Scaled(free - over, remaining / freeTotal),
                    remaining * mu / freeTotal)
  {
    hide Times;
    RoundTotals(free, cap, over);
    AddCapped(capped, over, cap);
    assert remaining > freeTotal;
    RaisedMultiple(mu, remaining, freeTotal, 0.0);
    StepCapped(w, cap, invested, capped, free, mu, over, remaining * mu / freeTotal);
    StepFree(w, cap, invested, capped, free, mu, over, remaining, freeTotal);
    StepTotal(free - over, remaining, freeTotal);
    assert (capped + Sums.Uniform(over, cap)).Keys + Scaled(free - over, remaining / freeTotal).Keys == w.Keys;
  }

  lemma QuotientBack(x: real, y: real)
    requires y != 0.0
    ensures Times(x / y, y) == x
  {
  }

  lemma CapBelow(cap: Positive, few: nat, many: nat)
    requires few <= many
    ensures Times(cap, few as real) <= Times(cap, many as real)
  {
  }

  /** Were the over-cap names at the cap, less than what is invested would be placed with them. */
  lemma OverCapFalls<K(!new)>(cap: Positive, invested: real, capped: map<K, real>, free: map<K, real>, over: set<K>)
    requires Sums.Total(free) == invested - Times(cap, |capped| as real)
    requires OverCap(free, cap, over) && over != {}
    requires Sums.Total(free - over) == 0.0
    ensures Times(cap, (|capped| + |over|) as real) < invested
  {
    RoundTotals(free, cap, over);
    TimesOfCount(cap, |capped|, |over|);
  }

  lemma CappingParts<K(!new)>(w: map<K, real>, cap: Positive, invested: real, capped: map<K, real>, free: map<K, real>, mu: real)
    requires Capping(w, cap, invested, capped, free, mu)
    ensures capped.Keys + free.Keys == w.Keys && capped.Keys !! free.Keys
    ensures Sums.Total(free) == invested - Times(cap, |capped| as real)
  {
  }

  lemma EmptyTotal<K(!new)>(m: map<K, real>)
    requires m == map[]
    ensures Sums.Total(m) == 0.0
  {
  }

  lemma NamesCounted<K(!new)>(w: map<K, real>, capped: map<K, real>, free: map<K, real>, over: set<K>)
    requires capped.Keys + free.Keys == w.Keys && capped.Keys !! free.Keys
    requires over <= free.Keys && free - over == map[]
    ensures |w| == |capped| + |over|
  {
    assert (free - over).Keys == {};
    assert over == free.Keys;
    assert |w| == |w.Keys| && |capped| == |capped.Keys|;
    assert w.Keys == capped.Keys + over;
    assert |capped.Keys + over| == |capped.Keys| + |over|;
  }

  /** With nothing left free the cap could not have been feasible. */
  lemma NothingFree<K(!new)>(w: map<K, real>, cap: Positive, invested: real, capped: map<K, real>, free: map<K, real>, mu: real, over: set<K>)
    requires Capping(w, cap, invested, capped, free, mu)
    requires OverCap(free, cap, over) && over != {}
    requires free - over == map[]
    ensures Times(cap, |w| as real) < invested
  {
    hide *;
    CappingParts(w, cap, invested, capped, free, mu);
    OverWithin(free, cap, over);
    EmptyTotal(free - over);
    OverCapFalls(cap, invested, capped, free, over);
    NamesCounted(w, capped, free, over);
  }

  lemma ZeroRest<K(!new)>(w: map<K, real>, rest: map<K, real>, mu: real)
    requires NonNegativeWeights(w) && mu >= 1.0 && rest.Keys <= w.Keys
    requires forall s :: s in rest ==> rest[s] == Times(mu, w[s])
    requires Sums.Total(rest) == 0.0
    ensures forall s :: s in rest ==> w[s] == 0.0
  {
    forall s | s in rest
      ensures rest[s] >= 0.0
    {
      TimesNonNegative(mu, w[s]);
    }
    Sums.TotalZero(rest);
    forall s | s in rest
      ensures w[s] == 0.0
    {
      ZeroProduct(mu, w[s]);
    }
  }

  /** Only zero weights left free: exactly the positive names are at the cap, and they are too few. */
  lemma OnlyZerosFree<K(!new)>(w: map<K, real>, cap: Positive, invested: real, capped: map<K, real>, free: map<K, real>, mu: real, over: set<K>)
    requires NonNegativeWeights(w) && Capping(w, cap, invested, capped, free, mu)
    requires OverCap(free, cap, over) && over != {}
    requires Sums.Total(free - over) == 0.0
    ensures Times(cap, |PositiveNames(w)| as real) < invested
  {
    OverCapFalls(cap, invested, capped, free, over);
    ZeroRest(w, free - over, mu);
    TimesUnits(mu);
    hide Times;
    forall s | s in w
      ensures s in capped.Keys + over <==> w[s] > 0.0
    {
    }
    assert PositiveNames(w) == capped.Keys + over;
    assert |capped.Keys + over| == |capped| + |over|;
  }

  lemma ZeroProduct(mu: real, x: real)
    requires mu >= 1.0 && Times(mu, x) == 0.0
    ensures x == 0.0
  {
  }

  /** When everything fits under the cap, the positive names alone can hold it. */
  lemma PositivesHold<K(!new)>(r: map<K, real>, cap: Positive, invested: real, names: set<K>)
    requires Sums.Total(r) == invested && names <= r.Keys
    requires forall s :: s in r ==> r[s] <= cap && (s !in names ==> r[s] == 0.0)
    ensures Times(cap, |names| as real) >= invested
  {
    Sums.TotalSplit(r, names);
    var part := map s | s in names :: r[s];
    assert part.Keys == names;
    Sums.TotalZero(r - names);
    Sums.TotalUniform(names, cap);
    Sums.TotalOrder(part, Sums.Uniform(names, cap));
  }

  /** With no name over the cap the pass is done. */
  lemma CapSucceeds<K(!new)>(w: map<K, real>, cap: Positive, invested: real, capped: map<K, real>, free: map<K, real>, mu: real)
    requires NonNegativeWeights(w) && Capping(w, cap, invested, capped, free, mu)
    requires OverCap(free, cap, {})
    ensures mu >= 1.0
    ensures capped + free == Allocation(w, Some(cap), mu) && Sums.Total(capped + free) == invested
    ensures Times(cap, |PositiveNames(w)| as real) >= invested
  {
    forall s | s in free
      ensures free[s] <= cap
    {
      var over := set x | x in free && free[x] > cap;
      assert s !in over;
    }
    CappingEnds(w, cap, invested, capped, free, mu);
    forall s | s in w && s !in PositiveNames(w)
      ensures (capped + free)[s] == 0.0
    {
      TimesUnits(mu);
      assert w[s] == 0.0;
    }
    PositivesHold(capped + free, cap, invested, PositiveNames(w));
  }

  lemma FreeTotalPositive<K(!new)>(w: map<K, real>, cap: Positive, invested: real, capped: map<K, real>, free: map<K, real>, mu: real, over: set<K>)
    requires NonNegativeWeights(w) && Capping(w, cap, invested, capped, free, mu) && Sums.Total(free - over) != 0.0
    ensures Sums.Total(free - over) > 0.0
  {
    forall s | s in free - over
      ensures (free - over)[s] >= 0.0
    {
      TimesNonNegative(mu, w[s]);
    }
    Sums.TotalZero(free - over);
  }

  lemma Shrinks<K(!new)>(free: map<K, real>, over: set<K>, c: real)
    requires over != {} && over <= free.Keys
    ensures |Scaled(free - over, c)| < |free|
  {
    var after := Scaled(free - over, c);
    assert after.Keys == free.Keys - over;
    assert |free.Keys - over| == |free.Keys| - |over|;
    assert |after| == |after.Keys| && |free| == |free.Keys|;
  }

  /** The sum of a dictionary's values. */
  method SumOf<K(!new, ==)>(m: map<K, real>) returns (total: real)
    ensures total == Sums.Total(m)
  {
    total := 0.0;
    var left := m;
    while left != map[]
      invariant left.Keys <= m.Keys
      invariant total + Sums.Total(left) == Sums.Total(m)
      decreases |left|
    {
      var k :| k in left;
      Sums.TotalRemove(left, k);
      Sums.SmallerMap(left, k);
      total := total + left[k];
      left := left - {k};
    }
  }

  lemma UncappedAllocation<K(!new)>(w: map<K, real>)
    ensures w == Allocation(w, None, 1.0)
  {
  }

  function Rescale<K(!new)>(m: map<K, real>, c: real): (r: map<K, real>)
    ensures r == Scaled(m, c)
  {
    map s | s in m :: Times(c, m[s])
  }

  function AtCap<K(!new)>(capped: map<K, real>, over: set<K>, cap: real): (r: map<K, real>)
    ensures r == capped + Sums.Uniform(over, cap)
  {
    capped + map s | s in over :: cap
  }

  /** Pro-rata redistribution until no name exceeds the cap. It either refuses an infeasible cap,
      or divides by zero when the positive names are too few to hold the investment, or returns the
      capped proportional allocation at a single multiple, at least 1, placing exactly what was
      invested. The exit with every name at the cap is never taken. */
  method Cap<K(!new, ==)>(weights: map<K, real>, maxWeight: Option<Positive>, invested: real)
    returns (r: Result<map<K, real>, WeightingError>, ghost mu: real)
    requires NonNegativeWeights(weights) && Sums.Total(weights) == invested
    ensures r == Failure(CapInfeasible) <==> maxWeight.Some? && Times(maxWeight.value, |weights| as real) < invested
    ensures r == Failure(ZeroDivision) <==> maxWeight.Some? && Times(maxWeight.value, |weights| as real) >= invested
                                            && Times(maxWeight.value, |PositiveNames(weights)| as real) < invested
    ensures r.Failure? ==> r.error in {CapInfeasible, ZeroDivision}
    ensures r.Success? ==> mu >= 1.0 && r.value == Allocation(weights, maxWeight, mu) && Sums.Total(r.value) == invested
  {
    hide *;
    mu := 1.0;
    if maxWeight.None? {
      UncappedAllocation(weights);
      return Success(weights), mu;
    }
    var cap := maxWeight.value;
    if Times(cap, |weights| as real) < invested {
      return Failure(CapInfeasible), mu;
    }
    var capped: map<K, real> := map[];
    var free := weights;
    CappingStarts(weights, cap, invested);
    while true
      invariant Capping(weights, cap, invested, capped, free, mu)
      decreases |free|
    {
      var over := Above(free, cap);
      if over == {} {
        CapSucceeds(weights, cap, invested, capped, free, mu);
        return Success(capped + free), mu;
      }
      var rest := free - over;
      var remaining := invested - Times(cap, (|capped| + |over|) as real);
      if rest == map[] {
        NothingFree(weights, cap, invested, capped, free, mu, over);
        assert false;
      }
      var freeTotal := SumOf(rest);
      if freeTotal == 0.0 {
        OnlyZerosFree(weights, cap, invested, capped, free, mu, over);
        return Failure(ZeroDivision), mu;
      }
      FreeTotalPositive(weights, cap, invested, capped, free, mu, over);
      CappingStep(weights, cap, invested, capped, free, mu, over, remaining, freeTotal);
      OverWithin(free, cap, over);
      Shrinks(free, over, remaining / freeTotal);
      free := Rescale(rest, remaining / freeTotal);
      capped := AtCap(capped, over, cap);
      mu := remaining * mu / freeTotal;
    }
  }

  // ----- the limits loop

  lemma LeastOfLeast(cap: Positive, c: real, multiple: real, x: real)
    requires c >= 1.0 && multiple >= 0.0 && x >= 0.0
    ensures Least(cap, Times(c, Least(cap, Times(multiple, x)))) == Least(cap, Times(Times(c, multiple), x))
  {
    assert Times(Times(c, multiple), x) == c * (multiple * x);
    if multiple * x >= cap {
      assert c * cap >= cap;
      assert c * (multiple * x) >= multiple * x;
    }
  }

  ghost function Kept<K(!new)>(w: map<K, real>, names: set<K>): map<K, real> {
    map s | s in w && s in names :: w[s]
  }

  /** Capping a multiple of an allocation is an allocation of the original weights. */
  lemma Compounded<K(!new)>(w: map<K, real>, cap: Option<Positive>, nu: real, c: real, multiple: real)
    requires NonNegativeWeights(w) && nu >= 1.0 && c >= 1.0 && multiple >= 1.0
    ensures Allocation(Scaled(Allocation(w, cap, multiple), c), cap, nu) == Allocation(w, cap, Times(nu, Times(c, multiple)))
  {
    var current := Scaled(Allocation(w, cap, multiple), c);
    assert Times(nu, c) >= 1.0;
    hide Times;
    forall s | s in w
      ensures Limited(cap, Times(nu, current[s])) == Limited(cap, Times(Times(nu, Times(c, multiple)), w[s]))
    {
      var a := Allocation(w, cap, multiple)[s];
      TimesAssociates(nu, c, a);
      TimesAssociates(nu, c, multiple);
      if cap.Some? {
        LeastOfLeast(cap.value, Times(nu, c), multiple, w[s]);
      } else {
        TimesAssociates(Times(nu, c), multiple, w[s]);
      }
    }
  }

  /** Every further allocation of `current` is one of the original weights. */
  ghost predicate Tracks<K(!new)>(current: map<K, real>, w: map<K, real>, cap: Option<Positive>, kappa: real) {
    forall nu :: nu >= 1.0 ==> Allocation(current, cap, nu) == Allocation(w, cap, Times(nu, kappa))
  }

  lemma CompoundedTracks<K(!new)>(w: map<K, real>, cap: Option<Positive>, c: real, multiple: real)
    requires NonNegativeWeights(w) && c >= 1.0 && multiple >= 1.0
    ensures Tracks(Scaled(Allocation(w, cap, multiple), c), w, cap, Times(c, multiple))
    ensures Times(c, multiple) >= 1.0
  {
    forall nu | nu >= 1.0
      ensures Allocation(Scaled(Allocation(w, cap, multiple), c), cap, nu) == Allocation(w, cap, Times(nu, Times(c, multiple)))
    {
      Compounded(w, cap, nu, c, multiple);
    }
  }

  /** A kept name keeps every name at least as heavy. */
  ghost predicate HeaviestKept<K(!new)>(w: map<K, real>, names: set<K>) {
    names <= w.Keys && forall s, t :: s in names && t in w && w[t] >= w[s] ==> t in names
  }

  ghost predicate WithinLimits<K(!new)>(r: map<K, real>, cap: Option<Positive>, floor: Option<Positive>) {
    forall s :: s in r ==> (cap.Some? ==> r[s] <= cap.value) && (floor.Some? ==> r[s] >= floor.value)
  }

  lemma AllocationFacts<K(!new)>(w: map<K, real>, cap: Option<Positive>, multiple: real)
    requires NonNegativeWeights(w) && multiple >= 1.0
    ensures Allocation(w, cap, multiple).Keys == w.Keys
    ensures NonNegativeWeights(Allocation(w, cap, multiple))
    ensures forall s :: s in w && cap.Some? ==> Allocation(w, cap, multiple)[s] <= cap.value
    ensures forall s, t :: s in w && t in w && w[t] >= w[s] ==> Allocation(w, cap, multiple)[t] >= Allocation(w, cap, multiple)[s]
  {
    forall s | s in w
      ensures Times(multiple, w[s]) >= 0.0
    {
      TimesNonNegative(multiple, w[s]);
    }
    forall s, t | s in w && t in w && w[t] >= w[s]
      ensures Times(multiple, w[t]) >= Times(multiple, w[s])
    {
      TimesCommutes(multiple, w[t]);
      TimesCommutes(multiple, w[s]);
      TimesMonotone(w[s], w[t], multiple);
    }
  }

  lemma AllocationOfKept<K(!new)>(w: map<K, real>, names: set<K>, fewer: set<K>, cap: Option<Positive>, multiple: real)
    requires fewer <= names <= w.Keys
    ensures Kept(Allocation(Kept(w, names), cap, multiple), fewer) == Allocation(Kept(w, fewer), cap, multiple)
  {
  }

  /** Dropping the names below the floor: what is left is still the heaviest names. */
  lemma DropKeepsHeaviest<K(!new)>(w: map<K, real>, names: set<K>, cap: Option<Positive>, multiple: real, floor: real, fewer: set<K>)
    requires NonNegativeWeights(w) && HeaviestKept(w, names) && multiple >= 1.0
    requires var a := Allocation(Kept(w, names), cap, multiple); fewer == set s | s in a && a[s] >= floor
    ensures HeaviestKept(w, fewer)
  {
    AllocationFacts(Kept(w, names), cap, multiple);
    forall s, t | s in fewer && t in w && w[t] >= w[s]
      ensures t in fewer
    {
      assert t in names && s in names;
    }
  }

  lemma RescaleFactor<K(!new)>(all: map<K, real>, fewer: set<K>, floor: real)
    requires NonNegativeWeights(all) && fewer <= all.Keys && fewer != {}
    requires floor > 0.0 && forall s :: s in fewer ==> all[s] >= floor
    ensures 0.0 < Sums.Total(Kept(all, fewer)) <= Sums.Total(all)
  {
    Sums.TotalSplit(all, fewer);
    assert Kept(all, fewer) == map s | s in fewer :: all[s];
    var rest := all - fewer;
    Sums.TotalZero(rest);
    Sums.TotalZero(Kept(all, fewer));
    var s := Sorting.AnyMember(fewer);
    assert Kept(all, fewer)[s] > 0.0;
  }

  lemma QuotientAtLeastOne(x: real, y: real)
    requires 0.0 < y <= x
    ensures x / y >= 1.0
  {
    assert (x / y) * y == x;
    assert (x / y - 1.0) * y >= 0.0;
  }

  /** The state of the limits loop at the start of a pass. */
  ghost predicate Pass<K(!new)>(w: map<K, real>, cap: Option<Positive>, current: map<K, real>, kappa: real, first: bool) {
    && current != map[] && HeaviestKept(w, current.Keys)
    && NonNegativeWeights(current) && Sums.Total(current) == Sums.Total(w)
    && kappa >= 1.0 && Tracks(current, Kept(w, current.Keys), cap, kappa)
    && (first ==> current == w)
    && (!first ==> PositiveNames(current) == current.Keys)
  }

  lemma FirstPass<K(!new)>(w: map<K, real>, cap: Option<Positive>)
    requires NonNegativeWeights(w) && w != map[]
    ensures Pass(w, cap, w, 1.0, true)
  {
    assert Kept(w, w.Keys) == w;
    forall nu: real
      ensures Times(nu, 1.0) == nu
    {
      TimesUnits(nu);
    }
  }

  lemma ScaleUp(x: real, y: real)
    requires x >= 1.0 && y >= 1.0
    ensures Times(x, y) >= 1.0
  {
  }

  lemma NextTracks<K(!new)>(w: map<K, real>, names: set<K>, cap: Option<Positive>, current: map<K, real>, kappa: real, mu: real,
                            fewer: set<K>, scale: real)
    requires NonNegativeWeights(w) && fewer <= names <= w.Keys && kappa >= 1.0 && mu >= 1.0 && scale >= 1.0
    requires Tracks(current, Kept(w, names), cap, kappa)
    ensures Allocation(current, cap, mu) == Allocation(Kept(w, names), cap, Times(mu, kappa))
    ensures Tracks(Scaled(Kept(Allocation(current, cap, mu), fewer), scale), Kept(w, fewer), cap, Times(scale, Times(mu, kappa)))
    ensures Times(scale, Times(mu, kappa)) >= 1.0
  {
    hide Times;
    hide Allocation;
    ScaleUp(mu, kappa);
    assert Allocation(current, cap, mu) == Allocation(Kept(w, names), cap, Times(mu, kappa));
    AllocationOfKept(w, names, fewer, cap, Times(mu, kappa));
    CompoundedTracks(Kept(w, fewer), cap, scale, Times(mu, kappa));
  }

  lemma NextWeights<K(!new)>(capped: map<K, real>, fewer: set<K>, floor: Positive)
    requires NonNegativeWeights(capped) && fewer == (set s | s in capped && capped[s] >= floor) && fewer != {}
    ensures Sums.Total(Kept(capped, fewer)) > 0.0
    ensures var scale := Sums.Total(capped) / Sums.Total(Kept(capped, fewer));
            var next := Scaled(Kept(capped, fewer), scale);
            && scale >= 1.0 && next != map[] && next.Keys == fewer
            && NonNegativeWeights(next) && Sums.Total(next) == Sums.Total(capped) && PositiveNames(next) == next.Keys
  {
    RescaleFactor(capped, fewer, floor);
    var part := Kept(capped, fewer);
    var scale := Sums.Total(capped) / Sums.Total(part);
    QuotientAtLeastOne(Sums.Total(capped), Sums.Total(part));
    hide Times;
    StepTotal(part, Sums.Total(capped), Sums.Total(part));
    var next := Scaled(part, scale);
    assert next.Keys == fewer;
    forall s | s in next
      ensures next[s] > 0.0
    {
      TimesPositive(scale, part[s]);
    }
    var s := Sorting.AnyMember(fewer);
    assert s in next;
    assert PositiveNames(next) == next.Keys;
  }

  /** Dropping and rescaling leads to the next pass. */
  lemma NextPass<K(!new)>(w: map<K, real>, cap: Option<Positive>, current: map<K, real>, kappa: real, first: bool, mu: real,
                          capped: map<K, real>, floor: Positive, fewer: set<K>)
    requires NonNegativeWeights(w) && Pass(w, cap, current, kappa, first)
    requires mu >= 1.0 && capped == Allocation(current, cap, mu) && Sums.Total(capped) == Sums.Total(w)
    requires fewer == (set s | s in capped && capped[s] >= floor) && fewer != {}
    ensures Sums.Total(Kept(capped, fewer)) > 0.0
    ensures var scale := Sums.Total(w) / Sums.Total(Kept(capped, fewer));
            Pass(w, cap, Scaled(Kept(capped, fewer), scale), Times(scale, Times(mu, kappa)), false)
  {
    hide Times;
    hide Allocation;
    hide Tracks;
    hide Kept;
    hide Scaled;
    hide PositiveNames;
    hide HeaviestKept;
    AllocationFacts(current, cap, mu);
    NextWeights(capped, fewer, floor);
    var names := current.Keys;
    var scale := Sums.Total(w) / Sums.Total(Kept(capped, fewer));
    NamesOf(w, names);
    NextTracks(w, names, cap, current, kappa, mu, fewer, scale);
    ScaleUp(mu, kappa);
    DropKeepsHeaviest(w, names, cap, Times(mu, kappa), floor, fewer);
  }

  lemma NamesOf<K(!new)>(w: map<K, real>, names: set<K>)
    requires HeaviestKept(w, names)
    ensures names <= w.Keys
  {
  }

  /** The finished allocation: kept names are the heaviest, one multiple of at least 1 gives every
      weight, everything invested is placed, and both limits hold. */
  ghost predicate Settled<K(!new)>(w: map<K, real>, cap: Option<Positive>, floor: Option<Positive>, r: map<K, real>, multiple: real) {
    && HeaviestKept(w, r.Keys)
    && multiple >= 1.0 && r == Allocation(Kept(w, r.Keys), cap, multiple)
    && Sums.Total(r) == Sums.Total(w)
    && WithinLimits(r, cap, floor)
    && (floor.None? ==> r.Keys == w.Keys)
  }

  lemma PassSettles<K(!new)>(w: map<K, real>, cap: Option<Positive>, floor: Option<Positive>, current: map<K, real>, kappa: real, first: bool,
                             mu: real, capped: map<K, real>)
    requires NonNegativeWeights(w) && Pass(w, cap, current, kappa, first)
    requires mu >= 1.0 && capped == Allocation(current, cap, mu) && Sums.Total(capped) == Sums.Total(w)
    requires floor.Some? ==> forall s :: s in capped ==> capped[s] >= floor.value
    requires floor.None? ==> first
    ensures Settled(w, cap, floor, capped, Times(mu, kappa)) && capped.Keys == current.Keys
  {
    hide Times;
    ScaleUp(mu, kappa);
    AllocationFacts(current, cap, mu);
  }

  // ----- the rounds of elimination, defined without rescaling

  /** One multiple of the original weights places everything invested over `names` under the cap. */
  ghost predicate Places<K(!new)>(w: map<K, real>, cap: Option<Positive>, names: set<K>, multiple: real) {
    multiple >= 1.0 && Sums.Total(Allocation(Kept(w, names), cap, multiple)) == Sums.Total(w)
  }

  /** Placing everything over `names` leaves exactly `fewer` at or above the floor. */
  ghost predicate LeavesBy<K(!new)>(w: map<K, real>, cap: Option<Positive>, floor: real, names: set<K>, fewer: set<K>, multiple: real) {
    && Places(w, cap, names, multiple)
    && forall s :: s in fewer <==> s in Kept(w, names) && Limited(cap, Times(multiple, w[s])) >= floor
  }

  ghost predicate Leaves<K(!new)>(w: map<K, real>, cap: Option<Positive>, floor: real, names: set<K>, fewer: set<K>) {
    exists multiple :: LeavesBy(w, cap, floor, names, fewer, multiple)
  }

  ghost predicate Follows<K(!new)>(w: map<K, real>, cap: Option<Positive>, floor: Option<Positive>, names: set<K>, next: set<K>) {
    floor.Some? && Leaves(w, cap, floor.value, names, next) && |next| > 0 && next < names
  }

  /** From all names, each round keeps exactly those at or above the floor, some but not all. */
  ghost predicate Rounds<K(!new)>(w: map<K, real>, cap: Option<Positive>, floor: Option<Positive>, chain: seq<set<K>>) {
    |chain| > 0 && chain[0] == w.Keys && forall i :: 0 < i < |chain| ==> Follows(w, cap, floor, chain[i - 1], chain[i])
  }

  /** Where the rounds end: the cap refuses, nobody reaches the floor, or nobody is below it. */
  ghost predicate Final<K(!new)>(w: map<K, real>, cap: Option<Positive>, floor: Option<Positive>, names: set<K>) {
    || (cap.Some? && Times(cap.value, |names| as real) < Sums.Total(w))
    || floor.None?
    || (exists none :: |none| == 0 && Leaves(w, cap, floor.value, names, none))
    || Leaves(w, cap, floor.value, names, names)
  }

  lemma PlacesAlike<K(!new)>(w: map<K, real>, cap: Option<Positive>, names: set<K>, a: real, b: real)
    requires NonNegativeWeights(w) && Places(w, cap, names, a) && Places(w, cap, names, b)
    ensures Allocation(Kept(w, names), cap, a) == Allocation(Kept(w, names), cap, b)
  {
    var kept := Kept(w, names);
    AllocationMonotone(kept, cap, Least(a, b), a);
    AllocationMonotone(kept, cap, Least(a, b), b);
    Sums.TotalOrder(Allocation(kept, cap, Least(a, b)), Allocation(kept, cap, a));
    Sums.TotalOrder(Allocation(kept, cap, Least(a, b)), Allocation(kept, cap, b));
  }

  /** A round has only one outcome. */
  lemma LeavesOne<K(!new)>(w: map<K, real>, cap: Option<Positive>, floor: real, names: set<K>, x: set<K>, y: set<K>)
    requires NonNegativeWeights(w) && names <= w.Keys
    requires Leaves(w, cap, floor, names, x) && Leaves(w, cap, floor, names, y)
    ensures x == y
  {
    var a :| LeavesBy(w, cap, floor, names, x, a);
    var b :| LeavesBy(w, cap, floor, names, y, b);
    PlacesAlike(w, cap, names, a, b);
    var kept := Kept(w, names);
    forall s
      ensures s in x <==> s in y
    {
      if s in kept {
        assert Allocation(kept, cap, a)[s] == Allocation(kept, cap, b)[s];
      }
    }
  }

  /** A refusing cap leaves no way to place everything. */
  lemma RefusedPlacesNothing<K(!new)>(w: map<K, real>, cap: Positive, names: set<K>, multiple: real)
    requires NonNegativeWeights(w) && names <= w.Keys && Times(cap, |names| as real) < Sums.Total(w)
    ensures !Places(w, Some(cap), names, multiple)
  {
    var a := Allocation(Kept(w, names), Some(cap), multiple);
    assert a.Keys == names;
    Sums.TotalUniform(names, cap);
    Sums.TotalOrder(a, Sums.Uniform(names, cap));
  }

  lemma FinalHasNoNext<K(!new)>(w: map<K, real>, cap: Option<Positive>, floor: Option<Positive>, names: set<K>, next: set<K>)
    requires NonNegativeWeights(w) && names <= w.Keys && Final(w, cap, floor, names)
    ensures !Follows(w, cap, floor, names, next)
  {
    if Follows(w, cap, floor, names, next) {
      var a :| LeavesBy(w, cap, floor.value, names, next, a);
      if cap.Some? && Times(cap.value, |names| as real) < Sums.Total(w) {
        RefusedPlacesNothing(w, cap.value, names, a);
      } else if none :| |none| == 0 && Leaves(w, cap, floor.value, names, none) {
        LeavesOne(w, cap, floor.value, names, none, next);
      } else {
        LeavesOne(w, cap, floor.value, names, names, next);
      }
    }
  }

  lemma {:induction false} RoundsAgree<K(!new)>(w: map<K, real>, cap: Option<Positive>, floor: Option<Positive>, a: seq<set<K>>, b: seq<set<K>>, k: nat)
    requires NonNegativeWeights(w) && Rounds(w, cap, floor, a) && Rounds(w, cap, floor, b)
    requires k < |a| && k < |b|
    ensures a[k] == b[k] && a[k] <= w.Keys
  {
    if k > 0 {
      RoundsAgree(w, cap, floor, a, b, k - 1);
      assert Follows(w, cap, floor, a[k - 1], a[k]) && Follows(w, cap, floor, b[k - 1], b[k]);
      LeavesOne(w, cap, floor.value, a[k - 1], a[k], b[k]);
    }
  }

  /** The rounds of elimination that reach an end are determined by the weights and the limits, so the
      names that survive, and whether any do, are too. */
  lemma FinalRoundsAreUnique<K(!new)>(w: map<K, real>, cap: Option<Positive>, floor: Option<Positive>, a: seq<set<K>>, b: seq<set<K>>)
    requires NonNegativeWeights(w) && Rounds(w, cap, floor, a) && Rounds(w, cap, floor, b)
    requires Final(w, cap, floor, a[|a| - 1]) && Final(w, cap, floor, b[|b| - 1])
    ensures a == b
  {
    var n := if |a| <= |b| then |a| else |b|;
    forall k | 0 <= k < n
      ensures a[k] == b[k] && a[k] <= w.Keys
    {
      RoundsAgree(w, cap, floor, a, b, k);
    }
    if n < |b| {
      FinalHasNoNext(w, cap, floor, b[n - 1], b[n]);
      assert false;
    }
    if n < |a| {
      FinalHasNoNext(w, cap, floor, a[n - 1], a[n]);
      assert false;
    }
  }

  /** What the loop knows after a pass that placed everything: which names the round leaves. */
  lemma PassLeaves<K(!new)>(w: map<K, real>, cap: Option<Positive>, current: map<K, real>, kappa: real, first: bool, mu: real,
                            capped: map<K, real>, floor: real, survivors: set<K>)
    requires NonNegativeWeights(w) && Pass(w, cap, current, kappa, first)
    requires mu >= 1.0 && capped == Allocation(current, cap, mu) && Sums.Total(capped) == Sums.Total(w)
    requires survivors == set s | s in capped && capped[s] >= floor
    ensures Leaves(w, cap, floor, current.Keys, survivors) && survivors <= current.Keys == capped.Keys
  {
    hide Times;
    ScaleUp(mu, kappa);
    var names := current.Keys;
    var multiple := Times(mu, kappa);
    assert capped == Allocation(Kept(w, names), cap, multiple);
    assert LeavesBy(w, cap, floor, names, survivors, multiple);
  }

  lemma NextRound<K(!new)>(w: map<K, real>, cap: Option<Positive>, floor: Positive, chain: seq<set<K>>, names: set<K>, fewer: set<K>)
    requires Rounds(w, cap, Some(floor), chain) && chain[|chain| - 1] == names
    requires Leaves(w, cap, floor, names, fewer) && fewer <= names && fewer != names && |fewer| > 0
    ensures Rounds(w, cap, Some(floor), chain + [fewer])
    ensures (chain + [fewer])[|chain|] == fewer
  {
    hide Leaves;
  }

  lemma NoRoundsYet<K(!new)>(w: map<K, real>, cap: Option<Positive>, floor: Option<Positive>)
    ensures Rounds(w, cap, floor, [w.Keys])
  {
  }

  /** The state at an exit: the rounds have ended at these names. */
  ghost predicate Ended<K(!new)>(w: map<K, real>, cap: Option<Positive>, floor: Option<Positive>, chain: seq<set<K>>, names: set<K>) {
    Rounds(w, cap, floor, chain) && names == chain[|chain| - 1] && Final(w, cap, floor, names)
  }

  lemma EndsHere<K(!new)>(w: map<K, real>, cap: Option<Positive>, floor: Option<Positive>, chain: seq<set<K>>, names: set<K>)
    requires Rounds(w, cap, floor, chain) && names == chain[|chain| - 1]
    requires floor.None? || (exists none :: |none| == 0 && Leaves(w, cap, floor.value, names, none)) || Leaves(w, cap, floor.value, names, names)
             || (cap.Some? && Times(cap.value, |names| as real) < Sums.Total(w))
    ensures Ended(w, cap, floor, chain, names)
  {
  }

  /** The positive names are too few to hold the investment under a cap the whole list could meet. */
  ghost predicate DividesByZero<K(!new)>(w: map<K, real>, cap: Option<Positive>) {
    && w != map[] && cap.Some? && Times(cap.value, |w| as real) >= Sums.Total(w)
    && Times(cap.value, |PositiveNames(w)| as real) < Sums.Total(w)
  }

  lemma NothingToWeigh<K(!new)>(w: map<K, real>, cap: Option<Positive>, floor: Option<Positive>)
    requires w == map[]
    ensures Settled(w, cap, floor, map[], 1.0) && !DividesByZero(w, cap) && !CapRefused(w, cap)
  {
    assert Kept(w, {}) == w;
    assert Allocation(w, cap, 1.0) == w;
  }

  lemma PassFacts<K(!new)>(w: map<K, real>, cap: Option<Positive>, current: map<K, real>, kappa: real, first: bool)
    requires Pass(w, cap, current, kappa, first)
    ensures NonNegativeWeights(current) && Sums.Total(current) == Sums.Total(w) && HeaviestKept(w, current.Keys)
    ensures |current| > 0 && |current.Keys| == |current| && (first ==> current == w)
  {
    var s := Sums.AnyKey(current);
    assert s in current.Keys;
  }

  /** What one capping pass's verdict says about the whole computation. */
  lemma CapVerdict<K(!new)>(w: map<K, real>, cap: Option<Positive>, current: map<K, real>, kappa: real, first: bool, refused: bool, zero: bool)
    requires w != map[] && Pass(w, cap, current, kappa, first)
    requires zero <==> cap.Some? && Times(cap.value, |current| as real) >= Sums.Total(w)
                       && Times(cap.value, |PositiveNames(current)| as real) < Sums.Total(w)
    requires refused <==> cap.Some? && Times(cap.value, |current| as real) < Sums.Total(w)
    requires !first ==> !DividesByZero(w, cap) && !CapRefused(w, cap)
    ensures zero <==> DividesByZero(w, cap)
    ensures CapRefused(w, cap) ==> refused
  {
    hide Times;
    if !first {
      assert |PositiveNames(current)| == |current.Keys| == |current|;
    }
  }

  lemma AllAbove<K(!new)>(capped: map<K, real>, survivors: set<K>, floor: real)
    requires survivors == (set s | s in capped && capped[s] >= floor) && survivors == capped.Keys
    ensures forall s :: s in capped ==> capped[s] >= floor
  {
    forall s | s in capped
      ensures capped[s] >= floor
    {
      assert s in survivors;
    }
  }

  lemma NoneAbove<K(!new)>(w: map<K, real>, cap: Option<Positive>, current: map<K, real>, kappa: real, first: bool, mu: real,
                           capped: map<K, real>, floor: real)
    requires NonNegativeWeights(w) && Pass(w, cap, current, kappa, first)
    requires mu >= 1.0 && capped == Allocation(current, cap, mu)
    requires (set s | s in capped && capped[s] >= floor) == {}
    ensures Times(mu, kappa) >= 1.0
    ensures forall s :: s in current.Keys ==> s in w && Limited(cap, Times(Times(mu, kappa), w[s])) < floor
  {
    hide Times;
    ScaleUp(mu, kappa);
    var names := current.Keys;
    assert capped == Allocation(Kept(w, names), cap, Times(mu, kappa));
    var survivors := set s | s in capped && capped[s] >= floor;
    forall s | s in names
      ensures s in w && Limited(cap, Times(Times(mu, kappa), w[s])) < floor
    {
      assert s in capped && s !in survivors;
    }
  }

  lemma ProperPart<K>(part: set<K>, all: set<K>)
    requires part <= all && part != all
    ensures |all - part| > 0
  {
    assert all == part + (all - part);
  }

  lemma FewerNames<K(!new)>(current: map<K, real>, cap: Option<Positive>, mu: real, capped: map<K, real>, survivors: set<K>, c: real)
    requires capped == Allocation(current, cap, mu) && survivors <= capped.Keys && survivors != capped.Keys
    ensures Scaled(Kept(capped, survivors), c).Keys == survivors && |Scaled(Kept(capped, survivors), c)| < |current|
  {
    var next := Scaled(Kept(capped, survivors), c);
    assert next.Keys == survivors && capped.Keys == current.Keys;
    ProperPart(survivors, capped.Keys);
    assert |capped.Keys - survivors| == |capped.Keys| - |survivors|;
    assert |next| == |next.Keys| && |current| == |current.Keys|;
  }

  function KeepOnly<K(!new)>(m: map<K, real>, names: set<K>): (r: map<K, real>)
    ensures r == Kept(m, names)
  {
    map s | s in m && s in names :: m[s]
  }

  /** The cap cannot hold the investment even over every name. */
  ghost predicate CapRefused<K(!new)>(w: map<K, real>, cap: Option<Positive>) {
    w != map[] && cap.Some? && Times(cap.value, |w| as real) < Sums.Total(w)
  }

  /** The limits loop, with one pass more than there are names. On success the result is settled.
      It divides by zero exactly when the cap leaves only zero weights free; any other refusal is an
      infeasible cap over the heaviest names left, or a floor above every weight; and it never runs
      out of passes. */
  method ApplyLimits<K(!new, ==)>(weights: map<K, real>, maxWeight: Option<Positive>, minWeight: Option<Positive>)
    returns (r: Result<map<K, real>, WeightingError>, ghost multiple: real, ghost names: set<K>, ghost chain: seq<set<K>>)
    requires NonNegativeWeights(weights)
    ensures r.Success? ==> Settled(weights, maxWeight, minWeight, r.value, multiple) && names == r.value.Keys
    ensures weights != map[] && r != Failure(ZeroDivision) ==> Ended(weights, maxWeight, minWeight, chain, names)
    ensures r == Failure(ZeroDivision) <==> DividesByZero(weights, maxWeight)
    ensures CapRefused(weights, maxWeight) ==> r == Failure(CapInfeasible)
    ensures r == Failure(CapInfeasible) ==>
              && maxWeight.Some? && HeaviestKept(weights, names)
              && Times(maxWeight.value, |names| as real) < Sums.Total(weights)
    ensures r == Failure(DropsEverything) ==>
              && minWeight.Some? && HeaviestKept(weights, names) && multiple >= 1.0
              && forall s :: s in names ==> Limited(maxWeight, Times(multiple, weights[s])) < minWeight.value
    ensures r != Failure(NotConverged)
  {
    hide *;
    multiple, names, chain := 1.0, {}, [weights.Keys];
    if weights == map[] {
      NothingToWeigh(weights, maxWeight, minWeight);
      return Success(map[]), multiple, names, chain;
    }
    NoRoundsYet(weights, maxWeight, minWeight);
    var invested := SumOf(weights);
    var current := weights;
    ghost var kappa, first := 1.0, true;
    FirstPass(weights, maxWeight);
    var passes := 0;
    while passes < |weights| + 1
      invariant |current| <= |weights| - passes
      invariant first <==> passes == 0
      invariant passes > 0 ==> minWeight.Some? && !DividesByZero(weights, maxWeight)
      invariant passes > 0 ==> !CapRefused(weights, maxWeight)
      invariant Pass(weights, maxWeight, current, kappa, first)
      invariant Rounds(weights, maxWeight, minWeight, chain) && |chain| == passes + 1 && chain[passes] == current.Keys
    {
      PassFacts(weights, maxWeight, current, kappa, first);
      names := current.Keys;
      ghost var mu;
      r, mu := Cap(current, maxWeight, invested);
      if r.Failure? {
        CapVerdict(weights, maxWeight, current, kappa, first, r == Failure(CapInfeasible), r == Failure(ZeroDivision));
        if r == Failure(CapInfeasible) {
          EndsHere(weights, maxWeight, minWeight, chain, names);
        }
        return;
      }
      CapVerdict(weights, maxWeight, current, kappa, first, false, false);
      var capped := r.value;
      multiple := Times(mu, kappa);
      if minWeight.None? {
        EndsHere(weights, maxWeight, minWeight, chain, names);
        PassSettles(weights, maxWeight, minWeight, current, kappa, first, mu, capped);
        return;
      }
      var floor := minWeight.value;
      var survivors := set s | s in capped && capped[s] >= floor;
      PassLeaves(weights, maxWeight, current, kappa, first, mu, capped, floor, survivors);
      if survivors == capped.Keys {
        EndsHere(weights, maxWeight, minWeight, chain, names);
        AllAbove(capped, survivors, floor);
        PassSettles(weights, maxWeight, minWeight, current, kappa, first, mu, capped);
        return;
      }
      if survivors == {} {
        NoneAbove(weights, maxWeight, current, kappa, first, mu, capped, floor);
        EndsHere(weights, maxWeight, minWeight, chain, names);
        return Failure(DropsEverything), multiple, names, chain;
      }
      NextRound(weights, maxWeight, floor, chain, names, survivors);
      chain := chain + [survivors];
      NextPass(weights, maxWeight, current, kappa, first, mu, capped, floor, survivors);
      var kept := KeepOnly(capped, survivors);
      var total := SumOf(kept);
      FewerNames(current, maxWeight, mu, capped, survivors, invested / total);
      current := Rescale(kept, invested / total);
      kappa, first := Times(invested / total, Times(mu, kappa)), false;
      passes := passes + 1;
    }
    assert false;
  }

  // ----- an independent definition of the result

  lemma AllocationMonotone<K(!new)>(w: map<K, real>, cap: Option<Positive>, a: real, b: real)
    requires NonNegativeWeights(w) && a <= b
    ensures forall s :: s in w ==> Allocation(w, cap, a)[s] <= Allocation(w, cap, b)[s]
  {
    forall s | s in w
      ensures Times(a, w[s]) <= Times(b, w[s])
    {
      TimesMonotone(a, b, w[s]);
    }
  }

  /** Placing exactly the invested total over given names under a cap determines the capped
      proportional allocation: any multiple that does so gives the settled weights. */
  lemma SettledIsTheOnlyAllocation<K(!new)>(w: map<K, real>, cap: Option<Positive>, floor: Option<Positive>, r: map<K, real>,
                                            multiple: real, other: real)
    requires NonNegativeWeights(w) && Settled(w, cap, floor, r, multiple)
    requires Sums.Total(Allocation(Kept(w, r.Keys), cap, other)) == Sums.Total(w)
    ensures Allocation(Kept(w, r.Keys), cap, other) == r
  {
    var kept := Kept(w, r.Keys);
    if multiple <= other {
      AllocationMonotone(kept, cap, multiple, other);
      Sums.TotalOrder(Allocation(kept, cap, multiple), Allocation(kept, cap, other));
    } else {
      AllocationMonotone(kept, cap, other, multiple);
      Sums.TotalOrder(Allocation(kept, cap, other), Allocation(kept, cap, multiple));
    }
  }

  // ----- shifted scores

  ghost predicate IsMinimum<K(!new)>(scores: map<K, real>, least: K) {
    least in scores && forall s :: s in scores ==> scores[least] <= scores[s]
  }

  /** Scores less the minimum score. */
  ghost function Shifted<K(!new)>(scores: map<K, real>, least: K): map<K, real>
    requires least in scores
  {
    map s | s in scores :: scores[s] - scores[least]
  }

  /** Weights proportional to the shifted scores; equal weights when every score is the same. */
  ghost function ShiftWeights<K(!new)>(scores: map<K, real>, least: K, invested: real): map<K, real>
    requires least in scores
  {
    var total := Sums.Total(Shifted(scores, least));
    if total == 0.0 then Sums.Uniform(scores.Keys, invested / |scores| as real)
    else Scaled(Shifted(scores, least), invested / total)
  }

  /** Shifted weights place exactly what is invested, and unless all scores are equal the lowest
      score gets nothing, so a cap that only the full list of names can meet divides by zero. */
  lemma ShiftingCanDivideByZero<K(!new)>(scores: map<K, real>, least: K, invested: Positive, cap: Positive)
    requires IsMinimum(scores, least) && Sums.Total(Shifted(scores, least)) != 0.0
    requires Times(cap, |scores| as real) >= invested > Times(cap, (|scores| - 1) as real)
    ensures var w := ShiftWeights(scores, least, invested);
            && NonNegativeWeights(w) && Sums.Total(w) == invested && w[least] == 0.0 && DividesByZero(w, Some(cap))
  {
    var shifted := Shifted(scores, least);
    Sums.TotalZero(shifted);
    var total := Sums.Total(shifted);
    QuotientNonNegative(invested, total);
    StepTotal(shifted, invested, total);
    var w := ShiftWeights(scores, least, invested);
    hide Times;
    TimesUnits(invested / total);
    forall s | s in w
      ensures w[s] >= 0.0
    {
      TimesNonNegative(invested / total, shifted[s]);
    }
    var few := PositiveNames(w);
    assert few <= w.Keys - {least};
    AtMostOthers(few, w.Keys, least);
    assert |w| == |w.Keys| && w.Keys == scores.Keys && |scores| == |scores.Keys|;
    CapBelow(cap, |few|, |scores| - 1);
  }

  lemma AtMostOthers<K>(few: set<K>, all: set<K>, one: K)
    requires one in all && few <= all - {one}
    ensures |few| <= |all| - 1
  {
    assert all - {one} == few + (all - {one} - few);
    assert |all - {one}| == |all| - 1;
  }
}
