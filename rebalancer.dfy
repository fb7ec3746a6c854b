/** The rebalance calculator: a pure function from the position list to one
    recommendation per position, plus the target-weight total that drives
    the "should equal 100%" warning. Arithmetic is exact over `real`. */
module Rebalancer {
  import opened Positions

  // ---------------------------------------------------------------------
  // Sums

  /** `xs.reduce((sum, x) => sum + f(x), 0)`: a left fold from zero. The
      empty list sums to zero and a single term to itself. */
  function Sum<T>(xs: seq<T>, f: T -> real): (r: real)
    ensures xs == [] ==> r == 0.0
    ensures |xs| == 1 ==> r == f(xs[0])
  {
    if xs == [] then 0.0 else Sum(xs[..|xs| - 1], f) + f(xs[|xs| - 1])
  }

  /** When every term is positive, the sum is positive exactly when there
      is a term. */
  lemma {:induction false} SumPositive<T>(xs: seq<T>, f: T -> real)
    ensures (forall i :: 0 <= i < |xs| ==> f(xs[i]) > 0.0) ==> (xs != [] <==> Sum(xs, f) > 0.0)
  {
    if xs != [] {
      SumPositive(xs[..|xs| - 1], f);
    }
  }

  /** Two lists of the same length whose terms agree pairwise have the same
      sum. */
  lemma {:induction false} SumMatching<A, B>(xs: seq<A>, f: A -> real, ys: seq<B>, g: B -> real)
    requires |xs| == |ys|
    requires forall i :: 0 <= i < |xs| ==> f(xs[i]) == g(ys[i])
    ensures Sum(xs, f) == Sum(ys, g)
  {
    if xs != [] {
      SumMatching(xs[..|xs| - 1], f, ys[..|ys| - 1], g);
    }
  }

  /** When each term is a fixed multiple of the matching term of another
      list, so is the sum. */
  lemma {:induction false} SumScaled<A, B>(xs: seq<A>, f: A -> real, ys: seq<B>, g: B -> real, c: real)
    requires |xs| == |ys|
    requires forall i :: 0 <= i < |xs| ==> f(xs[i]) == c * g(ys[i])
    ensures Sum(xs, f) == c * Sum(ys, g)
  {
    if xs != [] {
      var n := |xs| - 1;
      SumScaled(xs[..n], f, ys[..n], g, c);
      assert f(xs[n]) == c * g(ys[n]);
    }
  }

  /** The sum of termwise differences is the difference of the sums. */
  lemma {:induction false} SumOfDifferences<T>(xs: seq<T>, f: T -> real, g: T -> real, h: T -> real)
    requires forall i :: 0 <= i < |xs| ==> f(xs[i]) == g(xs[i]) - h(xs[i])
    ensures Sum(xs, f) == Sum(xs, g) - Sum(xs, h)
  {
    if xs != [] {
      SumOfDifferences(xs[..|xs| - 1], f, g, h);
    }
  }

  // ---------------------------------------------------------------------
  // Portfolio totals

  /** The market value of one holding, shares times price. */
  function HoldingValue(p: Position): real
  {
    p.shares * p.price
  }

  function TargetWeightOf(p: Position): real
  {
    p.targetWeight
  }

  /** The total portfolio value the calculator computes first: zero for no
      positions, and one position's own value when it is alone. */
  function TotalValue(ps: seq<Position>): (t: real)
    ensures ps == [] ==> t == 0.0
    ensures |ps| == 1 ==> t == HoldingValue(ps[0])
  {
    Sum(ps, HoldingValue)
  }

  /** When every holding has positive shares and price, as the add handler
      demands, the total is positive exactly when there are positions. */
  lemma TotalValuePositive(ps: seq<Position>)
    requires forall i :: 0 <= i < |ps| ==> ps[i].shares > 0.0 && ps[i].price > 0.0
    ensures |ps| > 0 <==> TotalValue(ps) > 0.0
  {
    SumPositive(ps, HoldingValue);
    assert forall i :: 0 <= i < |ps| ==> HoldingValue(ps[i]) > 0.0;
  }

  /** The sum of the target weights, shown in the warning: zero for no
      positions, and one position's own weight when it is alone. */
  function TotalTargetWeight(ps: seq<Position>): (w: real)
    ensures ps == [] ==> w == 0.0
    ensures |ps| == 1 ==> w == ps[0].targetWeight
  {
    Sum(ps, TargetWeightOf)
  }

  // ---------------------------------------------------------------------
  // Division as the component's numbers do it

  /** A JavaScript number as far as the trade quantity needs one: a finite
      value, or what dividing by a zero price yields. */
  datatype JsNumber = Finite(value: real) | PositiveInfinity | NegativeInfinity | NaN

  /** `a / b` in IEEE-754 for finite operands and a non-negative zero: a
      finite quotient when `b` is not zero, an infinity with the sign of
      `a` otherwise, and NaN for zero over zero. */
  function Divide(a: real, b: real): (q: JsNumber)
    ensures b != 0.0 ==> q.Finite? && q.value * b == a
    ensures b == 0.0 ==> !q.Finite?
    ensures q.PositiveInfinity? <==> b == 0.0 && a > 0.0
    ensures q.NegativeInfinity? <==> b == 0.0 && a < 0.0
    ensures q.NaN? <==> b == 0.0 && a == 0.0
  {
    if b != 0.0 then Finite(a / b)
    else if a > 0.0 then PositiveInfinity
    else if a < 0.0 then NegativeInfinity
    else NaN
  }

  // ---------------------------------------------------------------------
  // The calculation

  /** One row of the recommendations: the position's own fields and the
      four derived values. */
  datatype RebalanceResult = RebalanceResult(
    position: Position,
    currentValue: real,
    targetValue: real,
    difference: real,
    tradeQuantity: JsNumber)

  function CurrentValueOf(r: RebalanceResult): real { r.currentValue }
  function TargetValueOf(r: RebalanceResult): real { r.targetValue }
  function DifferenceOf(r: RebalanceResult): real { r.difference }

  /** The row for `p` in a portfolio worth `total`. The target is `total`
      scaled by the position's own weight, never by the weights' sum; the
      trade quantity is the difference divided by the price as IEEE-754
      divides, so it is finite exactly when the price is not zero. */
  function RowFor(p: Position, total: real): (r: RebalanceResult)
    ensures r.position == p
    ensures r.currentValue == HoldingValue(p)
    ensures r.targetValue == total * p.targetWeight / 100.0
    ensures r.difference == r.targetValue - r.currentValue
    ensures r.tradeQuantity == Divide(r.difference, p.price)
    ensures r.tradeQuantity.Finite? <==> p.price != 0.0
  {
    var currentValue := HoldingValue(p);
    var targetValue := total * (p.targetWeight / 100.0);
    var difference := targetValue - currentValue;
    RebalanceResult(p, currentValue, targetValue, difference, Divide(difference, p.price))
  }

  /** Buying the trade quantity at the current price brings the holding
      exactly to its target value. */
  lemma TradeReachesTarget(p: Position, total: real)
    requires p.price != 0.0
    ensures var r := RowFor(p, total);
      r.tradeQuantity.value * p.price == r.difference
      && (p.shares + r.tradeQuantity.value) * p.price == r.targetValue
  {
  }

  /** The recommendations: none for an empty list, otherwise one row per
      position in input order, all against the same total. */
  function CalculateRebalancing(ps: seq<Position>): (rs: seq<RebalanceResult>)
    ensures |rs| == |ps|
    ensures forall i :: 0 <= i < |ps| ==> rs[i] == RowFor(ps[i], TotalValue(ps))
  {
    if |ps| == 0 then []
    else
      var total := TotalValue(ps);
      seq(|ps|, i requires 0 <= i < |ps| => RowFor(ps[i], total))
  }

  /** The current values of the rows add up to the portfolio total. */
  lemma CurrentValuesSumToTotal(ps: seq<Position>)
    ensures Sum(CalculateRebalancing(ps), CurrentValueOf) == TotalValue(ps)
  {
    SumMatching(CalculateRebalancing(ps), CurrentValueOf, ps, HoldingValue);
  }

  /** The target values add up to the total scaled by the sum of the
      weights over 100: the calculator does not renormalise. */
  lemma TargetValuesSumToWeightedTotal(ps: seq<Position>)
    ensures Sum(CalculateRebalancing(ps), TargetValueOf) == TotalValue(ps) * TotalTargetWeight(ps) / 100.0
  {
    SumOfPercentages(CalculateRebalancing(ps), ps, TotalValue(ps));
  }

  /** Rows whose targets are each `t` times their weight in percent have
      targets adding up to `t` times the weights' sum in percent. */
  lemma SumOfPercentages(rs: seq<RebalanceResult>, ps: seq<Position>, t: real)
    requires |rs| == |ps|
    requires forall i :: 0 <= i < |ps| ==> TargetValueOf(rs[i]) == (t / 100.0) * TargetWeightOf(ps[i])
    ensures Sum(rs, TargetValueOf) == t * TotalTargetWeight(ps) / 100.0
  {
    SumScaled(rs, TargetValueOf, ps, TargetWeightOf, t / 100.0);
  }

  /** The differences add up to the total times the weights' excess over
      100 percent. */
  lemma DifferencesSum(ps: seq<Position>)
    ensures Sum(CalculateRebalancing(ps), DifferenceOf)
            == TotalValue(ps) * (TotalTargetWeight(ps) - 100.0) / 100.0
  {
    var rs := CalculateRebalancing(ps);
    SumOfDifferences(rs, DifferenceOf, TargetValueOf, CurrentValueOf);
    CurrentValuesSumToTotal(ps);
    TargetValuesSumToWeightedTotal(ps);
  }

  /** When the weights add up to 100, the buys and sells balance: the
      differences add up to zero, and the rows' target values to the
      current total. */
  lemma BalancedWhenWeightsSumTo100(ps: seq<Position>)
    requires TotalTargetWeight(ps) == 100.0
    ensures Sum(CalculateRebalancing(ps), DifferenceOf) == 0.0
    ensures Sum(CalculateRebalancing(ps), TargetValueOf) == TotalValue(ps)
  {
    DifferencesSum(ps);
    TargetValuesSumToWeightedTotal(ps);
  }

  /** The warning under the positions table: there are positions and their
      weights do not add up to 100. It only shows text; the calculation
      never reads it. */
  predicate ShowsWeightWarning(ps: seq<Position>)
  {
    |ps| > 0 && TotalTargetWeight(ps) != 100.0
  }

  /** The warning tells whether the recommendations balance: with no
      warning whatever is sold pays for what is bought, and with one (in a
      portfolio worth something) it does not. */
  lemma WarningMeansImbalance(ps: seq<Position>)
    ensures ShowsWeightWarning(ps) ==> ps != []
    ensures !ShowsWeightWarning(ps) ==> Sum(CalculateRebalancing(ps), DifferenceOf) == 0.0
    ensures ShowsWeightWarning(ps) && TotalValue(ps) != 0.0 ==> Sum(CalculateRebalancing(ps), DifferenceOf) != 0.0
  {
    DifferencesSum(ps);
    NonZeroPercentage(TotalValue(ps), TotalTargetWeight(ps) - 100.0);
  }

  /** A percentage of a product is zero exactly when a factor is. */
  lemma NonZeroPercentage(t: real, d: real)
    ensures t * d / 100.0 == 0.0 <==> t == 0.0 || d == 0.0
  {
  }

  // ---------------------------------------------------------------------
  // Buy / Sell label

  /** What the trade-quantity cell shows: "Buy q" when the quantity is
      above zero, "Sell |q|" otherwise (so zero and NaN read as Sell). */
  datatype TradeAdvice = Buy(quantity: JsNumber) | Sell(quantity: JsNumber)

  /** `q > 0` on a JavaScript number; NaN compares false. A number above
      zero is its own magnitude. */
  predicate IsAboveZero(q: JsNumber)
    ensures IsAboveZero(q) ==> !q.NaN? && Magnitude(q) == q
  {
    q.PositiveInfinity? || (q.Finite? && q.value > 0.0)
  }

  /** `Math.abs`: a finite number keeps its size and loses its sign, both
      infinities become +Infinity, and NaN stays NaN. */
  function Magnitude(q: JsNumber): (r: JsNumber)
    ensures q.Finite? ==> r.Finite? && r.value >= 0.0 && (r.value == q.value || r.value == -q.value)
    ensures q.Finite? && q.value != 0.0 ==> r.value > 0.0
    ensures q.PositiveInfinity? || q.NegativeInfinity? ==> r.PositiveInfinity?
    ensures r.NaN? <==> q.NaN?
  {
    match q
    case Finite(v) => Finite(if v < 0.0 then -v else v)
    case PositiveInfinity => PositiveInfinity
    case NegativeInfinity => PositiveInfinity
    case NaN => NaN
  }

  function AdviceFor(q: JsNumber): (a: TradeAdvice)
    ensures a.Buy? <==> IsAboveZero(q)
    ensures a.quantity == Magnitude(q)
    ensures !a.quantity.NegativeInfinity?
    ensures a.quantity.Finite? ==> a.quantity.value >= 0.0
    ensures a.quantity.NaN? <==> q.NaN?
  {
    if IsAboveZero(q) then Buy(q) else Sell(Magnitude(q))
  }

  /** At a positive price the label follows the difference: Buy exactly
      when the holding is below its target, and the quantity shown is the
      size of the gap in shares. */
  lemma AdviceFollowsDifference(p: Position, total: real)
    requires p.price > 0.0
    ensures var r := RowFor(p, total);
      (AdviceFor(r.tradeQuantity).Buy? <==> r.difference > 0.0)
      && AdviceFor(r.tradeQuantity).quantity.Finite?
      && AdviceFor(r.tradeQuantity).quantity.value * p.price
         == (if r.difference < 0.0 then -r.difference else r.difference)
  {
  }

  /** A price edited below zero (the update handler does not validate)
      turns the label around: Buy exactly when the holding is above its
      target. The quantity shown is still the size of the gap in shares. */
  lemma NegativePriceInvertsAdvice(p: Position, total: real)
    requires p.price < 0.0
    ensures var r := RowFor(p, total);
      (AdviceFor(r.tradeQuantity).Buy? <==> r.difference < 0.0)
      && AdviceFor(r.tradeQuantity).quantity.Finite?
      && AdviceFor(r.tradeQuantity).quantity.value * -p.price
         == (if r.difference < 0.0 then -r.difference else r.difference)
  {
  }

  /** A price edited to zero does not break the calculation: the trade
      quantity is an infinity with the sign of the target value, or NaN
      when the target is zero, which the label shows as Sell. */
  lemma ZeroPriceGivesNonFiniteTrade(p: Position, total: real)
    requires p.price == 0.0
    ensures var r := RowFor(p, total);
      r.currentValue == 0.0 && r.difference == r.targetValue
      && (r.targetValue > 0.0 ==> AdviceFor(r.tradeQuantity) == Buy(PositiveInfinity))
      && (r.targetValue < 0.0 ==> AdviceFor(r.tradeQuantity) == Sell(PositiveInfinity))
      && (r.targetValue == 0.0 ==> AdviceFor(r.tradeQuantity) == Sell(NaN))
  {
  }

  // ---------------------------------------------------------------------
  // Worked examples

  /** One position of 10 shares at 20 with weight 100: already on target. */
  lemma SinglePositionExample()
    ensures var rs := CalculateRebalancing([Position("a", "A", 10.0, 20.0, 100.0)]);
      |rs| == 1 && rs[0].currentValue == 200.0 && rs[0].targetValue == 200.0
      && rs[0].difference == 0.0 && rs[0].tradeQuantity == Finite(0.0)
      && AdviceFor(rs[0].tradeQuantity) == Sell(Finite(0.0))
  {
  }

  /** Two positions at half weight each, worth 100 and 50: sell 2.5 shares
      of the first and buy 2.5 of the second. */
  lemma TwoPositionExample()
    ensures var rs := CalculateRebalancing([Position("a", "A", 10.0, 10.0, 50.0), Position("b", "B", 5.0, 10.0, 50.0)]);
      |rs| == 2
      && rs[0].currentValue == 100.0 && rs[0].targetValue == 75.0
      && rs[0].difference == -25.0 && rs[0].tradeQuantity == Finite(-2.5)
      && AdviceFor(rs[0].tradeQuantity) == Sell(Finite(2.5))
      && rs[1].currentValue == 50.0 && rs[1].targetValue == 75.0
      && rs[1].difference == 25.0 && rs[1].tradeQuantity == Finite(2.5)
      && AdviceFor(rs[1].tradeQuantity) == Buy(Finite(2.5))
  {
    var ps := [Position("a", "A", 10.0, 10.0, 50.0), Position("b", "B", 5.0, 10.0, 50.0)];
    assert TotalValue(ps) == 150.0 by {
      assert ps[..1][..0] == [];
      assert Sum(ps[..1], HoldingValue) == 100.0;
    }
  }

  /** The first position of the two-position example after its price was
      edited to zero: its row asks to buy an infinite quantity instead of
      failing. */
  lemma ZeroPriceExample()
    ensures var rs := CalculateRebalancing([Position("a", "A", 10.0, 0.0, 50.0), Position("b", "B", 5.0, 10.0, 50.0)]);
      |rs| == 2 && rs[0].currentValue == 0.0 && rs[0].targetValue == 25.0
      && rs[0].tradeQuantity == PositiveInfinity
      && AdviceFor(rs[0].tradeQuantity) == Buy(PositiveInfinity)
  {
    var ps := [Position("a", "A", 10.0, 0.0, 50.0), Position("b", "B", 5.0, 10.0, 50.0)];
    assert TotalValue(ps) == 50.0 by {
      assert ps[..1][..0] == [];
      assert Sum(ps[..1], HoldingValue) == 0.0;
    }
  }
}
