/** Price aggregation: the weighted "suggested" peg computed in the browser
    (js/helpers.js `computePeg`, js/app.js `computePegFromPoints`), the base price the
    save endpoints compute in PHP, and the margin band. Prices are exact reals; the
    source's floating point and `toFixed` rounding are not modelled. */
module Pricing {
  import opened Wrappers
  import Text

  /** A price point as the aggregation sees it. `None` in a numeric field stands for a
      field that is absent or not a number (`Number(x)` is NaN). */
  datatype PegPoint = PegPoint(caption: Option<string>, price: Option<real>, weight: Option<real>)

  /** A flat price modifier; `amount` as for the numeric fields of PegPoint. */
  datatype Modifier = Modifier(caption: Option<string>, amount: Option<real>)

  /** What `computePeg` returns. */
  datatype PegSnapshot = PegSnapshot(
    labels: seq<string>,
    prices: seq<real>,
    weightsPercent: seq<real>,
    suggested: real,
    rawAvg: real)

  datatype Band = Band(low: real, high: real)

  function Last<T>(s: seq<T>): T
    requires s != []
  {
    s[|s| - 1]
  }

  function Prefix<T>(s: seq<T>): seq<T>
    requires s != []
  {
    s[..|s| - 1]
  }

  // ---------------------------------------------------------------------------
  // Browser-side aggregation (js/helpers.js:11-48, js/app.js:85-119)

  /** `Number(p.weight) > 0` */
  predicate Positive(p: PegPoint) {
    p.weight.Some? && p.weight.value > 0.0
  }

  /** Some point carries a positive weight; when none does, every point weighs 1. */
  predicate HasPositiveWeight(ps: seq<PegPoint>) {
    exists i :: 0 <= i < |ps| && Positive(ps[i])
  }

  /** `Number(p.price) || 0` */
  function JsPrice(p: PegPoint): real {
    p.price.GetOr(0.0)
  }

  /** `noWeights ? 1 : (Number(p.weight) || 0)` */
  function JsWeight(p: PegPoint, noWeights: bool): real {
    if noWeights then 1.0 else p.weight.GetOr(0.0)
  }

  function WeightedSum(ps: seq<PegPoint>, noWeights: bool): real {
    if ps == [] then 0.0
    else WeightedSum(Prefix(ps), noWeights) + JsPrice(Last(ps)) * JsWeight(Last(ps), noWeights)
  }

  function TotalWeight(ps: seq<PegPoint>, noWeights: bool): real {
    if ps == [] then 0.0 else TotalWeight(Prefix(ps), noWeights) + JsWeight(Last(ps), noWeights)
  }

  function RawSum(ps: seq<PegPoint>): real {
    if ps == [] then 0.0 else RawSum(Prefix(ps)) + JsPrice(Last(ps))
  }

  /** The weighted mean of the prices, with the single global fallback to equal weights. */
  function Suggested(ps: seq<PegPoint>): real {
    var noWeights := !HasPositiveWeight(ps);
    var total := TotalWeight(ps, noWeights);
    if total > 0.0 then WeightedSum(ps, noWeights) / total else 0.0
  }

  function RawAvg(ps: seq<PegPoint>): real {
    if ps == [] then 0.0 else RawSum(ps) / (|ps| as real)
  }

  function Prices(ps: seq<PegPoint>): (r: seq<real>)
    ensures |r| == |ps| && forall i :: 0 <= i < |ps| ==> r[i] == JsPrice(ps[i])
  {
    seq(|ps|, i requires 0 <= i < |ps| => JsPrice(ps[i]))
  }

  /** Each point's share of the total weight, in percent (0 when the total is 0). */
  function WeightsPercent(ps: seq<PegPoint>): (r: seq<real>)
    ensures |r| == |ps|
  {
    var noWeights := !HasPositiveWeight(ps);
    var total := TotalWeight(ps, noWeights);
    seq(|ps|, i requires 0 <= i < |ps| =>
      if total == 0.0 then 0.0 else JsWeight(ps[i], noWeights) / total * 100.0)
  }

  /** A label is falsy when absent or empty. */
  function LabelOr(caption: Option<string>, fallback: string): string {
    if caption.None? || caption.value == "" then fallback else caption.value
  }

  /** Labels as js/helpers.js gives them: `p.label || "Point"`. */
  function HelperLabels(ps: seq<PegPoint>): (r: seq<string>)
    ensures |r| == |ps|
  {
    seq(|ps|, i requires 0 <= i < |ps| => LabelOr(ps[i].caption, "Point"))
  }

  /** Labels as js/app.js gives them: `p.label || `Point ${i + 1}``. */
  function NumberedLabels(ps: seq<PegPoint>): (r: seq<string>)
    ensures |r| == |ps|
  {
    seq(|ps|, i requires 0 <= i < |ps| => LabelOr(ps[i].caption, "Point " + Text.NatToString(i + 1)))
  }

  /** The accumulator loops shared by `computePeg` and `computePegFromPoints`. */
  method Accumulate(points: seq<PegPoint>, noWeights: bool)
    returns (weightedSum: real, totalWeight: real, rawSum: real)
    ensures weightedSum == WeightedSum(points, noWeights)
    ensures totalWeight == TotalWeight(points, noWeights)
    ensures rawSum == RawSum(points)
  {
    weightedSum, totalWeight, rawSum := 0.0, 0.0, 0.0;
    var i := 0;
    while i < |points|
      invariant 0 <= i <= |points|
      invariant weightedSum == WeightedSum(points[..i], noWeights)
      invariant totalWeight == TotalWeight(points[..i], noWeights)
      invariant rawSum == RawSum(points[..i])
    {
      assert Prefix(points[..i + 1]) == points[..i];
      var p := points[i];
      var price := JsPrice(p);
      var weight := JsWeight(p, noWeights);
      weightedSum := weightedSum + price * weight;
      totalWeight := totalWeight + weight;
      rawSum := rawSum + price;
      i := i + 1;
    }
    assert points[..i] == points;
  }

  /** js/helpers.js `computePeg`. */
  method ComputePeg(points: seq<PegPoint>) returns (r: PegSnapshot)
    ensures points == [] ==> r == PegSnapshot([], [], [], 0.0, 0.0)
    ensures r.suggested == Suggested(points) && r.rawAvg == RawAvg(points)
    ensures r.prices == Prices(points) && r.weightsPercent == WeightsPercent(points)
    ensures r.labels == HelperLabels(points)
  {
    if |points| == 0 {
      return PegSnapshot([], [], [], 0.0, 0.0);
    }
    var noWeights := true;
    var i := 0;
    while i < |points|
      invariant 0 <= i <= |points|
      invariant noWeights <==> !exists j :: 0 <= j < i && Positive(points[j])
    {
      if points[i].weight.Some? && points[i].weight.value > 0.0 {
        noWeights := false;
      }
      i := i + 1;
    }
    var weightedSum, totalWeight, rawSum := Accumulate(points, noWeights);
    var suggested := if totalWeight > 0.0 then weightedSum / totalWeight else 0.0;
    var rawAvg := rawSum / (|points| as real);
    r := PegSnapshot(HelperLabels(points), Prices(points), WeightsPercent(points), suggested, rawAvg);
  }

  /** js/app.js `computePegFromPoints`: the same aggregation; the weight scan stops at the
      first positive weight, and unlabeled points are numbered. */
  method ComputePegFromPoints(points: seq<PegPoint>) returns (r: PegSnapshot)
    ensures points == [] ==> r == PegSnapshot([], [], [], 0.0, 0.0)
    ensures r.suggested == Suggested(points) && r.rawAvg == RawAvg(points)
    ensures r.prices == Prices(points) && r.weightsPercent == WeightsPercent(points)
    ensures r.labels == NumberedLabels(points)
  {
    if |points| == 0 {
      return PegSnapshot([], [], [], 0.0, 0.0);
    }
    var noWeights := true;
    var i := 0;
    while i < |points|
      invariant 0 <= i <= |points|
      invariant noWeights <==> !exists j :: 0 <= j < i && Positive(points[j])
      invariant !noWeights ==> HasPositiveWeight(points)
    {
      if points[i].weight.Some? && points[i].weight.value > 0.0 {
        noWeights := false;
        break;
      }
      i := i + 1;
    }
    assert noWeights == !HasPositiveWeight(points);
    var weightedSum, totalWeight, rawSum := Accumulate(points, noWeights);
    var suggested := if totalWeight > 0.0 then weightedSum / totalWeight else 0.0;
    var rawAvg := if |points| > 0 then rawSum / (|points| as real) else 0.0;
    r := PegSnapshot(NumberedLabels(points), Prices(points), WeightsPercent(points), suggested, rawAvg);
  }

  // ---------------------------------------------------------------------------
  // Properties of the browser-side aggregation

  lemma {:induction false} EqualWeightSums(ps: seq<PegPoint>)
    ensures TotalWeight(ps, true) == |ps| as real
    ensures WeightedSum(ps, true) == RawSum(ps)
  {
    if ps != [] {
      EqualWeightSums(Prefix(ps));
    }
  }

  /** With no positive weight every point weighs 1, so the suggested peg is the plain mean. */
  lemma SuggestedIsRawAvgWithoutWeights(ps: seq<PegPoint>)
    requires !HasPositiveWeight(ps)
    ensures Suggested(ps) == RawAvg(ps)
  {
    EqualWeightSums(ps);
  }

  /** How far a weighted term lies above the level `c`: `(price - c) * weight`. */
  function Excess(price: real, w: real, c: real): real { (price - c) * w }

  lemma ExcessSign(price: real, w: real, c: real)
    requires w >= 0.0
    ensures price >= c ==> Excess(price, w, c) >= 0.0
    ensures price <= c ==> Excess(price, w, c) <= 0.0
  {
  }

  /** The browser's weighted sum less `c` times its total weight, term by term. */
  function JsExcess(ps: seq<PegPoint>, noWeights: bool, c: real): real {
    if ps == [] then 0.0
    else JsExcess(Prefix(ps), noWeights, c) + Excess(JsPrice(Last(ps)), JsWeight(Last(ps), noWeights), c)
  }

  lemma {:induction false} JsExcessIdentity(ps: seq<PegPoint>, noWeights: bool, c: real)
    ensures JsExcess(ps, noWeights, c) == WeightedSum(ps, noWeights) - c * TotalWeight(ps, noWeights)
  {
    if ps != [] {
      JsExcessIdentity(Prefix(ps), noWeights, c);
    }
  }

  lemma {:induction false} JsExcessSign(ps: seq<PegPoint>, noWeights: bool, c: real, above: bool)
    requires forall i :: 0 <= i < |ps| ==> JsWeight(ps[i], noWeights) >= 0.0
    requires forall i :: 0 <= i < |ps| ==> if above then c <= JsPrice(ps[i]) else JsPrice(ps[i]) <= c
    ensures if above then JsExcess(ps, noWeights, c) >= 0.0 else JsExcess(ps, noWeights, c) <= 0.0
  {
    if ps != [] {
      var pre, x := Prefix(ps), Last(ps);
      assert forall i :: 0 <= i < |pre| ==> pre[i] == ps[i];
      JsExcessSign(pre, noWeights, c, above);
      assert x == ps[|ps| - 1];
      ExcessSign(JsPrice(x), JsWeight(x, noWeights), c);
    }
  }

  lemma SumBounds(ps: seq<PegPoint>, noWeights: bool, lo: real, hi: real)
    requires forall i :: 0 <= i < |ps| ==> JsWeight(ps[i], noWeights) >= 0.0
    requires forall i :: 0 <= i < |ps| ==> lo <= JsPrice(ps[i]) <= hi
    ensures lo * TotalWeight(ps, noWeights) <= WeightedSum(ps, noWeights)
    ensures WeightedSum(ps, noWeights) <= hi * TotalWeight(ps, noWeights)
    ensures TotalWeight(ps, noWeights) >= 0.0
  {
    JsExcessSign(ps, noWeights, lo, true);
    JsExcessSign(ps, noWeights, hi, false);
    JsExcessIdentity(ps, noWeights, lo);
    JsExcessIdentity(ps, noWeights, hi);
    TotalNonNegative(ps, noWeights);
  }

  lemma {:induction false} TotalNonNegative(ps: seq<PegPoint>, noWeights: bool)
    requires forall i :: 0 <= i < |ps| ==> JsWeight(ps[i], noWeights) >= 0.0
    ensures TotalWeight(ps, noWeights) >= 0.0
  {
    if ps != [] {
      TotalNonNegative(Prefix(ps), noWeights);
    }
  }

  lemma {:induction false} PositiveWeightGivesPositiveTotal(ps: seq<PegPoint>, k: int)
    requires 0 <= k < |ps| && Positive(ps[k])
    requires forall i :: 0 <= i < |ps| ==> JsWeight(ps[i], false) >= 0.0
    ensures TotalWeight(ps, false) > 0.0
  {
    if k < |ps| - 1 {
      PositiveWeightGivesPositiveTotal(Prefix(ps), k);
    } else {
      TotalNonNegative(Prefix(ps), false);
    }
  }

  /** A mean bounded through its numerator: `lo * t <= a <= hi * t` with `t > 0`. */
  lemma MeanBounds(a: real, t: real, lo: real, hi: real)
    requires t > 0.0 && lo * t <= a <= hi * t
    ensures lo <= a / t <= hi
  {
    assert a / t * t == a;
  }

  /** With non-negative weights the suggested peg of a non-empty list lies within the
      range of its prices. */
  lemma SuggestedWithinPriceRange(ps: seq<PegPoint>, lo: real, hi: real)
    requires ps != []
    requires forall i :: 0 <= i < |ps| ==> ps[i].weight.GetOr(0.0) >= 0.0
    requires forall i :: 0 <= i < |ps| ==> lo <= JsPrice(ps[i]) <= hi
    ensures lo <= Suggested(ps) <= hi
  {
    var noWeights := !HasPositiveWeight(ps);
    SumBounds(ps, noWeights, lo, hi);
    var total := TotalWeight(ps, noWeights);
    if noWeights {
      EqualWeightSums(ps);
    } else {
      var k :| 0 <= k < |ps| && Positive(ps[k]);
      PositiveWeightGivesPositiveTotal(ps, k);
    }
    MeanBounds(WeightedSum(ps, noWeights), total, lo, hi);
  }

  function Sum(s: seq<real>): real {
    if s == [] then 0.0 else Sum(Prefix(s)) + Last(s)
  }

  lemma {:induction false} PercentPrefixSum(ps: seq<PegPoint>, noWeights: bool, total: real, k: nat)
    requires total != 0.0 && k <= |ps|
    ensures Sum(seq(k, i requires 0 <= i < k => JsWeight(ps[i], noWeights) / total * 100.0))
         == TotalWeight(ps[..k], noWeights) / total * 100.0
  {
    var s := seq(k, i requires 0 <= i < k => JsWeight(ps[i], noWeights) / total * 100.0);
    if k > 0 {
      PercentPrefixSum(ps, noWeights, total, k - 1);
      assert Prefix(s) == seq(k - 1, i requires 0 <= i < k - 1 => JsWeight(ps[i], noWeights) / total * 100.0);
      assert Prefix(ps[..k]) == ps[..k - 1];
      assert Last(ps[..k]) == ps[k - 1];
      assert Last(s) == JsWeight(ps[k - 1], noWeights) / total * 100.0;
      var w := JsWeight(ps[k - 1], noWeights);
      var t := TotalWeight(ps[..k - 1], noWeights);
      assert TotalWeight(ps[..k], noWeights) == t + w;
      DivideSum(t, w, total);
    }
  }

  lemma DivideSum(t: real, w: real, total: real)
    requires total != 0.0
    ensures t / total * 100.0 + w / total * 100.0 == (t + w) / total * 100.0
  {
  }

  /** Whenever the total weight is non-zero the weight shares add up to 100 percent. */
  lemma WeightsPercentSumTo100(ps: seq<PegPoint>)
    requires TotalWeight(ps, !HasPositiveWeight(ps)) != 0.0
    ensures Sum(WeightsPercent(ps)) == 100.0
  {
    var noWeights := !HasPositiveWeight(ps);
    var total := TotalWeight(ps, noWeights);
    PercentPrefixSum(ps, noWeights, total, |ps|);
    assert ps[..|ps|] == ps;
    assert WeightsPercent(ps) == seq(|ps|, i requires 0 <= i < |ps| => JsWeight(ps[i], noWeights) / total * 100.0);
    assert total / total == 1.0;
  }

  /** Two points priced 10 and 20 with weights 1 and 3 peg at 17.5; their plain mean is 15. */
  lemma WeightedScenario()
    ensures var ps := [PegPoint(None, Some(10.0), Some(1.0)), PegPoint(None, Some(20.0), Some(3.0))];
      Suggested(ps) == 17.5 && RawAvg(ps) == 15.0 && WeightsPercent(ps) == [25.0, 75.0]
  {
    var ps := [PegPoint(None, Some(10.0), Some(1.0)), PegPoint(None, Some(20.0), Some(3.0))];
    assert Positive(ps[0]);
    assert Prefix(ps) == [ps[0]];
    assert Prefix([ps[0]]) == [];
    assert TotalWeight(ps, false) == 4.0;
    assert WeightedSum(ps, false) == 70.0;
    assert RawSum(ps) == 30.0;
    assert WeightsPercent(ps)[0] == 25.0 && WeightsPercent(ps)[1] == 75.0;
  }

  // ---------------------------------------------------------------------------
  // Server-side aggregation (api/save_peg.php:202-221, API/save_peg.php:170-190)

  /** `(float)($p['weight'] ?? 1)`, and a weight that is not positive counts as 1. */
  function PhpWeight(p: PegPoint): (w: real)
    ensures w > 0.0
    ensures Positive(p) ==> w == p.weight.value
    ensures !Positive(p) ==> w == 1.0
  {
    match p.weight
    case None => 1.0
    case Some(w) => if w <= 0.0 then 1.0 else w
  }

  function PhpWeightedSum(ps: seq<PegPoint>): real {
    if ps == [] then 0.0 else PhpWeightedSum(Prefix(ps)) + JsPrice(Last(ps)) * PhpWeight(Last(ps))
  }

  function PhpTotalWeight(ps: seq<PegPoint>): real {
    if ps == [] then 0.0 else PhpTotalWeight(Prefix(ps)) + PhpWeight(Last(ps))
  }

  /** The base price stored with a snapshot: weighted mean with per-point fallback. */
  function BasePrice(ps: seq<PegPoint>): real {
    var total := PhpTotalWeight(ps);
    if total > 0.0 then PhpWeightedSum(ps) / total else 0.0
  }

  /** `Number(m.amount) || 0` on the client, `(float)($m['amount'] ?? 0)` on the server. */
  function ModifierTotal(mods: seq<Modifier>): real {
    if mods == [] then 0.0 else ModifierTotal(Prefix(mods)) + Last(mods).amount.GetOr(0.0)
  }

  /** The accumulator loops of the save endpoints. */
  method AggregatePrices(points: seq<PegPoint>, mods: seq<Modifier>) returns (base: real, adjusted: real)
    ensures base == BasePrice(points)
    ensures adjusted == base + ModifierTotal(mods)
  {
    var sumWeighted, sumWeights := 0.0, 0.0;
    var i := 0;
    while i < |points|
      invariant 0 <= i <= |points|
      invariant sumWeighted == PhpWeightedSum(points[..i])
      invariant sumWeights == PhpTotalWeight(points[..i])
    {
      assert Prefix(points[..i + 1]) == points[..i];
      var p := points[i];
      var weight := if p.weight.None? then 1.0 else p.weight.value;
      if weight <= 0.0 {
        weight := 1.0;
      }
      sumWeighted := sumWeighted + p.price.GetOr(0.0) * weight;
      sumWeights := sumWeights + weight;
      i := i + 1;
    }
    assert points[..i] == points;
    base := if sumWeights > 0.0 then sumWeighted / sumWeights else 0.0;
    var modTotal := 0.0;
    var j := 0;
    while j < |mods|
      invariant 0 <= j <= |mods|
      invariant modTotal == ModifierTotal(mods[..j])
    {
      assert Prefix(mods[..j + 1]) == mods[..j];
      modTotal := modTotal + mods[j].amount.GetOr(0.0);
      j := j + 1;
    }
    assert mods[..j] == mods;
    adjusted := base + modTotal;
  }

  lemma {:induction false} AllPositiveSums(ps: seq<PegPoint>)
    requires forall i :: 0 <= i < |ps| ==> Positive(ps[i])
    ensures PhpWeightedSum(ps) == WeightedSum(ps, false)
    ensures PhpTotalWeight(ps) == TotalWeight(ps, false)
  {
    if ps != [] {
      AllPositiveSums(Prefix(ps));
    }
  }

  lemma {:induction false} NonePositiveSums(ps: seq<PegPoint>)
    requires forall i :: 0 <= i < |ps| ==> !Positive(ps[i])
    ensures PhpWeightedSum(ps) == WeightedSum(ps, true)
    ensures PhpTotalWeight(ps) == TotalWeight(ps, true)
  {
    if ps != [] {
      NonePositiveSums(Prefix(ps));
    }
  }

  /** The browser's suggested peg and the server's base price agree when either every point
      has a positive weight or none has. */
  lemma BrowserAndServerAgree(ps: seq<PegPoint>)
    requires (forall i :: 0 <= i < |ps| ==> Positive(ps[i])) || (forall i :: 0 <= i < |ps| ==> !Positive(ps[i]))
    ensures Suggested(ps) == BasePrice(ps)
  {
    if forall i :: 0 <= i < |ps| ==> !Positive(ps[i]) {
      NonePositiveSums(ps);
    } else {
      AllPositiveSums(ps);
    }
  }

  /** With weights 1 and 0 the browser drops the second point while the server counts it
      with weight 1: the two prices differ. */
  lemma BrowserAndServerDisagreeOnMixedWeights()
    ensures var ps := [PegPoint(None, Some(10.0), Some(1.0)), PegPoint(None, Some(20.0), Some(0.0))];
      Suggested(ps) == 10.0 && BasePrice(ps) == 15.0
  {
    var ps := [PegPoint(None, Some(10.0), Some(1.0)), PegPoint(None, Some(20.0), Some(0.0))];
    assert Positive(ps[0]);
    assert Prefix(ps) == [ps[0]];
    assert Prefix([ps[0]]) == [];
    assert TotalWeight(ps, false) == 1.0;
    assert WeightedSum(ps, false) == 10.0;
    assert PhpTotalWeight(ps) == 2.0;
    assert PhpWeightedSum(ps) == 30.0;
  }

  /** The server's base price of a non-empty list lies within the range of its prices. */
  lemma {:induction false} BasePriceWithinPriceRange(ps: seq<PegPoint>, lo: real, hi: real)
    requires ps != []
    requires forall i :: 0 <= i < |ps| ==> lo <= JsPrice(ps[i]) <= hi
    ensures lo <= BasePrice(ps) <= hi
  {
    PhpSumBounds(ps, lo, hi);
    PhpTotalPositive(ps);
    MeanBounds(PhpWeightedSum(ps), PhpTotalWeight(ps), lo, hi);
  }

  /** The server's weighted sum less `c` times its total weight, term by term. */
  function PhpExcess(ps: seq<PegPoint>, c: real): real {
    if ps == [] then 0.0 else PhpExcess(Prefix(ps), c) + Excess(JsPrice(Last(ps)), PhpWeight(Last(ps)), c)
  }

  lemma {:induction false} PhpExcessIdentity(ps: seq<PegPoint>, c: real)
    ensures PhpExcess(ps, c) == PhpWeightedSum(ps) - c * PhpTotalWeight(ps)
  {
    if ps != [] {
      PhpExcessIdentity(Prefix(ps), c);
    }
  }

  lemma {:induction false} PhpExcessSign(ps: seq<PegPoint>, c: real, above: bool)
    requires forall i :: 0 <= i < |ps| ==> if above then c <= JsPrice(ps[i]) else JsPrice(ps[i]) <= c
    ensures if above then PhpExcess(ps, c) >= 0.0 else PhpExcess(ps, c) <= 0.0
  {
    if ps != [] {
      var pre, x := Prefix(ps), Last(ps);
      assert forall i :: 0 <= i < |pre| ==> pre[i] == ps[i];
      PhpExcessSign(pre, c, above);
      assert x == ps[|ps| - 1];
      ExcessSign(JsPrice(x), PhpWeight(x), c);
    }
  }

  lemma PhpSumBounds(ps: seq<PegPoint>, lo: real, hi: real)
    requires forall i :: 0 <= i < |ps| ==> lo <= JsPrice(ps[i]) <= hi
    ensures lo * PhpTotalWeight(ps) <= PhpWeightedSum(ps) <= hi * PhpTotalWeight(ps)
  {
    PhpExcessSign(ps, lo, true);
    PhpExcessSign(ps, hi, false);
    PhpExcessIdentity(ps, lo);
    PhpExcessIdentity(ps, hi);
  }

  /** Every point weighs something on the server, so a non-empty list has a positive total. */
  lemma {:induction false} PhpTotalPositive(ps: seq<PegPoint>)
    ensures ps != [] ==> PhpTotalWeight(ps) > 0.0
    ensures PhpTotalWeight(ps) >= 0.0
  {
    if ps != [] {
      PhpTotalPositive(Prefix(ps));
    }
  }

  // ---------------------------------------------------------------------------
  // Margin band (js/helpers.js:58-67, js/app.js:137-145) and summary (js/app.js:649-677)

  /** `low = adjusted * margin / 100`, `high = low * 1.05`. */
  function BandPrices(adjusted: real, marginPercent: real): (r: Band)
    ensures r.low * 100.0 == adjusted * marginPercent
    ensures r.high == r.low + r.low / 20.0
    ensures adjusted >= 0.0 && 0.0 <= marginPercent <= 100.0 ==> 0.0 <= r.low <= adjusted && r.low <= r.high
  {
    var low := adjusted * (marginPercent / 100.0);
    Band(low, low * 1.05)
  }

  /** The summary panel of one capacity. */
  datatype Summary = Summary(base: real, rawAvg: real, modifiers: real, adjusted: real, band: Band)

  /** The margin field counts only when it holds a finite number; otherwise 80. */
  function MarginOrDefault(margin: Option<real>): real {
    margin.GetOr(80.0)
  }

  function SummaryOf(points: seq<PegPoint>, mods: seq<Modifier>, margin: Option<real>): (r: Summary)
    ensures r.adjusted == r.base + r.modifiers
    ensures r.band.low * 100.0 == r.adjusted * MarginOrDefault(margin)
    ensures margin.None? ==> r.band.low == r.adjusted * 0.8
    ensures !HasPositiveWeight(points) ==> r.base == r.rawAvg
  {
    EqualWeightSums(points);
    var base := Suggested(points);
    var modTotal := ModifierTotal(mods);
    var adjusted := base + modTotal;
    Summary(base, RawAvg(points), modTotal, adjusted, BandPrices(adjusted, MarginOrDefault(margin)))
  }

  /** How the weighted peg compares with the plain mean (js/app.js:476-485). */
  datatype Status = AboveAverage | BelowAverage | AtAverage

  function StatusOf(points: seq<PegPoint>): (s: Status)
    ensures s == AboveAverage <==> Suggested(points) > RawAvg(points)
    ensures s == BelowAverage <==> Suggested(points) < RawAvg(points)
    ensures !HasPositiveWeight(points) ==> s == AtAverage
  {
    EqualWeightSums(points);
    var suggested, raw := Suggested(points), RawAvg(points);
    if suggested > raw then AboveAverage
    else if suggested < raw then BelowAverage
    else AtAverage
  }
}
