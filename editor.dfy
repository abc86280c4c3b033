/** The editing block of one capacity in the browser (`pegDataState[capacity]`,
    js/app.js:1031-1110, 1141-1157): the table's input handlers coerce what is typed, the
    delete buttons splice a row out, and the add buttons append a default row. */
module Editor {
  import opened Wrappers
  import Text
  import Pricing

  /** A row of the points table; `weight` is `None` when the point has none (null). */
  datatype BlockPoint = BlockPoint(
    id: Option<int>, caption: string, channel: string, url: string,
    price: real, qty: int, weight: Option<real>)

  /** A row of the modifiers table. */
  datatype BlockModifier = BlockModifier(caption: string, amount: real)

  /** The value of an `<input type="number">`: empty, or a valid number. */
  datatype NumberInput = Empty | Number(value: real)

  datatype NumberField = PriceField | QtyField | WeightField
  datatype TextField = CaptionField | ChannelField | UrlField

  /** `Math.max(0, x)` */
  function AtLeastZero(x: real): real { if x < 0.0 then 0.0 else x }

  /** `parseInt(text, 10)` of a number's text: its whole part, towards zero. */
  function WholePart(x: real): (n: int)
    ensures x >= 0.0 ==> n as real <= x < n as real + 1.0
    ensures x < 0.0 ==> n as real - 1.0 < x <= n as real
  {
    if x >= 0.0 then x.Floor else -((-x).Floor)
  }

  /** The input handler's coercion of the typed value (js/app.js:1042-1058). */
  function Coerced(p: BlockPoint, field: NumberField, v: NumberInput): BlockPoint {
    match field
    case PriceField => p.(price := if v.Empty? then 0.0 else v.value)
    case WeightField => p.(weight := Some(if v.Empty? then p.weight.GetOr(1.0) else AtLeastZero(v.value)))
    case QtyField =>
      var n := if v.Empty? then 0 else WholePart(v.value);
      p.(qty := if n < 0 then 0 else n)
  }

  /** What each field ends up holding: an empty price or qty is 0, an empty weight keeps
      the point's weight (1 when it has none), a negative weight or qty is 0, a qty is the
      whole part of the number; the other fields do not change. */
  lemma CoercedValues(p: BlockPoint, field: NumberField, v: NumberInput)
    ensures var r := Coerced(p, field, v);
      r.id == p.id && r.caption == p.caption && r.channel == p.channel && r.url == p.url
      && (field != PriceField ==> r.price == p.price)
      && (field != QtyField ==> r.qty == p.qty)
      && (field != WeightField ==> r.weight == p.weight)
      && (field == PriceField ==> r.price == if v.Empty? then 0.0 else v.value)
      && (field == WeightField && v.Empty? ==> r.weight == Some(if p.weight.Some? then p.weight.value else 1.0))
      && (field == WeightField && v.Number? ==>
            (r.weight.Some? && r.weight.value >= 0.0 && (v.value >= 0.0 ==> r.weight.value == v.value)))
      && (field == QtyField ==>
            (r.qty >= 0
             && (v.Number? && v.value >= 0.0 ==> r.qty as real <= v.value < r.qty as real + 1.0)
             && (v.Empty? || v.value < 1.0 ==> r.qty == 0)))
  {
    if field == QtyField && v.Number? {
      var n := WholePart(v.value);
      if v.value < 1.0 && v.value >= 0.0 {
        assert n == 0;
      }
    }
  }

  /** `points[idx][field] = val`, unless there is no point at `idx`. */
  function EditNumber(points: seq<BlockPoint>, idx: int, field: NumberField, v: NumberInput): (r: seq<BlockPoint>)
    ensures |r| == |points|
    ensures forall j :: 0 <= j < |points| && j != idx ==> r[j] == points[j]
    ensures 0 <= idx < |points| ==> r[idx] == Coerced(points[idx], field, v)
    ensures !(0 <= idx < |points|) ==> r == points
  {
    if 0 <= idx < |points| then points[idx := Coerced(points[idx], field, v)] else points
  }

  /** `points[idx][field] = val` on a text field, unless there is no point at `idx`: the
      edited row takes the text in that field and keeps every other field. */
  function EditText(points: seq<BlockPoint>, idx: int, field: TextField, s: string): (r: seq<BlockPoint>)
    ensures |r| == |points|
    ensures forall j :: 0 <= j < |points| && j != idx ==> r[j] == points[j]
    ensures 0 <= idx < |points| ==>
      var p, q := points[idx], r[idx];
      q.id == p.id && q.price == p.price && q.qty == p.qty && q.weight == p.weight
      && q.caption == (if field == CaptionField then s else p.caption)
      && q.channel == (if field == ChannelField then s else p.channel)
      && q.url == (if field == UrlField then s else p.url)
    ensures !(0 <= idx < |points|) ==> r == points
  {
    if 0 <= idx < |points| then
      var p := points[idx];
      points[idx := match field
        case CaptionField => p.(caption := s)
        case ChannelField => p.(channel := s)
        case UrlField => p.(url := s)]
    else points
  }

  /** The index `splice(idx, 1)` removes at, if any: a negative `idx` counts from the end. */
  function SpliceAt(n: nat, idx: int): (k: Option<nat>)
    ensures k.Some? ==> k.value < n
  {
    var start := if idx < 0 then (if n + idx < 0 then 0 else n + idx) else idx;
    if start < n then Some(start) else None
  }

  /** `arr.splice(idx, 1)` */
  function Splice<T>(s: seq<T>, idx: int): seq<T> {
    match SpliceAt(|s|, idx)
    case None => s
    case Some(k) => s[..k] + s[k + 1..]
  }

  /** The splice removes one row and keeps the rest in order: exactly the row at `idx`
      (from the end when negative) goes, and nothing goes when `idx` is past either end
      of a list it cannot reach. */
  lemma SpliceRemovesOne<T>(s: seq<T>, idx: int)
    ensures -|s| <= idx < |s| ==>
      (|Splice(s, idx)| == |s| - 1
       && var k := if idx < 0 then |s| + idx else idx;
          multiset(Splice(s, idx)) + multiset{s[k]} == multiset(s)
          && (forall j :: 0 <= j < k ==> Splice(s, idx)[j] == s[j])
          && (forall j :: k <= j < |s| - 1 ==> Splice(s, idx)[j] == s[j + 1]))
    ensures idx >= |s| ==> Splice(s, idx) == s
    ensures idx < -|s| && s != [] ==> Splice(s, idx) == s[1..]
  {
    if -|s| <= idx < |s| {
      var k := if idx < 0 then |s| + idx else idx;
      assert SpliceAt(|s|, idx) == Some(k);
      assert Splice(s, idx) == s[..k] + s[k + 1..];
      RemoveAt(s, k);
    } else if idx >= |s| {
      assert SpliceAt(|s|, idx) == None;
    } else if s != [] {
      assert SpliceAt(|s|, idx) == Some(0);
    }
  }

  lemma RemoveAt<T>(s: seq<T>, k: nat)
    requires k < |s|
    ensures var r := s[..k] + s[k + 1..];
      |r| == |s| - 1
      && multiset(r) + multiset{s[k]} == multiset(s)
      && (forall j :: 0 <= j < k ==> r[j] == s[j])
      && (forall j :: k <= j < |s| - 1 ==> r[j] == s[j + 1])
  {
    assert s == s[..k] + [s[k]] + s[k + 1..];
  }

  /** `Point ${n + 1}` */
  function PointCaption(n: nat): string { "Point " + Text.NatToString(n + 1) }

  /** The row the add button appends: priced like the first row, or at 100. */
  function NewPoint(points: seq<BlockPoint>): BlockPoint {
    var base := if |points| > 0 then points[0].price else 100.0;
    BlockPoint(None, PointCaption(|points|), "", "", base, 1, Some(0.1))
  }

  function AddPoint(points: seq<BlockPoint>): (r: seq<BlockPoint>)
    ensures |r| == |points| + 1 && r[..|points|] == points
  {
    points + [NewPoint(points)]
  }

  /** `Modifier ${n + 1}` */
  function ModifierCaption(n: nat): string { "Modifier " + Text.NatToString(n + 1) }

  function AddModifier(mods: seq<BlockModifier>): (r: seq<BlockModifier>)
    ensures |r| == |mods| + 1 && r[..|mods|] == mods
  {
    mods + [BlockModifier(ModifierCaption(|mods|), 0.0)]
  }

  /** The modifier input handler: an empty amount is 0; without a modifier at `idx`
      nothing changes. */
  function EditAmount(mods: seq<BlockModifier>, idx: int, v: NumberInput): (r: seq<BlockModifier>)
    ensures |r| == |mods|
    ensures forall j :: 0 <= j < |mods| && j != idx ==> r[j] == mods[j]
    ensures 0 <= idx < |mods| ==>
      r[idx].caption == mods[idx].caption && r[idx].amount == (if v.Number? then v.value else 0.0)
    ensures !(0 <= idx < |mods|) ==> r == mods
  {
    if 0 <= idx < |mods| then mods[idx := mods[idx].(amount := if v.Empty? then 0.0 else v.value)] else mods
  }

  /** The modifier input handler on the caption: the text is stored as typed. */
  function EditModifierCaption(mods: seq<BlockModifier>, idx: int, s: string): (r: seq<BlockModifier>)
    ensures |r| == |mods|
    ensures forall j :: 0 <= j < |mods| && j != idx ==> r[j] == mods[j]
    ensures 0 <= idx < |mods| ==> r[idx].caption == s && r[idx].amount == mods[idx].amount
    ensures !(0 <= idx < |mods|) ==> r == mods
  {
    if 0 <= idx < |mods| then mods[idx := mods[idx].(caption := s)] else mods
  }

  // ---------------------------------------------------------------------------
  // The weights the aggregation sees

  /** No point of the block has a negative weight; a missing one counts as 0. */
  predicate WeightsNonNegative(points: seq<BlockPoint>) {
    forall i :: 0 <= i < |points| ==> points[i].weight.GetOr(0.0) >= 0.0
  }

  /** The block's points as `computePegFromPoints` reads them. */
  function PegPoints(points: seq<BlockPoint>): (r: seq<Pricing.PegPoint>)
    ensures |r| == |points|
    ensures forall i :: 0 <= i < |r| ==> r[i] == Pricing.PegPoint(Some(points[i].caption), Some(points[i].price), points[i].weight)
  {
    seq(|points|, i requires 0 <= i < |points| => Pricing.PegPoint(Some(points[i].caption), Some(points[i].price), points[i].weight))
  }

  /** No edit, deletion or addition introduces a negative weight. */
  lemma EditsKeepWeights(points: seq<BlockPoint>, idx: int, field: NumberField, v: NumberInput, tf: TextField, s: string)
    requires WeightsNonNegative(points)
    ensures WeightsNonNegative(EditNumber(points, idx, field, v))
    ensures WeightsNonNegative(EditText(points, idx, tf, s))
    ensures WeightsNonNegative(Splice(points, idx))
    ensures WeightsNonNegative(AddPoint(points))
  {
    var d := Splice(points, idx);
    SpliceRemovesOne(points, idx);
    forall i | 0 <= i < |d| ensures d[i].weight.GetOr(0.0) >= 0.0 {
      if -|points| <= idx < |points| {
        var k := if idx < 0 then |points| + idx else idx;
        if i >= k { assert d[i] == points[i + 1]; } else { assert d[i] == points[i]; }
      } else if idx < -|points| && points != [] {
        assert d[i] == points[i + 1];
      }
    }
    var a := AddPoint(points);
    assert forall i :: 0 <= i < |points| ==> a[i] == points[i];
  }

  /** While no weight is negative the block's suggested peg stays within its prices. */
  lemma SuggestedWithinPrices(points: seq<BlockPoint>, lo: real, hi: real)
    requires points != [] && WeightsNonNegative(points)
    requires forall i :: 0 <= i < |points| ==> lo <= points[i].price <= hi
    ensures lo <= Pricing.Suggested(PegPoints(points)) <= hi
  {
    var ps := PegPoints(points);
    assert forall i :: 0 <= i < |ps| ==> Pricing.JsPrice(ps[i]) == points[i].price;
    Pricing.SuggestedWithinPriceRange(ps, lo, hi);
  }

  // ---------------------------------------------------------------------------
  // The block as the handlers change it

  class PegBlock {
    var points: seq<BlockPoint>
    var modifiers: seq<BlockModifier>

    /** `{ points: [], modifiers: [], ... }` (js/app.js:224-230) */
    constructor()
      ensures points == [] && modifiers == []
    {
      points := [];
      modifiers := [];
    }

    /** The points table's input handler on a number field. */
    method SetNumber(idx: int, field: NumberField, v: NumberInput)
      modifies this
      ensures points == EditNumber(old(points), idx, field, v)
      ensures modifiers == old(modifiers)
    {
      if 0 <= idx < |points| {
        var p := points[idx];
        var q;
        match field {
          case PriceField =>
            q := p.(price := if v.Empty? then 0.0 else v.value);
          case WeightField =>
            var w := if v.Empty? then (if p.weight.Some? then p.weight.value else 1.0)
                     else if v.value < 0.0 then 0.0 else v.value;
            q := p.(weight := Some(w));
          case QtyField =>
            var n := if v.Empty? then 0 else WholePart(v.value);
            q := p.(qty := if n < 0 then 0 else n);
        }
        points := points[idx := q];
      }
    }

    /** The points table's input handler on a text field. */
    method SetText(idx: int, field: TextField, s: string)
      modifies this
      ensures points == EditText(old(points), idx, field, s)
      ensures modifiers == old(modifiers)
    {
      if 0 <= idx < |points| {
        var p := points[idx];
        var q := match field
          case CaptionField => p.(caption := s)
          case ChannelField => p.(channel := s)
          case UrlField => p.(url := s);
        points := points[idx := q];
      }
    }

    /** The delete button of a point row. */
    method DeleteRow(idx: int)
      modifies this
      ensures points == Splice(old(points), idx)
      ensures modifiers == old(modifiers)
    {
      points := Splice(points, idx);
    }

    /** The add-row button. */
    method AddRow()
      modifies this
      ensures points == AddPoint(old(points))
      ensures modifiers == old(modifiers)
    {
      var base := if |points| > 0 then points[0].price else 100.0;
      points := points + [BlockPoint(None, PointCaption(|points|), "", "", base, 1, Some(0.1))];
    }

    /** The modifiers table's input handler on the amount. */
    method SetAmount(idx: int, v: NumberInput)
      modifies this
      ensures modifiers == EditAmount(old(modifiers), idx, v)
      ensures points == old(points)
    {
      if 0 <= idx < |modifiers| {
        modifiers := modifiers[idx := modifiers[idx].(amount := if v.Empty? then 0.0 else v.value)];
      }
    }

    /** The modifiers table's input handler on the caption. */
    method SetModifierCaption(idx: int, s: string)
      modifies this
      ensures modifiers == EditModifierCaption(old(modifiers), idx, s)
      ensures points == old(points)
    {
      if 0 <= idx < |modifiers| {
        modifiers := modifiers[idx := modifiers[idx].(caption := s)];
      }
    }

    /** The delete button of a modifier row. */
    method DeleteModifier(idx: int)
      modifies this
      ensures modifiers == Splice(old(modifiers), idx)
      ensures points == old(points)
    {
      modifiers := Splice(modifiers, idx);
    }

    /** The add-modifier button. */
    method NewModifier()
      modifies this
      ensures modifiers == AddModifier(old(modifiers))
      ensures points == old(points)
    {
      modifiers := modifiers + [BlockModifier(ModifierCaption(|modifiers|), 0.0)];
    }
  }
}
