/** What each write endpoint does to the store, as functions from the old tables to the
    response and the new tables. A failed transaction returns the old tables. */
module Writes {
  import opened Wrappers
  import Text
  import Lex
  import Days
  import Pricing
  import opened Schema

  // ---------------------------------------------------------------------------
  // Statements on the whole store

  /** `INSERT INTO peg_point_history ... ON DUPLICATE KEY UPDATE ...`; fails when the point
      does not exist (the foreign key) or the day is not a date (the DATE column). */
  function UpsertHistory(t: Tables, pointId: int, day: string, price: real, qty: int): (r: Option<Tables>)
    ensures r.Some? <==> pointId >= 0 && PointExists(t.points, pointId) && Days.IsDay(day)
    ensures r.Some? ==> r.value == t.(history := UpsertHistoryRows(t.history, HistoryRow(pointId, day, price, qty)))
  {
    if pointId < 0 || !PointExists(t.points, pointId) || !Days.IsDay(day) then None
    else Some(t.(history := UpsertHistoryRows(t.history, HistoryRow(pointId, day, price, qty))))
  }

  /** The row `INSERT INTO peg_points (config_id, label, channel, url, price, qty, weight)` creates. */
  function NewPoint(id: nat, configId: nat, v: PointValues): PointRow {
    PointRow(id, configId, v.caption, v.channel, v.url, v.price, v.qty, v.weight)
  }

  function InsertPoint(t: Tables, configId: nat, v: PointValues): Tables {
    t.(points := t.points + [NewPoint(t.nextId, configId, v)], nextId := t.nextId + 1)
  }

  function InsertModifier(t: Tables, configId: nat, caption: string, amount: real): Tables {
    t.(modifiers := t.modifiers + [ModifierRow(t.nextId, configId, caption, amount)], nextId := t.nextId + 1)
  }

  function InsertSale(t: Tables, configId: nat, capacity: string, s: SaleValues): Tables {
    t.(sales := t.sales + [SaleRow(t.nextId, configId, capacity, s.dayLabel, s.salePrice, s.marketPrice, s.volume)],
       nextId := t.nextId + 1)
  }

  /** Insert a snapshot under the next id, or refresh the row holding its key. */
  function UpsertSnapshot(t: Tables, s: SnapshotRow, keepMargin: bool): Tables {
    t.(snapshots := UpsertSnapshotRows(t.snapshots, s.(id := t.nextId), keepMargin), nextId := t.nextId + 1)
  }

  // ---------------------------------------------------------------------------
  // api/save_peg.php

  /** One entry of `peg.points`; `None` marks a missing field. */
  datatype PointInput = PointInput(
    id: Option<int>, caption: Option<string>, channel: Option<string>, url: Option<string>,
    price: Option<real>, qty: Option<int>, weight: Option<real>)

  /** One entry of `peg.sales`. */
  datatype SaleInput = SaleInput(dayLabel: Option<string>, salePrice: Option<real>, marketPrice: Option<real>, volume: Option<int>)

  datatype SaleValues = SaleValues(dayLabel: string, salePrice: real, marketPrice: real, volume: int)

  datatype SaveRequest = SaveRequest(
    capacity: Option<string>, iface: Option<string>, cond: Option<string>,
    name: Option<string>, margin: Option<real>, mode: Option<string>, date: Option<string>,
    points: seq<PointInput>, modifiers: seq<Pricing.Modifier>, sales: seq<SaleInput>)

  datatype SaveResponse = Saved(configId: nat, day: string) | InvalidDate | FutureDate | MissingFields | Failed

  /** The column values a payload point is stored with (missing text is '', missing numbers 0). */
  function Values(p: PointInput): PointValues {
    PointValues(p.caption.GetOr(""), p.channel.GetOr(""), p.url.GetOr(""), p.price.GetOr(0.0), p.qty.GetOr(0), p.weight.GetOr(0.0))
  }

  /** The point as the base-price computation reads it. */
  function AsPegPoint(p: PointInput): Pricing.PegPoint {
    Pricing.PegPoint(p.caption, p.price, p.weight)
  }

  function AsPegPoints(ps: seq<PointInput>): (r: seq<Pricing.PegPoint>)
    ensures |r| == |ps| && forall i :: 0 <= i < |ps| ==> r[i] == AsPegPoint(ps[i])
  {
    seq(|ps|, i requires 0 <= i < |ps| => AsPegPoint(ps[i]))
  }

  /** `isset($p['id']) ? (int)$p['id'] : null` followed by `if ($pointId)`: the entry updates
      an existing row when its id is present and non-zero. */
  predicate Updates(p: PointInput) {
    p.id.Some? && p.id.value != 0
  }

  /** Entry `p` updates the row with id `k`. */
  predicate UpdatesId(p: PointInput, k: int) {
    Updates(p) && p.id.value == k
  }

  /** The trimmed capacity and the trimmed, lower-cased interface and condition. */
  function CapacityOf(req: SaveRequest): string {
    Text.Trim(req.capacity.GetOr(""), Text.PhpSpace)
  }

  function InterfaceOf(req: SaveRequest): string {
    Text.Lower(Text.Trim(req.iface.GetOr(""), Text.PhpSpace))
  }

  function ConditionOf(req: SaveRequest): string {
    Text.Lower(Text.Trim(req.cond.GetOr(""), Text.PhpSpace))
  }

  /** The day being saved; today when the payload has none. */
  function DayOf(req: SaveRequest, today: string): string {
    req.date.GetOr(today)
  }

  function MarginOf(req: SaveRequest): real {
    req.margin.GetOr(25.0)
  }

  function ModeOf(mode: Option<string>): string {
    mode.GetOr("balanced")
  }

  /** Find the config of the triple and overwrite its margin, mode and name, or create it. */
  function ResolveConfig(t: Tables, capacity: string, iface: string, cond: string, margin: Option<real>, mode: string, name: Option<string>): (r: (Tables, nat))
    ensures r.0.points == t.points && r.0.history == t.history && r.0.modifiers == t.modifiers
    ensures r.0.sales == t.sales && r.0.snapshots == t.snapshots && r.0.capacities == t.capacities
  {
    match FindConfig(t.configs, capacity, iface, cond)
    case Some(c) => (t.(configs := UpdateConfig(t.configs, c.id, margin, Some(mode), name)), c.id)
    case None =>
      (t.(configs := t.configs + [ConfigRow(t.nextId, capacity, iface, cond, margin, Some(mode), name)], nextId := t.nextId + 1),
       t.nextId)
  }

  /** Save one payload point: update or insert it, then upsert its history for the day. */
  function SavePoint(t: Tables, configId: nat, p: PointInput, day: string): Option<Tables> {
    var v := Values(p);
    if Updates(p) then
      UpsertHistory(t.(points := UpdatePoint(t.points, p.id.value, configId, v)), p.id.value, day, v.price, v.qty)
    else
      UpsertHistory(InsertPoint(t, configId, v), t.nextId, day, v.price, v.qty)
  }

  /** The `foreach ($points as $p)` loop; `None` when a statement fails. */
  function SavePoints(t: Tables, configId: nat, ps: seq<PointInput>, day: string): Option<Tables>
    decreases |ps|
  {
    if ps == [] then Some(t)
    else
      match SavePoint(t, configId, ps[0], day)
      case None => None
      case Some(t1) => SavePoints(t1, configId, ps[1..], day)
  }

  /** Insert the payload modifiers, missing label '' and missing amount 0. */
  function InsertModifiers(t: Tables, configId: nat, mods: seq<Pricing.Modifier>): Tables
    decreases |mods|
  {
    if mods == [] then t
    else InsertModifiers(InsertModifier(t, configId, mods[0].caption.GetOr(""), mods[0].amount.GetOr(0.0)), configId, mods[1..])
  }

  function ReplaceModifiers(t: Tables, configId: nat, mods: seq<Pricing.Modifier>): Tables {
    InsertModifiers(t.(modifiers := Without(t.modifiers, ModifierOwner, configId)), configId, mods)
  }

  function SaleValuesOf(s: SaleInput): SaleValues {
    SaleValues(s.dayLabel.GetOr(""), s.salePrice.GetOr(0.0), s.marketPrice.GetOr(0.0), s.volume.GetOr(0))
  }

  /** Insert the sales rows that carry a `day_label`. */
  function InsertSales(t: Tables, configId: nat, capacity: string, sales: seq<SaleInput>): Tables
    decreases |sales|
  {
    if sales == [] then t
    else if sales[0].dayLabel.None? then InsertSales(t, configId, capacity, sales[1..])
    else InsertSales(InsertSale(t, configId, capacity, SaleValuesOf(sales[0])), configId, capacity, sales[1..])
  }

  function ReplaceSales(t: Tables, configId: nat, capacity: string, sales: seq<SaleInput>): Tables {
    InsertSales(t.(sales := Without(t.sales, SaleOwner, configId)), configId, capacity, sales)
  }

  /** The snapshot a save records: the day at noon, the computed prices, margin and mode. */
  function SnapshotOf(req: SaveRequest, configId: nat, day: string): SnapshotRow {
    var base := Pricing.BasePrice(AsPegPoints(req.points));
    SnapshotRow(0, Some(configId), CapacityOf(req), InterfaceOf(req), ConditionOf(req), req.name,
      base, base + Pricing.ModifierTotal(req.modifiers), Some(MarginOf(req)), Some(ModeOf(req.mode)),
      day + " 12:00:00", None)
  }

  predicate Blank(req: SaveRequest) {
    Text.PhpFalsy(CapacityOf(req)) || Text.PhpFalsy(InterfaceOf(req)) || Text.PhpFalsy(ConditionOf(req))
  }

  /** The whole save transaction. */
  function SavePeg(t: Tables, req: SaveRequest, today: string): (r: (SaveResponse, Tables))
    ensures r.0 == InvalidDate <==> !Days.IsDay(DayOf(req, today))
    ensures r.0 == FutureDate <==> Days.IsDay(DayOf(req, today)) && !Lex.Le(DayOf(req, today), today)
    ensures r.0 == MissingFields <==> Days.IsDay(DayOf(req, today)) && Lex.Le(DayOf(req, today), today) && Blank(req)
    ensures r.0.Saved? ==> r.0.day == DayOf(req, today) && !Blank(req)
    ensures !r.0.Saved? ==> r.1 == t
  {
    var day := DayOf(req, today);
    if !Days.IsDay(day) then (InvalidDate, t)
    else if !Lex.Le(day, today) then (FutureDate, t)
    else if Blank(req) then (MissingFields, t)
    else
      var (t1, configId) := ResolveConfig(t, CapacityOf(req), InterfaceOf(req), ConditionOf(req),
                                          Some(MarginOf(req)), ModeOf(req.mode), req.name);
      match SavePoints(t1, configId, req.points, day)
      case None => (Failed, t)
      case Some(t2) =>
        var t3 := ReplaceModifiers(t2, configId, req.modifiers);
        var t4 := ReplaceSales(t3, configId, CapacityOf(req), req.sales);
        (Saved(configId, day), UpsertSnapshot(t4, SnapshotOf(req, configId, day), false))
  }
}
