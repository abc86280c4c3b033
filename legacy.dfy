/** The older save and load endpoints under `API/`, run against the older schema: points
    without a qty column, and a price history without a unique key on (point, day), where a
    row is an immutable record of one price seen on one day. */
module Legacy {
  import opened Wrappers
  import Pricing
  import opened Schema
  import Writes
  import SaveFacts

  /** `peg_points` of the older schema. */
  datatype Point = Point(id: nat, configId: nat, caption: string, channel: string, url: string, price: real, weight: real)

  /** `peg_point_history` of the older schema: a price seen for a point on a day. */
  datatype PriceRow = PriceRow(pointId: nat, day: string, price: real)

  datatype LegacyTables = LegacyTables(
    configs: seq<ConfigRow>,
    points: seq<Point>,
    prices: seq<PriceRow>,
    modifiers: seq<ModifierRow>,
    sales: seq<SaleRow>,
    snapshots: seq<SnapshotRow>,
    nextId: nat)

  datatype Response = Saved(configId: nat) | MissingFields | Failed

  function Owner(p: Point): int { p.configId }

  predicate HasPoint(points: seq<Point>, id: int) {
    exists i :: 0 <= i < |points| && points[i].id == id
  }

  /** The columns the older point UPDATE writes: every editable one but qty. */
  function Edited(r: Point, v: PointValues): Point {
    r.(caption := v.caption, channel := v.channel, url := v.url, price := v.price, weight := v.weight)
  }

  /** `UPDATE peg_points SET label=?, channel=?, url=?, price=?, weight=? WHERE id=? AND config_id=?` */
  function EditPoint(points: seq<Point>, id: int, configId: int, v: PointValues): (r: seq<Point>)
    ensures |r| == |points|
    ensures forall i :: 0 <= i < |r| ==>
      r[i] == if points[i].id == id && points[i].configId == configId then Edited(points[i], v) else points[i]
  {
    seq(|points|, i requires 0 <= i < |points| =>
      if points[i].id == id && points[i].configId == configId then Edited(points[i], v) else points[i])
  }

  function InsertPoint(t: LegacyTables, configId: nat, v: PointValues): LegacyTables {
    t.(points := t.points + [Point(t.nextId, configId, v.caption, v.channel, v.url, v.price, v.weight)],
       nextId := t.nextId + 1)
  }

  /** The `$checkHist` query followed by `$insHist`: the row (point, day, price) is added
      unless exactly that row is already there; the insert fails when the point does not
      exist (the foreign key). */
  function RecordPrice(t: LegacyTables, pointId: int, day: string, price: real): (r: Option<LegacyTables>)
    ensures r.None? <==> !HasPoint(t.points, pointId) && (pointId < 0 || PriceRow(pointId, day, price) !in t.prices)
    ensures r.Some? ==> pointId >= 0 && PriceRow(pointId, day, price) in r.value.prices
    ensures r.Some? ==> r.value == t.(prices := r.value.prices)
    ensures r.Some? ==> r.value.prices == t.prices || r.value.prices == t.prices + [PriceRow(pointId, day, price)]
  {
    if pointId >= 0 && PriceRow(pointId, day, price) in t.prices then Some(t)
    else if !HasPoint(t.points, pointId) then None
    else Some(t.(prices := t.prices + [PriceRow(pointId, day, price)]))
  }

  /** One payload point: update it within the config or insert it, then record its price for
      the day. */
  function SavePoint(t: LegacyTables, configId: nat, p: Writes.PointInput, day: string): Option<LegacyTables> {
    var v := Writes.Values(p);
    if Writes.Updates(p) then
      RecordPrice(t.(points := EditPoint(t.points, p.id.value, configId, v)), p.id.value, day, v.price)
    else
      RecordPrice(InsertPoint(t, configId, v), t.nextId, day, v.price)
  }

  /** The `foreach ($points as $p)` loop; `None` when a statement fails. */
  function SavePoints(t: LegacyTables, configId: nat, ps: seq<Writes.PointInput>, day: string): Option<LegacyTables>
    decreases |ps|
  {
    if ps == [] then Some(t)
    else
      match SavePoint(t, configId, ps[0], day)
      case None => None
      case Some(t1) => SavePoints(t1, configId, ps[1..], day)
  }

  /** The modifier loop: every payload modifier is inserted, nothing is deleted first. */
  function AppendModifiers(t: LegacyTables, configId: nat, mods: seq<Pricing.Modifier>): LegacyTables
    decreases |mods|
  {
    if mods == [] then t
    else
      var row := ModifierRow(t.nextId, configId, mods[0].caption.GetOr(""), mods[0].amount.GetOr(0.0));
      AppendModifiers(t.(modifiers := t.modifiers + [row], nextId := t.nextId + 1), configId, mods[1..])
  }

  /** The sales loop: every payload row is inserted, a missing `day_label` as ''. */
  function InsertSales(t: LegacyTables, configId: nat, capacity: string, sales: seq<Writes.SaleInput>): LegacyTables
    decreases |sales|
  {
    if sales == [] then t
    else
      var v := Writes.SaleValuesOf(sales[0]);
      var row := SaleRow(t.nextId, configId, capacity, v.dayLabel, v.salePrice, v.marketPrice, v.volume);
      InsertSales(t.(sales := t.sales + [row], nextId := t.nextId + 1), configId, capacity, sales[1..])
  }

  function ReplaceSales(t: LegacyTables, configId: nat, capacity: string, sales: seq<Writes.SaleInput>): LegacyTables {
    InsertSales(t.(sales := Without(t.sales, SaleOwner, configId)), configId, capacity, sales)
  }

  /** Find the config of the triple and set only its inventory mode and name, or create it
      without a margin. */
  function Resolve(t: LegacyTables, req: Writes.SaveRequest): (r: (LegacyTables, nat)) {
    var capacity, iface, cond := Writes.CapacityOf(req), Writes.InterfaceOf(req), Writes.ConditionOf(req);
    var mode := Writes.ModeOf(req.mode);
    match FindConfig(t.configs, capacity, iface, cond)
    case Some(c) => (t.(configs := UpdateConfig(t.configs, c.id, None, Some(mode), req.name)), c.id)
    case None =>
      (t.(configs := t.configs + [ConfigRow(t.nextId, capacity, iface, cond, None, Some(mode), req.name)], nextId := t.nextId + 1),
       t.nextId)
  }

  /** The audit row: the computed prices, the mode, no margin, stamped `now`. */
  function SnapshotOf(req: Writes.SaveRequest, configId: nat, now: string): SnapshotRow {
    var base := Pricing.BasePrice(Writes.AsPegPoints(req.points));
    SnapshotRow(0, Some(configId), Writes.CapacityOf(req), Writes.InterfaceOf(req), Writes.ConditionOf(req), req.name,
      base, base + Pricing.ModifierTotal(req.modifiers), None, Some(Writes.ModeOf(req.mode)), now, None)
  }

  /** `INSERT INTO peg_history ... ON DUPLICATE KEY UPDATE` of every written column but the
      margin, which the statement does not name. */
  function UpsertSnapshot(t: LegacyTables, s: SnapshotRow): LegacyTables {
    t.(snapshots := UpsertSnapshotRows(t.snapshots, s.(id := t.nextId), true), nextId := t.nextId + 1)
  }

  /** The whole older save; `today` is `CURDATE()` and `now` is `NOW()`. */
  function Save(t: LegacyTables, req: Writes.SaveRequest, today: string, now: string): (r: (Response, LegacyTables))
    ensures r.0 == MissingFields <==> Writes.Blank(req)
    ensures !r.0.Saved? ==> r.1 == t
  {
    if Writes.Blank(req) then (MissingFields, t)
    else
      var (t1, configId) := Resolve(t, req);
      match SavePoints(t1, configId, req.points, today)
      case None => (Failed, t)
      case Some(t2) =>
        var t3 := AppendModifiers(t2, configId, req.modifiers);
        var t4 := ReplaceSales(t3, configId, Writes.CapacityOf(req), req.sales);
        (Saved(configId), UpsertSnapshot(t4, SnapshotOf(req, configId, now)))
  }

  // ---------------------------------------------------------------------------
  // API/load_config.php

  /** The config columns the older load returns: the inventory mode and no margin. */
  datatype ConfigView = ConfigView(id: nat, capacity: string, iface: string, cond: string, inventoryMode: Option<string>, name: Option<string>)

  datatype Loaded = MissingId | NotFound | Found(config: ConfigView, points: seq<Point>, modifiers: seq<ModifierRow>, sales: seq<Writes.SaleValues>)

  function View(c: ConfigRow): ConfigView {
    ConfigView(c.id, c.capacity, c.iface, c.cond, c.mode, c.name)
  }

  /** `SELECT day_label, sale_price, market_price, volume FROM sales_data` */
  function SaleView(s: SaleRow): Writes.SaleValues {
    Writes.SaleValues(s.dayLabel, s.salePrice, s.marketPrice, s.volume)
  }

  function SaleViews(s: seq<SaleRow>): (r: seq<Writes.SaleValues>)
    ensures |r| == |s| && forall i :: 0 <= i < |s| ==> r[i] == SaleView(s[i])
  {
    seq(|s|, i requires 0 <= i < |s| => SaleView(s[i]))
  }

  /** The older load by id: the config and its points, modifiers and sales. */
  function LoadConfig(t: LegacyTables, configId: Option<int>): (r: Loaded)
    ensures r.MissingId? <==> configId.None?
    ensures r.NotFound? <==> configId.Some? && ConfigById(t.configs, configId.value).None?
    ensures r.Found? ==> r.config.id == configId.value && exists i :: 0 <= i < |t.configs| && View(t.configs[i]) == r.config
    ensures r.Found? ==> forall i :: 0 <= i < |r.points| ==> r.points[i] in t.points && r.points[i].configId == configId.value
    ensures r.Found? ==> forall i :: 0 <= i < |t.points| && t.points[i].configId == configId.value ==> t.points[i] in r.points
    ensures r.Found? ==> forall i :: 0 <= i < |r.modifiers| ==> r.modifiers[i] in t.modifiers && r.modifiers[i].configId == configId.value
    ensures r.Found? ==> forall i :: 0 <= i < |t.modifiers| && t.modifiers[i].configId == configId.value ==> t.modifiers[i] in r.modifiers
    ensures r.Found? ==> forall v :: v in r.sales ==>
      exists s :: s in t.sales && s.configId == configId.value && v == SaleView(s)
    ensures r.Found? ==> forall s :: s in t.sales && s.configId == configId.value ==> SaleView(s) in r.sales
  {
    if configId.None? then MissingId
    else match ConfigById(t.configs, configId.value)
      case None => NotFound
      case Some(c) =>
        SelectedSales(t.sales, c.id);
        Found(View(c), Select(t.points, Owner, c.id), Select(t.modifiers, ModifierOwner, c.id),
              SaleViews(Select(t.sales, SaleOwner, c.id)))
  }

  /** The sales a load returns are the views of exactly the config's rows. */
  lemma SelectedSales(sales: seq<SaleRow>, c: int)
    ensures forall v :: v in SaleViews(Select(sales, SaleOwner, c)) ==>
      exists s :: s in sales && s.configId == c && v == SaleView(s)
    ensures forall s :: s in sales && s.configId == c ==> SaleView(s) in SaleViews(Select(sales, SaleOwner, c))
  {
    var sel := Select(sales, SaleOwner, c);
    var r := SaleViews(sel);
    forall v | v in r
      ensures exists s :: s in sales && s.configId == c && v == SaleView(s)
    {
      var i :| 0 <= i < |r| && r[i] == v;
      assert sel[i] in sales && SaleOwner(sel[i]) == c;
    }
    forall s | s in sales && s.configId == c
      ensures SaleView(s) in r
    {
      var j :| 0 <= j < |sales| && sales[j] == s;
      assert SaleOwner(sales[j]) == c;
      assert s in sel;
      var k :| 0 <= k < |sel| && sel[k] == s;
      assert r[k] == SaleView(s);
    }
  }
}
