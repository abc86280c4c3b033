/** Properties of the older save of `API/save_peg.php` and the older load of
    `API/load_config.php`. */
module LegacyFacts {
  import opened Wrappers
  import Pricing
  import opened Schema
  import Writes
  import SaveFacts
  import opened Legacy

  // ---------------------------------------------------------------------------
  // The schema constraints of the older store

  /** No price row is stored twice: the same point, day and price appear at most once. */
  predicate DistinctPrices(prices: seq<PriceRow>) {
    forall i, j :: 0 <= i < j < |prices| ==> prices[i] != prices[j]
  }

  /** Every price row names a stored point (the foreign key). */
  predicate PricesKnown(t: LegacyTables) {
    forall i :: 0 <= i < |t.prices| ==> HasPoint(t.points, t.prices[i].pointId)
  }

  /** Config ids are positive, distinct and below the next id to hand out. */
  predicate ConfigIds(configs: seq<ConfigRow>, nextId: nat) {
    && (forall i :: 0 <= i < |configs| ==> 1 <= configs[i].id < nextId)
    && (forall i, j :: 0 <= i < j < |configs| ==> configs[i].id != configs[j].id)
  }

  predicate LegacyValid(t: LegacyTables) {
    && t.nextId >= 1
    && ConfigIds(t.configs, t.nextId)
    && UniqueTriples(t.configs)
    && DistinctPrices(t.prices)
    && PricesKnown(t)
  }

  // ---------------------------------------------------------------------------
  // Price rows

  /** Checking before inserting makes a repeated price a no-op. */
  lemma RecordPriceIdempotent(t: LegacyTables, pointId: int, day: string, price: real)
    requires RecordPrice(t, pointId, day, price).Some?
    ensures var t1 := RecordPrice(t, pointId, day, price).value;
      RecordPrice(t1, pointId, day, price) == Some(t1)
  {
  }

  /** Without a unique key on (point, day), a second price on the same day is a second row;
      the first stays. */
  lemma DistinctPricesAccumulate(t: LegacyTables, pointId: int, day: string, p1: real, p2: real)
    requires PricesKnown(t)
    requires RecordPrice(t, pointId, day, p1).Some?
    ensures var t1 := RecordPrice(t, pointId, day, p1).value;
      var t2 := RecordPrice(t1, pointId, day, p2);
      && t2.Some? && pointId >= 0
      && PriceRow(pointId, day, p1) in t2.value.prices && PriceRow(pointId, day, p2) in t2.value.prices
  {
    if PriceRow(pointId, day, p1) in t.prices {
      var i :| 0 <= i < |t.prices| && t.prices[i] == PriceRow(pointId, day, p1);
      assert HasPoint(t.points, t.prices[i].pointId);
    }
  }

  lemma RecordPriceValid(t: LegacyTables, pointId: int, day: string, price: real)
    requires DistinctPrices(t.prices) && PricesKnown(t)
    requires RecordPrice(t, pointId, day, price).Some?
    ensures var t1 := RecordPrice(t, pointId, day, price).value;
      DistinctPrices(t1.prices) && PricesKnown(t1)
  {
  }

  // ---------------------------------------------------------------------------
  // The points loop

  /** A stored row after the payload's edits: each entry naming its id within the config
      overwrites every column but qty. */
  function ApplyEdits(r: Point, configId: nat, ps: seq<Writes.PointInput>): Point
    decreases |ps|
  {
    if ps == [] then r
    else
      var r1 := if Writes.UpdatesId(ps[0], r.id) && r.configId == configId then Edited(r, Writes.Values(ps[0])) else r;
      ApplyEdits(r1, configId, ps[1..])
  }

  /** The id the entry's price row is recorded under. */
  function EntryPoint(t: LegacyTables, p: Writes.PointInput): int {
    if Writes.Updates(p) then p.id.value else t.nextId
  }

  /** One payload point: its edit or insert, and its price row for the day. */
  lemma SavePointStep(t: LegacyTables, configId: nat, p: Writes.PointInput, day: string)
    requires SavePoint(t, configId, p, day).Some?
    ensures var t1 := SavePoint(t, configId, p, day).value;
      var id := EntryPoint(t, p);
      && t1.configs == t.configs && t1.modifiers == t.modifiers && t1.sales == t.sales && t1.snapshots == t.snapshots
      && t1.nextId == t.nextId + (if Writes.Updates(p) then 0 else 1)
      && |t1.points| == |t.points| + (if Writes.Updates(p) then 0 else 1)
      && (forall i :: 0 <= i < |t.points| ==>
            t1.points[i] == if Writes.UpdatesId(p, t.points[i].id) && t.points[i].configId == configId
                            then Edited(t.points[i], Writes.Values(p)) else t.points[i])
      && (!Writes.Updates(p) ==>
            var v := Writes.Values(p);
            t1.points[|t.points|] == Point(t.nextId, configId, v.caption, v.channel, v.url, v.price, v.weight))
      && id >= 0 && PriceRow(id, day, Writes.Values(p).price) in t1.prices
      && (t1.prices == t.prices || t1.prices == t.prices + [PriceRow(id, day, Writes.Values(p).price)])
  {
  }

  /** The tables a payload point leaves alone, and what it adds to the others. */
  lemma SavePointShape(t: LegacyTables, configId: nat, p: Writes.PointInput, day: string)
    requires SavePoint(t, configId, p, day).Some?
    ensures var t1 := SavePoint(t, configId, p, day).value;
      var id := EntryPoint(t, p);
      && t1.configs == t.configs && t1.modifiers == t.modifiers && t1.sales == t.sales && t1.snapshots == t.snapshots
      && t1.nextId == t.nextId + (if Writes.Updates(p) then 0 else 1)
      && |t1.points| == |t.points| + (if Writes.Updates(p) then 0 else 1)
      && id >= 0 && PriceRow(id, day, Writes.Values(p).price) in t1.prices
      && (t1.prices == t.prices || t1.prices == t.prices + [PriceRow(id, day, Writes.Values(p).price)])
  {
    SavePointStep(t, configId, p, day);
  }

  /** The loop touches only points, prices and the id counter, and the price rows only grow:
      every earlier row stays where it was and every new row is for the day saved. */
  lemma {:induction false} SavePointsFrame(t: LegacyTables, configId: nat, ps: seq<Writes.PointInput>, day: string)
    requires SavePoints(t, configId, ps, day).Some?
    ensures var t' := SavePoints(t, configId, ps, day).value;
      && t'.configs == t.configs && t'.modifiers == t.modifiers && t'.sales == t.sales && t'.snapshots == t.snapshots
      && t'.nextId == t.nextId + SaveFacts.InsertCount(ps)
      && |t'.points| == |t.points| + SaveFacts.InsertCount(ps)
      && |t.prices| <= |t'.prices| && t'.prices[..|t.prices|] == t.prices
      && (forall i :: |t.prices| <= i < |t'.prices| ==> t'.prices[i].day == day)
  {
    SavePointsCounts(t, configId, ps, day);
    SavePointsPrices(t, configId, ps, day);
  }

  lemma {:induction false} SavePointsCounts(t: LegacyTables, configId: nat, ps: seq<Writes.PointInput>, day: string)
    requires SavePoints(t, configId, ps, day).Some?
    ensures var t' := SavePoints(t, configId, ps, day).value;
      && t'.configs == t.configs && t'.modifiers == t.modifiers && t'.sales == t.sales && t'.snapshots == t.snapshots
      && t'.nextId == t.nextId + SaveFacts.InsertCount(ps)
      && |t'.points| == |t.points| + SaveFacts.InsertCount(ps)
    decreases |ps|
  {
    if ps != [] {
      var t1 := SavePoint(t, configId, ps[0], day).value;
      SavePointShape(t, configId, ps[0], day);
      SavePointsCounts(t1, configId, ps[1..], day);
      assert SavePoints(t, configId, ps, day).value == SavePoints(t1, configId, ps[1..], day).value;
    }
  }

  lemma {:induction false} SavePointsPrices(t: LegacyTables, configId: nat, ps: seq<Writes.PointInput>, day: string)
    requires SavePoints(t, configId, ps, day).Some?
    ensures var t' := SavePoints(t, configId, ps, day).value;
      && |t.prices| <= |t'.prices| && t'.prices[..|t.prices|] == t.prices
      && (forall i :: |t.prices| <= i < |t'.prices| ==> t'.prices[i].day == day)
    decreases |ps|
  {
    if ps != [] {
      var t1 := SavePoint(t, configId, ps[0], day).value;
      var t' := SavePoints(t, configId, ps, day).value;
      SavePointPrices(t, configId, ps[0], day);
      SavePointsPrices(t1, configId, ps[1..], day);
      assert t' == SavePoints(t1, configId, ps[1..], day).value;
      GrowsBy(t.prices, t1.prices, t'.prices, day);
    }
  }

  lemma SavePointPrices(t: LegacyTables, configId: nat, p: Writes.PointInput, day: string)
    requires SavePoint(t, configId, p, day).Some?
    ensures var t1 := SavePoint(t, configId, p, day).value;
      |t.prices| <= |t1.prices| && t1.prices[..|t.prices|] == t.prices
      && (forall i :: |t.prices| <= i < |t1.prices| ==> t1.prices[i].day == day)
  {
    SavePointShape(t, configId, p, day);
  }

  /** Rows appended for `day` twice over are rows appended for `day`. */
  lemma GrowsBy(a: seq<PriceRow>, b: seq<PriceRow>, c: seq<PriceRow>, day: string)
    requires |a| <= |b| && b[..|a|] == a && (forall i :: |a| <= i < |b| ==> b[i].day == day)
    requires |b| <= |c| && c[..|b|] == b && (forall i :: |b| <= i < |c| ==> c[i].day == day)
    ensures |a| <= |c| && c[..|a|] == a && (forall i :: |a| <= i < |c| ==> c[i].day == day)
  {
    assert c[..|a|] == c[..|b|][..|a|];
    forall i | |a| <= i < |b| ensures c[i].day == day {
      assert c[i] == c[..|b|][i];
    }
  }

  lemma {:induction false} ApplyKeepsKey(r: Point, configId: nat, ps: seq<Writes.PointInput>)
    ensures ApplyEdits(r, configId, ps).id == r.id && ApplyEdits(r, configId, ps).configId == r.configId
    decreases |ps|
  {
    if ps != [] {
      var r1 := if Writes.UpdatesId(ps[0], r.id) && r.configId == configId then Edited(r, Writes.Values(ps[0])) else r;
      ApplyKeepsKey(r1, configId, ps[1..]);
    }
  }

  /** Stored rows receive the payload's edits; new rows belong to the config and take fresh
      ids. */
  lemma {:induction false} SavePointsRows(t: LegacyTables, configId: nat, ps: seq<Writes.PointInput>, day: string)
    requires SavePoints(t, configId, ps, day).Some?
    ensures var t' := SavePoints(t, configId, ps, day).value;
      && |t.points| <= |t'.points|
      && (forall i :: 0 <= i < |t.points| ==> t'.points[i] == ApplyEdits(t.points[i], configId, ps))
      && (forall i :: |t.points| <= i < |t'.points| ==>
            t'.points[i].configId == configId && t.nextId <= t'.points[i].id < t'.nextId)
    decreases |ps|
  {
    if ps != [] {
      var p := ps[0];
      var t1 := SavePoint(t, configId, p, day).value;
      var t' := SavePoints(t, configId, ps, day).value;
      SavePointStep(t, configId, p, day);
      SavePointsRows(t1, configId, ps[1..], day);
      SavePointsFrame(t1, configId, ps[1..], day);
      assert t' == SavePoints(t1, configId, ps[1..], day).value;
      if !Writes.Updates(p) {
        var n := |t.points|;
        ApplyKeepsKey(t1.points[n], configId, ps[1..]);
        assert t'.points[n] == ApplyEdits(t1.points[n], configId, ps[1..]);
      }
    }
  }

  /** The id entry `j` of the loop records its price under: its own id, or the id of the
      point it inserted. */
  function RecordedId(n: nat, ps: seq<Writes.PointInput>, j: nat): int
    requires j < |ps|
  {
    if Writes.Updates(ps[j]) then ps[j].id.value else n + SaveFacts.InsertCount(ps[..j])
  }

  /** After the loop, every entry's (point, day, price) row is stored. */
  lemma {:induction false} SavePointsRecords(t: LegacyTables, configId: nat, ps: seq<Writes.PointInput>, day: string, j: nat)
    requires SavePoints(t, configId, ps, day).Some? && j < |ps|
    ensures var id := RecordedId(t.nextId, ps, j);
      id >= 0 && PriceRow(id, day, Writes.Values(ps[j]).price) in SavePoints(t, configId, ps, day).value.prices
    decreases |ps|
  {
    var p := ps[0];
    var t1 := SavePoint(t, configId, p, day).value;
    var t' := SavePoints(t, configId, ps, day).value;
    assert t' == SavePoints(t1, configId, ps[1..], day).value;
    SavePointShape(t, configId, p, day);
    if j == 0 {
      var row := PriceRow(EntryPoint(t, p), day, Writes.Values(p).price);
      SavePointsFrame(t1, configId, ps[1..], day);
      var k :| 0 <= k < |t1.prices| && t1.prices[k] == row;
      assert t'.prices[k] == t'.prices[..|t1.prices|][k];
      assert ps[..0] == [];
    } else {
      SavePointsRecords(t1, configId, ps[1..], day, j - 1);
      assert ps[..j] == [p] + ps[1..][..j - 1];
      assert ps[..j][1..] == ps[1..][..j - 1];
    }
  }

  /** Re-running the loop when every entry updates a point whose price row is already stored
      adds no price row. */
  lemma {:induction false} RepeatKeepsPrices(t: LegacyTables, configId: nat, ps: seq<Writes.PointInput>, day: string)
    requires forall j :: 0 <= j < |ps| ==>
      Writes.Updates(ps[j]) && ps[j].id.value >= 0 && PriceRow(ps[j].id.value, day, Writes.Values(ps[j]).price) in t.prices
    ensures SavePoints(t, configId, ps, day).Some?
    ensures SavePoints(t, configId, ps, day).value.prices == t.prices
    decreases |ps|
  {
    if ps != [] {
      var t1 := SavePoint(t, configId, ps[0], day).value;
      assert t1.prices == t.prices;
      RepeatKeepsPrices(t1, configId, ps[1..], day);
    }
  }

  /** The loop cannot fail when every id it updates names a stored point. */
  lemma {:induction false} SavePointsSucceeds(t: LegacyTables, configId: nat, ps: seq<Writes.PointInput>, day: string)
    requires forall j :: 0 <= j < |ps| && Writes.Updates(ps[j]) ==> HasPoint(t.points, ps[j].id.value)
    ensures SavePoints(t, configId, ps, day).Some?
    decreases |ps|
  {
    if ps != [] {
      var p := ps[0];
      var v := Writes.Values(p);
      var mid := if Writes.Updates(p) then t.(points := EditPoint(t.points, p.id.value, configId, v)) else InsertPoint(t, configId, v);
      assert forall k :: HasPoint(t.points, k) ==> HasPoint(mid.points, k) by {
        forall k | HasPoint(t.points, k) ensures HasPoint(mid.points, k) {
          var i :| 0 <= i < |t.points| && t.points[i].id == k;
          assert mid.points[i].id == k;
        }
      }
      if !Writes.Updates(p) {
        assert mid.points[|t.points|].id == t.nextId;
      }
      var t1 := SavePoint(t, configId, p, day).value;
      assert t1.points == mid.points;
      SavePointsSucceeds(t1, configId, ps[1..], day);
    }
  }

  lemma SavePointValid(t: LegacyTables, configId: nat, p: Writes.PointInput, day: string)
    requires DistinctPrices(t.prices) && PricesKnown(t)
    requires SavePoint(t, configId, p, day).Some?
    ensures var t1 := SavePoint(t, configId, p, day).value;
      DistinctPrices(t1.prices) && PricesKnown(t1)
  {
    var v := Writes.Values(p);
    var mid := if Writes.Updates(p) then t.(points := EditPoint(t.points, p.id.value, configId, v)) else InsertPoint(t, configId, v);
    assert mid.prices == t.prices;
    forall i | 0 <= i < |mid.prices| ensures HasPoint(mid.points, mid.prices[i].pointId) {
      assert HasPoint(t.points, t.prices[i].pointId);
      var k :| 0 <= k < |t.points| && t.points[k].id == t.prices[i].pointId;
      assert mid.points[k].id == t.points[k].id;
    }
    RecordPriceValid(mid, EntryPoint(t, p), day, v.price);
  }

  lemma {:induction false} SavePointsValid(t: LegacyTables, configId: nat, ps: seq<Writes.PointInput>, day: string)
    requires DistinctPrices(t.prices) && PricesKnown(t)
    requires SavePoints(t, configId, ps, day).Some?
    ensures var t' := SavePoints(t, configId, ps, day).value;
      DistinctPrices(t'.prices) && PricesKnown(t')
    decreases |ps|
  {
    if ps != [] {
      SavePointValid(t, configId, ps[0], day);
      SavePointsValid(SavePoint(t, configId, ps[0], day).value, configId, ps[1..], day);
    }
  }

  // ---------------------------------------------------------------------------
  // Modifiers, sales, configs and the snapshot

  lemma {:induction false} AppendModifiersShape(t: LegacyTables, configId: nat, mods: seq<Pricing.Modifier>)
    ensures AppendModifiers(t, configId, mods) ==
      t.(modifiers := t.modifiers + SaveFacts.ModifierRows(t.nextId, configId, mods), nextId := t.nextId + |mods|)
    decreases |mods|
  {
    if mods != [] {
      var row := ModifierRow(t.nextId, configId, mods[0].caption.GetOr(""), mods[0].amount.GetOr(0.0));
      var t1 := t.(modifiers := t.modifiers + [row], nextId := t.nextId + 1);
      AppendModifiersShape(t1, configId, mods[1..]);
      var rest := SaveFacts.ModifierRows(t.nextId + 1, configId, mods[1..]);
      assert SaveFacts.ModifierRows(t.nextId, configId, mods) == [row] + rest;
      assert t1.modifiers + rest == t.modifiers + ([row] + rest);
    }
  }

  lemma {:induction false} InsertSalesShape(t: LegacyTables, configId: nat, capacity: string, sales: seq<Writes.SaleInput>)
    ensures InsertSales(t, configId, capacity, sales) ==
      t.(sales := t.sales + SaveFacts.SaleRows(t.nextId, configId, capacity, sales), nextId := t.nextId + |sales|)
    decreases |sales|
  {
    if sales != [] {
      var v := Writes.SaleValuesOf(sales[0]);
      var row := SaleRow(t.nextId, configId, capacity, v.dayLabel, v.salePrice, v.marketPrice, v.volume);
      var t1 := t.(sales := t.sales + [row], nextId := t.nextId + 1);
      InsertSalesShape(t1, configId, capacity, sales[1..]);
      var rest := SaveFacts.SaleRows(t.nextId + 1, configId, capacity, sales[1..]);
      assert SaveFacts.SaleRows(t.nextId, configId, capacity, sales) == [row] + rest;
      assert t1.sales + rest == t.sales + ([row] + rest);
    }
  }

  /** The margin a config keeps through the older save: its own, or none for a new one. */
  function KeptMargin(found: Option<ConfigRow>): Option<real> {
    if found.Some? then found.value.margin else None
  }

  /** Resolving the triple: the config found has its mode and name overwritten and its margin
      kept, or exactly one config is appended without a margin; no config with another id
      changes, and no margin is written. */
  lemma ResolveFacts(t: LegacyTables, req: Writes.SaveRequest)
    ensures var (t1, id) := Resolve(t, req);
      var (capacity, iface, cond) := (Writes.CapacityOf(req), Writes.InterfaceOf(req), Writes.ConditionOf(req));
      var found := FindConfig(t.configs, capacity, iface, cond);
      && FindConfig(t1.configs, capacity, iface, cond)
         == Some(ConfigRow(id, capacity, iface, cond, KeptMargin(found), Some(Writes.ModeOf(req.mode)), req.name))
      && |t1.configs| == |t.configs| + (if found.Some? then 0 else 1)
      && (forall i :: 0 <= i < |t.configs| ==> t1.configs[i].margin == t.configs[i].margin && t1.configs[i].id == t.configs[i].id)
      && (forall i :: 0 <= i < |t.configs| && t.configs[i].id != id ==> t1.configs[i] == t.configs[i])
      && (found.Some? ==> id == found.value.id && t1.nextId == t.nextId)
      && (found.None? ==> id == t.nextId && t1.nextId == t.nextId + 1)
      && t1.points == t.points && t1.prices == t.prices && t1.modifiers == t.modifiers
      && t1.sales == t.sales && t1.snapshots == t.snapshots
  {
    var capacity, iface, cond := Writes.CapacityOf(req), Writes.InterfaceOf(req), Writes.ConditionOf(req);
    var mode := Writes.ModeOf(req.mode);
    var found := FindConfig(t.configs, capacity, iface, cond);
    if found.Some? {
      SaveFacts.FindAfterUpdate(t.configs, found.value.id, None, Some(mode), req.name, capacity, iface, cond);
    } else {
      SaveFacts.FindAfterAppend(t.configs, ConfigRow(t.nextId, capacity, iface, cond, None, Some(mode), req.name), capacity, iface, cond);
    }
  }

  /** Overwriting a config's mode and name keeps every id and triple. */
  lemma UpdateKeepsKeys(cs: seq<ConfigRow>, id: int, mode: Option<string>, name: Option<string>, nextId: nat)
    requires ConfigIds(cs, nextId) && UniqueTriples(cs)
    ensures var cs' := UpdateConfig(cs, id, None, mode, name);
      ConfigIds(cs', nextId) && UniqueTriples(cs')
  {
    var cs' := UpdateConfig(cs, id, None, mode, name);
    assert forall i :: 0 <= i < |cs'| ==>
      cs'[i].id == cs[i].id && cs'[i].capacity == cs[i].capacity && cs'[i].iface == cs[i].iface && cs'[i].cond == cs[i].cond;
  }

  /** A config appended under the next id with a triple no config has keeps the keys
      distinct. */
  lemma AppendKeepsKeys(cs: seq<ConfigRow>, row: ConfigRow, nextId: nat)
    requires ConfigIds(cs, nextId) && UniqueTriples(cs) && row.id == nextId >= 1
    requires FindConfig(cs, row.capacity, row.iface, row.cond).None?
    ensures ConfigIds(cs + [row], nextId + 1) && UniqueTriples(cs + [row])
  {
  }

  lemma ResolveValid(t: LegacyTables, req: Writes.SaveRequest)
    requires LegacyValid(t)
    ensures LegacyValid(Resolve(t, req).0)
  {
    var capacity, iface, cond := Writes.CapacityOf(req), Writes.InterfaceOf(req), Writes.ConditionOf(req);
    var mode := Writes.ModeOf(req.mode);
    var found := FindConfig(t.configs, capacity, iface, cond);
    if found.Some? {
      UpdateKeepsKeys(t.configs, found.value.id, Some(mode), req.name, t.nextId);
    } else {
      AppendKeepsKeys(t.configs, ConfigRow(t.nextId, capacity, iface, cond, None, Some(mode), req.name), t.nextId);
    }
  }

  /** The tables of a successful save, statement by statement. */
  lemma Steps(t: LegacyTables, req: Writes.SaveRequest, today: string, now: string)
    returns (t1: LegacyTables, id: nat, t2: LegacyTables, t3: LegacyTables, t4: LegacyTables)
    requires Save(t, req, today, now).0.Saved?
    ensures (t1, id) == Resolve(t, req) && Save(t, req, today, now).0.configId == id
    ensures SavePoints(t1, id, req.points, today) == Some(t2)
    ensures t3 == AppendModifiers(t2, id, req.modifiers)
    ensures t4 == ReplaceSales(t3, id, Writes.CapacityOf(req), req.sales)
    ensures Save(t, req, today, now).1 == UpsertSnapshot(t4, SnapshotOf(req, id, now))
  {
    t1, id := Resolve(t, req).0, Resolve(t, req).1;
    t2 := SavePoints(t1, id, req.points, today).value;
    t3 := AppendModifiers(t2, id, req.modifiers);
    t4 := ReplaceSales(t3, id, Writes.CapacityOf(req), req.sales);
  }

  // ---------------------------------------------------------------------------
  // The whole older save

  /** A request naming its triple whose updated ids all name stored points is saved. */
  lemma SaveSucceeds(t: LegacyTables, req: Writes.SaveRequest, today: string, now: string)
    requires !Writes.Blank(req)
    requires forall j :: 0 <= j < |req.points| && Writes.Updates(req.points[j]) ==> HasPoint(t.points, req.points[j].id.value)
    ensures Save(t, req, today, now).0.Saved?
  {
    var (t1, id) := Resolve(t, req);
    ResolveFacts(t, req);
    SavePointsSucceeds(t1, id, req.points, today);
  }

  /** The found config keeps its margin and gets the request's mode and name; otherwise one
      config is created without a margin. No config's margin is written. */
  lemma SaveConfig(t: LegacyTables, req: Writes.SaveRequest, today: string, now: string)
    requires Save(t, req, today, now).0.Saved?
    ensures var (r, t') := Save(t, req, today, now);
      var (capacity, iface, cond) := (Writes.CapacityOf(req), Writes.InterfaceOf(req), Writes.ConditionOf(req));
      var found := FindConfig(t.configs, capacity, iface, cond);
      && FindConfig(t'.configs, capacity, iface, cond)
         == Some(ConfigRow(r.configId, capacity, iface, cond, KeptMargin(found), Some(Writes.ModeOf(req.mode)), req.name))
      && |t'.configs| == |t.configs| + (if found.Some? then 0 else 1)
      && (forall i :: 0 <= i < |t.configs| ==> t'.configs[i].margin == t.configs[i].margin)
      && (forall i :: 0 <= i < |t.configs| && t.configs[i].id != r.configId ==> t'.configs[i] == t.configs[i])
  {
    var t1, id, t2, t3, t4 := Steps(t, req, today, now);
    ResolveFacts(t, req);
    SavePointsFrame(t1, id, req.points, today);
    AppendModifiersShape(t2, id, req.modifiers);
    InsertSalesShape(t3.(sales := Without(t3.sales, SaleOwner, id)), id, Writes.CapacityOf(req), req.sales);
  }

  /** Price rows are never changed or removed; every row a save adds is for today; and each
      payload entry's (point, today, price) row is stored afterwards. */
  lemma SaveRecordsPrices(t: LegacyTables, req: Writes.SaveRequest, today: string, now: string, j: nat)
    requires Save(t, req, today, now).0.Saved? && j < |req.points|
    ensures var t' := Save(t, req, today, now).1;
      && |t.prices| <= |t'.prices| && t'.prices[..|t.prices|] == t.prices
      && (forall i :: |t.prices| <= i < |t'.prices| ==> t'.prices[i].day == today)
      && (Writes.Updates(req.points[j]) ==>
            req.points[j].id.value >= 0 && PriceRow(req.points[j].id.value, today, req.points[j].price.GetOr(0.0)) in t'.prices)
  {
    var t1, id, t2, t3, t4 := Steps(t, req, today, now);
    ResolveFacts(t, req);
    SavePointsFrame(t1, id, req.points, today);
    SavePointsRecords(t1, id, req.points, today, j);
    AppendModifiersShape(t2, id, req.modifiers);
    InsertSalesShape(t3.(sales := Without(t3.sales, SaleOwner, id)), id, Writes.CapacityOf(req), req.sales);
  }

  /** Saving again a payload whose entries all name stored points is saved too and adds no
      price row: an unchanged price is not recorded twice. */
  lemma SaveTwiceKeepsPrices(t: LegacyTables, req: Writes.SaveRequest, today: string, now: string, now': string)
    requires Save(t, req, today, now).0.Saved?
    requires forall j :: 0 <= j < |req.points| ==> Writes.Updates(req.points[j])
    ensures var t' := Save(t, req, today, now).1;
      Save(t', req, today, now').0.Saved? && Save(t', req, today, now').1.prices == t'.prices
  {
    var t' := Save(t, req, today, now).1;
    forall j | 0 <= j < |req.points|
      ensures req.points[j].id.value >= 0 && PriceRow(req.points[j].id.value, today, Writes.Values(req.points[j]).price) in t'.prices
    {
      SaveRecordsPrices(t, req, today, now, j);
    }
    var (u1, id) := Resolve(t', req);
    ResolveFacts(t', req);
    RepeatKeepsPrices(u1, id, req.points, today);
    var u2 := SavePoints(u1, id, req.points, today).value;
    var u3 := AppendModifiers(u2, id, req.modifiers);
    AppendModifiersShape(u2, id, req.modifiers);
    InsertSalesShape(u3.(sales := Without(u3.sales, SaleOwner, id)), id, Writes.CapacityOf(req), req.sales);
  }

  /** Stored points receive the payload's edits in order; the appended points belong to the
      resolved config and take fresh ids. */
  lemma SavePointRows(t: LegacyTables, req: Writes.SaveRequest, today: string, now: string, i: nat)
    requires Save(t, req, today, now).0.Saved?
    ensures var (r, t') := Save(t, req, today, now);
      && |t'.points| == |t.points| + SaveFacts.InsertCount(req.points)
      && (i < |t.points| ==> t'.points[i] == ApplyEdits(t.points[i], r.configId, req.points))
      && (|t.points| <= i < |t'.points| ==> t'.points[i].configId == r.configId && t'.points[i].id >= t.nextId)
  {
    var t1, id, t2, t3, t4 := Steps(t, req, today, now);
    ResolveFacts(t, req);
    SavePointsFrame(t1, id, req.points, today);
    SavePointsRows(t1, id, req.points, today);
    AppendModifiersShape(t2, id, req.modifiers);
    InsertSalesShape(t3.(sales := Without(t3.sales, SaleOwner, id)), id, Writes.CapacityOf(req), req.sales);
  }

  /** The modifier and sales tables a successful save commits. */
  lemma SavedRows(t: LegacyTables, req: Writes.SaveRequest, today: string, now: string) returns (n: nat, m: nat)
    requires Save(t, req, today, now).0.Saved?
    ensures Save(t, req, today, now).1.modifiers
      == t.modifiers + SaveFacts.ModifierRows(n, Save(t, req, today, now).0.configId, req.modifiers)
    ensures Save(t, req, today, now).1.sales
      == Without(t.sales, SaleOwner, Save(t, req, today, now).0.configId)
        + SaveFacts.SaleRows(m, Save(t, req, today, now).0.configId, Writes.CapacityOf(req), req.sales)
  {
    var t1, id, t2, t3, t4 := Steps(t, req, today, now);
    ResolveFacts(t, req);
    SavePointsFrame(t1, id, req.points, today);
    AppendModifiersShape(t2, id, req.modifiers);
    InsertSalesShape(t3.(sales := Without(t3.sales, SaleOwner, id)), id, Writes.CapacityOf(req), req.sales);
    n, m := t2.nextId, t3.nextId;
    assert t4.modifiers == t3.modifiers == t.modifiers + SaveFacts.ModifierRows(n, id, req.modifiers);
    assert t3.sales == t.sales;
    assert t4.sales == Without(t.sales, SaleOwner, id) + SaveFacts.SaleRows(m, id, Writes.CapacityOf(req), req.sales);
  }

  /** Modifiers are appended: the old rows stay as they were and one row per payload modifier
      follows, owned by the config. */
  lemma SaveAppendsModifiers(t: LegacyTables, req: Writes.SaveRequest, today: string, now: string)
    requires Save(t, req, today, now).0.Saved?
    ensures Appended(t.modifiers, Save(t, req, today, now).1.modifiers, Save(t, req, today, now).0.configId, req.modifiers)
  {
    var n, _ := SavedRows(t, req, today, now);
    AppendedModifierRows(t.modifiers, n, Save(t, req, today, now).0.configId, req.modifiers, Save(t, req, today, now).1.modifiers);
  }

  /** `all` is `kept` followed by one row of config `c` per payload modifier, a missing
      caption stored as '' and a missing amount as 0. */
  predicate Appended(kept: seq<ModifierRow>, all: seq<ModifierRow>, c: nat, mods: seq<Pricing.Modifier>) {
    && |all| == |kept| + |mods|
    && all[..|kept|] == kept
    && (forall i :: 0 <= i < |mods| ==>
          var m := all[|kept| + i];
          m.configId == c && m.caption == mods[i].caption.GetOr("") && m.amount == mods[i].amount.GetOr(0.0))
  }

  lemma AppendedModifierRows(kept: seq<ModifierRow>, n: nat, c: nat, mods: seq<Pricing.Modifier>, all: seq<ModifierRow>)
    requires all == kept + SaveFacts.ModifierRows(n, c, mods)
    ensures Appended(kept, all, c, mods)
  {
    var added := SaveFacts.ModifierRows(n, c, mods);
    SaveFacts.ModifierRowsAt(n, c, mods);
    assert all[..|kept|] == kept;
    forall i | 0 <= i < |mods| ensures all[|kept| + i] == added[i] {
    }
  }

  /** Afterwards the config's sales are exactly the payload rows, a missing day label stored
      as ''; other configs keep theirs. */
  lemma SaveReplacesSales(t: LegacyTables, req: Writes.SaveRequest, today: string, now: string, d: int)
    requires Save(t, req, today, now).0.Saved?
    ensures var (r, t') := Save(t, req, today, now);
      var sel := Select(t'.sales, SaleOwner, d);
      if d == r.configId then
        |sel| == |req.sales| &&
        forall i :: 0 <= i < |sel| ==> sel[i].capacity == Writes.CapacityOf(req) && SaleView(sel[i]) == Writes.SaleValuesOf(req.sales[i])
      else sel == Select(t.sales, SaleOwner, d)
  {
    var (r, t') := Save(t, req, today, now);
    var id := r.configId;
    var _, m := SavedRows(t, req, today, now);
    var kept := Without(t.sales, SaleOwner, id);
    var added := SaveFacts.SaleRows(m, id, Writes.CapacityOf(req), req.sales);
    assert t'.sales == kept + added;
    SelectAppend(kept, added, SaleOwner, d);
    SelectWithout(t.sales, SaleOwner, id, d);
    SaveFacts.SaleRowsAt(m, id, Writes.CapacityOf(req), req.sales);
    SaveFacts.SelectOwned(added, SaleOwner, id, d);
    if d == id {
      var sel := Select(kept + added, SaleOwner, d);
      assert sel == added;
      forall i | 0 <= i < |sel|
        ensures sel[i].capacity == Writes.CapacityOf(req) && SaleView(sel[i]) == Writes.SaleValuesOf(req.sales[i])
      {
        assert sel[i] == added[i];
      }
    }
  }

  /** The snapshot of (config, `now`) holds the weighted base price, the base plus the
      modifier total, the mode and the name; its margin is the one stored before, or none
      for a new row. */
  lemma SaveSnapshot(t: LegacyTables, req: Writes.SaveRequest, today: string, now: string)
    requires Save(t, req, today, now).0.Saved?
    ensures var (r, t') := Save(t, req, today, now);
      var before := FindSnapshot(t.snapshots, Some(r.configId), now);
      var s := FindSnapshot(t'.snapshots, Some(r.configId), now);
      var base := Pricing.BasePrice(Writes.AsPegPoints(req.points));
      && s.Some? && s.value.base == base
      && s.value.adjusted == base + Pricing.ModifierTotal(req.modifiers)
      && s.value.mode == Some(Writes.ModeOf(req.mode)) && s.value.name == req.name
      && s.value.margin == (if before.Some? then before.value.margin else None)
  {
    var t1, id, t2, t3, t4 := Steps(t, req, today, now);
    ResolveFacts(t, req);
    SavePointsFrame(t1, id, req.points, today);
    AppendModifiersShape(t2, id, req.modifiers);
    InsertSalesShape(t3.(sales := Without(t3.sales, SaleOwner, id)), id, Writes.CapacityOf(req), req.sales);
    assert t4.snapshots == t.snapshots;
    var row := SnapshotOf(req, id, now).(id := t4.nextId);
    if FindSnapshot(t4.snapshots, row.configId, row.savedAt).Some? {
      SaveFacts.FindAfterRefresh(t4.snapshots, row, true);
    } else {
      SaveFacts.FindSnapshotAppend(t4.snapshots, row);
    }
  }

  /** The older save keeps the constraints of the older schema. */
  lemma SaveValid(t: LegacyTables, req: Writes.SaveRequest, today: string, now: string)
    requires LegacyValid(t)
    ensures LegacyValid(Save(t, req, today, now).1)
  {
    if Save(t, req, today, now).0.Saved? {
      var t1, id, t2, t3, t4 := Steps(t, req, today, now);
      ResolveValid(t, req);
      SavePointsFrame(t1, id, req.points, today);
      SavePointsValid(t1, id, req.points, today);
      AppendModifiersShape(t2, id, req.modifiers);
      InsertSalesShape(t3.(sales := Without(t3.sales, SaleOwner, id)), id, Writes.CapacityOf(req), req.sales);
      var t' := Save(t, req, today, now).1;
      assert t'.configs == t1.configs && t'.prices == t2.prices && t'.points == t2.points && t'.nextId >= t1.nextId;
    }
  }

  // ---------------------------------------------------------------------------
  // Loading back what was saved

  lemma {:induction false} ConfigByIdAt(cs: seq<ConfigRow>, k: nat)
    requires k < |cs|
    requires forall i, j :: 0 <= i < j < |cs| ==> cs[i].id != cs[j].id
    ensures ConfigById(cs, cs[k].id) == Some(cs[k])
  {
    if k > 0 {
      ConfigByIdAt(cs[1..], k - 1);
    }
  }

  /** After a save, the config's id finds the config the triple finds. */
  lemma SavedConfigById(t: LegacyTables, req: Writes.SaveRequest, today: string, now: string)
    requires LegacyValid(t)
    requires Save(t, req, today, now).0.Saved?
    ensures var (r, t') := Save(t, req, today, now);
      ConfigById(t'.configs, r.configId) == FindConfig(t'.configs, Writes.CapacityOf(req), Writes.InterfaceOf(req), Writes.ConditionOf(req))
  {
    var (r, t') := Save(t, req, today, now);
    SaveValid(t, req, today, now);
    SaveConfig(t, req, today, now);
    var c := FindConfig(t'.configs, Writes.CapacityOf(req), Writes.InterfaceOf(req), Writes.ConditionOf(req)).value;
    var k :| 0 <= k < |t'.configs| && t'.configs[k] == c;
    ConfigByIdAt(t'.configs, k);
  }

  /** Loading the config a save names returns its triple, the request's inventory mode and
      name, and exactly the payload's sales rows. */
  lemma LoadAfterSave(t: LegacyTables, req: Writes.SaveRequest, today: string, now: string)
    requires LegacyValid(t)
    requires Save(t, req, today, now).0.Saved?
    ensures var (r, t') := Save(t, req, today, now);
      var loaded := LoadConfig(t', Some(r.configId));
      && loaded.Found?
      && loaded.config == ConfigView(r.configId, Writes.CapacityOf(req), Writes.InterfaceOf(req), Writes.ConditionOf(req),
                                     Some(Writes.ModeOf(req.mode)), req.name)
      && |loaded.sales| == |req.sales|
      && (forall i :: 0 <= i < |req.sales| ==> loaded.sales[i] == Writes.SaleValuesOf(req.sales[i]))
  {
    var (r, t') := Save(t, req, today, now);
    var id := r.configId;
    SavedConfigById(t, req, today, now);
    SaveConfig(t, req, today, now);
    var c := ConfigById(t'.configs, id).value;
    var sel := Select(t'.sales, SaleOwner, id);
    assert LoadConfig(t', Some(id)) == Found(View(c), Select(t'.points, Owner, id), Select(t'.modifiers, ModifierOwner, id), SaleViews(sel));
    SaveReplacesSales(t, req, today, now, id);
  }
}
