/** The database behind the older `API/save_peg.php` as one object whose tables the save
    updates in place, restoring the tables saved at `begin_transaction` when a statement
    fails. Its `ensures` ties the response and the new tables to `Legacy.Save`. */
module LegacyDatabase {
  import opened Wrappers
  import Pricing
  import opened Schema
  import Writes
  import opened Legacy

  /** The tables a successful older save commits, step by step. */
  lemma SavedTransaction(t: LegacyTables, req: Writes.SaveRequest, today: string, now: string,
                         t1: LegacyTables, configId: nat, t2: LegacyTables)
    requires !Writes.Blank(req)
    requires (t1, configId) == Resolve(t, req)
    requires SavePoints(t1, configId, req.points, today) == Some(t2)
    ensures var t3 := AppendModifiers(t2, configId, req.modifiers);
      var t4 := ReplaceSales(t3, configId, Writes.CapacityOf(req), req.sales);
      Save(t, req, today, now) == (Saved(configId), UpsertSnapshot(t4, SnapshotOf(req, configId, now)))
  {
  }

  class LegacyStore {
    var configs: seq<ConfigRow>
    var points: seq<Point>
    var prices: seq<PriceRow>
    var modifiers: seq<ModifierRow>
    var sales: seq<SaleRow>
    var snapshots: seq<SnapshotRow>
    /** The next auto-increment value. */
    var nextId: nat

    function State(): LegacyTables
      reads this
    {
      LegacyTables(configs, points, prices, modifiers, sales, snapshots, nextId)
    }

    constructor ()
      ensures State() == LegacyTables([], [], [], [], [], [], 1)
    {
      configs, points, prices := [], [], [];
      modifiers, sales, snapshots := [], [], [];
      nextId := 1;
    }

    /** `$db->rollback()` */
    method Restore(t: LegacyTables)
      modifies this
      ensures State() == t
    {
      configs, points, prices := t.configs, t.points, t.prices;
      modifiers, sales, snapshots := t.modifiers, t.sales, t.snapshots;
      nextId := t.nextId;
    }

    /** `API/save_peg.php`; `today` is `CURDATE()` and `now` is `NOW()`. */
    method Save(req: Writes.SaveRequest, today: string, now: string) returns (r: Response)
      modifies this
      ensures (r, State()) == Legacy.Save(old(State()), req, today, now)
    {
      if Writes.Blank(req) {
        return MissingFields;
      }
      var capacity, iface, cond := Writes.CapacityOf(req), Writes.InterfaceOf(req), Writes.ConditionOf(req);
      var mode := Writes.ModeOf(req.mode);
      var saved := State();
      var configId := ResolveConfig(req);
      ghost var resolved := State();
      var ok := SavePoints(configId, req.points, today);
      if !ok {
        Restore(saved);
        return Failed;
      }
      ghost var pointsSaved := State();
      AppendModifiers(configId, req.modifiers);
      var base, adjusted := Pricing.AggregatePrices(Writes.AsPegPoints(req.points), req.modifiers);
      ReplaceSales(configId, capacity, req.sales);
      var snapshot := SnapshotRow(0, Some(configId), capacity, iface, cond, req.name, base, adjusted,
        None, Some(mode), now, None);
      ghost var expected := SnapshotOf(req, configId, now);
      assert expected.base == base && expected.adjusted == adjusted;
      assert expected.capacity == capacity && expected.iface == iface && expected.cond == cond;
      assert expected.mode == Some(mode);
      assert snapshot == expected;
      UpsertSnapshot(snapshot);
      SavedTransaction(old(State()), req, today, now, resolved, configId, pointsSaved);
      r := Saved(configId);
    }

    /** The config of the triple: its mode and name updated, or a new row without a margin. */
    method ResolveConfig(req: Writes.SaveRequest) returns (configId: nat)
      modifies this
      ensures (State(), configId) == Resolve(old(State()), req)
    {
      var capacity, iface, cond := Writes.CapacityOf(req), Writes.InterfaceOf(req), Writes.ConditionOf(req);
      var mode := Writes.ModeOf(req.mode);
      ghost var expected := Resolve(State(), req);
      var found := FindConfig(configs, capacity, iface, cond);
      if found.Some? {
        configId := found.value.id;
        configs := UpdateConfig(configs, configId, None, Some(mode), req.name);
        assert expected.0.configs == configs && expected.1 == configId;
      } else {
        configId := nextId;
        configs := configs + [ConfigRow(nextId, capacity, iface, cond, None, Some(mode), req.name)];
        nextId := nextId + 1;
        assert expected.0.configs == configs && expected.0.nextId == nextId && expected.1 == configId;
      }
    }

    /** The points loop: update or insert each point, then insert its price for the day
        unless that exact row is there; `ok` is false at the first statement that fails. */
    method SavePoints(configId: nat, ps: seq<Writes.PointInput>, day: string) returns (ok: bool)
      modifies this
      ensures ok == Legacy.SavePoints(old(State()), configId, ps, day).Some?
      ensures ok ==> State() == Legacy.SavePoints(old(State()), configId, ps, day).value
    {
      var i := 0;
      while i < |ps|
        invariant 0 <= i <= |ps|
        invariant Legacy.SavePoints(old(State()), configId, ps, day) == Legacy.SavePoints(State(), configId, ps[i..], day)
      {
        var p := ps[i];
        assert ps[i..][0] == p && ps[i..][1..] == ps[i + 1..];
        ghost var before := State();
        var v := Writes.Values(p);
        var pointId: int;
        if Writes.Updates(p) {
          pointId := p.id.value;
          points := EditPoint(points, pointId, configId, v);
        } else {
          pointId := nextId;
          points := points + [Point(nextId, configId, v.caption, v.channel, v.url, v.price, v.weight)];
          nextId := nextId + 1;
        }
        ghost var written := State();
        assert written == if Writes.Updates(p) then before.(points := points) else InsertPoint(before, configId, v);
        var recorded := pointId >= 0 && PriceRow(pointId, day, v.price) in prices;
        if !recorded {
          if !HasPoint(points, pointId) {
            assert Legacy.SavePoint(before, configId, p, day).None?;
            return false;
          }
          prices := prices + [PriceRow(pointId, day, v.price)];
        }
        assert Legacy.SavePoint(before, configId, p, day) == Some(State());
        i := i + 1;
      }
      ok := true;
    }

    /** Insert every payload modifier; the config's earlier modifiers stay. */
    method AppendModifiers(configId: nat, mods: seq<Pricing.Modifier>)
      modifies this
      ensures State() == Legacy.AppendModifiers(old(State()), configId, mods)
    {
      var k := 0;
      while k < |mods|
        invariant 0 <= k <= |mods|
        invariant Legacy.AppendModifiers(old(State()), configId, mods) == Legacy.AppendModifiers(State(), configId, mods[k..])
      {
        var m := mods[k];
        assert mods[k..][0] == m && mods[k..][1..] == mods[k + 1..];
        modifiers := modifiers + [ModifierRow(nextId, configId, m.caption.GetOr(""), m.amount.GetOr(0.0))];
        nextId := nextId + 1;
        k := k + 1;
      }
    }

    /** Delete the config's sales, then insert every payload row. */
    method ReplaceSales(configId: nat, capacity: string, rows: seq<Writes.SaleInput>)
      modifies this
      ensures State() == Legacy.ReplaceSales(old(State()), configId, capacity, rows)
    {
      sales := Without(sales, SaleOwner, configId);
      ghost var emptied := State();
      var s := 0;
      while s < |rows|
        invariant 0 <= s <= |rows|
        invariant InsertSales(emptied, configId, capacity, rows) == InsertSales(State(), configId, capacity, rows[s..])
      {
        var row := rows[s];
        assert rows[s..][0] == row && rows[s..][1..] == rows[s + 1..];
        var v := Writes.SaleValuesOf(row);
        sales := sales + [SaleRow(nextId, configId, capacity, v.dayLabel, v.salePrice, v.marketPrice, v.volume)];
        nextId := nextId + 1;
        s := s + 1;
      }
    }

    /** The audit row under the next id, or the refresh of the row holding its key, which
        keeps that row's margin. */
    method UpsertSnapshot(s: SnapshotRow)
      modifies this
      ensures State() == Legacy.UpsertSnapshot(old(State()), s)
    {
      snapshots := UpsertSnapshotRows(snapshots, s.(id := nextId), true);
      nextId := nextId + 1;
    }
  }
}
