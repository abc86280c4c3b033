/** The database behind the `api/` endpoints as one object whose tables the endpoints update
    in place. Each endpoint method runs the endpoint's own loops over its payload, issues the
    SQL statements as updates of the table fields, and restores the tables saved at
    `begin_transaction` when a statement fails. Its `ensures` ties the response and the new
    tables to the endpoint's function on the old tables, whose properties are proved beside
    those functions. */
module Store {
  import opened Wrappers
  import Lex
  import Days
  import Pricing
  import opened Schema
  import Writes
  import DatedHistory
  import CascadeDelete
  import CapacityList

  /** The tables a successful save commits, step by step. */
  lemma SavedTransaction(t: Tables, req: Writes.SaveRequest, today: string, t1: Tables, configId: nat, t2: Tables)
    requires var day := Writes.DayOf(req, today); Days.IsDay(day) && Lex.Le(day, today) && !Writes.Blank(req)
    requires (t1, configId) == Writes.ResolveConfig(t, Writes.CapacityOf(req), Writes.InterfaceOf(req), Writes.ConditionOf(req),
      Some(Writes.MarginOf(req)), Writes.ModeOf(req.mode), req.name)
    requires Writes.SavePoints(t1, configId, req.points, Writes.DayOf(req, today)) == Some(t2)
    ensures var day := Writes.DayOf(req, today);
      var t3 := Writes.ReplaceModifiers(t2, configId, req.modifiers);
      var t4 := Writes.ReplaceSales(t3, configId, Writes.CapacityOf(req), req.sales);
      Writes.SavePeg(t, req, today) == (Writes.Saved(configId, day), Writes.UpsertSnapshot(t4, Writes.SnapshotOf(req, configId, day), false))
  {
  }

  class PegStore {
    var configs: seq<ConfigRow>
    var points: seq<PointRow>
    var history: seq<HistoryRow>
    var modifiers: seq<ModifierRow>
    var sales: seq<SaleRow>
    var snapshots: seq<SnapshotRow>
    var capacities: set<string>
    /** The next auto-increment value. */
    var nextId: nat

    /** The tables as a value. */
    function State(): Tables
      reads this
    {
      Tables(configs, points, history, modifiers, sales, snapshots, capacities, nextId)
    }

    constructor ()
      ensures State() == EmptyTables()
    {
      configs, points, history := [], [], [];
      modifiers, sales, snapshots := [], [], [];
      capacities := {};
      nextId := 1;
    }

    /** `$db->rollback()`: the tables saved at `begin_transaction` come back. */
    method Restore(t: Tables)
      modifies this
      ensures State() == t
    {
      configs, points, history := t.configs, t.points, t.history;
      modifiers, sales, snapshots := t.modifiers, t.sales, t.snapshots;
      capacities, nextId := t.capacities, t.nextId;
    }

    /** `api/save_peg.php` */
    method SavePeg(req: Writes.SaveRequest, today: string) returns (r: Writes.SaveResponse)
      modifies this
      ensures (r, State()) == Writes.SavePeg(old(State()), req, today)
    {
      var day := Writes.DayOf(req, today);
      if !Days.IsDay(day) {
        return Writes.InvalidDate;
      }
      if !Lex.Le(day, today) {
        return Writes.FutureDate;
      }
      if Writes.Blank(req) {
        return Writes.MissingFields;
      }
      var capacity, iface, cond := Writes.CapacityOf(req), Writes.InterfaceOf(req), Writes.ConditionOf(req);
      var margin, mode := Writes.MarginOf(req), Writes.ModeOf(req.mode);
      var saved := State();
      var configId := ResolveConfig(capacity, iface, cond, margin, mode, req.name);
      ghost var resolved := State();
      assert (resolved, configId) == Writes.ResolveConfig(saved, capacity, iface, cond, Some(margin), mode, req.name);
      var ok := SavePoints(configId, req.points, day);
      if !ok {
        Restore(saved);
        return Writes.Failed;
      }
      ghost var pointsSaved := State();
      assert Writes.SavePoints(resolved, configId, req.points, day) == Some(pointsSaved);
      ReplaceModifiers(configId, req.modifiers);
      var base, adjusted := Pricing.AggregatePrices(Writes.AsPegPoints(req.points), req.modifiers);
      ReplaceSales(configId, capacity, req.sales);
      ghost var salesSaved := State();
      var snapshot := SnapshotRow(0, Some(configId), capacity, iface, cond, req.name, base, adjusted,
        Some(margin), Some(mode), day + " 12:00:00", None);
      ghost var expected := Writes.SnapshotOf(req, configId, day);
      assert expected.base == base && expected.adjusted == adjusted;
      assert expected.capacity == capacity && expected.iface == iface && expected.cond == cond;
      assert expected.margin == Some(margin) && expected.mode == Some(mode);
      assert snapshot == expected;
      UpsertSnapshot(snapshot);
      SavedTransaction(old(State()), req, today, resolved, configId, pointsSaved);
      r := Writes.Saved(configId, day);
    }

    /** The snapshot under the next id, or the refresh of the row holding its key. */
    method UpsertSnapshot(s: SnapshotRow)
      modifies this
      ensures State() == Writes.UpsertSnapshot(old(State()), s, false)
    {
      snapshots := UpsertSnapshotRows(snapshots, s.(id := nextId), false);
      nextId := nextId + 1;
    }

    /** The config of the triple: its margin, mode and name updated, or a new row. */
    method ResolveConfig(capacity: string, iface: string, cond: string, margin: real, mode: string, name: Option<string>)
      returns (configId: nat)
      modifies this
      ensures (State(), configId) == Writes.ResolveConfig(old(State()), capacity, iface, cond, Some(margin), mode, name)
    {
      var found := FindConfig(configs, capacity, iface, cond);
      if found.Some? {
        configId := found.value.id;
        configs := UpdateConfig(configs, configId, Some(margin), Some(mode), name);
      } else {
        configId := nextId;
        configs := configs + [ConfigRow(nextId, capacity, iface, cond, Some(margin), Some(mode), name)];
        nextId := nextId + 1;
      }
    }

    /** The points loop: update or insert each point, then upsert its history for the day;
        `ok` is false at the first statement that fails. */
    method SavePoints(configId: nat, ps: seq<Writes.PointInput>, day: string) returns (ok: bool)
      modifies this
      ensures ok == Writes.SavePoints(old(State()), configId, ps, day).Some?
      ensures ok ==> State() == Writes.SavePoints(old(State()), configId, ps, day).value
    {
      var i := 0;
      while i < |ps|
        invariant 0 <= i <= |ps|
        invariant Writes.SavePoints(old(State()), configId, ps, day) == Writes.SavePoints(State(), configId, ps[i..], day)
      {
        var p := ps[i];
        assert ps[i..][0] == p && ps[i..][1..] == ps[i + 1..];
        ghost var before := State();
        var v := Writes.Values(p);
        var pointId: int;
        if Writes.Updates(p) {
          pointId := p.id.value;
          points := UpdatePoint(points, pointId, configId, v);
        } else {
          pointId := nextId;
          points := points + [PointRow(nextId, configId, v.caption, v.channel, v.url, v.price, v.qty, v.weight)];
          nextId := nextId + 1;
        }
        ghost var written := State();
        assert written == if Writes.Updates(p) then before.(points := points) else Writes.InsertPoint(before, configId, v);
        if pointId < 0 || !PointExists(points, pointId) || !Days.IsDay(day) {
          assert Writes.SavePoint(before, configId, p, day).None?;
          return false;
        }
        history := UpsertHistoryRows(history, HistoryRow(pointId, day, v.price, v.qty));
        assert Writes.SavePoint(before, configId, p, day) == Some(State());
        i := i + 1;
      }
      ok := true;
    }

    /** Delete the config's modifiers, then insert the payload's. */
    method ReplaceModifiers(configId: nat, mods: seq<Pricing.Modifier>)
      modifies this
      ensures State() == Writes.ReplaceModifiers(old(State()), configId, mods)
    {
      modifiers := Without(modifiers, ModifierOwner, configId);
      ghost var cleared := State();
      var k := 0;
      while k < |mods|
        invariant 0 <= k <= |mods|
        invariant Writes.InsertModifiers(cleared, configId, mods) == Writes.InsertModifiers(State(), configId, mods[k..])
      {
        var m := mods[k];
        assert mods[k..][0] == m && mods[k..][1..] == mods[k + 1..];
        modifiers := modifiers + [ModifierRow(nextId, configId, m.caption.GetOr(""), m.amount.GetOr(0.0))];
        nextId := nextId + 1;
        k := k + 1;
      }
    }

    /** Delete the config's sales, then insert the payload rows that carry a day label. */
    method ReplaceSales(configId: nat, capacity: string, rows: seq<Writes.SaleInput>)
      modifies this
      ensures State() == Writes.ReplaceSales(old(State()), configId, capacity, rows)
    {
      sales := Without(sales, SaleOwner, configId);
      ghost var emptied := State();
      var s := 0;
      while s < |rows|
        invariant 0 <= s <= |rows|
        invariant Writes.InsertSales(emptied, configId, capacity, rows) == Writes.InsertSales(State(), configId, capacity, rows[s..])
      {
        var row := rows[s];
        assert rows[s..][0] == row && rows[s..][1..] == rows[s + 1..];
        if row.dayLabel.Some? {
          var v := Writes.SaleValuesOf(row);
          sales := sales + [SaleRow(nextId, configId, capacity, v.dayLabel, v.salePrice, v.marketPrice, v.volume)];
          nextId := nextId + 1;
        }
        s := s + 1;
      }
    }

    /** `api/save_peg_history.php` */
    method SaveHistory(req: DatedHistory.Request) returns (r: DatedHistory.Response)
      modifies this
      ensures (r, State()) == DatedHistory.SaveHistory(old(State()), req)
    {
      if req.date.None? || req.points.None? {
        return DatedHistory.InvalidPayload;
      }
      var date, es := req.date.value, req.points.value;
      var saved := State();
      var latestDate := MaxDay(history);
      var isLatest := latestDate.None? || Lex.Le(latestDate.value, date);
      var i := 0;
      while i < |es|
        invariant 0 <= i <= |es|
        invariant DatedHistory.Record(saved, date, isLatest, es) == DatedHistory.Record(State(), date, isLatest, es[i..])
      {
        var e := es[i];
        assert es[i..][0] == e && es[i..][1..] == es[i + 1..];
        var pointId := DatedHistory.EntryId(e);
        if pointId > 0 {
          var price, qty := DatedHistory.EntryPrice(e), DatedHistory.EntryQty(e);
          if !PointExists(points, pointId) || !Days.IsDay(date) {
            Restore(saved);
            return DatedHistory.Failed;
          }
          history := UpsertHistoryRows(history, HistoryRow(pointId, date, price, qty));
          if isLatest {
            points := UpdateLive(points, pointId, price, qty);
          }
        }
        i := i + 1;
      }
      r := DatedHistory.Recorded(isLatest);
    }

    /** `api/delete_history.php`: the deletes run in the endpoint's order, and the failing
        points delete rolls back the modifier and sales deletes already run. */
    method DeleteHistory(id: Option<int>) returns (r: CascadeDelete.Response)
      modifies this
      ensures (r, State()) == CascadeDelete.DeleteHistory(old(State()), id)
    {
      if CascadeDelete.Missing(id) {
        return CascadeDelete.MissingId;
      }
      var snapshot := SnapshotById(snapshots, id.value);
      if snapshot.None? {
        return CascadeDelete.NotFound;
      }
      var c := CascadeDelete.OwnerOf(snapshot.value);
      var saved := State();
      ghost var expected := CascadeDelete.Cascade(saved, c, id.value);
      modifiers := Without(modifiers, ModifierOwner, c);
      sales := Without(sales, SaleOwner, c);
      assert history == saved.history && points == saved.points;
      if CascadeDelete.PointsInUse(State(), c) {
        assert CascadeDelete.PointsInUse(saved, c);
        Restore(saved);
        return CascadeDelete.Failed;
      }
      assert !CascadeDelete.PointsInUse(saved, c);
      points := Without(points, PointOwner, c);
      snapshots := Without(snapshots, CascadeDelete.SnapshotId, id.value);
      configs := Without(configs, CascadeDelete.ConfigId, c);
      assert modifiers == expected.modifiers && sales == expected.sales && points == expected.points;
      assert snapshots == expected.snapshots && configs == expected.configs;
      r := CascadeDelete.Deleted;
    }

    /** `api/save_capacity.php`: check, then insert. */
    method SaveCapacity(raw: Option<string>) returns (r: CapacityList.Response)
      modifies this
      ensures (r, State()) == CapacityList.SaveCapacity(old(State()), raw)
    {
      var capacity := CapacityList.Label(raw);
      if capacity == "" {
        return CapacityList.Required;
      }
      if capacity in capacities {
        return CapacityList.AlreadyExists;
      }
      capacities := capacities + {capacity};
      r := CapacityList.Added;
    }
  }
}
