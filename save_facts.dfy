/** Properties of the save transaction of api/save_peg.php. */
module SaveFacts {
  import opened Wrappers
  import Days
  import Pricing
  import opened Schema
  import opened Writes

  // ---------------------------------------------------------------------------
  // Points

  /** A stored row after the payload's updates: each entry naming its id within the config
      overwrites its editable columns. */
  function ApplyUpdates(r: PointRow, configId: nat, ps: seq<PointInput>): PointRow
    decreases |ps|
  {
    if ps == [] then r
    else
      var r1 := if UpdatesId(ps[0], r.id) && r.configId == configId then WithValues(r, Values(ps[0])) else r;
      ApplyUpdates(r1, configId, ps[1..])
  }

  /** The number of payload entries that insert a new point. */
  function InsertCount(ps: seq<PointInput>): nat {
    if ps == [] then 0 else (if Updates(ps[0]) then 0 else 1) + InsertCount(ps[1..])
  }

  predicate PointIdsBelow(t: Tables) {
    t.nextId >= 1 && forall i :: 0 <= i < |t.points| ==> 1 <= t.points[i].id < t.nextId
  }

  /** One payload point: the stored rows receive its update, an insert appends one row. */
  lemma SavePointStep(t: Tables, configId: nat, p: PointInput, day: string)
    requires SavePoint(t, configId, p, day).Some?
    ensures var t1 := SavePoint(t, configId, p, day).value;
      && t1.configs == t.configs && t1.modifiers == t.modifiers && t1.sales == t.sales
      && t1.snapshots == t.snapshots && t1.capacities == t.capacities
      && t1.nextId == t.nextId + (if Updates(p) then 0 else 1)
      && |t1.points| == |t.points| + (if Updates(p) then 0 else 1)
      && (forall i :: 0 <= i < |t.points| ==>
            t1.points[i] == if UpdatesId(p, t.points[i].id) && t.points[i].configId == configId
                            then WithValues(t.points[i], Values(p)) else t.points[i])
      && (!Updates(p) ==> t1.points[|t.points|] == NewPoint(t.nextId, configId, Values(p)))
      && t1.history == UpsertHistoryRows(t.history,
           HistoryRow(if Updates(p) then p.id.value else t.nextId, day, Values(p).price, Values(p).qty))
  {
  }

  /** The points loop touches only points, history and the id counter. */
  lemma {:induction false} SavePointsFrame(t: Tables, configId: nat, ps: seq<PointInput>, day: string)
    requires SavePoints(t, configId, ps, day).Some?
    ensures var t' := SavePoints(t, configId, ps, day).value;
      && t'.configs == t.configs && t'.modifiers == t.modifiers && t'.sales == t.sales
      && t'.snapshots == t.snapshots && t'.capacities == t.capacities
      && t'.nextId == t.nextId + InsertCount(ps)
      && |t'.points| == |t.points| + InsertCount(ps)
    decreases |ps|
  {
    if ps != [] {
      var t1 := SavePoint(t, configId, ps[0], day).value;
      SavePointStep(t, configId, ps[0], day);
      SavePointsFrame(t1, configId, ps[1..], day);
    }
  }

  /** Updates keep a row's id and owner. */
  lemma {:induction false} ApplyKeepsKey(r: PointRow, configId: nat, ps: seq<PointInput>)
    ensures ApplyUpdates(r, configId, ps).id == r.id && ApplyUpdates(r, configId, ps).configId == r.configId
    decreases |ps|
  {
    if ps != [] {
      var r1 := if UpdatesId(ps[0], r.id) && r.configId == configId then WithValues(r, Values(ps[0])) else r;
      ApplyKeepsKey(r1, configId, ps[1..]);
    }
  }

  /** Stored rows receive the payload's updates; new rows belong to the config and take
      fresh ids. */
  lemma {:induction false} SavePointsRows(t: Tables, configId: nat, ps: seq<PointInput>, day: string)
    requires SavePoints(t, configId, ps, day).Some?
    ensures var t' := SavePoints(t, configId, ps, day).value;
      && |t.points| <= |t'.points|
      && (forall i :: 0 <= i < |t.points| ==> t'.points[i] == ApplyUpdates(t.points[i], configId, ps))
      && (forall i :: |t.points| <= i < |t'.points| ==>
            t'.points[i].configId == configId && t.nextId <= t'.points[i].id < t'.nextId)
    decreases |ps|
  {
    if ps != [] {
      var p := ps[0];
      var t1 := SavePoint(t, configId, p, day).value;
      var t' := SavePoints(t, configId, ps, day).value;
      SavePointStep(t, configId, p, day);
      SavePointsRows(t1, configId, ps[1..], day);
      SavePointsFrame(t1, configId, ps[1..], day);
      assert t' == SavePoints(t1, configId, ps[1..], day).value;
      if !Updates(p) {
        var n := |t.points|;
        ApplyKeepsKey(t1.points[n], configId, ps[1..]);
        assert t'.points[n] == ApplyUpdates(t1.points[n], configId, ps[1..]);
      }
    }
  }

  lemma {:induction false} SavePointInserts(t: Tables, configId: nat, p: PointInput, day: string)
    requires SavePoint(t, configId, p, day).Some? && !Updates(p)
    ensures var t1 := SavePoint(t, configId, p, day).value;
      && t1.points == t.points + [NewPoint(t.nextId, configId, Values(p))]
      && t1.nextId == t.nextId + 1
      && RecordedOn(t1.history, t.nextId, day, Values(p).price, Values(p).qty)
  {
    UpsertHistoryLookup(t.history, HistoryRow(t.nextId, day, Values(p).price, Values(p).qty), t.nextId, day);
  }

  /** The loop over a payload is the loop over its first `j` entries followed by the loop
      over the rest. */
  lemma {:induction false} SavePointsSplit(t: Tables, configId: nat, ps: seq<PointInput>, day: string, j: nat)
    requires SavePoints(t, configId, ps, day).Some? && j <= |ps|
    ensures SavePoints(t, configId, ps[..j], day).Some?
    ensures SavePoints(SavePoints(t, configId, ps[..j], day).value, configId, ps[j..], day) == SavePoints(t, configId, ps, day)
    decreases j
  {
    if j == 0 {
      assert ps[..0] == [] && ps[0..] == ps;
    } else {
      assert ps != [];
      var t1 := SavePoint(t, configId, ps[0], day).value;
      SavePointsSplit(t1, configId, ps[1..], day, j - 1);
      assert ps[..j][0] == ps[0] && ps[..j][1..] == ps[1..][..j - 1];
      assert ps[1..][j - 1..] == ps[j..];
    }
  }

  /** No entry after `j` updates the point with id `k`. */
  predicate NotNamedAfter(ps: seq<PointInput>, j: nat, k: int) {
    forall j' :: j < j' < |ps| ==> !UpdatesId(ps[j'], k)
  }

  lemma NotNamedRest(ps: seq<PointInput>, j: nat, k: int, rest: seq<PointInput>)
    requires j < |ps| && NotNamedAfter(ps, j, k) && rest == ps[j + 1..]
    ensures forall j' :: 0 <= j' < |rest| ==> !UpdatesId(rest[j'], k)
  {
    forall j' | 0 <= j' < |rest| ensures !UpdatesId(rest[j'], k) {
      assert rest[j'] == ps[j + 1 + j'];
    }
  }

  /** `rows` holds `r` at index `i`. */
  predicate RowAt(rows: seq<PointRow>, i: int, r: PointRow) {
    0 <= i < |rows| && rows[i] == r
  }

  /** The id the inserting entry `j` of `ps` gets when the loop starts from `t`: the counter
      advanced by the earlier inserts. */
  function InsertedId(t: Tables, ps: seq<PointInput>, j: nat): nat
    requires j <= |ps|
  {
    t.nextId + InsertCount(ps[..j])
  }

  /** The index of that entry's row: after the stored rows and the rows of the earlier inserts. */
  function InsertedIndex(points: seq<PointRow>, ps: seq<PointInput>, j: nat): nat
    requires j <= |ps|
  {
    |points| + InsertCount(ps[..j])
  }

  /** The tables just before and just after entry `j`, which inserts, and the tables the loop
      ends with. */
  lemma {:induction false} InsertStep(t: Tables, configId: nat, ps: seq<PointInput>, day: string, j: nat)
    returns (tj: Tables, tk: Tables, t': Tables)
    requires SavePoints(t, configId, ps, day).Some? && j < |ps| && !Updates(ps[j])
    ensures tj.nextId == InsertedId(t, ps, j) && |tj.points| == InsertedIndex(t.points, ps, j)
    ensures tk.points == tj.points + [NewPoint(tj.nextId, configId, Values(ps[j]))] && tk.nextId == tj.nextId + 1
    ensures RecordedOn(tk.history, tj.nextId, day, Values(ps[j]).price, Values(ps[j]).qty)
    ensures SavePoints(tk, configId, ps[j + 1..], day) == Some(t')
    ensures SavePoints(t, configId, ps, day) == Some(t')
  {
    SavePointsSplit(t, configId, ps, day, j);
    tj := SavePoints(t, configId, ps[..j], day).value;
    SavePointsFrame(t, configId, ps[..j], day);
    var rest := ps[j..];
    assert rest[0] == ps[j] && rest[1..] == ps[j + 1..];
    tk := SavePoint(tj, configId, ps[j], day).value;
    SavePointInserts(tj, configId, ps[j], day);
    t' := SavePoints(t, configId, ps, day).value;
  }

  lemma KeptInsert(tj: Tables, tk: Tables, t': Tables, configId: nat, ps: seq<PointInput>, j: nat, day: string)
    requires j < |ps| && tk.points == tj.points + [NewPoint(tj.nextId, configId, Values(ps[j]))]
    requires SavePoints(tk, configId, ps[j + 1..], day) == Some(t')
    requires NotNamedAfter(ps, j, tj.nextId)
    ensures RowAt(t'.points, |tj.points|, NewPoint(tj.nextId, configId, Values(ps[j])))
  {
    NotNamedRest(ps, j, tj.nextId, ps[j + 1..]);
    SavePointsRows(tk, configId, ps[j + 1..], day);
    ApplyUntouched(tk.points[|tj.points|], configId, ps[j + 1..]);
  }

  lemma KeptInsertHistory(tj: Tables, tk: Tables, t': Tables, configId: nat, ps: seq<PointInput>, j: nat, day: string)
    requires j < |ps| && tk.nextId == tj.nextId + 1
    requires RecordedOn(tk.history, tj.nextId, day, Values(ps[j]).price, Values(ps[j]).qty)
    requires SavePoints(tk, configId, ps[j + 1..], day) == Some(t')
    requires NotNamedAfter(ps, j, tj.nextId)
    ensures RecordedOn(t'.history, tj.nextId, day, Values(ps[j]).price, Values(ps[j]).qty)
  {
    NotNamedRest(ps, j, tj.nextId, ps[j + 1..]);
    SavePointsKeepsKey(tk, configId, ps[j + 1..], day, tj.nextId, day);
  }

  /** An inserting entry appends its row after the stored rows and the rows of the earlier
      inserts, under the counter advanced by those inserts, with the entry's values ('' and 0
      for missing fields), unless a later entry names the new id. */
  lemma {:induction false} SavePointsInsertedRow(t: Tables, configId: nat, ps: seq<PointInput>, day: string, j: nat)
    requires SavePoints(t, configId, ps, day).Some?
    requires j < |ps| && !Updates(ps[j]) && NotNamedAfter(ps, j, InsertedId(t, ps, j))
    ensures RowAt(SavePoints(t, configId, ps, day).value.points, InsertedIndex(t.points, ps, j),
                  NewPoint(InsertedId(t, ps, j), configId, Values(ps[j])))
  {
    var tj, tk, t' := InsertStep(t, configId, ps, day, j);
    KeptInsert(tj, tk, t', configId, ps, j, day);
  }

  /** The history of an inserted point on the saved day holds its entry's price and qty, unless
      a later entry names the new id. */
  lemma {:induction false} SavePointsRecordsInsert(t: Tables, configId: nat, ps: seq<PointInput>, day: string, j: nat)
    requires SavePoints(t, configId, ps, day).Some?
    requires j < |ps| && !Updates(ps[j]) && NotNamedAfter(ps, j, InsertedId(t, ps, j))
    ensures RecordedOn(SavePoints(t, configId, ps, day).value.history, InsertedId(t, ps, j), day, Values(ps[j]).price, Values(ps[j]).qty)
  {
    var tj, tk, t' := InsertStep(t, configId, ps, day, j);
    KeptInsertHistory(tj, tk, t', configId, ps, j, day);
  }

  /** Every point id stays below the id counter. */
  lemma SavePointsIdsBelow(t: Tables, configId: nat, ps: seq<PointInput>, day: string)
    requires PointIdsBelow(t)
    requires SavePoints(t, configId, ps, day).Some?
    ensures PointIdsBelow(SavePoints(t, configId, ps, day).value)
  {
    var t' := SavePoints(t, configId, ps, day).value;
    SavePointsRows(t, configId, ps, day);
    SavePointsFrame(t, configId, ps, day);
    forall i | 0 <= i < |t.points| ensures 1 <= t'.points[i].id < t'.nextId {
      ApplyKeepsKey(t.points[i], configId, ps);
    }
  }

  /** A stored row that no payload entry names within the config is left as it was. */
  lemma {:induction false} ApplyUntouched(r: PointRow, configId: nat, ps: seq<PointInput>)
    requires r.configId != configId || forall j :: 0 <= j < |ps| ==> !UpdatesId(ps[j], r.id)
    ensures ApplyUpdates(r, configId, ps) == r
    decreases |ps|
  {
    if ps != [] {
      ApplyUntouched(r, configId, ps[1..]);
    }
  }

  /** A stored row named within the config ends up with the values of the last entry naming it. */
  lemma {:induction false} ApplyLast(r: PointRow, configId: nat, ps: seq<PointInput>, j: nat)
    requires r.configId == configId && j < |ps| && UpdatesId(ps[j], r.id)
    requires forall j' :: j < j' < |ps| ==> !UpdatesId(ps[j'], r.id)
    ensures ApplyUpdates(r, configId, ps) == WithValues(r, Values(ps[j]))
    decreases |ps|
  {
    var r1 := if UpdatesId(ps[0], r.id) && r.configId == configId then WithValues(r, Values(ps[0])) else r;
    if j == 0 {
      ApplyUntouched(r1, configId, ps[1..]);
    } else {
      ApplyLast(r1, configId, ps[1..], j - 1);
    }
  }

  // ---------------------------------------------------------------------------
  // History

  /** A key that no remaining entry writes keeps its history row. */
  lemma {:induction false} SavePointsKeepsKey(t: Tables, configId: nat, ps: seq<PointInput>, day: string, k: int, d: string)
    requires SavePoints(t, configId, ps, day).Some?
    requires d != day || (k < t.nextId && forall j :: 0 <= j < |ps| ==> !UpdatesId(ps[j], k))
    ensures FindHistory(SavePoints(t, configId, ps, day).value.history, k, d) == FindHistory(t.history, k, d)
    decreases |ps|
  {
    if ps != [] {
      var p := ps[0];
      var v := Values(p);
      var pid := if Updates(p) then p.id.value else t.nextId;
      var t1 := SavePoint(t, configId, p, day).value;
      UpsertHistoryLookup(t.history, HistoryRow(pid, day, v.price, v.qty), k, d);
      SavePointsKeepsKey(t1, configId, ps[1..], day, k, d);
    }
  }

  /** After the loop, the history of a point on the saved day holds the price and qty of the
      last entry naming that point. */
  lemma {:induction false} SavePointsRecordsHistory(t: Tables, configId: nat, ps: seq<PointInput>, day: string, j: nat)
    requires PointIdsBelow(t)
    requires SavePoints(t, configId, ps, day).Some?
    requires j < |ps| && Updates(ps[j])
    requires forall j' :: j < j' < |ps| ==> !UpdatesId(ps[j'], ps[j].id.value)
    ensures var h := FindHistory(SavePoints(t, configId, ps, day).value.history, ps[j].id.value, day);
      h.Some? && h.value.price == Values(ps[j]).price && h.value.qty == Values(ps[j]).qty
    decreases |ps|
  {
    var p := ps[0];
    var v := Values(p);
    var t1 := SavePoint(t, configId, p, day).value;
    SavePointStep(t, configId, p, day);
    assert PointIdsBelow(t1);
    if j == 0 {
      var k := p.id.value;
      var row := HistoryRow(k, day, v.price, v.qty);
      UpsertHistoryLookup(t.history, row, k, day);
      var up := UpdatePoint(t.points, k, configId, v);
      var i :| 0 <= i < |up| && up[i].id == k;
      assert k < t1.nextId;
      SavePointsKeepsKey(t1, configId, ps[1..], day, k, day);
    } else {
      SavePointsRecordsHistory(t1, configId, ps[1..], day, j - 1);
    }
  }

  // ---------------------------------------------------------------------------
  // Modifiers and sales

  /** The rows `InsertModifiers` appends, numbered from `n`. */
  function ModifierRows(n: nat, configId: nat, mods: seq<Pricing.Modifier>): (r: seq<ModifierRow>)
    ensures |r| == |mods|
    decreases |mods|
  {
    if mods == [] then []
    else [ModifierRow(n, configId, mods[0].caption.GetOr(""), mods[0].amount.GetOr(0.0))] + ModifierRows(n + 1, configId, mods[1..])
  }

  lemma {:induction false} ModifierRowsAt(n: nat, configId: nat, mods: seq<Pricing.Modifier>)
    ensures forall i :: 0 <= i < |mods| ==>
      ModifierRows(n, configId, mods)[i] == ModifierRow(n + i, configId, mods[i].caption.GetOr(""), mods[i].amount.GetOr(0.0))
    decreases |mods|
  {
    if mods != [] {
      ModifierRowsAt(n + 1, configId, mods[1..]);
    }
  }

  lemma {:induction false} InsertModifiersShape(t: Tables, configId: nat, mods: seq<Pricing.Modifier>)
    ensures InsertModifiers(t, configId, mods) ==
      t.(modifiers := t.modifiers + ModifierRows(t.nextId, configId, mods), nextId := t.nextId + |mods|)
    decreases |mods|
  {
    if mods != [] {
      var row := ModifierRow(t.nextId, configId, mods[0].caption.GetOr(""), mods[0].amount.GetOr(0.0));
      var t1 := InsertModifier(t, configId, mods[0].caption.GetOr(""), mods[0].amount.GetOr(0.0));
      InsertModifiersShape(t1, configId, mods[1..]);
      var rest := ModifierRows(t.nextId + 1, configId, mods[1..]);
      assert ModifierRows(t.nextId, configId, mods) == [row] + rest;
      assert t1.modifiers + rest == t.modifiers + ([row] + rest);
    }
  }

  /** Rows all owned by `c`: selecting `c` keeps them all, selecting another config none. */
  lemma {:induction false} SelectOwned<T>(s: seq<T>, owner: T -> int, c: int, d: int)
    requires forall i :: 0 <= i < |s| ==> owner(s[i]) == c
    ensures Select(s, owner, d) == if d == c then s else []
  {
    if s != [] {
      SelectOwned(s[1..], owner, c, d);
      assert s == [s[0]] + s[1..];
    }
  }

  /** After the replacement the config's modifiers are exactly the payload's, in order; every
      other config keeps its modifiers. */
  lemma ReplaceModifiersContent(t: Tables, configId: nat, mods: seq<Pricing.Modifier>, d: int)
    ensures var sel := Select(ReplaceModifiers(t, configId, mods).modifiers, ModifierOwner, d);
      if d == configId then
        |sel| == |mods| &&
        forall i :: 0 <= i < |mods| ==> sel[i].caption == mods[i].caption.GetOr("") && sel[i].amount == mods[i].amount.GetOr(0.0)
      else sel == Select(t.modifiers, ModifierOwner, d)
  {
    InsertModifiersShape(t.(modifiers := Without(t.modifiers, ModifierOwner, configId)), configId, mods);
    ReplacedSelection(t.modifiers, configId, mods, t.nextId, ReplaceModifiers(t, configId, mods).modifiers, d);
  }

  lemma ReplacedSelection(rows: seq<ModifierRow>, configId: nat, mods: seq<Pricing.Modifier>, n: nat, all: seq<ModifierRow>, d: int)
    requires all == Without(rows, ModifierOwner, configId) + ModifierRows(n, configId, mods)
    ensures var sel := Select(all, ModifierOwner, d);
      if d == configId then
        |sel| == |mods| &&
        forall i :: 0 <= i < |mods| ==> sel[i].caption == mods[i].caption.GetOr("") && sel[i].amount == mods[i].amount.GetOr(0.0)
      else sel == Select(rows, ModifierOwner, d)
  {
    var kept := Without(rows, ModifierOwner, configId);
    var added := ModifierRows(n, configId, mods);
    SelectAppend(kept, added, ModifierOwner, d);
    SelectWithout(rows, ModifierOwner, configId, d);
    ModifierRowsAt(n, configId, mods);
    assert forall i :: 0 <= i < |added| ==> ModifierOwner(added[i]) == configId by {
      forall i | 0 <= i < |added| ensures ModifierOwner(added[i]) == configId {
        assert added[i].configId == configId;
      }
    }
    SelectOwned(added, ModifierOwner, configId, d);
    var sel := Select(all, ModifierOwner, d);
    if d == configId {
      assert sel == added;
      forall i | 0 <= i < |mods| ensures sel[i].caption == mods[i].caption.GetOr("") && sel[i].amount == mods[i].amount.GetOr(0.0) {
        assert sel[i] == ModifierRow(n + i, configId, mods[i].caption.GetOr(""), mods[i].amount.GetOr(0.0));
      }
    } else {
      assert sel == Select(rows, ModifierOwner, d) + [];
    }
  }

  /** The payload sales rows that carry a `day_label`. */
  function Labelled(sales: seq<SaleInput>): (r: seq<SaleInput>)
    ensures forall i :: 0 <= i < |r| ==> r[i].dayLabel.Some?
    decreases |sales|
  {
    if sales == [] then []
    else (if sales[0].dayLabel.Some? then [sales[0]] else []) + Labelled(sales[1..])
  }

  function SaleRows(n: nat, configId: nat, capacity: string, sales: seq<SaleInput>): (r: seq<SaleRow>)
    ensures |r| == |sales|
    decreases |sales|
  {
    if sales == [] then []
    else
      var v := SaleValuesOf(sales[0]);
      [SaleRow(n, configId, capacity, v.dayLabel, v.salePrice, v.marketPrice, v.volume)] + SaleRows(n + 1, configId, capacity, sales[1..])
  }

  lemma {:induction false} SaleRowsAt(n: nat, configId: nat, capacity: string, sales: seq<SaleInput>)
    ensures forall i :: 0 <= i < |sales| ==>
      var v := SaleValuesOf(sales[i]);
      SaleRows(n, configId, capacity, sales)[i] == SaleRow(n + i, configId, capacity, v.dayLabel, v.salePrice, v.marketPrice, v.volume)
    decreases |sales|
  {
    if sales != [] {
      SaleRowsAt(n + 1, configId, capacity, sales[1..]);
    }
  }

  lemma {:induction false} InsertSalesShape(t: Tables, configId: nat, capacity: string, sales: seq<SaleInput>)
    ensures InsertSales(t, configId, capacity, sales) ==
      t.(sales := t.sales + SaleRows(t.nextId, configId, capacity, Labelled(sales)), nextId := t.nextId + |Labelled(sales)|)
    decreases |sales|
  {
    if sales != [] {
      if sales[0].dayLabel.None? {
        InsertSalesShape(t, configId, capacity, sales[1..]);
        assert Labelled(sales) == Labelled(sales[1..]);
      } else {
        var v := SaleValuesOf(sales[0]);
        var row := SaleRow(t.nextId, configId, capacity, v.dayLabel, v.salePrice, v.marketPrice, v.volume);
        var t1 := InsertSale(t, configId, capacity, v);
        InsertSalesShape(t1, configId, capacity, sales[1..]);
        var ls := Labelled(sales[1..]);
        assert Labelled(sales) == [sales[0]] + ls;
        var rest := SaleRows(t.nextId + 1, configId, capacity, ls);
        assert SaleRows(t.nextId, configId, capacity, [sales[0]] + ls) == [row] + rest by {
          assert ([sales[0]] + ls)[1..] == ls;
        }
        assert t1.sales + rest == t.sales + ([row] + rest);
      }
    }
  }

  /** After the replacement the config's sales are exactly the labelled payload rows, in order;
      every other config keeps its sales. */
  lemma ReplaceSalesContent(t: Tables, configId: nat, capacity: string, sales: seq<SaleInput>, d: int)
    ensures var sel := Select(ReplaceSales(t, configId, capacity, sales).sales, SaleOwner, d);
      if d == configId then
        |sel| == |Labelled(sales)| &&
        forall i :: 0 <= i < |sel| ==>
          sel[i].capacity == capacity &&
          SaleValues(sel[i].dayLabel, sel[i].salePrice, sel[i].marketPrice, sel[i].volume) == SaleValuesOf(Labelled(sales)[i])
      else sel == Select(t.sales, SaleOwner, d)
  {
    var kept := Without(t.sales, SaleOwner, configId);
    var ls := Labelled(sales);
    var added := SaleRows(t.nextId, configId, capacity, ls);
    InsertSalesShape(t.(sales := kept), configId, capacity, sales);
    assert ReplaceSales(t, configId, capacity, sales).sales == kept + added;
    SelectAppend(kept, added, SaleOwner, d);
    SelectWithout(t.sales, SaleOwner, configId, d);
    SaleRowsAt(t.nextId, configId, capacity, ls);
    SelectOwned(added, SaleOwner, configId, d);
    if d == configId {
      var sel := Select(kept + added, SaleOwner, d);
      assert sel == added;
      forall i | 0 <= i < |sel|
        ensures sel[i].capacity == capacity
        ensures SaleValues(sel[i].dayLabel, sel[i].salePrice, sel[i].marketPrice, sel[i].volume) == SaleValuesOf(ls[i])
      {
        assert sel[i] == added[i];
      }
    }
  }

  // ---------------------------------------------------------------------------
  // Configs

  lemma {:induction false} FindAfterUpdate(cs: seq<ConfigRow>, id: int, margin: Option<real>, mode: Option<string>, name: Option<string>,
                                          capacity: string, iface: string, cond: string)
    ensures FindConfig(UpdateConfig(cs, id, margin, mode, name), capacity, iface, cond) ==
      match FindConfig(cs, capacity, iface, cond)
      case None => None
      case Some(c) => Some(if c.id == id then c.(margin := if margin.Some? then margin else c.margin, mode := mode, name := name) else c)
  {
    if cs != [] {
      assert UpdateConfig(cs, id, margin, mode, name)[1..] == UpdateConfig(cs[1..], id, margin, mode, name);
      FindAfterUpdate(cs[1..], id, margin, mode, name, capacity, iface, cond);
    }
  }

  lemma {:induction false} FindAfterAppend(cs: seq<ConfigRow>, row: ConfigRow, capacity: string, iface: string, cond: string)
    requires FindConfig(cs, capacity, iface, cond).None?
    ensures FindConfig(cs + [row], capacity, iface, cond) == if HasTriple(row, capacity, iface, cond) then Some(row) else None
  {
    if cs != [] {
      assert (cs + [row])[1..] == cs[1..] + [row];
      FindAfterAppend(cs[1..], row, capacity, iface, cond);
    } else {
      assert cs + [row] == [row];
    }
  }

  /** Resolving the triple: the existing config is overwritten in place, or exactly one is
      appended; either way the triple then finds it with the new margin, mode and name, and no
      config with another id changes. */
  lemma ResolveConfigFacts(t: Tables, capacity: string, iface: string, cond: string, margin: Option<real>, mode: string, name: Option<string>)
    requires margin.Some?
    ensures var (t1, id) := ResolveConfig(t, capacity, iface, cond, margin, mode, name);
      var found := FindConfig(t.configs, capacity, iface, cond);
      && FindConfig(t1.configs, capacity, iface, cond) == Some(ConfigRow(id, capacity, iface, cond, margin, Some(mode), name))
      && |t1.configs| == |t.configs| + (if found.Some? then 0 else 1)
      && (forall i :: 0 <= i < |t.configs| && t.configs[i].id != id ==> t1.configs[i] == t.configs[i])
      && (found.Some? ==> id == found.value.id && t1.nextId == t.nextId)
      && (found.None? ==> id == t.nextId && t1.nextId == t.nextId + 1)
  {
    var found := FindConfig(t.configs, capacity, iface, cond);
    if found.Some? {
      FindAfterUpdate(t.configs, found.value.id, margin, Some(mode), name, capacity, iface, cond);
    } else {
      FindAfterAppend(t.configs, ConfigRow(t.nextId, capacity, iface, cond, margin, Some(mode), name), capacity, iface, cond);
    }
  }

  lemma ResolveConfigUnique(t: Tables, capacity: string, iface: string, cond: string, margin: Option<real>, mode: string, name: Option<string>)
    requires UniqueTriples(t.configs)
    ensures UniqueTriples(ResolveConfig(t, capacity, iface, cond, margin, mode, name).0.configs)
  {
  }

  // ---------------------------------------------------------------------------
  // Snapshots

  lemma {:induction false} FindAfterRefresh(snaps: seq<SnapshotRow>, row: SnapshotRow, keepMargin: bool)
    ensures var r := seq(|snaps|, i requires 0 <= i < |snaps| =>
        if SnapshotKey(snaps[i], row.configId, row.savedAt) then Refresh(snaps[i], row, keepMargin) else snaps[i]);
      FindSnapshot(r, row.configId, row.savedAt) ==
        match FindSnapshot(snaps, row.configId, row.savedAt)
        case None => None
        case Some(s) => Some(Refresh(s, row, keepMargin))
  {
    if snaps != [] {
      var r := seq(|snaps|, i requires 0 <= i < |snaps| =>
        if SnapshotKey(snaps[i], row.configId, row.savedAt) then Refresh(snaps[i], row, keepMargin) else snaps[i]);
      var tail := snaps[1..];
      assert r[1..] == seq(|tail|, i requires 0 <= i < |tail| =>
        if SnapshotKey(tail[i], row.configId, row.savedAt) then Refresh(tail[i], row, keepMargin) else tail[i]);
      FindAfterRefresh(tail, row, keepMargin);
    }
  }

  lemma {:induction false} FindSnapshotAppend(snaps: seq<SnapshotRow>, row: SnapshotRow)
    requires FindSnapshot(snaps, row.configId, row.savedAt).None?
    ensures FindSnapshot(snaps + [row], row.configId, row.savedAt) == Some(row)
  {
    if snaps != [] {
      assert (snaps + [row])[1..] == snaps[1..] + [row];
      FindSnapshotAppend(snaps[1..], row);
    } else {
      assert snaps + [row] == [row];
    }
  }

  /** After an upsert the key holds the snapshot's name, prices, margin and mode. */
  lemma UpsertSnapshotLookup(snaps: seq<SnapshotRow>, row: SnapshotRow)
    ensures var s := FindSnapshot(UpsertSnapshotRows(snaps, row, false), row.configId, row.savedAt);
      s.Some? && s.value.name == row.name && s.value.base == row.base && s.value.adjusted == row.adjusted
      && s.value.margin == row.margin && s.value.mode == row.mode
  {
    if FindSnapshot(snaps, row.configId, row.savedAt).Some? {
      FindAfterRefresh(snaps, row, false);
    } else {
      FindSnapshotAppend(snaps, row);
    }
  }

  // ---------------------------------------------------------------------------
  // The schema constraints survive every statement of the save

  /** Rewriting points without touching their ids keeps the schema constraints. */
  lemma SameIdsValid(t: Tables, points: seq<PointRow>)
    requires Valid(t)
    requires |points| == |t.points| && forall i :: 0 <= i < |points| ==> points[i].id == t.points[i].id
    ensures Valid(t.(points := points))
  {
    assert forall k :: PointExists(t.points, k) ==> PointExists(points, k) by {
      forall k | PointExists(t.points, k) ensures PointExists(points, k) {
        var i :| 0 <= i < |t.points| && t.points[i].id == k;
        assert points[i].id == k;
      }
    }
  }

  /** A new point under the next id keeps the schema constraints. */
  lemma InsertPointValid(t: Tables, configId: nat, v: PointValues)
    requires Valid(t)
    ensures Valid(InsertPoint(t, configId, v))
  {
    var t1 := InsertPoint(t, configId, v);
    assert forall k :: PointExists(t.points, k) ==> PointExists(t1.points, k) by {
      forall k | PointExists(t.points, k) ensures PointExists(t1.points, k) {
        var i :| 0 <= i < |t.points| && t.points[i].id == k;
        assert t1.points[i].id == k;
      }
    }
  }

  /** Recording a price of an existing point on a well-formed day keeps the schema constraints. */
  lemma UpsertHistoryValid(t: Tables, pointId: int, day: string, price: real, qty: int)
    requires Valid(t)
    requires UpsertHistory(t, pointId, day, price, qty).Some?
    ensures Valid(UpsertHistory(t, pointId, day, price, qty).value)
  {
    var row := HistoryRow(pointId, day, price, qty);
    var t1 := UpsertHistory(t, pointId, day, price, qty).value;
    UpsertKeepsKeysUnique(t.history, row);
    forall i | 0 <= i < |t1.history| ensures PointExists(t1.points, t1.history[i].pointId) && Days.IsDay(t1.history[i].day) {
      if t1.history[i] != row {
        var j :| 0 <= j < |t.history| && t.history[j] == t1.history[i];
      }
    }
  }

  lemma SavePointValid(t: Tables, configId: nat, p: PointInput, day: string)
    requires Valid(t)
    requires SavePoint(t, configId, p, day).Some?
    ensures Valid(SavePoint(t, configId, p, day).value)
  {
    var v := Values(p);
    if Updates(p) {
      var mid := t.(points := UpdatePoint(t.points, p.id.value, configId, v));
      SameIdsValid(t, mid.points);
      UpsertHistoryValid(mid, p.id.value, day, v.price, v.qty);
    } else {
      InsertPointValid(t, configId, v);
      UpsertHistoryValid(InsertPoint(t, configId, v), t.nextId, day, v.price, v.qty);
    }
  }

  lemma {:induction false} SavePointsValid(t: Tables, configId: nat, ps: seq<PointInput>, day: string)
    requires Valid(t)
    requires SavePoints(t, configId, ps, day).Some?
    ensures Valid(SavePoints(t, configId, ps, day).value)
    decreases |ps|
  {
    if ps != [] {
      SavePointValid(t, configId, ps[0], day);
      SavePointsValid(SavePoint(t, configId, ps[0], day).value, configId, ps[1..], day);
    }
  }

  lemma {:induction false} InsertModifiersValid(t: Tables, configId: nat, mods: seq<Pricing.Modifier>)
    requires Valid(t)
    ensures Valid(InsertModifiers(t, configId, mods))
    decreases |mods|
  {
    if mods != [] {
      InsertModifiersValid(InsertModifier(t, configId, mods[0].caption.GetOr(""), mods[0].amount.GetOr(0.0)), configId, mods[1..]);
    }
  }

  lemma {:induction false} InsertSalesValid(t: Tables, configId: nat, capacity: string, sales: seq<SaleInput>)
    requires Valid(t)
    ensures Valid(InsertSales(t, configId, capacity, sales))
    decreases |sales|
  {
    if sales != [] {
      if sales[0].dayLabel.None? {
        InsertSalesValid(t, configId, capacity, sales[1..]);
      } else {
        InsertSalesValid(InsertSale(t, configId, capacity, SaleValuesOf(sales[0])), configId, capacity, sales[1..]);
      }
    }
  }

  lemma UpsertSnapshotValid(t: Tables, s: SnapshotRow, keepMargin: bool)
    requires Valid(t)
    ensures Valid(UpsertSnapshot(t, s, keepMargin))
  {
    var row := s.(id := t.nextId);
    var r := UpsertSnapshotRows(t.snapshots, row, keepMargin);
    if FindSnapshot(t.snapshots, row.configId, row.savedAt).Some? {
      assert forall i :: 0 <= i < |r| ==> r[i].id == t.snapshots[i].id;
      assert forall i :: 0 <= i < |r| ==> r[i].configId == t.snapshots[i].configId && r[i].savedAt == t.snapshots[i].savedAt;
    } else {
      assert r == t.snapshots + [row];
    }
  }

  lemma ResolveConfigValid(t: Tables, capacity: string, iface: string, cond: string, margin: Option<real>, mode: string, name: Option<string>)
    requires Valid(t)
    ensures Valid(ResolveConfig(t, capacity, iface, cond, margin, mode, name).0)
  {
    ResolveConfigUnique(t, capacity, iface, cond, margin, mode, name);
  }

  // ---------------------------------------------------------------------------
  // The whole transaction

  /** The store a successful save starts its points loop from. */
  function Resolved(t: Tables, req: SaveRequest): (Tables, nat) {
    ResolveConfig(t, CapacityOf(req), InterfaceOf(req), ConditionOf(req), Some(MarginOf(req)), ModeOf(req.mode), req.name)
  }

  predicate Accepted(req: SaveRequest, today: string) {
    Days.IsDay(DayOf(req, today)) && Lex.Le(DayOf(req, today), today) && !Blank(req)
  }

  lemma ReplaceModifiersValid(t: Tables, configId: nat, mods: seq<Pricing.Modifier>)
    requires Valid(t)
    ensures Valid(ReplaceModifiers(t, configId, mods))
  {
    InsertModifiersValid(t.(modifiers := Without(t.modifiers, ModifierOwner, configId)), configId, mods);
  }

  lemma ReplaceSalesValid(t: Tables, configId: nat, capacity: string, sales: seq<SaleInput>)
    requires Valid(t)
    ensures Valid(ReplaceSales(t, configId, capacity, sales))
  {
    InsertSalesValid(t.(sales := Without(t.sales, SaleOwner, configId)), configId, capacity, sales);
  }

  /** The save keeps the schema constraints; in particular history keeps one row per
      (point, day) however often a payload is repeated. */
  lemma SavePegValid(t: Tables, req: SaveRequest, today: string)
    requires Valid(t)
    ensures Valid(SavePeg(t, req, today).1)
  {
    if Accepted(req, today) {
      var t1 := Resolved(t, req).0;
      var id := Resolved(t, req).1;
      var day := DayOf(req, today);
      ResolveConfigValid(t, CapacityOf(req), InterfaceOf(req), ConditionOf(req), Some(MarginOf(req)), ModeOf(req.mode), req.name);
      var saved := SavePoints(t1, id, req.points, day);
      if saved.Some? {
        var t2 := saved.value;
        SavePointsValid(t1, id, req.points, day);
        var t3 := ReplaceModifiers(t2, id, req.modifiers);
        ReplaceModifiersValid(t2, id, req.modifiers);
        var t4 := ReplaceSales(t3, id, CapacityOf(req), req.sales);
        ReplaceSalesValid(t3, id, CapacityOf(req), req.sales);
        UpsertSnapshotValid(t4, SnapshotOf(req, id, day), false);
        assert SavePeg(t, req, today).1 == UpsertSnapshot(t4, SnapshotOf(req, id, day), false);
      }
    }
  }

  /** After a save, the triple finds the config the response names, holding the request's
      margin (25 by default), inventory mode ('balanced' by default) and name; a config is
      created only when none had the triple, and no config with another id changes. */
  lemma SavePegConfig(t: Tables, req: SaveRequest, today: string)
    requires SavePeg(t, req, today).0.Saved?
    ensures var (r, t') := SavePeg(t, req, today);
      var found := FindConfig(t.configs, CapacityOf(req), InterfaceOf(req), ConditionOf(req));
      && FindConfig(t'.configs, CapacityOf(req), InterfaceOf(req), ConditionOf(req))
         == Some(ConfigRow(r.configId, CapacityOf(req), InterfaceOf(req), ConditionOf(req), Some(MarginOf(req)), Some(ModeOf(req.mode)), req.name))
      && |t'.configs| == |t.configs| + (if found.Some? then 0 else 1)
      && (found.Some? ==> r.configId == found.value.id)
      && (forall i :: 0 <= i < |t.configs| && t.configs[i].id != r.configId ==> t'.configs[i] == t.configs[i])
  {
    var (t1, id) := Resolved(t, req);
    var day := DayOf(req, today);
    ResolveConfigFacts(t, CapacityOf(req), InterfaceOf(req), ConditionOf(req), Some(MarginOf(req)), ModeOf(req.mode), req.name);
    SavePointsFrame(t1, id, req.points, day);
    var t2 := SavePoints(t1, id, req.points, day).value;
    InsertModifiersShape(t2.(modifiers := Without(t2.modifiers, ModifierOwner, id)), id, req.modifiers);
    var t3 := ReplaceModifiers(t2, id, req.modifiers);
    InsertSalesShape(t3.(sales := Without(t3.sales, SaleOwner, id)), id, CapacityOf(req), req.sales);
  }

  /** The tables a successful save's points loop produces. */
  lemma SavedPoints(t: Tables, req: SaveRequest, today: string) returns (t1: Tables, t2: Tables)
    requires SavePeg(t, req, today).0.Saved?
    ensures t1 == Resolved(t, req).0 && t1.points == t.points && t1.history == t.history
    ensures SavePoints(t1, Resolved(t, req).1, req.points, DayOf(req, today)) == Some(t2)
    ensures SavePeg(t, req, today).0.configId == Resolved(t, req).1
    ensures var t' := SavePeg(t, req, today).1;
      t'.points == t2.points && t'.history == t2.history
  {
    var id;
    t1, id := Resolved(t, req).0, Resolved(t, req).1;
    var day := DayOf(req, today);
    t2 := SavePoints(t1, id, req.points, day).value;
    InsertModifiersShape(t2.(modifiers := Without(t2.modifiers, ModifierOwner, id)), id, req.modifiers);
    var t3 := ReplaceModifiers(t2, id, req.modifiers);
    InsertSalesShape(t3.(sales := Without(t3.sales, SaleOwner, id)), id, CapacityOf(req), req.sales);
  }

  /** After a save every stored point has received the payload's updates in order. */
  lemma SavePegPoint(t: Tables, req: SaveRequest, today: string, i: nat)
    requires SavePeg(t, req, today).0.Saved? && i < |t.points|
    ensures i < |SavePeg(t, req, today).1.points|
    ensures SavePeg(t, req, today).1.points[i] == ApplyUpdates(t.points[i], SavePeg(t, req, today).0.configId, req.points)
  {
    var t1, t2 := SavedPoints(t, req, today);
    var id := SavePeg(t, req, today).0.configId;
    SavePointsRows(t1, id, req.points, DayOf(req, today));
    assert t2.points[i] == ApplyUpdates(t1.points[i], id, req.points);
  }

  /** The points a save appends belong to the resolved config and take fresh ids. */
  lemma SavePegNewPoints(t: Tables, req: SaveRequest, today: string)
    requires SavePeg(t, req, today).0.Saved?
    ensures var (r, t') := SavePeg(t, req, today);
      |t'.points| == |t.points| + InsertCount(req.points) &&
      forall i :: |t.points| <= i < |t'.points| ==> t'.points[i].configId == r.configId && t'.points[i].id >= t.nextId
  {
    var t1, t2 := SavedPoints(t, req, today);
    var id := SavePeg(t, req, today).0.configId;
    ResolveConfigFacts(t, CapacityOf(req), InterfaceOf(req), ConditionOf(req), Some(MarginOf(req)), ModeOf(req.mode), req.name);
    SavePointsRows(t1, id, req.points, DayOf(req, today));
    SavePointsFrame(t1, id, req.points, DayOf(req, today));
  }

  /** After a save, the history of each named point on the saved day holds the price and qty
      of the last payload entry naming it. */
  lemma SavePegRecordsHistory(t: Tables, req: SaveRequest, today: string, j: nat)
    requires Valid(t)
    requires SavePeg(t, req, today).0.Saved? && j < |req.points| && Updates(req.points[j])
    requires forall j' :: j < j' < |req.points| ==> !UpdatesId(req.points[j'], req.points[j].id.value)
    ensures var h := FindHistory(SavePeg(t, req, today).1.history, req.points[j].id.value, DayOf(req, today));
      h.Some? && h.value.price == req.points[j].price.GetOr(0.0) && h.value.qty == req.points[j].qty.GetOr(0)
  {
    var t1, t2 := SavedPoints(t, req, today);
    var id := SavePeg(t, req, today).0.configId;
    ResolveConfigFacts(t, CapacityOf(req), InterfaceOf(req), ConditionOf(req), Some(MarginOf(req)), ModeOf(req.mode), req.name);
    assert PointIdsBelow(t1);
    SavePointsRecordsHistory(t1, id, req.points, DayOf(req, today), j);
  }

  /** The id a save gives its inserting entry `j`: the counter, plus one when the save
      creates the config, plus the number of earlier inserts. */
  function PegInsertedId(t: Tables, req: SaveRequest, j: nat): nat
    requires j <= |req.points|
  {
    var created := FindConfig(t.configs, CapacityOf(req), InterfaceOf(req), ConditionOf(req)).None?;
    t.nextId + (if created then 1 else 0) + InsertCount(req.points[..j])
  }

  lemma PegInsertedIdAfterConfig(t: Tables, req: SaveRequest, j: nat)
    requires j <= |req.points|
    ensures PegInsertedId(t, req, j) == InsertedId(Resolved(t, req).0, req.points, j)
  {
    ResolveConfigFacts(t, CapacityOf(req), InterfaceOf(req), ConditionOf(req), Some(MarginOf(req)), ModeOf(req.mode), req.name);
  }

  /** After a save, an inserting entry's row follows the stored rows and the earlier inserts,
      under the id `PegInsertedId`, in the saved config, with the entry's label, channel, url,
      price, qty and weight ('' and 0 when missing), and the history of that id on the saved
      day holds the entry's price and qty, unless a later entry names the new id. */
  lemma SavePegInsertedPoint(t: Tables, req: SaveRequest, today: string, j: nat)
    requires SavePeg(t, req, today).0.Saved? && j < |req.points| && !Updates(req.points[j])
    requires NotNamedAfter(req.points, j, PegInsertedId(t, req, j))
    ensures var (r, t') := SavePeg(t, req, today);
      var v := Values(req.points[j]);
      && RowAt(t'.points, InsertedIndex(t.points, req.points, j), NewPoint(PegInsertedId(t, req, j), r.configId, v))
      && RecordedOn(t'.history, PegInsertedId(t, req, j), DayOf(req, today), v.price, v.qty)
  {
    var t1, t2 := SavedPoints(t, req, today);
    var id := SavePeg(t, req, today).0.configId;
    PegInsertedIdAfterConfig(t, req, j);
    SavePointsInsertedRow(t1, id, req.points, DayOf(req, today), j);
    SavePointsRecordsInsert(t1, id, req.points, DayOf(req, today), j);
  }

  /** History of any other day is left as it was. */
  lemma SavePegKeepsOtherDays(t: Tables, req: SaveRequest, today: string, k: int, d: string)
    requires SavePeg(t, req, today).0.Saved? && d != DayOf(req, today)
    ensures FindHistory(SavePeg(t, req, today).1.history, k, d) == FindHistory(t.history, k, d)
  {
    var t1, t2 := SavedPoints(t, req, today);
    SavePointsKeepsKey(t1, SavePeg(t, req, today).0.configId, req.points, DayOf(req, today), k, d);
  }

  /** After a save the config's modifiers are exactly the payload modifiers and its sales
      exactly the payload rows that carry a day label; other configs keep theirs. */
  lemma SavePegModifiersAndSales(t: Tables, req: SaveRequest, today: string, d: int)
    requires SavePeg(t, req, today).0.Saved?
    ensures var (r, t') := SavePeg(t, req, today);
      var mods := Select(t'.modifiers, ModifierOwner, d);
      var sales := Select(t'.sales, SaleOwner, d);
      if d == r.configId then
        && |mods| == |req.modifiers|
        && (forall i :: 0 <= i < |mods| ==>
              mods[i].caption == req.modifiers[i].caption.GetOr("") && mods[i].amount == req.modifiers[i].amount.GetOr(0.0))
        && |sales| == |Labelled(req.sales)|
        && (forall i :: 0 <= i < |sales| ==>
              sales[i].capacity == CapacityOf(req) &&
              SaleValues(sales[i].dayLabel, sales[i].salePrice, sales[i].marketPrice, sales[i].volume) == SaleValuesOf(Labelled(req.sales)[i]))
      else mods == Select(t.modifiers, ModifierOwner, d) && sales == Select(t.sales, SaleOwner, d)
  {
    var t1, t2 := SavedPoints(t, req, today);
    var id := SavePeg(t, req, today).0.configId;
    SavePointsFrame(t1, id, req.points, DayOf(req, today));
    ReplaceModifiersContent(t2, id, req.modifiers, d);
    var t3 := ReplaceModifiers(t2, id, req.modifiers);
    InsertModifiersShape(t2.(modifiers := Without(t2.modifiers, ModifierOwner, id)), id, req.modifiers);
    ReplaceSalesContent(t3, id, CapacityOf(req), req.sales, d);
    InsertSalesShape(t3.(sales := Without(t3.sales, SaleOwner, id)), id, CapacityOf(req), req.sales);
  }

  /** After a save the snapshot of (config, day at 12:00:00) holds the weighted base price of
      the payload points, the base plus the modifier total, and the request's margin and mode. */
  lemma SavePegSnapshot(t: Tables, req: SaveRequest, today: string)
    requires SavePeg(t, req, today).0.Saved?
    ensures var (r, t') := SavePeg(t, req, today);
      var s := FindSnapshot(t'.snapshots, Some(r.configId), r.day + " 12:00:00");
      var base := Pricing.BasePrice(AsPegPoints(req.points));
      && s.Some? && s.value.base == base
      && s.value.adjusted == base + Pricing.ModifierTotal(req.modifiers)
      && s.value.margin == Some(MarginOf(req)) && s.value.mode == Some(ModeOf(req.mode)) && s.value.name == req.name
  {
    var t1, t2 := SavedPoints(t, req, today);
    var id := SavePeg(t, req, today).0.configId;
    var t3 := ReplaceModifiers(t2, id, req.modifiers);
    InsertModifiersShape(t2.(modifiers := Without(t2.modifiers, ModifierOwner, id)), id, req.modifiers);
    var t4 := ReplaceSales(t3, id, CapacityOf(req), req.sales);
    InsertSalesShape(t3.(sales := Without(t3.sales, SaleOwner, id)), id, CapacityOf(req), req.sales);
    var row := SnapshotOf(req, id, DayOf(req, today)).(id := t4.nextId);
    UpsertSnapshotLookup(t4.snapshots, row);
  }

  /** The points loop cannot fail when every id it updates names a stored point. */
  lemma {:induction false} SavePointsSucceeds(t: Tables, configId: nat, ps: seq<PointInput>, day: string)
    requires Days.IsDay(day)
    requires forall j :: 0 <= j < |ps| && Updates(ps[j]) ==> PointExists(t.points, ps[j].id.value)
    ensures SavePoints(t, configId, ps, day).Some?
    decreases |ps|
  {
    if ps != [] {
      var p := ps[0];
      var v := Values(p);
      var mid := if Updates(p) then t.(points := UpdatePoint(t.points, p.id.value, configId, v)) else InsertPoint(t, configId, v);
      assert forall k :: PointExists(t.points, k) ==> PointExists(mid.points, k) by {
        forall k | PointExists(t.points, k) ensures PointExists(mid.points, k) {
          var i :| 0 <= i < |t.points| && t.points[i].id == k;
          assert mid.points[i].id == k;
        }
      }
      if Updates(p) {
        var i :| 0 <= i < |t.points| && t.points[i].id == p.id.value;
      } else {
        assert mid.points[|t.points|].id == t.nextId;
      }
      var t1 := SavePoint(t, configId, p, day).value;
      assert t1.points == mid.points;
      SavePointsSucceeds(t1, configId, ps[1..], day);
    }
  }

  /** A well-formed, not future, not blank request whose ids all name stored points is saved. */
  lemma SavePegSucceeds(t: Tables, req: SaveRequest, today: string)
    requires Accepted(req, today)
    requires forall j :: 0 <= j < |req.points| && Updates(req.points[j]) ==> PointExists(t.points, req.points[j].id.value)
    ensures SavePeg(t, req, today).0.Saved?
  {
    var (t1, id) := Resolved(t, req);
    SavePointsSucceeds(t1, id, req.points, DayOf(req, today));
  }
}
