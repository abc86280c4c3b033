/** The pricing database as values: one sequence of rows per table in insertion (id) order,
    the SQL statements the endpoints issue as functions on those sequences, and the schema
    constraints the endpoints rely on. Column names follow the SQL schema; `caption` is the
    `label` column. */
module Schema {
  import opened Wrappers
  import Lex
  import Days

  /** `peg_configs`: one row per (capacity, interface, condition_type). */
  datatype ConfigRow = ConfigRow(
    id: nat, capacity: string, iface: string, cond: string,
    margin: Option<real>, mode: Option<string>, name: Option<string>)

  /** `peg_points`: a price source owned by one config. */
  datatype PointRow = PointRow(
    id: nat, configId: nat, caption: string, channel: string, url: string,
    price: real, qty: int, weight: real)

  /** `peg_point_history`: a point's price and qty on one day. */
  datatype HistoryRow = HistoryRow(pointId: nat, day: string, price: real, qty: int)

  /** `peg_modifiers` */
  datatype ModifierRow = ModifierRow(id: nat, configId: nat, caption: string, amount: real)

  /** `sales_data` */
  datatype SaleRow = SaleRow(
    id: nat, configId: nat, capacity: string, dayLabel: string,
    salePrice: real, marketPrice: real, volume: int)

  /** `peg_history`: the audit snapshot of a config's computed peg. */
  datatype SnapshotRow = SnapshotRow(
    id: nat, configId: Option<nat>, capacity: string, iface: string, cond: string,
    name: Option<string>, base: real, adjusted: real, margin: Option<real>,
    mode: Option<string>, savedAt: string, notes: Option<string>)

  // ---------------------------------------------------------------------------
  // Rows selected by owning config (`WHERE config_id = ?` / `<> ?`)

  function PointOwner(r: PointRow): int { r.configId }
  function ModifierOwner(r: ModifierRow): int { r.configId }
  function SaleOwner(r: SaleRow): int { r.configId }

  /** The rows owned by config `c`, in table order. */
  function Select<T>(s: seq<T>, owner: T -> int, c: int): (r: seq<T>)
    ensures forall i :: 0 <= i < |r| ==> r[i] in s && owner(r[i]) == c
    ensures forall i :: 0 <= i < |s| && owner(s[i]) == c ==> s[i] in r
    ensures |r| <= |s|
  {
    if s == [] then []
    else (if owner(s[0]) == c then [s[0]] else []) + Select(s[1..], owner, c)
  }

  /** The rows left after `DELETE ... WHERE config_id = c`, in table order. */
  function Without<T>(s: seq<T>, owner: T -> int, c: int): (r: seq<T>)
    ensures forall i :: 0 <= i < |r| ==> r[i] in s && owner(r[i]) != c
    ensures forall i :: 0 <= i < |s| && owner(s[i]) != c ==> s[i] in r
    ensures |r| <= |s|
  {
    if s == [] then []
    else (if owner(s[0]) != c then [s[0]] else []) + Without(s[1..], owner, c)
  }

  lemma {:induction false} SelectAppend<T>(s: seq<T>, t: seq<T>, owner: T -> int, c: int)
    ensures Select(s + t, owner, c) == Select(s, owner, c) + Select(t, owner, c)
  {
    if s != [] {
      SelectAppend(s[1..], t, owner, c);
      assert (s + t)[1..] == s[1..] + t;
    } else {
      assert s + t == t;
    }
  }

  /** Deleting config `c`'s rows leaves every other config's rows, in order, and none of `c`'s. */
  lemma {:induction false} SelectWithout<T>(s: seq<T>, owner: T -> int, c: int, d: int)
    ensures Select(Without(s, owner, c), owner, d) == if d == c then [] else Select(s, owner, d)
  {
    if s != [] {
      SelectWithout(s[1..], owner, c, d);
      var head := if owner(s[0]) != c then [s[0]] else [];
      SelectAppend(head, Without(s[1..], owner, c), owner, d);
    }
  }

  // ---------------------------------------------------------------------------
  // Configs

  predicate HasTriple(c: ConfigRow, capacity: string, iface: string, cond: string) {
    c.capacity == capacity && c.iface == iface && c.cond == cond
  }

  /** `SELECT ... FROM peg_configs WHERE capacity=? AND interface=? AND condition_type=? LIMIT 1` */
  function FindConfig(configs: seq<ConfigRow>, capacity: string, iface: string, cond: string): (r: Option<ConfigRow>)
    ensures r.None? <==> forall i :: 0 <= i < |configs| ==> !HasTriple(configs[i], capacity, iface, cond)
    ensures r.Some? ==> r.value in configs && HasTriple(r.value, capacity, iface, cond)
  {
    if configs == [] then None
    else if HasTriple(configs[0], capacity, iface, cond) then Some(configs[0])
    else FindConfig(configs[1..], capacity, iface, cond)
  }

  /** `SELECT ... FROM peg_configs WHERE id = ?` */
  function ConfigById(configs: seq<ConfigRow>, id: int): (r: Option<ConfigRow>)
    ensures r.None? <==> forall i :: 0 <= i < |configs| ==> configs[i].id != id
    ensures r.Some? ==> r.value in configs && r.value.id == id
  {
    if configs == [] then None
    else if configs[0].id == id then Some(configs[0])
    else ConfigById(configs[1..], id)
  }

  /** `UPDATE peg_configs SET margin_percent=?, inventory_mode=?, peg_name=? WHERE id=?`;
      with `margin` None the margin column is left as it is. */
  function UpdateConfig(configs: seq<ConfigRow>, id: int, margin: Option<real>, mode: Option<string>, name: Option<string>): (r: seq<ConfigRow>)
    ensures |r| == |configs|
    ensures forall i :: 0 <= i < |r| ==>
      r[i] == if configs[i].id == id
              then configs[i].(margin := if margin.Some? then margin else configs[i].margin, mode := mode, name := name)
              else configs[i]
  {
    seq(|configs|, i requires 0 <= i < |configs| =>
      if configs[i].id == id
      then configs[i].(margin := if margin.Some? then margin else configs[i].margin, mode := mode, name := name)
      else configs[i])
  }

  /** No two configs share a (capacity, interface, condition_type) triple. */
  predicate UniqueTriples(configs: seq<ConfigRow>) {
    forall i, j :: 0 <= i < j < |configs| ==>
      !HasTriple(configs[j], configs[i].capacity, configs[i].iface, configs[i].cond)
  }

  // ---------------------------------------------------------------------------
  // Points

  predicate PointExists(points: seq<PointRow>, id: int) {
    exists i :: 0 <= i < |points| && points[i].id == id
  }

  /** The editable columns of a point. */
  datatype PointValues = PointValues(caption: string, channel: string, url: string, price: real, qty: int, weight: real)

  function WithValues(r: PointRow, v: PointValues): PointRow {
    r.(caption := v.caption, channel := v.channel, url := v.url, price := v.price, qty := v.qty, weight := v.weight)
  }

  /** `UPDATE peg_points SET label=?, channel=?, url=?, price=?, qty=?, weight=? WHERE id=? AND config_id=?` */
  function UpdatePoint(points: seq<PointRow>, id: int, configId: int, v: PointValues): (r: seq<PointRow>)
    ensures |r| == |points|
    ensures forall i :: 0 <= i < |r| ==>
      r[i] == if points[i].id == id && points[i].configId == configId then WithValues(points[i], v) else points[i]
  {
    seq(|points|, i requires 0 <= i < |points| =>
      if points[i].id == id && points[i].configId == configId then WithValues(points[i], v) else points[i])
  }

  /** `UPDATE peg_points SET price=?, qty=? WHERE id=?` */
  function UpdateLive(points: seq<PointRow>, id: int, price: real, qty: int): (r: seq<PointRow>)
    ensures |r| == |points|
    ensures forall i :: 0 <= i < |r| ==>
      r[i] == if points[i].id == id then points[i].(price := price, qty := qty) else points[i]
  {
    seq(|points|, i requires 0 <= i < |points| =>
      if points[i].id == id then points[i].(price := price, qty := qty) else points[i])
  }

  // ---------------------------------------------------------------------------
  // Point history, unique on (peg_point_id, day_date)

  predicate HistoryKey(h: HistoryRow, pointId: int, day: string) {
    h.pointId == pointId && h.day == day
  }

  /** The history row of a point on a day, if any. */
  function FindHistory(history: seq<HistoryRow>, pointId: int, day: string): (r: Option<HistoryRow>)
    ensures r.None? <==> forall i :: 0 <= i < |history| ==> !HistoryKey(history[i], pointId, day)
    ensures r.Some? ==> r.value in history && HistoryKey(r.value, pointId, day)
  {
    if history == [] then None
    else if HistoryKey(history[0], pointId, day) then Some(history[0])
    else FindHistory(history[1..], pointId, day)
  }

  /** The history row of (`k`, `day`) holds `price` and `qty`. */
  predicate RecordedOn(history: seq<HistoryRow>, k: nat, day: string, price: real, qty: int) {
    FindHistory(history, k, day) == Some(HistoryRow(k, day, price, qty))
  }

  /** Every row holding `row`'s key replaced by `row`. */
  function ReplaceKey(history: seq<HistoryRow>, row: HistoryRow): (r: seq<HistoryRow>)
    ensures |r| == |history|
    ensures forall i :: 0 <= i < |r| ==> r[i] == if HistoryKey(history[i], row.pointId, row.day) then row else history[i]
  {
    if history == [] then []
    else [if HistoryKey(history[0], row.pointId, row.day) then row else history[0]] + ReplaceKey(history[1..], row)
  }

  /** `INSERT INTO peg_point_history ... ON DUPLICATE KEY UPDATE price=VALUES(price), qty=VALUES(qty)` */
  function UpsertHistoryRows(history: seq<HistoryRow>, row: HistoryRow): (r: seq<HistoryRow>)
    ensures forall i :: 0 <= i < |r| ==> r[i] == row || r[i] in history
    ensures row in r
  {
    if FindHistory(history, row.pointId, row.day).Some? then ReplaceKey(history, row) else history + [row]
  }

  predicate UniqueHistoryKeys(history: seq<HistoryRow>) {
    forall i, j :: 0 <= i < j < |history| ==> !HistoryKey(history[j], history[i].pointId, history[i].day)
  }

  /** After an upsert the key holds exactly the new row; every other key keeps its row. */
  lemma UpsertHistoryLookup(history: seq<HistoryRow>, row: HistoryRow, pointId: int, day: string)
    ensures FindHistory(UpsertHistoryRows(history, row), pointId, day) ==
      if HistoryKey(row, pointId, day) then Some(row) else FindHistory(history, pointId, day)
  {
    if FindHistory(history, row.pointId, row.day).Some? {
      ReplaceKeyLookup(history, row, pointId, day);
    } else {
      AppendLookup(history, row, pointId, day);
    }
  }

  lemma {:induction false} ReplaceKeyLookup(history: seq<HistoryRow>, row: HistoryRow, pointId: int, day: string)
    ensures FindHistory(ReplaceKey(history, row), pointId, day) ==
      if HistoryKey(row, pointId, day)
      then (if FindHistory(history, pointId, day).Some? then Some(row) else None)
      else FindHistory(history, pointId, day)
  {
    if history != [] {
      ReplaceKeyLookup(history[1..], row, pointId, day);
    }
  }

  lemma {:induction false} AppendLookup(history: seq<HistoryRow>, row: HistoryRow, pointId: int, day: string)
    requires FindHistory(history, row.pointId, row.day).None?
    ensures FindHistory(history + [row], pointId, day) ==
      if HistoryKey(row, pointId, day) then Some(row) else FindHistory(history, pointId, day)
  {
    if history != [] {
      assert (history + [row])[1..] == history[1..] + [row];
      AppendLookup(history[1..], row, pointId, day);
    } else {
      assert history + [row] == [row];
    }
  }

  /** The upsert never creates a second row for a key. */
  lemma UpsertKeepsKeysUnique(history: seq<HistoryRow>, row: HistoryRow)
    requires UniqueHistoryKeys(history)
    ensures UniqueHistoryKeys(UpsertHistoryRows(history, row))
  {
  }

  /** `SELECT MAX(day_date) FROM peg_point_history` under the text order of days. */
  function MaxDay(history: seq<HistoryRow>): (r: Option<string>)
    ensures r.None? <==> history == []
    ensures r.Some? ==> exists i :: 0 <= i < |history| && history[i].day == r.value
    ensures r.Some? ==> forall i :: 0 <= i < |history| ==> Lex.Le(history[i].day, r.value)
  {
    if history == [] then None
    else
      var rest := MaxDay(history[1..]);
      if rest.None? then
        Lex.Reflexive(history[0].day);
        Some(history[0].day)
      else if Lex.Le(history[0].day, rest.value) then
        assert history[1..][0] == history[1];
        assert forall i :: 1 <= i < |history| ==> history[i] == history[1..][i - 1];
        Some(rest.value)
      else
        Lex.Total(history[0].day, rest.value);
        Lex.Reflexive(history[0].day);
        assert forall i :: 1 <= i < |history| ==> history[i] == history[1..][i - 1];
        forall i | 1 <= i < |history| ensures Lex.Le(history[i].day, history[0].day) {
          Lex.Transitive(history[i].day, rest.value, history[0].day);
        }
        Some(history[0].day)
  }

  // ---------------------------------------------------------------------------
  // Snapshots, unique on (config_id, saved_at)

  predicate SnapshotKey(s: SnapshotRow, configId: Option<nat>, savedAt: string) {
    s.configId == configId && s.savedAt == savedAt
  }

  function FindSnapshot(snapshots: seq<SnapshotRow>, configId: Option<nat>, savedAt: string): (r: Option<SnapshotRow>)
    ensures r.None? <==> forall i :: 0 <= i < |snapshots| ==> !SnapshotKey(snapshots[i], configId, savedAt)
    ensures r.Some? ==> r.value in snapshots && SnapshotKey(r.value, configId, savedAt)
  {
    if snapshots == [] then None
    else if SnapshotKey(snapshots[0], configId, savedAt) then Some(snapshots[0])
    else FindSnapshot(snapshots[1..], configId, savedAt)
  }

  function SnapshotById(snapshots: seq<SnapshotRow>, id: int): (r: Option<SnapshotRow>)
    ensures r.None? <==> forall i :: 0 <= i < |snapshots| ==> snapshots[i].id != id
    ensures r.Some? ==> r.value in snapshots && r.value.id == id
  {
    if snapshots == [] then None
    else if snapshots[0].id == id then Some(snapshots[0])
    else SnapshotById(snapshots[1..], id)
  }

  /** The columns an `ON DUPLICATE KEY UPDATE` of a snapshot rewrites: name, base, adjusted,
      inventory mode, saved_at, and the margin unless `keepMargin`. */
  function Refresh(old_: SnapshotRow, new_: SnapshotRow, keepMargin: bool): SnapshotRow {
    old_.(name := new_.name, base := new_.base, adjusted := new_.adjusted,
          margin := if keepMargin then old_.margin else new_.margin,
          mode := new_.mode, savedAt := new_.savedAt)
  }

  /** Insert `row`, or refresh the row holding its key. */
  function UpsertSnapshotRows(snapshots: seq<SnapshotRow>, row: SnapshotRow, keepMargin: bool): (r: seq<SnapshotRow>)
    ensures FindSnapshot(snapshots, row.configId, row.savedAt).None? ==> r == snapshots + [row]
    ensures FindSnapshot(snapshots, row.configId, row.savedAt).Some? ==>
      |r| == |snapshots| &&
      forall i :: 0 <= i < |r| ==>
        r[i] == if SnapshotKey(snapshots[i], row.configId, row.savedAt) then Refresh(snapshots[i], row, keepMargin) else snapshots[i]
  {
    if FindSnapshot(snapshots, row.configId, row.savedAt).Some? then
      seq(|snapshots|, i requires 0 <= i < |snapshots| =>
        if SnapshotKey(snapshots[i], row.configId, row.savedAt) then Refresh(snapshots[i], row, keepMargin) else snapshots[i])
    else snapshots + [row]
  }

  predicate UniqueSnapshotKeys(snapshots: seq<SnapshotRow>) {
    forall i, j :: 0 <= i < j < |snapshots| ==> !SnapshotKey(snapshots[j], snapshots[i].configId, snapshots[i].savedAt)
  }

  // ---------------------------------------------------------------------------
  // The whole store

  datatype Tables = Tables(
    configs: seq<ConfigRow>,
    points: seq<PointRow>,
    history: seq<HistoryRow>,
    modifiers: seq<ModifierRow>,
    sales: seq<SaleRow>,
    snapshots: seq<SnapshotRow>,
    capacities: set<string>,
    nextId: nat)

  /** Auto-increment ids are positive and below the next id to hand out. */
  predicate IdsBelow(t: Tables) {
    && t.nextId >= 1
    && (forall i :: 0 <= i < |t.configs| ==> 1 <= t.configs[i].id < t.nextId)
    && (forall i :: 0 <= i < |t.points| ==> 1 <= t.points[i].id < t.nextId)
    && (forall i :: 0 <= i < |t.modifiers| ==> 1 <= t.modifiers[i].id < t.nextId)
    && (forall i :: 0 <= i < |t.sales| ==> 1 <= t.sales[i].id < t.nextId)
    && (forall i :: 0 <= i < |t.snapshots| ==> 1 <= t.snapshots[i].id < t.nextId)
  }

  /** Every history row names an existing point (the foreign key) and a well-formed day
      (the DATE column). */
  predicate HistoryWellFormed(t: Tables) {
    forall i :: 0 <= i < |t.history| ==>
      PointExists(t.points, t.history[i].pointId) && Days.IsDay(t.history[i].day)
  }

  /** The schema constraints. */
  predicate Valid(t: Tables) {
    && IdsBelow(t)
    && UniqueTriples(t.configs)
    && HistoryWellFormed(t)
    && UniqueHistoryKeys(t.history)
    && UniqueSnapshotKeys(t.snapshots)
  }

  function EmptyTables(): (t: Tables)
    ensures Valid(t)
  {
    Tables([], [], [], [], [], [], {}, 1)
  }
}
