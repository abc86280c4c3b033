/** The per-combo daily averages of `api/load_avg_peg_by_combo.php`: the history rows of
    points whose config has the capacity, from a cutoff day on, grouped by (day, interface,
    condition) into average prices, ordered by day, and then collected into one list of
    (date, price) per `lower(interface)|lower(condition)` key. */
module ComboAverages {
  import opened Wrappers
  import Text
  import Lex
  import Sorting
  import opened Schema

  /** A row of the join of history, points and configs. */
  datatype Match = Match(day: string, iface: string, cond: string, price: real)

  /** A `GROUP BY h.day_date, c.interface, c.condition_type` group. */
  datatype Cell = Cell(day: string, iface: string, cond: string)

  /** A row of the grouped query: the group and its `AVG(h.price)`. */
  datatype Group = Group(cell: Cell, avg: real)

  datatype DayPrice = DayPrice(date: string, price: real)

  datatype Averages = InvalidParams | Collected(data: map<string, seq<DayPrice>>)

  /** `isset($_GET['days']) ? (int)$_GET['days'] : 30` */
  function DaysParam(days: Option<int>): int { days.GetOr(30) }

  /** `JOIN peg_points p ON p.id = h.peg_point_id` */
  function PointById(points: seq<PointRow>, id: int): (r: Option<PointRow>)
    ensures r.None? <==> !PointExists(points, id)
    ensures r.Some? ==> r.value in points && r.value.id == id
  {
    if points == [] then None
    else if points[0].id == id then Some(points[0])
    else
      var r := PointById(points[1..], id);
      assert PointExists(points[1..], id) ==> PointExists(points, id) by {
        if PointExists(points[1..], id) {
          var i :| 0 <= i < |points[1..]| && points[1..][i].id == id;
          assert points[i + 1].id == id;
        }
      }
      r
  }

  /** The joined row of one history row: present when its point and that point's config
      exist, the config has the capacity, and the day is not before the cutoff. */
  function MatchOf(t: Tables, capacity: string, cutoff: string, h: HistoryRow): Option<Match> {
    match PointById(t.points, h.pointId)
    case None => None
    case Some(p) =>
      match ConfigById(t.configs, p.configId)
      case None => None
      case Some(c) =>
        if c.capacity == capacity && Lex.Le(cutoff, h.day) then Some(Match(h.day, c.iface, c.cond, h.price))
        else None
  }

  /** The `WHERE`-filtered join, in history order. */
  function Joined(t: Tables, capacity: string, cutoff: string, hs: seq<HistoryRow>): seq<Match>
    decreases |hs|
  {
    if hs == [] then []
    else
      var rest := Joined(t, capacity, cutoff, hs[1..]);
      match MatchOf(t, capacity, cutoff, hs[0])
      case None => rest
      case Some(m) => [m] + rest
  }

  function CellOf(m: Match): Cell { Cell(m.day, m.iface, m.cond) }

  /** How many joined rows fall in the group. */
  function Count(ms: seq<Match>, c: Cell): nat {
    if ms == [] then 0 else (if CellOf(ms[0]) == c then 1 else 0) + Count(ms[1..], c)
  }

  /** The sum of the prices of the joined rows in the group. */
  function Total(ms: seq<Match>, c: Cell): real {
    if ms == [] then 0.0 else (if CellOf(ms[0]) == c then ms[0].price else 0.0) + Total(ms[1..], c)
  }

  /** `AVG(h.price)` of the group. */
  function Mean(ms: seq<Match>, c: Cell): real {
    if Count(ms, c) == 0 then 0.0 else Total(ms, c) / Count(ms, c) as real
  }

  /** Each group of the joined rows once. */
  function Cells(ms: seq<Match>): seq<Cell> {
    if ms == [] then []
    else
      var rest := Cells(ms[1..]);
      if CellOf(ms[0]) in rest then rest else [CellOf(ms[0])] + rest
  }

  function GroupDay(g: Group): Sorting.Key { Sorting.Key(g.cell.day, 0) }

  /** The grouped rows before ordering. */
  function GroupRows(ms: seq<Match>): (r: seq<Group>)
    ensures |r| == |Cells(ms)|
    ensures forall i :: 0 <= i < |r| ==> r[i] == Group(Cells(ms)[i], Mean(ms, Cells(ms)[i]))
  {
    var cells := Cells(ms);
    seq(|cells|, i requires 0 <= i < |cells| => Group(cells[i], Mean(ms, cells[i])))
  }

  /** The grouped query, `ORDER BY h.day_date ASC`. */
  function Groups(ms: seq<Match>): seq<Group> {
    Sorting.SortBy(GroupRows(ms), GroupDay)
  }

  /** `strtolower($r['interface']) . '|' . strtolower($r['condition_type'])` */
  function ComboKey(iface: string, cond: string): string {
    Text.Lower(iface) + "|" + Text.Lower(cond)
  }

  function KeyOf(g: Group): string { ComboKey(g.cell.iface, g.cell.cond) }

  function EntryOf(g: Group): DayPrice { DayPrice(g.cell.day, g.avg) }

  /** The entries of the rows under key `k`, in row order. */
  function EntriesFor(rows: seq<Group>, k: string): seq<DayPrice>
    decreases |rows|
  {
    if rows == [] then []
    else
      var last := rows[|rows| - 1];
      EntriesFor(rows[..|rows| - 1], k) + if KeyOf(last) == k then [EntryOf(last)] else []
  }

  function KeySet(rows: seq<Group>): set<string> {
    set i | 0 <= i < |rows| :: KeyOf(rows[i])
  }

  /** The `$data` dictionary the loop builds: one list per key that occurs. */
  function ByKey(rows: seq<Group>): map<string, seq<DayPrice>> {
    map k | k in KeySet(rows) :: EntriesFor(rows, k)
  }

  /** The dates of the list never go down. */
  predicate AscendingDates(e: seq<DayPrice>) {
    forall i, j :: 0 <= i < j < |e| ==> Lex.Le(e[i].date, e[j].date)
  }

  /** No date occurs twice in the list. */
  predicate DistinctDates(e: seq<DayPrice>) {
    forall i, j :: 0 <= i < j < |e| ==> e[i].date != e[j].date
  }

  /** The endpoint; `cutoff` is `CURDATE() - INTERVAL days DAY`, read from the clock. */
  function LoadAverages(t: Tables, capacity: Option<string>, days: Option<int>, cutoff: string): (r: Averages)
    ensures r.InvalidParams? <==> capacity.None? || Text.PhpFalsy(capacity.value) || DaysParam(days) <= 0
  {
    if capacity.None? || Text.PhpFalsy(capacity.value) || DaysParam(days) <= 0 then InvalidParams
    else Collected(ByKey(Groups(Joined(t, capacity.value, cutoff, t.history))))
  }

  /** The `while ($r = $res->fetch_assoc())` loop: each row appended to the list of its key,
      the list created when the key is new. */
  method Collect(rows: seq<Group>) returns (data: map<string, seq<DayPrice>>)
    ensures data == ByKey(rows)
  {
    data := map[];
    var i := 0;
    assert rows[..0] == [];
    while i < |rows|
      invariant 0 <= i <= |rows|
      invariant data == ByKey(rows[..i])
    {
      var g := rows[i];
      var key := ComboKey(g.cell.iface, g.cell.cond);
      if key !in data {
        data := data[key := []];
      }
      data := data[key := data[key] + [DayPrice(g.cell.day, g.avg)]];
      ByKeyStep(rows, i);
      i := i + 1;
    }
    assert rows[..|rows|] == rows;
  }

  // ---------------------------------------------------------------------------
  // The dictionary

  /** A key with no row has no entries. */
  lemma {:induction false} EntriesForAbsent(rows: seq<Group>, k: string)
    requires k !in KeySet(rows)
    ensures EntriesFor(rows, k) == []
    decreases |rows|
  {
    if rows != [] {
      var p := rows[..|rows| - 1];
      assert KeySet(p) <= KeySet(rows) by {
        forall x | x in KeySet(p) ensures x in KeySet(rows) {
          var i :| 0 <= i < |p| && KeyOf(p[i]) == x;
          assert rows[i] == p[i];
        }
      }
      EntriesForAbsent(p, k);
      assert KeyOf(rows[|rows| - 1]) in KeySet(rows);
    }
  }

  lemma KeySetStep(rows: seq<Group>, i: nat)
    requires i < |rows|
    ensures KeySet(rows[..i + 1]) == KeySet(rows[..i]) + {KeyOf(rows[i])}
  {
    var p, q := rows[..i], rows[..i + 1];
    forall x | x in KeySet(q) ensures x in KeySet(p) + {KeyOf(rows[i])} {
      var j :| 0 <= j < |q| && KeyOf(q[j]) == x;
      if j < i { assert p[j] == q[j]; }
    }
    forall x | x in KeySet(p) ensures x in KeySet(q) {
      var j :| 0 <= j < |p| && KeyOf(p[j]) == x;
      assert q[j] == p[j];
    }
    assert KeyOf(q[i]) == KeyOf(rows[i]);
  }

  /** One more row appends its entry to the list of its key and changes no other list. */
  lemma ByKeyStep(rows: seq<Group>, i: nat)
    requires i < |rows|
    ensures var before := ByKey(rows[..i]);
      var key := KeyOf(rows[i]);
      ByKey(rows[..i + 1]) == before[key := (if key in before then before[key] else []) + [EntryOf(rows[i])]]
  {
    var p, q := rows[..i], rows[..i + 1];
    var g := rows[i];
    var key := KeyOf(g);
    assert q[..|q| - 1] == p && q[|q| - 1] == g;
    var before := ByKey(p);
    var after := before[key := (if key in before then before[key] else []) + [EntryOf(g)]];
    KeySetStep(rows, i);
    if key !in KeySet(p) {
      EntriesForAbsent(p, key);
    }
    forall k | k in KeySet(q) ensures ByKey(q)[k] == after[k] {
      assert EntriesFor(q, k) == EntriesFor(p, k) + if KeyOf(g) == k then [EntryOf(g)] else [];
    }
    assert ByKey(q) == after;
  }

  /** Every entry under key `k` is the entry of a row with that key. */
  lemma {:induction false} EntriesFrom(rows: seq<Group>, k: string, i: nat) returns (q: nat)
    requires i < |EntriesFor(rows, k)|
    ensures q < |rows| && KeyOf(rows[q]) == k && EntriesFor(rows, k)[i] == EntryOf(rows[q])
    decreases |rows|
  {
    var p := rows[..|rows| - 1];
    var g := rows[|rows| - 1];
    if i < |EntriesFor(p, k)| {
      q := EntriesFrom(p, k, i);
    } else {
      q := |rows| - 1;
    }
  }

  /** The entry of every row is in the list of its key. */
  lemma {:induction false} EntriesComplete(rows: seq<Group>, q: nat)
    requires q < |rows|
    ensures EntryOf(rows[q]) in EntriesFor(rows, KeyOf(rows[q]))
    decreases |rows|
  {
    var p := rows[..|rows| - 1];
    if q < |rows| - 1 {
      assert p[q] == rows[q];
      EntriesComplete(p, q);
    }
  }

  /** A property of the days of the rows under `k` holds of the dates of their entries. */
  lemma {:induction false} EntriesAll(rows: seq<Group>, k: string, ok: string -> bool)
    requires forall q :: 0 <= q < |rows| && KeyOf(rows[q]) == k ==> ok(rows[q].cell.day)
    ensures forall i :: 0 <= i < |EntriesFor(rows, k)| ==> ok(EntriesFor(rows, k)[i].date)
    decreases |rows|
  {
    if rows != [] {
      var p := rows[..|rows| - 1];
      assert forall q :: 0 <= q < |p| ==> p[q] == rows[q];
      EntriesAll(p, k, ok);
    }
  }

  /** Rows ordered by day give every list ascending dates. */
  lemma {:induction false} EntriesAscending(rows: seq<Group>, k: string)
    requires Sorting.SortedBy(rows, GroupDay)
    ensures AscendingDates(EntriesFor(rows, k))
    decreases |rows|
  {
    if rows != [] {
      var p := rows[..|rows| - 1];
      var g := rows[|rows| - 1];
      assert forall q :: 0 <= q < |p| ==> p[q] == rows[q];
      EntriesAscending(p, k);
      assert forall i, j :: 0 <= i < j < |EntriesFor(p, k)| ==> Lex.Le(EntriesFor(p, k)[i].date, EntriesFor(p, k)[j].date);
      forall q | 0 <= q < |p| ensures Lex.Le(p[q].cell.day, g.cell.day) {
        assert Sorting.KeyLe(GroupDay(rows[q]), GroupDay(g));
        Lex.Reflexive(g.cell.day);
      }
      EntriesAll(p, k, d => Lex.Le(d, g.cell.day));
      var e, e' := EntriesFor(rows, k), EntriesFor(p, k);
      assert e == e' + if KeyOf(g) == k then [EntryOf(g)] else [];
      forall i, j | 0 <= i < j < |e| ensures Lex.Le(e[i].date, e[j].date) {
        if j < |e'| {
          assert e[i] == e'[i] && e[j] == e'[j];
          assert Lex.Le(e'[i].date, e'[j].date);
        } else {
          assert e[i] == e'[i] && e[j] == EntryOf(g);
          assert Lex.Le(e'[i].date, g.cell.day);
        }
      }
    }
  }

  /** Rows with one key on different days give every list distinct dates. */
  lemma {:induction false} EntriesDistinctDates(rows: seq<Group>, k: string)
    requires forall p, q :: 0 <= p < q < |rows| && KeyOf(rows[p]) == k && KeyOf(rows[q]) == k ==>
      rows[p].cell.day != rows[q].cell.day
    ensures DistinctDates(EntriesFor(rows, k))
    decreases |rows|
  {
    if rows != [] {
      var p := rows[..|rows| - 1];
      var g := rows[|rows| - 1];
      assert forall q :: 0 <= q < |p| ==> p[q] == rows[q];
      EntriesDistinctDates(p, k);
      assert forall i, j :: 0 <= i < j < |EntriesFor(p, k)| ==> EntriesFor(p, k)[i].date != EntriesFor(p, k)[j].date;
      var e, e' := EntriesFor(rows, k), EntriesFor(p, k);
      assert e == e' + if KeyOf(g) == k then [EntryOf(g)] else [];
      if KeyOf(g) == k {
        EntriesAll(p, k, d => d != g.cell.day);
      }
      forall i, j | 0 <= i < j < |e| ensures e[i].date != e[j].date {
        if j < |e'| {
          assert e[i] == e'[i] && e[j] == e'[j];
        } else {
          assert e[i] == e'[i] && e[j] == EntryOf(g);
        }
      }
    }
  }

  // ---------------------------------------------------------------------------
  // The groups

  lemma {:induction false} CellsEmpty(ms: seq<Match>)
    ensures Cells(ms) == [] <==> ms == []
  {
    if ms != [] {
      assert CellOf(ms[0]) in Cells(ms);
    }
  }

  /** A group is listed exactly when some joined row falls in it. */
  lemma {:induction false} CellsExact(ms: seq<Match>, c: Cell)
    ensures c in Cells(ms) <==> Count(ms, c) > 0
  {
    if ms != [] {
      CellsExact(ms[1..], c);
    }
  }

  lemma {:induction false} CellsDistinct(ms: seq<Match>)
    ensures Sorting.Distinct(Cells(ms))
  {
    if ms != [] {
      CellsDistinct(ms[1..]);
    }
  }

  /** A joined row in the group, when the group has one. */
  lemma {:induction false} CountWitness(ms: seq<Match>, c: Cell) returns (i: nat)
    requires Count(ms, c) > 0
    ensures i < |ms| && CellOf(ms[i]) == c
  {
    if CellOf(ms[0]) == c {
      i := 0;
    } else {
      var j := CountWitness(ms[1..], c);
      i := j + 1;
    }
  }

  lemma {:induction false} CountPositive(ms: seq<Match>, i: nat)
    requires i < |ms|
    ensures Count(ms, CellOf(ms[i])) > 0
  {
    if i > 0 {
      CountPositive(ms[1..], i - 1);
    }
  }

  /** The ordered groups: by ascending day, each once, and each with the mean of the joined
      rows that fall in it, of which there is at least one. */
  lemma GroupsFacts(ms: seq<Match>)
    ensures Sorting.SortedBy(Groups(ms), GroupDay)
    ensures |Groups(ms)| == |Cells(ms)|
    ensures forall g :: g in Groups(ms) <==> Count(ms, g.cell) > 0 && g.avg == Mean(ms, g.cell)
    ensures forall i, j :: 0 <= i < j < |Groups(ms)| ==> Groups(ms)[i].cell != Groups(ms)[j].cell
  {
    var rows := GroupRows(ms);
    var gs := Groups(ms);
    Sorting.SortBySorted(rows, GroupDay);
    CellsDistinct(ms);
    forall g ensures g in gs <==> Count(ms, g.cell) > 0 && g.avg == Mean(ms, g.cell) {
      assert g in gs <==> g in multiset(rows);
      CellsExact(ms, g.cell);
      if Count(ms, g.cell) > 0 && g.avg == Mean(ms, g.cell) {
        var i :| 0 <= i < |Cells(ms)| && Cells(ms)[i] == g.cell;
        assert rows[i] == g;
      }
    }
    assert Sorting.Distinct(rows) by {
      forall i, j | 0 <= i < j < |rows| ensures rows[i] != rows[j] {
        assert rows[i].cell == Cells(ms)[i] && rows[j].cell == Cells(ms)[j];
      }
    }
    Sorting.PermutationDistinct(gs, rows);
    forall i, j | 0 <= i < j < |gs| ensures gs[i].cell != gs[j].cell {
      assert gs[i] in gs && gs[j] in gs;
    }
  }

  // ---------------------------------------------------------------------------
  // The join

  /** The configs of the store never give two different combos the same key. */
  predicate ComboKeysDistinct(configs: seq<ConfigRow>) {
    forall a, b :: a in configs && b in configs && ComboKey(a.iface, a.cond) == ComboKey(b.iface, b.cond) ==>
      a.iface == b.iface && a.cond == b.cond
  }

  /** Every joined row carries the combo of a config with the capacity, and is the joined
      row of a history row. */
  lemma {:induction false} JoinedFrom(t: Tables, capacity: string, cutoff: string, hs: seq<HistoryRow>, i: nat)
    returns (c: ConfigRow, h: HistoryRow)
    requires i < |Joined(t, capacity, cutoff, hs)|
    ensures var m := Joined(t, capacity, cutoff, hs)[i];
      c in t.configs && c.capacity == capacity && c.iface == m.iface && c.cond == m.cond
      && h in hs && MatchOf(t, capacity, cutoff, h) == Some(m)
    decreases |hs|
  {
    var rest := Joined(t, capacity, cutoff, hs[1..]);
    var m0 := MatchOf(t, capacity, cutoff, hs[0]);
    if m0.Some? && i == 0 {
      c := ConfigById(t.configs, PointById(t.points, hs[0].pointId).value.configId).value;
      h := hs[0];
    } else {
      var j := if m0.Some? then i - 1 else i;
      c, h := JoinedFrom(t, capacity, cutoff, hs[1..], j);
    }
  }

  /** Every history row that joins gives a joined row. */
  lemma {:induction false} JoinedComplete(t: Tables, capacity: string, cutoff: string, hs: seq<HistoryRow>, j: nat)
    requires j < |hs| && MatchOf(t, capacity, cutoff, hs[j]).Some?
    ensures MatchOf(t, capacity, cutoff, hs[j]).value in Joined(t, capacity, cutoff, hs)
    decreases |hs|
  {
    if j > 0 {
      JoinedComplete(t, capacity, cutoff, hs[1..], j - 1);
    }
  }

  lemma {:induction false} JoinedEmpty(t: Tables, capacity: string, cutoff: string, hs: seq<HistoryRow>)
    ensures Joined(t, capacity, cutoff, hs) == [] <==>
      forall j :: 0 <= j < |hs| ==> MatchOf(t, capacity, cutoff, hs[j]).None?
    decreases |hs|
  {
    if hs != [] {
      JoinedEmpty(t, capacity, cutoff, hs[1..]);
      assert forall j :: 0 < j < |hs| ==> hs[j] == hs[1..][j - 1];
    }
  }

  // ---------------------------------------------------------------------------
  // The endpoint's promises

  function Matches(t: Tables, capacity: Option<string>, cutoff: string): seq<Match>
    requires capacity.Some?
  {
    Joined(t, capacity.value, cutoff, t.history)
  }

  /** No history row that joins gives an empty dictionary, not an error. */
  lemma EmptyWithoutMatches(t: Tables, capacity: Option<string>, days: Option<int>, cutoff: string)
    requires LoadAverages(t, capacity, days, cutoff).Collected?
    ensures LoadAverages(t, capacity, days, cutoff).data == map[] <==>
      forall j :: 0 <= j < |t.history| ==> MatchOf(t, capacity.value, cutoff, t.history[j]).None?
  {
    var ms := Matches(t, capacity, cutoff);
    var gs := Groups(ms);
    JoinedEmpty(t, capacity.value, cutoff, t.history);
    GroupsFacts(ms);
    CellsEmpty(ms);
    if gs != [] {
      assert KeyOf(gs[0]) in ByKey(gs);
    }
  }

  /** Each list is ascending by date. */
  lemma AveragesAscending(t: Tables, capacity: Option<string>, days: Option<int>, cutoff: string, k: string)
    requires LoadAverages(t, capacity, days, cutoff).Collected?
    requires k in LoadAverages(t, capacity, days, cutoff).data
    ensures AscendingDates(LoadAverages(t, capacity, days, cutoff).data[k])
  {
    var gs := Groups(Matches(t, capacity, cutoff));
    GroupsFacts(Matches(t, capacity, cutoff));
    EntriesAscending(gs, k);
  }

  /** When no two combos of the store share a key, each list holds one entry per date. */
  lemma AveragesOnePerDate(t: Tables, capacity: Option<string>, days: Option<int>, cutoff: string, k: string)
    requires LoadAverages(t, capacity, days, cutoff).Collected? && ComboKeysDistinct(t.configs)
    requires k in LoadAverages(t, capacity, days, cutoff).data
    ensures DistinctDates(LoadAverages(t, capacity, days, cutoff).data[k])
  {
    var ms := Matches(t, capacity, cutoff);
    var gs := Groups(ms);
    GroupsFacts(ms);
    forall p, q | 0 <= p < q < |gs| && KeyOf(gs[p]) == k && KeyOf(gs[q]) == k
      ensures gs[p].cell.day != gs[q].cell.day
    {
      SameKeyOtherDay(t, capacity, cutoff, p, q);
    }
    EntriesDistinctDates(gs, k);
  }

  /** A group's combo is that of a config in the store. */
  lemma GroupCombo(t: Tables, capacity: Option<string>, cutoff: string, g: Group) returns (c: ConfigRow)
    requires capacity.Some? && g in Groups(Matches(t, capacity, cutoff))
    ensures c in t.configs && c.iface == g.cell.iface && c.cond == g.cell.cond
  {
    var ms := Matches(t, capacity, cutoff);
    GroupsFacts(ms);
    var i := CountWitness(ms, g.cell);
    var h;
    c, h := JoinedFrom(t, capacity.value, cutoff, t.history, i);
  }

  /** Two groups under one key are on different days, when keys tell combos apart. */
  lemma SameKeyOtherDay(t: Tables, capacity: Option<string>, cutoff: string, p: nat, q: nat)
    requires capacity.Some? && ComboKeysDistinct(t.configs)
    requires var gs := Groups(Matches(t, capacity, cutoff));
      p < q < |gs| && KeyOf(gs[p]) == KeyOf(gs[q])
    ensures var gs := Groups(Matches(t, capacity, cutoff));
      gs[p].cell.day != gs[q].cell.day
  {
    var gs := Groups(Matches(t, capacity, cutoff));
    GroupsFacts(Matches(t, capacity, cutoff));
    var a := GroupCombo(t, capacity, cutoff, gs[p]);
    var b := GroupCombo(t, capacity, cutoff, gs[q]);
    assert gs[p].cell != gs[q].cell;
  }

  /** Every entry under a key is the mean price of the joined rows of one day and combo with
      that key, and there is at least one such row. */
  lemma AverageIsMean(t: Tables, capacity: Option<string>, days: Option<int>, cutoff: string, k: string, i: nat)
    requires LoadAverages(t, capacity, days, cutoff).Collected?
    requires k in LoadAverages(t, capacity, days, cutoff).data && i < |LoadAverages(t, capacity, days, cutoff).data[k]|
    ensures var ms := Matches(t, capacity, cutoff);
      exists j :: 0 <= j < |ms| && ComboKey(ms[j].iface, ms[j].cond) == k
        && LoadAverages(t, capacity, days, cutoff).data[k][i] == DayPrice(ms[j].day, Mean(ms, CellOf(ms[j])))
  {
    var ms := Matches(t, capacity, cutoff);
    var gs := Groups(ms);
    var q := EntriesFrom(gs, k, i);
    GroupsFacts(ms);
    assert gs[q] in gs;
    var j := CountWitness(ms, gs[q].cell);
    assert CellOf(ms[j]) == gs[q].cell;
  }

  /** Every history row that joins is counted: its key is present and its list holds the
      mean of its day and combo. */
  lemma AveragesComplete(t: Tables, capacity: Option<string>, days: Option<int>, cutoff: string, j: nat)
    requires LoadAverages(t, capacity, days, cutoff).Collected?
    requires j < |t.history| && MatchOf(t, capacity.value, cutoff, t.history[j]).Some?
    ensures var m := MatchOf(t, capacity.value, cutoff, t.history[j]).value;
      var data := LoadAverages(t, capacity, days, cutoff).data;
      ComboKey(m.iface, m.cond) in data
      && DayPrice(m.day, Mean(Matches(t, capacity, cutoff), CellOf(m))) in data[ComboKey(m.iface, m.cond)]
  {
    var ms := Matches(t, capacity, cutoff);
    var m := MatchOf(t, capacity.value, cutoff, t.history[j]).value;
    var gs := Groups(ms);
    JoinedComplete(t, capacity.value, cutoff, t.history, j);
    var p :| 0 <= p < |ms| && ms[p] == m;
    CountPositive(ms, p);
    GroupsFacts(ms);
    var g := Group(CellOf(m), Mean(ms, CellOf(m)));
    assert g in gs;
    var q :| 0 <= q < |gs| && gs[q] == g;
    EntriesComplete(gs, q);
    assert KeyOf(g) in KeySet(gs);
  }
}
