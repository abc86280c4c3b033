/** The read endpoints of the newer schema as functions of the tables: nothing they compute
    can change a table, and each error or not-found answer is a constructor of its own. */
module Reads {
  import opened Wrappers
  import Text
  import Lex
  import Sorting
  import opened Schema
  import Writes
  import Legacy

  function PointId(p: PointRow): int { p.id }
  function ModifierId(m: ModifierRow): int { m.id }
  function SaleId(s: SaleRow): int { s.id }

  /** `ORDER BY id ASC`: the same rows, by ascending id. */
  function ById<T(==)>(s: seq<T>, id: T -> int): (r: seq<T>)
    ensures multiset(r) == multiset(s)
    ensures forall i, j :: 0 <= i < j < |r| ==> id(r[i]) <= id(r[j])
  {
    var r := Sorting.SortBy(s, (x: T) => Sorting.Key("", id(x)));
    Sorting.SortBySorted(s, (x: T) => Sorting.Key("", id(x)));
    assert forall i, j :: 0 <= i < j < |r| ==> Sorting.KeyLe(Sorting.Key("", id(r[i])), Sorting.Key("", id(r[j])));
    r
  }

  /** The rows of config `c`, by ascending id: exactly those rows. */
  function OwnedById<T(==)>(s: seq<T>, owner: T -> int, id: T -> int, c: int): (r: seq<T>)
    ensures forall i :: 0 <= i < |r| ==> r[i] in s && owner(r[i]) == c
    ensures forall i :: 0 <= i < |s| && owner(s[i]) == c ==> s[i] in r
    ensures forall i, j :: 0 <= i < j < |r| ==> id(r[i]) <= id(r[j])
  {
    var sel := Select(s, owner, c);
    var r := ById(sel, id);
    assert forall i :: 0 <= i < |r| ==> r[i] in multiset(sel) by {
      assert forall i :: 0 <= i < |r| ==> r[i] in multiset(r);
    }
    assert forall i :: 0 <= i < |s| && owner(s[i]) == c ==> s[i] in multiset(r) by {
      assert forall i :: 0 <= i < |s| && owner(s[i]) == c ==> s[i] in multiset(sel);
    }
    r
  }

  /** `SELECT ... FROM peg_points WHERE config_id = ? ORDER BY id ASC` */
  function PointsById(points: seq<PointRow>, c: int): (r: seq<PointRow>)
    ensures forall i :: 0 <= i < |r| ==> r[i] in points && r[i].configId == c
    ensures forall i :: 0 <= i < |points| && points[i].configId == c ==> points[i] in r
    ensures forall i, j :: 0 <= i < j < |r| ==> r[i].id <= r[j].id
  {
    var r := OwnedById(points, PointOwner, PointId, c);
    assert forall i :: 0 <= i < |points| && points[i].configId == c ==> PointOwner(points[i]) == c;
    r
  }

  /** `SELECT ... FROM peg_modifiers WHERE config_id = ? ORDER BY id ASC` */
  function ModifiersById(modifiers: seq<ModifierRow>, c: int): (r: seq<ModifierRow>)
    ensures forall i :: 0 <= i < |r| ==> r[i] in modifiers && r[i].configId == c
    ensures forall i :: 0 <= i < |modifiers| && modifiers[i].configId == c ==> modifiers[i] in r
    ensures forall i, j :: 0 <= i < j < |r| ==> r[i].id <= r[j].id
  {
    var r := OwnedById(modifiers, ModifierOwner, ModifierId, c);
    assert forall i :: 0 <= i < |modifiers| && modifiers[i].configId == c ==> ModifierOwner(modifiers[i]) == c;
    r
  }

  /** `SELECT ... FROM sales_data WHERE config_id = ? ORDER BY id ASC` */
  function SalesById(sales: seq<SaleRow>, c: int): (r: seq<SaleRow>)
    ensures forall i :: 0 <= i < |r| ==> r[i] in sales && r[i].configId == c
    ensures forall i :: 0 <= i < |sales| && sales[i].configId == c ==> sales[i] in r
    ensures forall i, j :: 0 <= i < j < |r| ==> r[i].id <= r[j].id
  {
    var r := OwnedById(sales, SaleOwner, SaleId, c);
    assert forall i :: 0 <= i < |sales| && sales[i].configId == c ==> SaleOwner(sales[i]) == c;
    r
  }

  /** `SELECT ... FROM peg_points WHERE config_id = ? ORDER BY created_at ASC`, creation
      order being table order. */
  function PointsInOrder(points: seq<PointRow>, c: int): (r: seq<PointRow>)
    ensures forall i :: 0 <= i < |r| ==> r[i] in points && r[i].configId == c
    ensures forall i :: 0 <= i < |points| && points[i].configId == c ==> points[i] in r
  {
    var r := Select(points, PointOwner, c);
    assert forall i :: 0 <= i < |points| && points[i].configId == c ==> PointOwner(points[i]) == c;
    r
  }

  // ---------------------------------------------------------------------------
  // api/load_peg_by_date.php

  /** A row of the history join: the point's columns with the day's price and qty. */
  datatype DatedPoint = DatedPoint(pointId: nat, caption: string, channel: string, url: string, price: real, qty: int)

  /** A row of the structure query: no price column. */
  datatype PlainPoint = PlainPoint(pointId: nat, caption: string, channel: string, url: string, qty: int)

  datatype DateLoad =
    | InvalidParams
    | FromHistory(priced: seq<DatedPoint>, usedDate: string)
    | FromStructure(structure: seq<PlainPoint>)
    | NothingStored

  function Dated(p: PointRow, h: HistoryRow): DatedPoint {
    DatedPoint(p.id, p.caption, p.channel, p.url, h.price, h.qty)
  }

  function Plain(p: PointRow): PlainPoint {
    PlainPoint(p.id, p.caption, p.channel, p.url, p.qty)
  }

  /** Point `p` has a history row on `day` and `d` is their joined row. */
  predicate PricedAt(p: PointRow, history: seq<HistoryRow>, day: string, d: DatedPoint) {
    FindHistory(history, p.id, day).Some? && d == Dated(p, FindHistory(history, p.id, day).value)
  }

  /** The history join on `day`, in the order of `points`. */
  function PricedOn(points: seq<PointRow>, history: seq<HistoryRow>, day: string): (r: seq<DatedPoint>)
    ensures |r| <= |points|
  {
    if points == [] then []
    else
      var rest := PricedOn(points[1..], history, day);
      match FindHistory(history, points[0].id, day)
      case None => rest
      case Some(h) => [Dated(points[0], h)] + rest
  }

  lemma {:induction false} PricedOnEmpty(points: seq<PointRow>, history: seq<HistoryRow>, day: string)
    ensures PricedOn(points, history, day) == [] <==> forall j :: 0 <= j < |points| ==> FindHistory(history, points[j].id, day).None?
  {
    if points != [] {
      PricedOnEmpty(points[1..], history, day);
      assert forall j :: 1 <= j < |points| ==> points[j] == points[1..][j - 1];
    }
  }

  /** Row `d` of a join over `points` is that of one of them and its history row on `day`. */
  ghost predicate JoinedFrom(points: seq<PointRow>, history: seq<HistoryRow>, day: string, d: DatedPoint) {
    exists j :: 0 <= j < |points| && PricedAt(points[j], history, day, d)
  }

  /** Every joined row is that of one of the points and its history row on `day`. */
  lemma {:induction false} PricedOnFrom(points: seq<PointRow>, history: seq<HistoryRow>, day: string)
    ensures forall d :: d in PricedOn(points, history, day) ==> JoinedFrom(points, history, day, d)
  {
    if points != [] {
      PricedOnFrom(points[1..], history, day);
      forall d | d in PricedOn(points[1..], history, day) ensures JoinedFrom(points, history, day, d) {
        var j :| 0 <= j < |points[1..]| && PricedAt(points[1..][j], history, day, d);
        assert points[1..][j] == points[j + 1];
      }
      if FindHistory(history, points[0].id, day).Some? {
        assert PricedAt(points[0], history, day, Dated(points[0], FindHistory(history, points[0].id, day).value));
      }
    }
  }

  predicate AscendingPoints(r: seq<DatedPoint>) {
    forall i, j :: 0 <= i < j < |r| ==> r[i].pointId <= r[j].pointId
  }

  /** The join keeps the order of the points. */
  lemma {:induction false} PricedOnAscending(points: seq<PointRow>, history: seq<HistoryRow>, day: string)
    requires forall i, j :: 0 <= i < j < |points| ==> points[i].id <= points[j].id
    ensures AscendingPoints(PricedOn(points, history, day))
  {
    if points != [] {
      var rest := PricedOn(points[1..], history, day);
      PricedOnAscending(points[1..], history, day);
      PricedOnFrom(points[1..], history, day);
      forall i | 0 <= i < |rest| ensures points[0].id <= rest[i].pointId {
        assert JoinedFrom(points[1..], history, day, rest[i]);
        var j :| 0 <= j < |points[1..]| && PricedAt(points[1..][j], history, day, rest[i]);
        assert points[1..][j] == points[j + 1];
      }
      var h := FindHistory(history, points[0].id, day);
      if h.Some? {
        var r := [Dated(points[0], h.value)] + rest;
        assert PricedOn(points, history, day) == r;
        forall i, j | 0 <= i < j < |r| ensures r[i].pointId <= r[j].pointId {
          assert r[j] == rest[j - 1];
          if i > 0 {
            assert r[i] == rest[i - 1];
          }
        }
      } else {
        assert PricedOn(points, history, day) == rest;
      }
    }
  }

  function Plains(points: seq<PointRow>): (r: seq<PlainPoint>)
    ensures |r| == |points| && forall i :: 0 <= i < |r| ==> r[i] == Plain(points[i])
  {
    seq(|points|, i requires 0 <= i < |points| => Plain(points[i]))
  }

  /** `!$configId || !$date` fails: the id is non-zero and the date a truthy string. */
  predicate DateParams(configId: int, date: Option<string>) {
    configId != 0 && date.Some? && !Text.PhpFalsy(date.value)
  }

  /** `$configId` is `(int)($_GET['config_id'] ?? 0)`; `date` is `$_GET['date']`. */
  function LoadByDate(t: Tables, configId: int, date: Option<string>): (r: DateLoad)
    ensures r.InvalidParams? <==> !DateParams(configId, date)
    ensures r.FromHistory? ==> r.usedDate == date.value && r.priced != []
    ensures r.FromStructure? ==> r.structure != []
  {
    if !DateParams(configId, date) then InvalidParams
    else
      var own := PointsById(t.points, configId);
      var dated := PricedOn(own, t.history, date.value);
      if dated != [] then FromHistory(dated, date.value)
      else if own != [] then FromStructure(Plains(own))
      else NothingStored
  }

  /** A history row on `day` belongs to a point of config `c`. */
  ghost predicate HasHistoryOn(t: Tables, c: int, day: string) {
    exists k, j :: 0 <= k < |t.history| && 0 <= j < |t.points| &&
      t.history[k].day == day && t.history[k].pointId == t.points[j].id && t.points[j].configId == c
  }

  predicate HasPoints(t: Tables, c: int) {
    exists j :: 0 <= j < |t.points| && t.points[j].configId == c
  }

  /** The join over the config's points is empty exactly when no history row on `day`
      belongs to one of them. */
  lemma PricedOnConfig(t: Tables, c: int, day: string)
    ensures PricedOn(PointsById(t.points, c), t.history, day) == [] <==> !HasHistoryOn(t, c, day)
  {
    var own := PointsById(t.points, c);
    PricedOnEmpty(own, t.history, day);
    if HasHistoryOn(t, c, day) {
      HistoryOnJoins(t, c, day);
    } else {
      NoHistoryOnJoinsNothing(t, c, day);
    }
  }

  lemma HistoryOnJoins(t: Tables, c: int, day: string)
    requires HasHistoryOn(t, c, day)
    ensures exists m :: 0 <= m < |PointsById(t.points, c)| && FindHistory(t.history, PointsById(t.points, c)[m].id, day).Some?
  {
    var own := PointsById(t.points, c);
    var k, j :| 0 <= k < |t.history| && 0 <= j < |t.points| &&
      t.history[k].day == day && t.history[k].pointId == t.points[j].id && t.points[j].configId == c;
    var m :| 0 <= m < |own| && own[m] == t.points[j];
    assert HistoryKey(t.history[k], own[m].id, day);
  }

  lemma NoHistoryOnJoinsNothing(t: Tables, c: int, day: string)
    requires !HasHistoryOn(t, c, day)
    ensures forall m :: 0 <= m < |PointsById(t.points, c)| ==> FindHistory(t.history, PointsById(t.points, c)[m].id, day).None?
  {
    var own := PointsById(t.points, c);
    forall m | 0 <= m < |own| ensures FindHistory(t.history, own[m].id, day).None? {
      var j :| 0 <= j < |t.points| && t.points[j] == own[m];
    }
  }

  /** Which of the three answers a valid request gets: history when the date has rows for
      the config, else its structure when it has points, else nothing. */
  lemma LoadByDateSource(t: Tables, configId: int, date: Option<string>)
    requires DateParams(configId, date)
    ensures var r := LoadByDate(t, configId, date);
      && (r.FromHistory? <==> HasHistoryOn(t, configId, date.value))
      && (r.FromStructure? <==> !HasHistoryOn(t, configId, date.value) && HasPoints(t, configId))
      && (r.NothingStored? <==> !HasHistoryOn(t, configId, date.value) && !HasPoints(t, configId))
  {
    PricedOnConfig(t, configId, date.value);
    var own := PointsById(t.points, configId);
    if HasPoints(t, configId) {
      var j :| 0 <= j < |t.points| && t.points[j].configId == configId;
      assert t.points[j] in own;
    }
  }

  /** Row `d` joins a point of config `c` with that point's history row on `day`. */
  ghost predicate JoinedIn(t: Tables, c: int, day: string, d: DatedPoint) {
    exists k, j :: 0 <= k < |t.history| && 0 <= j < |t.points| &&
      t.points[j].configId == c && HistoryKey(t.history[k], t.points[j].id, day) &&
      d == Dated(t.points[j], t.history[k])
  }

  /** The rows of a history answer: joined rows of the config's points on that date; never a
      point of another config. */
  lemma LoadByDateHistoryRows(t: Tables, configId: int, date: Option<string>)
    requires LoadByDate(t, configId, date).FromHistory?
    ensures var r := LoadByDate(t, configId, date).priced;
      forall i :: 0 <= i < |r| ==> JoinedIn(t, configId, date.value, r[i])
  {
    var own := PointsById(t.points, configId);
    PricedOnFrom(own, t.history, date.value);
    forall d | d in PricedOn(own, t.history, date.value) ensures JoinedIn(t, configId, date.value, d) {
      JoinedOwn(t, configId, date.value, d);
    }
  }

  lemma JoinedOwn(t: Tables, c: int, day: string, d: DatedPoint)
    requires JoinedFrom(PointsById(t.points, c), t.history, day, d)
    ensures JoinedIn(t, c, day, d)
  {
    var own := PointsById(t.points, c);
    var m :| 0 <= m < |own| && PricedAt(own[m], t.history, day, d);
    var j :| 0 <= j < |t.points| && t.points[j] == own[m];
    var k :| 0 <= k < |t.history| && t.history[k] == FindHistory(t.history, own[m].id, day).value;
  }

  /** A history answer is ordered by ascending point id. */
  lemma LoadByDateHistoryOrder(t: Tables, configId: int, date: Option<string>)
    requires LoadByDate(t, configId, date).FromHistory?
    ensures AscendingPoints(LoadByDate(t, configId, date).priced)
  {
    var own := PointsById(t.points, configId);
    PricedOnAscending(own, t.history, date.value);
    assert LoadByDate(t, configId, date).priced == PricedOn(own, t.history, date.value);
  }

  /** A structure answer is by ascending id. */
  lemma LoadByDateStructureOrder(t: Tables, configId: int, date: Option<string>)
    requires LoadByDate(t, configId, date).FromStructure?
    ensures var r := LoadByDate(t, configId, date).structure;
      forall i, j :: 0 <= i < j < |r| ==> r[i].pointId <= r[j].pointId
  {
    assert LoadByDate(t, configId, date).structure == Plains(PointsById(t.points, configId));
  }

  /** The rows of a structure answer are points of the config without a price. */
  lemma LoadByDateStructureRows(t: Tables, configId: int, date: Option<string>)
    requires LoadByDate(t, configId, date).FromStructure?
    ensures var r := LoadByDate(t, configId, date).structure;
      forall i :: 0 <= i < |r| ==> exists j :: 0 <= j < |t.points| && t.points[j].configId == configId && r[i] == Plain(t.points[j])
  {
    var own := PointsById(t.points, configId);
    var r := LoadByDate(t, configId, date).structure;
    assert r == Plains(own);
    forall i | 0 <= i < |r|
      ensures exists j :: 0 <= j < |t.points| && t.points[j].configId == configId && r[i] == Plain(t.points[j])
    {
      assert own[i] in t.points && own[i].configId == configId;
      var j :| 0 <= j < |t.points| && t.points[j] == own[i];
      assert r[i] == Plain(t.points[j]);
    }
  }

  /** A structure answer lists every point of the config. */
  lemma LoadByDateStructureComplete(t: Tables, configId: int, date: Option<string>)
    requires LoadByDate(t, configId, date).FromStructure?
    ensures var r := LoadByDate(t, configId, date).structure;
      forall j :: 0 <= j < |t.points| && t.points[j].configId == configId ==> Plain(t.points[j]) in r
  {
    var own := PointsById(t.points, configId);
    forall j | 0 <= j < |t.points| && t.points[j].configId == configId ensures Plain(t.points[j]) in Plains(own) {
      var m :| 0 <= m < |own| && own[m] == t.points[j];
      assert Plains(own)[m] == Plain(t.points[j]);
    }
  }

  // ---------------------------------------------------------------------------
  // api/load_point_history.php

  datatype DayPrice = DayPrice(date: string, price: real)

  function HistoryPoint(h: HistoryRow): int { h.pointId }

  function DayKey(h: HistoryRow): Sorting.Key { Sorting.Key(h.day, 0) }

  function Entry(h: HistoryRow): DayPrice { DayPrice(h.day, h.price) }

  function Entries(rows: seq<HistoryRow>): (r: seq<DayPrice>)
    ensures |r| == |rows| && forall i :: 0 <= i < |r| ==> r[i] == Entry(rows[i])
  {
    seq(|rows|, i requires 0 <= i < |rows| => Entry(rows[i]))
  }

  /** `isset($_GET['days']) ? max(1, (int)$_GET['days']) : 30` */
  function DaysWindow(days: Option<int>): nat {
    if days.None? then 30 else if days.value < 1 then 1 else days.value
  }

  function Min(a: int, b: int): int { if a <= b then a else b }

  /** `ORDER BY day_date DESC`: the same rows, newest day first. */
  function NewestByDay(rows: seq<HistoryRow>): (r: seq<HistoryRow>)
    ensures |r| == |rows| && multiset(r) == multiset(rows)
  {
    Sorting.SortDescBySorted(rows, DayKey);
    Sorting.SortDescBy(rows, DayKey)
  }

  lemma NewestByDaySorted(rows: seq<HistoryRow>)
    ensures var r := NewestByDay(rows);
      forall i, j :: 0 <= i < j < |r| ==> Lex.Le(r[j].day, r[i].day)
  {
    var r := NewestByDay(rows);
    Sorting.SortDescBySorted(rows, DayKey);
    forall i, j | 0 <= i < j < |r| ensures Lex.Le(r[j].day, r[i].day) {
      DescendingLe(r, j, i);
    }
  }

  /** In a list sorted newest first, a later row is no later by day. */
  lemma DescendingLe(s: seq<HistoryRow>, p: nat, q: nat)
    requires Sorting.SortedDescBy(s, DayKey)
    requires q < p < |s|
    ensures Lex.Le(s[p].day, s[q].day)
  {
    assert Sorting.KeyLe(DayKey(s[p]), DayKey(s[q]));
    Lex.Reflexive(s[p].day);
  }

  /** The newest `n` of `rows` by day, oldest first. */
  function Series(rows: seq<HistoryRow>, n: nat): seq<DayPrice> {
    var newest := NewestByDay(rows);
    Entries(Sorting.Reverse(newest[..Min(n, |newest|)]))
  }

  lemma SeriesLength(rows: seq<HistoryRow>, n: nat)
    ensures |Series(rows, n)| == Min(n, |rows|)
  {
  }

  lemma SeriesFromRows(rows: seq<HistoryRow>, n: nat)
    ensures var r := Series(rows, n);
      forall i :: 0 <= i < |r| ==> exists j :: 0 <= j < |rows| && r[i] == Entry(rows[j])
  {
    var newest := NewestByDay(rows);
    var m := Min(n, |newest|);
    var rev := Sorting.Reverse(newest[..m]);
    var r := Entries(rev);
    Sorting.ReversedPrefixFrom(newest, rows, m);
    forall i | 0 <= i < |r| ensures exists j :: 0 <= j < |rows| && r[i] == Entry(rows[j]) {
      var j :| 0 <= j < |rows| && rows[j] == rev[i];
    }
  }

  lemma SeriesAscending(rows: seq<HistoryRow>, n: nat)
    ensures var r := Series(rows, n);
      forall i, j :: 0 <= i < j < |r| ==> Lex.Le(r[i].date, r[j].date)
  {
    var newest := NewestByDay(rows);
    NewestByDaySorted(rows);
    ReversedAscending(newest, Min(n, |newest|));
  }

  lemma ReversedAscending(newest: seq<HistoryRow>, m: nat)
    requires m <= |newest|
    requires forall i, j :: 0 <= i < j < |newest| ==> Lex.Le(newest[j].day, newest[i].day)
    ensures var r := Entries(Sorting.Reverse(newest[..m]));
      forall i, j :: 0 <= i < j < |r| ==> Lex.Le(r[i].date, r[j].date)
  {
    var r := Entries(Sorting.Reverse(newest[..m]));
    assert forall i :: 0 <= i < |r| ==> r[i].date == newest[m - 1 - i].day;
    forall i, j | 0 <= i < j < |r| ensures Lex.Le(r[i].date, r[j].date) {
      assert Lex.Le(newest[m - 1 - i].day, newest[m - 1 - j].day);
    }
  }

  /** Every row `Series` leaves out is no later than every row it keeps. */
  lemma SeriesKeepsNewest(rows: seq<HistoryRow>, n: nat)
    ensures var r := Series(rows, n);
      forall j :: 0 <= j < |rows| ==> Entry(rows[j]) in r || forall i :: 0 <= i < |r| ==> Lex.Le(rows[j].day, r[i].date)
  {
    var newest := NewestByDay(rows);
    var m := Min(n, |newest|);
    var r := Entries(Sorting.Reverse(newest[..m]));
    assert forall i :: 0 <= i < |r| ==> r[i] == Entry(newest[m - 1 - i]);
    forall j | 0 <= j < |rows| ensures Entry(rows[j]) in r || forall i :: 0 <= i < |r| ==> Lex.Le(rows[j].day, r[i].date) {
      Sorting.PermutedIndex(newest, rows, j);
      var p :| 0 <= p < |newest| && newest[p] == rows[j];
      if p < m {
        assert r[m - 1 - p] == Entry(rows[j]);
      } else {
        NewestByDaySorted(rows);
        forall i | 0 <= i < |r| ensures Lex.Le(rows[j].day, r[i].date) {
          assert Lex.Le(newest[p].day, newest[m - 1 - i].day);
        }
      }
    }
  }

  /** `$point_id` is `(int)$_GET['point_id']` when given; `None` answers 'Missing point_id'. */
  function PointHistory(t: Tables, pointId: Option<int>, days: Option<int>): (r: Option<seq<DayPrice>>)
    ensures r.None? <==> pointId.GetOr(0) == 0
  {
    var id := pointId.GetOr(0);
    if id == 0 then None
    else Some(Series(Select(t.history, HistoryPoint, id), DaysWindow(days)))
  }

  /** At most `days` rows, 30 by default and at least 1: all of the point's rows when it has
      fewer. */
  lemma PointHistoryLength(t: Tables, pointId: Option<int>, days: Option<int>)
    requires pointId.GetOr(0) != 0
    ensures var r := PointHistory(t, pointId, days).value;
      var n := if days.None? then 30 else if days.value < 1 then 1 else days.value;
      |r| == Min(n, |Select(t.history, HistoryPoint, pointId.value)|)
  {
    SeriesLength(Select(t.history, HistoryPoint, pointId.value), DaysWindow(days));
  }

  /** Only that point's rows, oldest first. */
  lemma PointHistoryRows(t: Tables, pointId: Option<int>, days: Option<int>)
    requires pointId.GetOr(0) != 0
    ensures var r := PointHistory(t, pointId, days).value;
      && (forall i :: 0 <= i < |r| ==> exists k :: 0 <= k < |t.history| && t.history[k].pointId == pointId.value && r[i] == Entry(t.history[k]))
      && (forall i, j :: 0 <= i < j < |r| ==> Lex.Le(r[i].date, r[j].date))
  {
    var id := pointId.value;
    var mine := Select(t.history, HistoryPoint, id);
    var r := Series(mine, DaysWindow(days));
    SeriesFromRows(mine, DaysWindow(days));
    SeriesAscending(mine, DaysWindow(days));
    forall i | 0 <= i < |r|
      ensures exists k :: 0 <= k < |t.history| && t.history[k].pointId == id && r[i] == Entry(t.history[k])
    {
      var j :| 0 <= j < |mine| && r[i] == Entry(mine[j]);
      var k :| 0 <= k < |t.history| && t.history[k] == mine[j];
    }
  }

  /** The newest of the point's rows: each of its rows is in the series or no later than
      every day in it. */
  lemma PointHistoryNewest(t: Tables, pointId: Option<int>, days: Option<int>)
    requires pointId.GetOr(0) != 0
    ensures var r := PointHistory(t, pointId, days).value;
      forall k :: 0 <= k < |t.history| && t.history[k].pointId == pointId.value ==>
        Entry(t.history[k]) in r || forall i :: 0 <= i < |r| ==> Lex.Le(t.history[k].day, r[i].date)
  {
    var id := pointId.value;
    var mine := Select(t.history, HistoryPoint, id);
    SeriesKeepsNewest(mine, DaysWindow(days));
    forall k | 0 <= k < |t.history| && t.history[k].pointId == id
      ensures var r := Series(mine, DaysWindow(days));
        Entry(t.history[k]) in r || forall i :: 0 <= i < |r| ==> Lex.Le(t.history[k].day, r[i].date)
    {
      assert HistoryPoint(t.history[k]) == id;
      var j :| 0 <= j < |mine| && mine[j] == t.history[k];
    }
  }

  // ---------------------------------------------------------------------------
  // api/get_peg_buy_price.php

  datatype BuyPrice = MissingParams | NoConfig | NoSnapshot | Price(configId: nat, adjusted: real, margin: real)

  predicate Owns(s: SnapshotRow, c: nat) {
    s.configId == Some(c)
  }

  /** `SELECT ... FROM peg_history WHERE config_id = ? ORDER BY saved_at DESC LIMIT 1`;
      among rows with the greatest saved_at this takes the first in table order. */
  function Latest(snapshots: seq<SnapshotRow>, c: nat): (r: Option<SnapshotRow>)
    ensures r.None? <==> forall i :: 0 <= i < |snapshots| ==> !Owns(snapshots[i], c)
    ensures r.Some? ==> r.value in snapshots && Owns(r.value, c)
    ensures r.Some? ==> forall i :: 0 <= i < |snapshots| && Owns(snapshots[i], c) ==> Lex.Le(snapshots[i].savedAt, r.value.savedAt)
  {
    if snapshots == [] then None
    else
      var rest := Latest(snapshots[1..], c);
      assert forall i :: 1 <= i < |snapshots| ==> snapshots[i] == snapshots[1..][i - 1];
      if !Owns(snapshots[0], c) then rest
      else if rest.None? then
        Lex.Reflexive(snapshots[0].savedAt);
        Some(snapshots[0])
      else if Lex.Le(rest.value.savedAt, snapshots[0].savedAt) then
        Lex.Reflexive(snapshots[0].savedAt);
        forall i | 1 <= i < |snapshots| && Owns(snapshots[i], c) ensures Lex.Le(snapshots[i].savedAt, snapshots[0].savedAt) {
          Lex.Transitive(snapshots[i].savedAt, rest.value.savedAt, snapshots[0].savedAt);
        }
        Some(snapshots[0])
      else
        Lex.Total(rest.value.savedAt, snapshots[0].savedAt);
        rest
  }

  /** A parameter that is absent or falsy (`!$x`). */
  predicate Falsy(x: Option<string>) {
    x.None? || Text.PhpFalsy(x.value)
  }

  /** The config of the exact triple, then that config's latest snapshot; a null margin reads
      as 0 (`(float)null`). */
  function BuyPriceOf(t: Tables, capacity: Option<string>, iface: Option<string>, cond: Option<string>): (r: BuyPrice)
    ensures r.MissingParams? <==> Falsy(capacity) || Falsy(iface) || Falsy(cond)
    ensures r.NoConfig? <==> !r.MissingParams? && FindConfig(t.configs, capacity.value, iface.value, cond.value).None?
    ensures r.NoSnapshot? <==> (!r.MissingParams? && !r.NoConfig? &&
      forall i :: 0 <= i < |t.snapshots| ==> !Owns(t.snapshots[i], FindConfig(t.configs, capacity.value, iface.value, cond.value).value.id))
    ensures r.Price? ==>
      exists i :: 0 <= i < |t.configs| && t.configs[i].id == r.configId && HasTriple(t.configs[i], capacity.value, iface.value, cond.value)
    ensures r.Price? ==>
      exists k :: (0 <= k < |t.snapshots| && Owns(t.snapshots[k], r.configId)
        && r.adjusted == t.snapshots[k].adjusted && r.margin == t.snapshots[k].margin.GetOr(0.0)
        && forall i :: 0 <= i < |t.snapshots| && Owns(t.snapshots[i], r.configId) ==> Lex.Le(t.snapshots[i].savedAt, t.snapshots[k].savedAt))
  {
    if Falsy(capacity) || Falsy(iface) || Falsy(cond) then MissingParams
    else match FindConfig(t.configs, capacity.value, iface.value, cond.value)
      case None => NoConfig
      case Some(c) =>
        match Latest(t.snapshots, c.id)
        case None => NoSnapshot
        case Some(s) => Price(c.id, s.adjusted, s.margin.GetOr(0.0))
  }

  // ---------------------------------------------------------------------------
  // api/load_config.php

  datatype ConfigLoad =
    | MissingConfigId
    | ConfigNotFound
    | ConfigLoaded(
        configId: nat, capacity: string, iface: string, cond: string, name: Option<string>,
        marginPercent: real, marginPercentAlias: real,
        points: seq<PointRow>, modifiers: seq<ModifierRow>, sales: seq<Writes.SaleValues>)

  /** `isset($config['margin_percent']) ? (float)$config['margin_percent'] : 80` */
  function StoredMargin(c: ConfigRow): real {
    c.margin.GetOr(80.0)
  }

  /** `configId` is `$payload['config_id']`, `None` when it is not set. Points come in table
      order, which is creation order. */
  function LoadConfig(t: Tables, configId: Option<int>): (r: ConfigLoad)
    ensures r.MissingConfigId? <==> configId.None?
    ensures r.ConfigNotFound? <==> configId.Some? && ConfigById(t.configs, configId.value).None?
    ensures r.ConfigLoaded? ==>
      && r.configId == configId.value
      && (exists i :: 0 <= i < |t.configs| && t.configs[i].id == r.configId
            && HasTriple(t.configs[i], r.capacity, r.iface, r.cond) && t.configs[i].name == r.name
            && r.marginPercent == (if t.configs[i].margin.Some? then t.configs[i].margin.value else 80.0))
      && r.marginPercentAlias == r.marginPercent
  {
    if configId.None? then MissingConfigId
    else match ConfigById(t.configs, configId.value)
      case None => ConfigNotFound
      case Some(c) =>
        var m := StoredMargin(c);
        ConfigLoaded(c.id, c.capacity, c.iface, c.cond, c.name, m, m,
          PointsInOrder(t.points, c.id),
          ModifiersById(t.modifiers, c.id),
          Legacy.SaleViews(SalesById(t.sales, c.id)))
  }

  /** The points the load returns are exactly this config's points. */
  lemma LoadConfigPoints(t: Tables, configId: int)
    requires ConfigById(t.configs, configId).Some?
    ensures var r := LoadConfig(t, Some(configId));
      && r.ConfigLoaded?
      && (forall i :: 0 <= i < |r.points| ==> r.points[i] in t.points && r.points[i].configId == configId)
      && (forall i :: 0 <= i < |t.points| && t.points[i].configId == configId ==> t.points[i] in r.points)
  {
    assert LoadConfig(t, Some(configId)).points == PointsInOrder(t.points, configId);
  }

  /** The modifiers the load returns are exactly this config's, by ascending id. */
  lemma LoadConfigModifiers(t: Tables, configId: int)
    requires ConfigById(t.configs, configId).Some?
    ensures var r := LoadConfig(t, Some(configId));
      && r.ConfigLoaded?
      && (forall i :: 0 <= i < |r.modifiers| ==> r.modifiers[i] in t.modifiers && r.modifiers[i].configId == configId)
      && (forall i :: 0 <= i < |t.modifiers| && t.modifiers[i].configId == configId ==> t.modifiers[i] in r.modifiers)
      && (forall i, j :: 0 <= i < j < |r.modifiers| ==> r.modifiers[i].id <= r.modifiers[j].id)
  {
    assert LoadConfig(t, Some(configId)).modifiers == ModifiersById(t.modifiers, configId);
  }

  /** The sales the load returns are this config's rows, by ascending id, in the columns
      the save writes. */
  lemma LoadConfigSales(t: Tables, configId: int)
    requires ConfigById(t.configs, configId).Some?
    ensures var r := LoadConfig(t, Some(configId));
      var own := SalesById(t.sales, configId);
      && r.sales == Legacy.SaleViews(own)
      && (forall i :: 0 <= i < |own| ==> own[i] in t.sales && own[i].configId == configId)
      && (forall i :: 0 <= i < |t.sales| && t.sales[i].configId == configId ==> Legacy.SaleView(t.sales[i]) in r.sales)
      && (forall i, j :: 0 <= i < j < |own| ==> own[i].id <= own[j].id)
  {
    var r := LoadConfig(t, Some(configId));
    var own := SalesById(t.sales, configId);
    forall i | 0 <= i < |t.sales| && t.sales[i].configId == configId ensures Legacy.SaleView(t.sales[i]) in r.sales {
      var m :| 0 <= m < |own| && own[m] == t.sales[i];
      assert r.sales[m] == Legacy.SaleView(t.sales[i]);
    }
  }

  // ---------------------------------------------------------------------------
  // api/load_peg_data.php

  datatype PegData =
    | MissingTriple
    | TripleNotFound
    | PegLoaded(configId: nat, name: Option<string>, inventoryMode: string,
                points: seq<PointRow>, modifiers: seq<ModifierRow>, sales: seq<SaleRow>)

  /** The config of the triple as given, with no trim or lower-casing, and its rows. */
  function LoadPegData(t: Tables, capacity: Option<string>, iface: Option<string>, cond: Option<string>): (r: PegData)
    ensures r.MissingTriple? <==> Falsy(capacity) || Falsy(iface) || Falsy(cond)
    ensures r.TripleNotFound? <==> (!r.MissingTriple? &&
      forall i :: 0 <= i < |t.configs| ==> !HasTriple(t.configs[i], capacity.value, iface.value, cond.value))
    ensures r.PegLoaded? ==>
      exists i :: 0 <= i < |t.configs| && t.configs[i].id == r.configId
        && HasTriple(t.configs[i], capacity.value, iface.value, cond.value)
        && r.name == t.configs[i].name
        && r.inventoryMode == (if t.configs[i].mode.Some? then t.configs[i].mode.value else "balanced")
    ensures r.PegLoaded? ==>
      && (forall i :: 0 <= i < |r.points| ==> r.points[i] in t.points && r.points[i].configId == r.configId)
      && (forall i :: 0 <= i < |t.points| && t.points[i].configId == r.configId ==> t.points[i] in r.points)
      && (forall i, j :: 0 <= i < j < |r.points| ==> r.points[i].id <= r.points[j].id)
      && (forall i :: 0 <= i < |r.modifiers| ==> r.modifiers[i] in t.modifiers && r.modifiers[i].configId == r.configId)
      && (forall i :: 0 <= i < |t.modifiers| && t.modifiers[i].configId == r.configId ==> t.modifiers[i] in r.modifiers)
      && (forall i, j :: 0 <= i < j < |r.modifiers| ==> r.modifiers[i].id <= r.modifiers[j].id)
      && (forall i :: 0 <= i < |r.sales| ==> r.sales[i] in t.sales && r.sales[i].configId == r.configId)
      && (forall i :: 0 <= i < |t.sales| && t.sales[i].configId == r.configId ==> t.sales[i] in r.sales)
      && (forall i, j :: 0 <= i < j < |r.sales| ==> r.sales[i].id <= r.sales[j].id)
  {
    if Falsy(capacity) || Falsy(iface) || Falsy(cond) then MissingTriple
    else match FindConfig(t.configs, capacity.value, iface.value, cond.value)
      case None => TripleNotFound
      case Some(c) =>
        PegLoaded(c.id, c.name, c.mode.GetOr("balanced"),
          PointsById(t.points, c.id),
          ModifiersById(t.modifiers, c.id),
          SalesById(t.sales, c.id))
  }

  /** The save lower-cases and trims the triple, this load does not: the interface the save
      stores for ' SATA' is found under 'sata' and not under ' SATA'. */
  lemma LoadPegDataIsVerbatim()
    ensures var t := Tables([ConfigRow(1, "4TB", "sata", "new", None, None, None)], [], [], [], [], [], {}, 1);
      && Text.Lower(Text.Trim(" SATA", Text.PhpSpace)) == "sata"
      && LoadPegData(t, Some("4TB"), Some(" SATA"), Some("new")).TripleNotFound?
      && LoadPegData(t, Some("4TB"), Some("sata"), Some("new")).PegLoaded?
  {
    var t := Tables([ConfigRow(1, "4TB", "sata", "new", None, None, None)], [], [], [], [], [], {}, 1);
    assert !HasTriple(t.configs[0], "4TB", " SATA", "new");
    SavedInterface();
  }

  lemma SavedInterface()
    ensures Text.Lower(Text.Trim(" SATA", Text.PhpSpace)) == "sata"
  {
    SavedTrim();
    assert Text.LowerChar('S') == 's';
    assert Text.LowerChar('A') == 'a';
    assert Text.LowerChar('T') == 't';
  }

  lemma SavedTrim()
    ensures Text.Trim(" SATA", Text.PhpSpace) == "SATA"
  {
    var s := " SATA";
    assert Text.PhpSpace(s[0]);
    assert s[1..] == "SATA";
    assert !Text.PhpSpace("SATA"[0]);
    assert Text.TrimStart("SATA", Text.PhpSpace) == "SATA";
    assert Text.TrimStart(s, Text.PhpSpace) == "SATA";
    assert !Text.PhpSpace("SATA"[3]);
  }

  // ---------------------------------------------------------------------------
  // api/load_history.php

  datatype FeedRow = FeedRow(
    id: nat, configId: int, capacity: string, iface: string, cond: string, name: Option<string>,
    base: real, adjusted: real, marginPercent: real, marginPercentAlias: real, savedAt: string)

  /** One row of the feed: a null config id reads as 0 (`(int)null`), a null margin as 80,
      under both margin keys. */
  function FeedRowOf(s: SnapshotRow): FeedRow {
    var margin := s.margin.GetOr(80.0);
    FeedRow(s.id, s.configId.GetOr(0), s.capacity, s.iface, s.cond, s.name, s.base, s.adjusted, margin, margin, s.savedAt)
  }

  /** Feed row `r` shows snapshot `s`: its ids, triple, prices and time, and one margin under
      both keys, 80 when the snapshot has none. */
  predicate Carries(r: FeedRow, s: SnapshotRow) {
    && r.id == s.id && r.configId == (if s.configId.Some? then s.configId.value else 0)
    && r.capacity == s.capacity && r.iface == s.iface && r.cond == s.cond && r.name == s.name
    && r.base == s.base && r.adjusted == s.adjusted && r.savedAt == s.savedAt
    && r.marginPercent == r.marginPercentAlias
    && r.marginPercent == (if s.margin.Some? then s.margin.value else 80.0)
  }

  /** A snapshot picked by the capacity filter is shown by its feed row. */
  lemma ShownSnapshot(snapshots: seq<SnapshotRow>, capacity: string, s: SnapshotRow)
    requires s in OfCapacity(snapshots, capacity)
    ensures exists k :: 0 <= k < |snapshots| && snapshots[k].capacity == capacity && Carries(FeedRowOf(s), snapshots[k])
  {
    var sel := OfCapacity(snapshots, capacity);
    var j :| 0 <= j < |sel| && sel[j] == s;
    var k :| 0 <= k < |snapshots| && snapshots[k] == s;
    assert Carries(FeedRowOf(s), s);
  }

  /** `WHERE capacity = ?`, in table order. */
  function OfCapacity(snapshots: seq<SnapshotRow>, capacity: string): (r: seq<SnapshotRow>)
    ensures forall i :: 0 <= i < |r| ==> r[i] in snapshots && r[i].capacity == capacity
    ensures forall i :: 0 <= i < |snapshots| && snapshots[i].capacity == capacity ==> snapshots[i] in r
  {
    if snapshots == [] then []
    else (if snapshots[0].capacity == capacity then [snapshots[0]] else []) + OfCapacity(snapshots[1..], capacity)
  }

  function SavedKey(s: SnapshotRow): Sorting.Key { Sorting.Key(s.savedAt, 0) }

  /** `ORDER BY saved_at DESC`: the same snapshots, newest first. */
  function NewestSaved(snapshots: seq<SnapshotRow>): (r: seq<SnapshotRow>)
    ensures |r| == |snapshots| && multiset(r) == multiset(snapshots)
  {
    Sorting.SortDescBySorted(snapshots, SavedKey);
    Sorting.SortDescBy(snapshots, SavedKey)
  }

  lemma NewestSavedSorted(snapshots: seq<SnapshotRow>)
    ensures var r := NewestSaved(snapshots);
      forall i, j :: 0 <= i < j < |r| ==> Lex.Le(r[j].savedAt, r[i].savedAt)
  {
    var r := NewestSaved(snapshots);
    Sorting.SortDescBySorted(snapshots, SavedKey);
    forall i, j | 0 <= i < j < |r| ensures Lex.Le(r[j].savedAt, r[i].savedAt) {
      assert Sorting.KeyLe(SavedKey(r[j]), SavedKey(r[i]));
      Lex.Reflexive(r[j].savedAt);
    }
  }

  function FeedRows(s: seq<SnapshotRow>): (r: seq<FeedRow>)
    ensures |r| == |s| && forall i :: 0 <= i < |r| ==> r[i] == FeedRowOf(s[i])
  {
    seq(|s|, i requires 0 <= i < |s| => FeedRowOf(s[i]))
  }

  /** The snapshots newest first, as feed rows. */
  function Feed(snapshots: seq<SnapshotRow>): seq<FeedRow> {
    FeedRows(NewestSaved(snapshots))
  }

  /** The feed has one row per snapshot. */
  lemma FeedLength(snapshots: seq<SnapshotRow>)
    ensures |Feed(snapshots)| == |snapshots|
  {
  }

  /** Every feed row shows one of the snapshots. */
  lemma FeedFrom(snapshots: seq<SnapshotRow>)
    ensures var r := Feed(snapshots);
      forall i :: 0 <= i < |r| ==> exists j :: 0 <= j < |snapshots| && r[i] == FeedRowOf(snapshots[j])
  {
    var sorted := NewestSaved(snapshots);
    var r := FeedRows(sorted);
    forall i | 0 <= i < |r| ensures exists j :: 0 <= j < |snapshots| && r[i] == FeedRowOf(snapshots[j]) {
      Sorting.PermutedIndex(snapshots, sorted, i);
    }
  }

  /** Every snapshot is shown in the feed. */
  lemma FeedComplete(snapshots: seq<SnapshotRow>)
    ensures forall j :: 0 <= j < |snapshots| ==> FeedRowOf(snapshots[j]) in Feed(snapshots)
  {
    var sorted := NewestSaved(snapshots);
    var r := FeedRows(sorted);
    forall j | 0 <= j < |snapshots| ensures FeedRowOf(snapshots[j]) in r {
      Sorting.PermutedIndex(sorted, snapshots, j);
      var p :| 0 <= p < |sorted| && sorted[p] == snapshots[j];
      assert r[p] == FeedRowOf(snapshots[j]);
    }
  }

  /** The feed is newest first. */
  lemma FeedDescending(snapshots: seq<SnapshotRow>)
    ensures var r := Feed(snapshots);
      forall i, j :: 0 <= i < j < |r| ==> Lex.Le(r[j].savedAt, r[i].savedAt)
  {
    var sorted := NewestSaved(snapshots);
    NewestSavedSorted(snapshots);
    assert forall i :: 0 <= i < |sorted| ==> Feed(snapshots)[i].savedAt == sorted[i].savedAt;
  }

  /** `capacity` is `$_GET['capacity']`; `None` answers 'Missing capacity'. */
  function CapacityFeed(t: Tables, capacity: Option<string>): (r: Option<seq<FeedRow>>)
    ensures r.None? <==> Falsy(capacity)
  {
    if Falsy(capacity) then None
    else Some(Feed(OfCapacity(t.snapshots, capacity.value)))
  }

  /** One row per snapshot of the capacity, over all interfaces and conditions. */
  lemma CapacityFeedLength(t: Tables, capacity: Option<string>)
    requires !Falsy(capacity)
    ensures |CapacityFeed(t, capacity).value| == |OfCapacity(t.snapshots, capacity.value)|
  {
    FeedLength(OfCapacity(t.snapshots, capacity.value));
  }

  /** Each row shows a snapshot of the capacity with its config id, interface and condition
      and the same margin under both keys. */
  lemma CapacityFeedRows(t: Tables, capacity: Option<string>)
    requires !Falsy(capacity)
    ensures var r := CapacityFeed(t, capacity).value;
      forall i :: 0 <= i < |r| ==> exists k :: 0 <= k < |t.snapshots| && t.snapshots[k].capacity == capacity.value && Carries(r[i], t.snapshots[k])
  {
    var sel := OfCapacity(t.snapshots, capacity.value);
    var r := Feed(sel);
    FeedFrom(sel);
    forall i | 0 <= i < |r|
      ensures exists k :: 0 <= k < |t.snapshots| && t.snapshots[k].capacity == capacity.value && Carries(r[i], t.snapshots[k])
    {
      var j :| 0 <= j < |sel| && r[i] == FeedRowOf(sel[j]);
      ShownSnapshot(t.snapshots, capacity.value, sel[j]);
    }
  }

  /** Every snapshot of the capacity is in the feed. */
  lemma CapacityFeedComplete(t: Tables, capacity: Option<string>)
    requires !Falsy(capacity)
    ensures var r := CapacityFeed(t, capacity).value;
      forall k :: 0 <= k < |t.snapshots| && t.snapshots[k].capacity == capacity.value ==> FeedRowOf(t.snapshots[k]) in r
  {
    var sel := OfCapacity(t.snapshots, capacity.value);
    FeedComplete(sel);
    forall k | 0 <= k < |t.snapshots| && t.snapshots[k].capacity == capacity.value ensures FeedRowOf(t.snapshots[k]) in Feed(sel) {
      var j :| 0 <= j < |sel| && sel[j] == t.snapshots[k];
    }
  }

  /** The capacity's feed is newest first. */
  lemma CapacityFeedDescending(t: Tables, capacity: Option<string>)
    requires !Falsy(capacity)
    ensures var r := CapacityFeed(t, capacity).value;
      forall i, j :: 0 <= i < j < |r| ==> Lex.Le(r[j].savedAt, r[i].savedAt)
  {
    FeedDescending(OfCapacity(t.snapshots, capacity.value));
  }

  // ---------------------------------------------------------------------------
  // load_history.php

  datatype PageRow = PageRow(
    id: nat, configId: Option<nat>, capacity: string, iface: string, cond: string,
    base: real, adjusted: real, mode: Option<string>, savedAt: string, notes: Option<string>)

  datatype PageResult = CapacityRequired | PageFailed | Page(rows: seq<PageRow>)

  /** A null config id stays null. */
  function PageRowOf(s: SnapshotRow): PageRow {
    PageRow(s.id, s.configId, s.capacity, s.iface, s.cond, s.base, s.adjusted, s.mode, s.savedAt, s.notes)
  }

  function PageRows(s: seq<SnapshotRow>): (r: seq<PageRow>)
    ensures |r| == |s| && forall i :: 0 <= i < |r| ==> r[i] == PageRowOf(s[i])
  {
    seq(|s|, i requires 0 <= i < |s| => PageRowOf(s[i]))
  }

  /** `ORDER BY saved_at DESC, id DESC` */
  function PageKey(s: SnapshotRow): Sorting.Key { Sorting.Key(s.savedAt, s.id) }

  /** Newest first, the larger id first among equal times. */
  ghost predicate InPageOrder(w: seq<SnapshotRow>) {
    Sorting.SortedDescBy(w, PageKey)
  }

  /** The snapshots in page order (`PageOrderSorted`). */
  function PageOrder(snapshots: seq<SnapshotRow>): (r: seq<SnapshotRow>)
    ensures |r| == |snapshots| && multiset(r) == multiset(snapshots)
  {
    Sorting.SortDescBySorted(snapshots, PageKey);
    Sorting.SortDescBy(snapshots, PageKey)
  }

  lemma PageOrderSorted(snapshots: seq<SnapshotRow>)
    ensures InPageOrder(PageOrder(snapshots))
  {
    Sorting.SortDescBySorted(snapshots, PageKey);
  }

  function Clamp(n: int, hi: int): nat
    requires 0 <= hi
  {
    if n < 0 then 0 else if n > hi then hi else n
  }

  /** `LIMIT limit OFFSET offset` on the snapshots in page order. */
  function Window(snapshots: seq<SnapshotRow>, limit: nat, offset: nat): seq<SnapshotRow> {
    var all := PageOrder(snapshots);
    var from, to := Clamp(offset, |all|), Clamp(offset + limit, |all|);
    all[from..to]
  }

  /** `capacity` is `$_GET['capacity'] ?? ''`; `limit` and `offset` are the given values,
      50 and 0 when absent. A negative LIMIT or OFFSET is an SQL error and no page. */
  function HistoryPage(t: Tables, capacity: Option<string>, limit: Option<int>, offset: Option<int>): (r: PageResult)
    ensures r.CapacityRequired? <==> capacity.GetOr("") == ""
    ensures r.PageFailed? <==> capacity.GetOr("") != "" && (limit.GetOr(50) < 0 || offset.GetOr(0) < 0)
  {
    var c := capacity.GetOr("");
    var lim, off := limit.GetOr(50), offset.GetOr(0);
    if c == "" then CapacityRequired
    else if lim < 0 || off < 0 then PageFailed
    else Page(PageRows(Window(OfCapacity(t.snapshots, c), lim, off)))
  }

  /** A window holds the rows left after skipping `offset`, at most `limit` of them. */
  lemma WindowLength(snapshots: seq<SnapshotRow>, limit: nat, offset: nat)
    ensures |Window(snapshots, limit, offset)| == (if offset >= |snapshots| then 0 else Min(limit, |snapshots| - offset))
  {
  }

  lemma WindowFrom(snapshots: seq<SnapshotRow>, limit: nat, offset: nat)
    ensures var w := Window(snapshots, limit, offset);
      forall i :: 0 <= i < |w| ==> w[i] in snapshots
  {
    var all := PageOrder(snapshots);
    Sorting.SliceFrom(all, snapshots, Clamp(offset, |all|), Clamp(offset + limit, |all|));
  }

  /** A window is newest first, ties broken by the larger id. */
  lemma WindowOrdered(snapshots: seq<SnapshotRow>, limit: nat, offset: nat)
    ensures InPageOrder(Window(snapshots, limit, offset))
  {
    var all := PageOrder(snapshots);
    PageOrderSorted(snapshots);
    Sorting.SliceSortedDesc(all, PageKey, Clamp(offset, |all|), Clamp(offset + limit, |all|));
  }

  /** A window from the start at least as long as the rows holds all of them. */
  lemma WindowAll(snapshots: seq<SnapshotRow>, limit: nat)
    requires limit >= |snapshots|
    ensures forall k :: 0 <= k < |snapshots| ==> snapshots[k] in Window(snapshots, limit, 0)
  {
    var all := PageOrder(snapshots);
    assert Window(snapshots, limit, 0) == all;
    forall k | 0 <= k < |snapshots| ensures snapshots[k] in all {
      Sorting.PermutedIndex(all, snapshots, k);
    }
  }

  /** A page holds at most `limit` rows: those left after skipping `offset`. */
  lemma HistoryPageLength(t: Tables, capacity: string, limit: nat, offset: nat)
    requires capacity != ""
    ensures var r := HistoryPage(t, Some(capacity), Some(limit), Some(offset));
      var n := |OfCapacity(t.snapshots, capacity)|;
      r.Page? && |r.rows| == (if offset >= n then 0 else Min(limit, n - offset))
  {
    WindowLength(OfCapacity(t.snapshots, capacity), limit, offset);
  }

  /** Every row of a page is a snapshot of the capacity. */
  lemma HistoryPageRows(t: Tables, capacity: string, limit: nat, offset: nat)
    requires capacity != ""
    ensures var r := HistoryPage(t, Some(capacity), Some(limit), Some(offset));
      forall i :: 0 <= i < |r.rows| ==> exists k :: 0 <= k < |t.snapshots| && t.snapshots[k].capacity == capacity && r.rows[i] == PageRowOf(t.snapshots[k])
  {
    var sel := OfCapacity(t.snapshots, capacity);
    var w := Window(sel, limit, offset);
    WindowFrom(sel, limit, offset);
    var rows := PageRows(w);
    forall i | 0 <= i < |rows| ensures exists k :: 0 <= k < |t.snapshots| && t.snapshots[k].capacity == capacity && rows[i] == PageRowOf(t.snapshots[k]) {
      var k :| 0 <= k < |t.snapshots| && t.snapshots[k] == w[i];
    }
  }

  /** A page is newest first, ties broken by the larger id first. */
  lemma HistoryPageOrder(t: Tables, capacity: string, limit: nat, offset: nat)
    requires capacity != ""
    ensures var r := HistoryPage(t, Some(capacity), Some(limit), Some(offset));
      forall i, j :: 0 <= i < j < |r.rows| ==>
        Lex.Lt(r.rows[j].savedAt, r.rows[i].savedAt) || (r.rows[j].savedAt == r.rows[i].savedAt && r.rows[j].id <= r.rows[i].id)
  {
    var sel := OfCapacity(t.snapshots, capacity);
    var w := Window(sel, limit, offset);
    WindowOrdered(sel, limit, offset);
    assert InPageOrder(w);
    var rows := PageRows(w);
    forall i, j | 0 <= i < j < |rows|
      ensures Lex.Lt(rows[j].savedAt, rows[i].savedAt) || (rows[j].savedAt == rows[i].savedAt && rows[j].id <= rows[i].id)
    {
      assert Sorting.KeyLe(PageKey(w[j]), PageKey(w[i]));
    }
  }

  /** Consecutive windows fit together. */
  lemma WindowsCompose(snapshots: seq<SnapshotRow>, offset: nat, a: nat, b: nat)
    ensures Window(snapshots, a, offset) + Window(snapshots, b, offset + a) == Window(snapshots, a + b, offset)
  {
    var all := PageOrder(snapshots);
    var x, y, z := Clamp(offset, |all|), Clamp(offset + a, |all|), Clamp(offset + a + b, |all|);
    assert all[x..y] + all[y..z] == all[x..z];
  }

  /** Consecutive pages fit together: the page of `a` rows at `offset` followed by the page of
      `b` rows after it is the page of `a + b` rows at `offset`. */
  lemma HistoryPagesCompose(t: Tables, capacity: string, offset: nat, a: nat, b: nat)
    requires capacity != ""
    ensures HistoryPage(t, Some(capacity), Some(a), Some(offset)).rows
        + HistoryPage(t, Some(capacity), Some(b), Some(offset + a)).rows
      == HistoryPage(t, Some(capacity), Some(a + b), Some(offset)).rows
  {
    var sel := OfCapacity(t.snapshots, capacity);
    PageIs(t, capacity, a, offset);
    PageIs(t, capacity, b, offset + a);
    PageIs(t, capacity, a + b, offset);
    WindowsCompose(sel, offset, a, b);
    PageRowsAppend(Window(sel, a, offset), Window(sel, b, offset + a));
  }

  lemma PageIs(t: Tables, capacity: string, limit: nat, offset: nat)
    requires capacity != ""
    ensures HistoryPage(t, Some(capacity), Some(limit), Some(offset)).rows
      == PageRows(Window(OfCapacity(t.snapshots, capacity), limit, offset))
  {
  }

  lemma PageRowsAppend(x: seq<SnapshotRow>, y: seq<SnapshotRow>)
    ensures PageRows(x) + PageRows(y) == PageRows(x + y)
  {
  }

  /** A first page at least as long as the feed holds every snapshot of the capacity. */
  lemma HistoryPageComplete(t: Tables, capacity: string, limit: nat)
    requires capacity != "" && limit >= |OfCapacity(t.snapshots, capacity)|
    ensures forall k :: 0 <= k < |t.snapshots| && t.snapshots[k].capacity == capacity ==>
      PageRowOf(t.snapshots[k]) in HistoryPage(t, Some(capacity), Some(limit), Some(0)).rows
  {
    var sel := OfCapacity(t.snapshots, capacity);
    var w := Window(sel, limit, 0);
    assert HistoryPage(t, Some(capacity), Some(limit), Some(0)).rows == PageRows(w);
    WindowAll(sel, limit);
    forall k | 0 <= k < |t.snapshots| && t.snapshots[k].capacity == capacity ensures PageRowOf(t.snapshots[k]) in PageRows(w) {
      assert t.snapshots[k] in sel;
      PageRowIn(w, t.snapshots[k]);
    }
  }

  lemma PageRowIn(w: seq<SnapshotRow>, s: SnapshotRow)
    requires s in w
    ensures PageRowOf(s) in PageRows(w)
  {
    var p :| 0 <= p < |w| && w[p] == s;
    assert PageRows(w)[p] == PageRowOf(s);
  }
}
