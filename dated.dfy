/** The dated history save of `api/save_peg_history.php`: one batch of (point, price, qty)
    entries recorded for one day, with the live price and qty of the points refreshed only
    when that day is at or after the newest day already in the history of any point. */
module DatedHistory {
  import opened Wrappers
  import Lex
  import Days
  import opened Schema
  import Writes
  import SaveFacts

  /** One entry of `points`; `None` marks a missing field. */
  datatype Entry = Entry(pointId: Option<int>, price: Option<real>, qty: Option<int>)

  /** The decoded payload: `date` and the `points` array, `None` when absent (a body that
      does not decode has neither). */
  datatype Request = Request(date: Option<string>, points: Option<seq<Entry>>)

  datatype Response = Recorded(isLatest: bool) | InvalidPayload | Failed

  /** `(int)($p['peg_point_id'] ?? 0)` */
  function EntryId(e: Entry): int { e.pointId.GetOr(0) }
  function EntryPrice(e: Entry): real { e.price.GetOr(0.0) }
  function EntryQty(e: Entry): int { e.qty.GetOr(0) }

  /** `$latestDate === null || $date >= $latestDate`, with the maximum taken over the whole
      history table. */
  predicate IsLatest(history: seq<HistoryRow>, date: string) {
    var m := MaxDay(history);
    m.None? || Lex.Le(m.value, date)
  }

  /** The `foreach` loop: entries with an id of at most 0 are skipped; every other entry
      upserts its history for the day and, when `isLatest`, overwrites the live price and
      qty of the point with that id. `None` when a statement fails. */
  function Record(t: Tables, date: string, isLatest: bool, es: seq<Entry>): Option<Tables>
    decreases |es|
  {
    if es == [] then Some(t)
    else
      var e := es[0];
      var pid := EntryId(e);
      if pid <= 0 then Record(t, date, isLatest, es[1..])
      else match Writes.UpsertHistory(t, pid, date, EntryPrice(e), EntryQty(e))
        case None => None
        case Some(t1) =>
          var t2 := if isLatest then t1.(points := UpdateLive(t1.points, pid, EntryPrice(e), EntryQty(e))) else t1;
          Record(t2, date, isLatest, es[1..])
  }

  /** The endpoint: the payload check, the latest-date decision read once before any write,
      then the loop inside one transaction. */
  function SaveHistory(t: Tables, req: Request): (r: (Response, Tables))
    ensures r.0 == InvalidPayload <==> req.date.None? || req.points.None?
    ensures !r.0.Recorded? ==> r.1 == t
    ensures r.0.Recorded? ==> r.0.isLatest == IsLatest(t.history, req.date.value)
  {
    if req.date.None? || req.points.None? then (InvalidPayload, t)
    else
      var latest := IsLatest(t.history, req.date.value);
      match Record(t, req.date.value, latest, req.points.value)
      case None => (Failed, t)
      case Some(t') => (Recorded(latest), t')
  }

  // ---------------------------------------------------------------------------
  // The latest-date decision

  /** The date is latest exactly when no stored day sorts after it. */
  lemma IsLatestIff(history: seq<HistoryRow>, date: string)
    ensures IsLatest(history, date) <==> forall i :: 0 <= i < |history| ==> Lex.Le(history[i].day, date)
  {
    var m := MaxDay(history);
    if m.Some? && Lex.Le(m.value, date) {
      forall i | 0 <= i < |history| ensures Lex.Le(history[i].day, date) {
        Lex.Transitive(history[i].day, m.value, date);
      }
    }
  }

  /** On well-formed days the text comparison is the calendar one: the date is latest
      exactly when it is not before any stored day. */
  lemma IsLatestChronological(t: Tables, date: string)
    requires HistoryWellFormed(t) && Days.IsDay(date)
    ensures IsLatest(t.history, date) <==> forall i :: 0 <= i < |t.history| ==> Days.ChronoLe(t.history[i].day, date)
  {
    IsLatestIff(t.history, date);
    forall i | 0 <= i < |t.history| ensures Lex.Le(t.history[i].day, date) <==> Days.ChronoLe(t.history[i].day, date) {
      Days.LexOrderIsChronological(t.history[i].day, date);
    }
  }

  // ---------------------------------------------------------------------------
  // What the loop leaves behind

  /** The last entry naming point `k`, if any. */
  function LastEntry(es: seq<Entry>, k: int): (r: Option<Entry>)
    ensures r.Some? ==> EntryId(r.value) == k
    ensures r.None? <==> forall j :: 0 <= j < |es| ==> EntryId(es[j]) != k
    decreases |es|
  {
    if es == [] then None
    else
      var rest := LastEntry(es[1..], k);
      if rest.Some? then rest
      else if EntryId(es[0]) == k then Some(es[0])
      else None
  }

  lemma {:induction false} LastEntryIs(es: seq<Entry>, k: int, j: nat)
    requires j < |es| && EntryId(es[j]) == k
    requires forall j' :: j < j' < |es| ==> EntryId(es[j']) != k
    ensures LastEntry(es, k) == Some(es[j])
    decreases |es|
  {
    if j > 0 {
      LastEntryIs(es[1..], k, j - 1);
    } else {
      assert LastEntry(es[1..], k).None?;
    }
  }

  /** A live point after a latest-date batch: the price and qty of the last entry naming it. */
  function Live(r: PointRow, es: seq<Entry>): PointRow {
    if r.id == 0 then r
    else match LastEntry(es, r.id)
      case None => r
      case Some(e) => r.(price := EntryPrice(e), qty := EntryQty(e))
  }

  lemma LiveIdempotent(r: PointRow, es: seq<Entry>)
    ensures Live(Live(r, es), es) == Live(r, es)
  {
  }

  /** Every entry a batch with well-formed ids writes is admitted by the store: the point
      exists (the foreign key) and the date is a date (the DATE column). */
  predicate Admissible(points: seq<PointRow>, date: string, es: seq<Entry>) {
    forall j :: 0 <= j < |es| && EntryId(es[j]) > 0 ==> PointExists(points, EntryId(es[j])) && Days.IsDay(date)
  }

  /** The loop writes only history and points, and keeps every point's id. */
  lemma {:induction false} RecordFrame(t: Tables, date: string, isLatest: bool, es: seq<Entry>)
    requires Record(t, date, isLatest, es).Some?
    ensures var t' := Record(t, date, isLatest, es).value;
      && t'.configs == t.configs && t'.modifiers == t.modifiers && t'.sales == t.sales
      && t'.snapshots == t.snapshots && t'.capacities == t.capacities && t'.nextId == t.nextId
      && |t'.points| == |t.points|
      && forall i :: 0 <= i < |t.points| ==> t'.points[i].id == t.points[i].id
    decreases |es|
  {
    if es != [] {
      var e := es[0];
      var pid := EntryId(e);
      if pid <= 0 {
        RecordFrame(t, date, isLatest, es[1..]);
      } else {
        var t1 := Writes.UpsertHistory(t, pid, date, EntryPrice(e), EntryQty(e)).value;
        var t2 := if isLatest then t1.(points := UpdateLive(t1.points, pid, EntryPrice(e), EntryQty(e))) else t1;
        RecordFrame(t2, date, isLatest, es[1..]);
      }
    }
  }

  /** Each stored point ends up `Live` after a latest-date batch and untouched otherwise. */
  lemma {:induction false} RecordPoint(t: Tables, date: string, isLatest: bool, es: seq<Entry>, i: nat)
    requires Record(t, date, isLatest, es).Some? && i < |t.points|
    ensures var t' := Record(t, date, isLatest, es).value;
      i < |t'.points| && t'.points[i] == if isLatest then Live(t.points[i], es) else t.points[i]
    decreases |es|
  {
    RecordFrame(t, date, isLatest, es);
    if es != [] {
      var e := es[0];
      var pid := EntryId(e);
      if pid <= 0 {
        RecordPoint(t, date, isLatest, es[1..], i);
      } else {
        var t1 := Writes.UpsertHistory(t, pid, date, EntryPrice(e), EntryQty(e)).value;
        var t2 := if isLatest then t1.(points := UpdateLive(t1.points, pid, EntryPrice(e), EntryQty(e))) else t1;
        RecordPoint(t2, date, isLatest, es[1..], i);
      }
    }
  }

  /** The batch commits exactly when every entry it writes is admitted. */
  lemma {:induction false} RecordSucceeds(t: Tables, date: string, isLatest: bool, es: seq<Entry>)
    ensures Record(t, date, isLatest, es).Some? <==> Admissible(t.points, date, es)
    decreases |es|
  {
    if es != [] {
      var e := es[0];
      var pid := EntryId(e);
      if pid <= 0 {
        RecordSucceeds(t, date, isLatest, es[1..]);
      } else if PointExists(t.points, pid) && Days.IsDay(date) {
        var t1 := Writes.UpsertHistory(t, pid, date, EntryPrice(e), EntryQty(e)).value;
        var t2 := if isLatest then t1.(points := UpdateLive(t1.points, pid, EntryPrice(e), EntryQty(e))) else t1;
        assert forall k :: PointExists(t2.points, k) <==> PointExists(t.points, k) by {
          forall k ensures PointExists(t2.points, k) <==> PointExists(t.points, k) {
            if PointExists(t.points, k) {
              var i :| 0 <= i < |t.points| && t.points[i].id == k;
              assert t2.points[i].id == k;
            }
            if PointExists(t2.points, k) {
              var i :| 0 <= i < |t2.points| && t2.points[i].id == k;
              assert t.points[i].id == k;
            }
          }
        }
        RecordSucceeds(t2, date, isLatest, es[1..]);
      } else {
        assert !Admissible(t.points, date, es) by {
          assert EntryId(es[0]) > 0;
        }
      }
    }
  }

  /** After the batch the history of point `k` on the saved day holds the last entry naming
      it; every other (point, day) keeps its row. */
  lemma {:induction false} RecordLookup(t: Tables, date: string, isLatest: bool, es: seq<Entry>, k: int, d: string)
    requires Record(t, date, isLatest, es).Some?
    ensures FindHistory(Record(t, date, isLatest, es).value.history, k, d) ==
      if k > 0 && d == date && LastEntry(es, k).Some?
      then Some(HistoryRow(k, date, EntryPrice(LastEntry(es, k).value), EntryQty(LastEntry(es, k).value)))
      else FindHistory(t.history, k, d)
    decreases |es|
  {
    if es != [] {
      var e := es[0];
      var pid := EntryId(e);
      if pid <= 0 {
        RecordLookup(t, date, isLatest, es[1..], k, d);
      } else {
        var row := HistoryRow(pid, date, EntryPrice(e), EntryQty(e));
        var t1 := Writes.UpsertHistory(t, pid, date, EntryPrice(e), EntryQty(e)).value;
        var t2 := if isLatest then t1.(points := UpdateLive(t1.points, pid, EntryPrice(e), EntryQty(e))) else t1;
        UpsertHistoryLookup(t.history, row, k, d);
        RecordLookup(t2, date, isLatest, es[1..], k, d);
      }
    }
  }

  /** Every row after the batch is an old row or a row of the saved day. */
  lemma {:induction false} RecordDays(t: Tables, date: string, isLatest: bool, es: seq<Entry>)
    requires Record(t, date, isLatest, es).Some?
    ensures var h := Record(t, date, isLatest, es).value.history;
      forall i :: 0 <= i < |h| ==> h[i] in t.history || h[i].day == date
    decreases |es|
  {
    if es != [] {
      var e := es[0];
      var pid := EntryId(e);
      if pid <= 0 {
        RecordDays(t, date, isLatest, es[1..]);
      } else {
        var t1 := Writes.UpsertHistory(t, pid, date, EntryPrice(e), EntryQty(e)).value;
        var t2 := if isLatest then t1.(points := UpdateLive(t1.points, pid, EntryPrice(e), EntryQty(e))) else t1;
        RecordDays(t2, date, isLatest, es[1..]);
      }
    }
  }

  /** The batch keeps the schema constraints. */
  lemma {:induction false} RecordValid(t: Tables, date: string, isLatest: bool, es: seq<Entry>)
    requires Valid(t) && Record(t, date, isLatest, es).Some?
    ensures Valid(Record(t, date, isLatest, es).value)
    decreases |es|
  {
    if es != [] {
      var e := es[0];
      var pid := EntryId(e);
      if pid <= 0 {
        RecordValid(t, date, isLatest, es[1..]);
      } else {
        var t1 := Writes.UpsertHistory(t, pid, date, EntryPrice(e), EntryQty(e)).value;
        var t2 := if isLatest then t1.(points := UpdateLive(t1.points, pid, EntryPrice(e), EntryQty(e))) else t1;
        RecordStepValid(t, date, isLatest, e);
        RecordValid(t2, date, isLatest, es[1..]);
      }
    }
  }

  /** One recorded entry keeps the schema constraints. */
  lemma RecordStepValid(t: Tables, date: string, isLatest: bool, e: Entry)
    requires Valid(t) && EntryId(e) > 0
    requires Writes.UpsertHistory(t, EntryId(e), date, EntryPrice(e), EntryQty(e)).Some?
    ensures var t1 := Writes.UpsertHistory(t, EntryId(e), date, EntryPrice(e), EntryQty(e)).value;
      Valid(if isLatest then t1.(points := UpdateLive(t1.points, EntryId(e), EntryPrice(e), EntryQty(e))) else t1)
  {
    var pid := EntryId(e);
    SaveFacts.UpsertHistoryValid(t, pid, date, EntryPrice(e), EntryQty(e));
    var t1 := Writes.UpsertHistory(t, pid, date, EntryPrice(e), EntryQty(e)).value;
    if isLatest {
      SaveFacts.SameIdsValid(t1, UpdateLive(t1.points, pid, EntryPrice(e), EntryQty(e)));
    }
  }

  // ---------------------------------------------------------------------------
  // The endpoint's promises

  /** Every entry with a positive id has its history for the day recorded with the price
      and qty of the last entry naming that point. */
  lemma SaveHistoryRecords(t: Tables, req: Request, j: nat)
    requires SaveHistory(t, req).0.Recorded?
    requires j < |req.points.value| && EntryId(req.points.value[j]) > 0
    requires forall j' :: j < j' < |req.points.value| ==> EntryId(req.points.value[j']) != EntryId(req.points.value[j])
    ensures var e := req.points.value[j];
      FindHistory(SaveHistory(t, req).1.history, EntryId(e), req.date.value)
        == Some(HistoryRow(EntryId(e), req.date.value, EntryPrice(e), EntryQty(e)))
  {
    var es := req.points.value;
    var k := EntryId(es[j]);
    LastEntryIs(es, k, j);
    RecordLookup(t, req.date.value, IsLatest(t.history, req.date.value), es, k, req.date.value);
  }

  /** History of every other day, and of every point no entry names, is left as it was. */
  lemma SaveHistoryKeepsOthers(t: Tables, req: Request, k: int, d: string)
    requires SaveHistory(t, req).0.Recorded?
    requires d != req.date.value || forall j :: 0 <= j < |req.points.value| ==> EntryId(req.points.value[j]) != k
    ensures FindHistory(SaveHistory(t, req).1.history, k, d) == FindHistory(t.history, k, d)
  {
    RecordLookup(t, req.date.value, IsLatest(t.history, req.date.value), req.points.value, k, d);
  }

  /** When the date is latest, every point named by an entry with a positive id holds the
      price and qty of the last such entry. */
  lemma LatestUpdatesLive(t: Tables, req: Request, i: nat, j: nat)
    requires SaveHistory(t, req).0 == Recorded(true)
    requires i < |t.points| && j < |req.points.value|
    requires EntryId(req.points.value[j]) == t.points[i].id > 0
    requires forall j' :: j < j' < |req.points.value| ==> EntryId(req.points.value[j']) != t.points[i].id
    ensures i < |SaveHistory(t, req).1.points|
    ensures SaveHistory(t, req).1.points[i] ==
      t.points[i].(price := EntryPrice(req.points.value[j]), qty := EntryQty(req.points.value[j]))
  {
    var es := req.points.value;
    LastEntryIs(es, t.points[i].id, j);
    RecordPoint(t, req.date.value, true, es, i);
  }

  /** The live label, channel, url, weight, owner and id of every point are never touched:
      only price and qty may change. */
  lemma SaveHistoryKeepsPointFields(t: Tables, req: Request, i: nat)
    requires SaveHistory(t, req).0.Recorded? && i < |t.points|
    ensures var p := SaveHistory(t, req).1.points;
      i < |p| && p[i] == t.points[i].(price := p[i].price, qty := p[i].qty)
  {
    RecordPoint(t, req.date.value, IsLatest(t.history, req.date.value), req.points.value, i);
  }

  /** A date before the stored maximum changes no live row. */
  lemma OlderDateKeepsLivePoints(t: Tables, req: Request)
    requires SaveHistory(t, req).0 == Recorded(false)
    ensures SaveHistory(t, req).1.points == t.points
  {
    var t' := SaveHistory(t, req).1;
    RecordFrame(t, req.date.value, false, req.points.value);
    forall i | 0 <= i < |t.points| ensures t'.points[i] == t.points[i] {
      RecordPoint(t, req.date.value, false, req.points.value, i);
    }
  }

  /** A request with both fields commits exactly when every entry it writes is admitted. */
  lemma SaveHistorySucceeds(t: Tables, req: Request)
    requires req.date.Some? && req.points.Some?
    ensures SaveHistory(t, req).0.Recorded? <==> Admissible(t.points, req.date.value, req.points.value)
  {
    RecordSucceeds(t, req.date.value, IsLatest(t.history, req.date.value), req.points.value);
  }

  lemma SaveHistoryValid(t: Tables, req: Request)
    requires Valid(t)
    ensures Valid(SaveHistory(t, req).1)
  {
    if SaveHistory(t, req).0.Recorded? {
      RecordValid(t, req.date.value, IsLatest(t.history, req.date.value), req.points.value);
    }
  }

  /** A batch recorded under the decision its own history gives leaves that decision
      unchanged: the rows it adds all carry the saved day, and they replace no row of a
      later day. */
  lemma RecordKeepsLatest(t: Tables, date: string, es: seq<Entry>)
    requires Record(t, date, IsLatest(t.history, date), es).Some?
    ensures IsLatest(Record(t, date, IsLatest(t.history, date), es).value.history, date) == IsLatest(t.history, date)
  {
    var latest := IsLatest(t.history, date);
    var t1 := Record(t, date, latest, es).value;
    IsLatestIff(t.history, date);
    IsLatestIff(t1.history, date);
    Lex.Reflexive(date);
    if latest {
      RecordDays(t, date, latest, es);
      forall i | 0 <= i < |t1.history| ensures Lex.Le(t1.history[i].day, date) {
        if t1.history[i] in t.history {
          var j :| 0 <= j < |t.history| && t.history[j] == t1.history[i];
        }
      }
    } else {
      var i :| 0 <= i < |t.history| && !Lex.Le(t.history[i].day, date);
      RecordLookup(t, date, latest, es, t.history[i].pointId, t.history[i].day);
      var h := FindHistory(t1.history, t.history[i].pointId, t.history[i].day);
      assert h.Some?;
      var j :| 0 <= j < |t1.history| && t1.history[j] == h.value;
      assert !Lex.Le(t1.history[j].day, date);
    }
  }

  /** Recording a batch a second time commits and leaves every table but history as the
      first run left it. */
  lemma RecordAgainKeepsTables(t: Tables, date: string, latest: bool, es: seq<Entry>, t1: Tables)
    requires Record(t, date, latest, es) == Some(t1)
    ensures Record(t1, date, latest, es).Some?
    ensures Record(t1, date, latest, es).value.(history := t1.history) == t1
  {
    RecordFrame(t, date, latest, es);
    RecordSucceeds(t, date, latest, es);
    forall k | PointExists(t.points, k) ensures PointExists(t1.points, k) {
      var i :| 0 <= i < |t.points| && t.points[i].id == k;
      assert t1.points[i].id == k;
    }
    RecordSucceeds(t1, date, latest, es);
    var t2 := Record(t1, date, latest, es).value;
    RecordFrame(t1, date, latest, es);
    forall i | 0 <= i < |t1.points| ensures t2.points[i] == t1.points[i] {
      RecordPoint(t, date, latest, es, i);
      RecordPoint(t1, date, latest, es, i);
      LiveIdempotent(t.points[i], es);
    }
    assert t2.points == t1.points;
  }

  /** Recording a batch a second time finds the same history row for every (point, day). */
  lemma RecordAgainKeepsHistory(t: Tables, date: string, latest: bool, es: seq<Entry>, t1: Tables, k: int, d: string)
    requires Record(t, date, latest, es) == Some(t1) && Record(t1, date, latest, es).Some?
    ensures FindHistory(Record(t1, date, latest, es).value.history, k, d) == FindHistory(t1.history, k, d)
  {
    RecordLookup(t, date, latest, es, k, d);
    RecordLookup(t1, date, latest, es, k, d);
  }

  /** Sending the same payload again gives the same answer and the same store: every table
      but history is equal, and history holds the same row for every (point, day). */
  lemma SaveHistoryIdempotent(t: Tables, req: Request)
    requires SaveHistory(t, req).0.Recorded?
    ensures var (r1, t1) := SaveHistory(t, req);
      var (r2, t2) := SaveHistory(t1, req);
      && r2 == r1
      && t2.(history := t1.history) == t1
      && forall k, d :: FindHistory(t2.history, k, d) == FindHistory(t1.history, k, d)
  {
    var date := req.date.value;
    var es := req.points.value;
    var latest := IsLatest(t.history, date);
    var t1 := Record(t, date, latest, es).value;
    RecordKeepsLatest(t, date, es);
    RecordAgainKeepsTables(t, date, latest, es, t1);
    forall k, d ensures FindHistory(Record(t1, date, latest, es).value.history, k, d) == FindHistory(t1.history, k, d) {
      RecordAgainKeepsHistory(t, date, latest, es, t1, k, d);
    }
  }
}
