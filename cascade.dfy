/** The cascading delete of `api/delete_history.php`: removing one snapshot removes its
    config together with the config's modifiers, sales and points, and aborts as a whole when
    any of those points still has price history. */
module CascadeDelete {
  import opened Wrappers
  import opened Schema

  datatype Response = Deleted | MissingId | NotFound | Failed

  function SnapshotId(s: SnapshotRow): int { s.id }
  function ConfigId(c: ConfigRow): int { c.id }

  /** `$id = $payload["id"] ?? null; if (!$id)`: a missing or zero id. */
  predicate Missing(id: Option<int>) {
    id.None? || id.value == 0
  }

  /** `(int)$res->fetch_assoc()['config_id']`: a snapshot without a config reads as 0. */
  function OwnerOf(s: SnapshotRow): int {
    s.configId.GetOr(0)
  }

  /** Some history row names a point of config `c`: the foreign key that makes
      `DELETE FROM peg_points WHERE config_id = ?` fail. */
  predicate PointsInUse(t: Tables, c: int) {
    exists i, j :: 0 <= i < |t.history| && 0 <= j < |t.points| &&
      t.points[j].configId == c && t.points[j].id == t.history[i].pointId
  }

  /** The five deletes, in the order the endpoint runs them: modifiers, sales and points of
      config `c`, the snapshot `id`, then the config itself. */
  function Cascade(t: Tables, c: int, id: int): Tables {
    var t1 := t.(modifiers := Without(t.modifiers, ModifierOwner, c));
    var t2 := t1.(sales := Without(t1.sales, SaleOwner, c));
    var t3 := t2.(points := Without(t2.points, PointOwner, c));
    var t4 := t3.(snapshots := Without(t3.snapshots, SnapshotId, id));
    t4.(configs := Without(t4.configs, ConfigId, c))
  }

  /** The endpoint; every path but `Deleted` leaves the store as it was (the points delete
      fails inside the transaction, which rolls back the modifier and sales deletes). */
  function DeleteHistory(t: Tables, id: Option<int>): (r: (Response, Tables))
    ensures r.0 == MissingId <==> Missing(id)
    ensures r.0 == NotFound <==> !Missing(id) && SnapshotById(t.snapshots, id.value).None?
    ensures r.0 == Failed <==>
      !Missing(id) && SnapshotById(t.snapshots, id.value).Some? && PointsInUse(t, OwnerOf(SnapshotById(t.snapshots, id.value).value))
    ensures !r.0.Deleted? ==> r.1 == t
  {
    if Missing(id) then (MissingId, t)
    else match SnapshotById(t.snapshots, id.value)
      case None => (NotFound, t)
      case Some(s) =>
        var c := OwnerOf(s);
        if PointsInUse(t, c) then (Failed, t)
        else (Deleted, Cascade(t, c, id.value))
  }

  // ---------------------------------------------------------------------------
  // Lookups through a delete

  lemma {:induction false} ConfigByIdWithout(cs: seq<ConfigRow>, c: int, x: int)
    ensures ConfigById(Without(cs, ConfigId, c), x) == if x == c then None else ConfigById(cs, x)
  {
    if cs != [] {
      ConfigByIdWithout(cs[1..], c, x);
      if cs[0].id != c {
        assert Without(cs, ConfigId, c) == [cs[0]] + Without(cs[1..], ConfigId, c);
        assert ([cs[0]] + Without(cs[1..], ConfigId, c))[1..] == Without(cs[1..], ConfigId, c);
      } else {
        assert Without(cs, ConfigId, c) == Without(cs[1..], ConfigId, c);
      }
    }
  }

  lemma {:induction false} SnapshotByIdWithout(ss: seq<SnapshotRow>, id: int, x: int)
    ensures SnapshotById(Without(ss, SnapshotId, id), x) == if x == id then None else SnapshotById(ss, x)
  {
    if ss != [] {
      SnapshotByIdWithout(ss[1..], id, x);
      if ss[0].id != id {
        assert Without(ss, SnapshotId, id) == [ss[0]] + Without(ss[1..], SnapshotId, id);
        assert ([ss[0]] + Without(ss[1..], SnapshotId, id))[1..] == Without(ss[1..], SnapshotId, id);
      } else {
        assert Without(ss, SnapshotId, id) == Without(ss[1..], SnapshotId, id);
      }
    }
  }

  /** On success the config, its modifiers, sales and points, and the named snapshot are
      gone. */
  lemma DeleteRemoves(t: Tables, id: Option<int>)
    requires DeleteHistory(t, id).0.Deleted?
    ensures var t' := DeleteHistory(t, id).1;
      var c := OwnerOf(SnapshotById(t.snapshots, id.value).value);
      && Select(t'.modifiers, ModifierOwner, c) == []
      && Select(t'.sales, SaleOwner, c) == []
      && Select(t'.points, PointOwner, c) == []
      && ConfigById(t'.configs, c).None?
      && SnapshotById(t'.snapshots, id.value).None?
  {
    var c := OwnerOf(SnapshotById(t.snapshots, id.value).value);
    SelectWithout(t.modifiers, ModifierOwner, c, c);
    SelectWithout(t.sales, SaleOwner, c, c);
    SelectWithout(t.points, PointOwner, c, c);
    ConfigByIdWithout(t.configs, c, c);
    SnapshotByIdWithout(t.snapshots, id.value, id.value);
  }

  /** Every delete is scoped by the config or the snapshot id: the rows of other configs,
      other configs, other snapshots, the point history and the capacities are untouched. */
  lemma DeleteScoped(t: Tables, id: Option<int>, d: int, x: int)
    requires DeleteHistory(t, id).0.Deleted?
    requires d != OwnerOf(SnapshotById(t.snapshots, id.value).value) && x != id.value
    ensures var t' := DeleteHistory(t, id).1;
      && Select(t'.modifiers, ModifierOwner, d) == Select(t.modifiers, ModifierOwner, d)
      && Select(t'.sales, SaleOwner, d) == Select(t.sales, SaleOwner, d)
      && Select(t'.points, PointOwner, d) == Select(t.points, PointOwner, d)
      && ConfigById(t'.configs, d) == ConfigById(t.configs, d)
      && SnapshotById(t'.snapshots, x) == SnapshotById(t.snapshots, x)
      && t'.history == t.history && t'.capacities == t.capacities
  {
    var c := OwnerOf(SnapshotById(t.snapshots, id.value).value);
    SelectWithout(t.modifiers, ModifierOwner, c, d);
    SelectWithout(t.sales, SaleOwner, c, d);
    SelectWithout(t.points, PointOwner, c, d);
    ConfigByIdWithout(t.configs, c, d);
    SnapshotByIdWithout(t.snapshots, id.value, x);
  }

  // ---------------------------------------------------------------------------
  // The schema constraints survive the delete

  /** Positions in `s[1..]` shifted into `s`, with `s[0]` kept in front or dropped. */
  lemma ShiftPositions<T>(s: seq<T>, w: seq<T>, g: seq<nat>, keep: bool) returns (f: seq<nat>)
    requires s != []
    requires |g| == |w| && forall i :: 0 <= i < |g| ==> g[i] < |s| - 1 && w[i] == s[g[i] + 1]
    requires forall i, j :: 0 <= i < j < |g| ==> g[i] < g[j]
    ensures var r := if keep then [s[0]] + w else w;
      && |f| == |r|
      && (forall i :: 0 <= i < |f| ==> f[i] < |s| && r[i] == s[f[i]])
      && (forall i, j :: 0 <= i < j < |f| ==> f[i] < f[j])
  {
    var shifted := seq(|g|, i requires 0 <= i < |g| => g[i] + 1);
    f := if keep then [0] + shifted else shifted;
  }

  /** The rows a delete keeps sit at increasing positions of the old table. */
  lemma {:induction false} WithoutPositions<T>(s: seq<T>, owner: T -> int, c: int) returns (f: seq<nat>)
    ensures var r := Without(s, owner, c);
      && |f| == |r|
      && (forall i :: 0 <= i < |f| ==> f[i] < |s| && r[i] == s[f[i]])
      && (forall i, j :: 0 <= i < j < |f| ==> f[i] < f[j])
  {
    if s == [] {
      f := [];
    } else {
      var w := Without(s[1..], owner, c);
      var g := WithoutPositions(s[1..], owner, c);
      var keep := owner(s[0]) != c;
      f := ShiftPositions(s, w, g, keep);
      assert Without(s, owner, c) == if keep then [s[0]] + w else w;
    }
  }

  lemma WithoutKeepsTriplesUnique(cs: seq<ConfigRow>, c: int)
    requires UniqueTriples(cs)
    ensures UniqueTriples(Without(cs, ConfigId, c))
  {
    var r := Without(cs, ConfigId, c);
    var f := WithoutPositions(cs, ConfigId, c);
    forall i, j | 0 <= i < j < |r| ensures !HasTriple(r[j], r[i].capacity, r[i].iface, r[i].cond) {
      assert r[i] == cs[f[i]] && r[j] == cs[f[j]] && f[i] < f[j];
    }
  }

  lemma WithoutKeepsSnapshotKeysUnique(ss: seq<SnapshotRow>, id: int)
    requires UniqueSnapshotKeys(ss)
    ensures UniqueSnapshotKeys(Without(ss, SnapshotId, id))
  {
    var r := Without(ss, SnapshotId, id);
    var f := WithoutPositions(ss, SnapshotId, id);
    forall i, j | 0 <= i < j < |r| ensures !SnapshotKey(r[j], r[i].configId, r[i].savedAt) {
      assert r[i] == ss[f[i]] && r[j] == ss[f[j]] && f[i] < f[j];
    }
  }

  /** The delete keeps the schema constraints; in particular no history row is left naming
      a deleted point. */
  lemma DeleteValid(t: Tables, id: Option<int>)
    requires Valid(t)
    ensures Valid(DeleteHistory(t, id).1)
  {
    if DeleteHistory(t, id).0.Deleted? {
      var c := OwnerOf(SnapshotById(t.snapshots, id.value).value);
      assert DeleteHistory(t, id).1 == Cascade(t, c, id.value);
      WithoutKeepsTriplesUnique(t.configs, c);
      WithoutKeepsSnapshotKeysUnique(t.snapshots, id.value);
      CascadeKeepsHistoryWellFormed(t, c, id.value);
      CascadeKeepsIdsBelow(t, c, id.value);
    }
  }

  lemma CascadeKeepsHistoryWellFormed(t: Tables, c: int, id: int)
    requires HistoryWellFormed(t) && !PointsInUse(t, c)
    ensures HistoryWellFormed(Cascade(t, c, id))
  {
    var t' := Cascade(t, c, id);
    forall i | 0 <= i < |t'.history| ensures PointExists(t'.points, t'.history[i].pointId) {
      var j :| 0 <= j < |t.points| && t.points[j].id == t.history[i].pointId;
      assert t.points[j].configId != c;
      assert t.points[j] in t'.points;
      var k :| 0 <= k < |t'.points| && t'.points[k] == t.points[j];
    }
  }

  lemma CascadeKeepsIdsBelow(t: Tables, c: int, id: int)
    requires IdsBelow(t)
    ensures IdsBelow(Cascade(t, c, id))
  {
    var t' := Cascade(t, c, id);
    forall i | 0 <= i < |t'.configs| ensures 1 <= t'.configs[i].id < t'.nextId {
      var k :| 0 <= k < |t.configs| && t.configs[k] == t'.configs[i];
    }
    forall i | 0 <= i < |t'.points| ensures 1 <= t'.points[i].id < t'.nextId {
      var k :| 0 <= k < |t.points| && t.points[k] == t'.points[i];
    }
    forall i | 0 <= i < |t'.modifiers| ensures 1 <= t'.modifiers[i].id < t'.nextId {
      var k :| 0 <= k < |t.modifiers| && t.modifiers[k] == t'.modifiers[i];
    }
    forall i | 0 <= i < |t'.sales| ensures 1 <= t'.sales[i].id < t'.nextId {
      var k :| 0 <= k < |t.sales| && t.sales[k] == t'.sales[i];
    }
    forall i | 0 <= i < |t'.snapshots| ensures 1 <= t'.snapshots[i].id < t'.nextId {
      var k :| 0 <= k < |t.snapshots| && t.snapshots[k] == t'.snapshots[i];
    }
  }
}
