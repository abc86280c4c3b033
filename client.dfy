/** The helpers of the browser client `js/app.js` that compute values: HTML escaping, the
    combo lookups over the snapshot feed of a capacity, the per-day chart of one point, the
    forward fill of a daily series, and the merge of a dated answer into the live points. */
module Client {
  import opened Wrappers
  import Text
  import Lex
  import Sorting
  import Reads
  import Schema

  // ---------------------------------------------------------------------------
  // escapeHtml (js/app.js:682-685)

  /** The characters the replacement matches: `& < > " ' /`. */
  predicate Special(c: char) {
    c == '&' || c == '<' || c == '>' || c == '"' || c == '\'' || c == '/'
  }

  /** The text of one character after escaping. */
  function Entity(c: char): (r: string)
    ensures !Special(c) ==> r == [c]
    ensures Special(c) ==> |r| >= 4 && r[0] == '&' && r[|r| - 1] == ';'
  {
    if c == '&' then "&amp;"
    else if c == '<' then "&lt;"
    else if c == '>' then "&gt;"
    else if c == '"' then "&quot;"
    else if c == '\'' then "&#39;"
    else if c == '/' then "&#47;"
    else [c]
  }

  function EscapeText(s: string): string {
    if s == [] then "" else Entity(s[0]) + EscapeText(s[1..])
  }

  /** `escapeHtml(s)`: a missing or empty value gives ''. */
  function EscapeHtml(s: Option<string>): (r: string)
    ensures s.None? || s.value == "" ==> r == ""
    ensures s.Some? ==> r == EscapeText(s.value)
  {
    if s.None? || s.value == "" then "" else EscapeText(s.value)
  }

  /** Markup characters that must not reach the page unescaped. */
  predicate Markup(c: char) {
    c == '<' || c == '>' || c == '"' || c == '\'' || c == '/'
  }

  /** Escaped text holds no markup character. */
  lemma {:induction false} EscapedHasNoMarkup(s: string)
    ensures forall i :: 0 <= i < |EscapeText(s)| ==> !Markup(EscapeText(s)[i])
  {
    if s != [] {
      EscapedHasNoMarkup(s[1..]);
      var e, rest := Entity(s[0]), EscapeText(s[1..]);
      assert EscapeText(s) == e + rest;
      forall i | 0 <= i < |e + rest| ensures !Markup((e + rest)[i]) {
        if i >= |e| {
          assert (e + rest)[i] == rest[i - |e|];
        }
      }
    }
  }

  /** Text without a special character is left as it is. */
  lemma {:induction false} EscapeKeepsPlainText(s: string)
    requires forall i :: 0 <= i < |s| ==> !Special(s[i])
    ensures EscapeText(s) == s
  {
    if s != [] {
      EscapeKeepsPlainText(s[1..]);
      assert s == [s[0]] + s[1..];
    }
  }

  /** The special character whose entity `s` begins with, if any. */
  function EntityPrefix(s: string): (r: Option<char>)
    ensures r.Some? ==> Special(r.value) && |Entity(r.value)| <= |s| && s[..|Entity(r.value)|] == Entity(r.value)
  {
    if |s| >= 5 && s[..5] == "&amp;" then Some('&')
    else if |s| >= 4 && s[..4] == "&lt;" then Some('<')
    else if |s| >= 4 && s[..4] == "&gt;" then Some('>')
    else if |s| >= 6 && s[..6] == "&quot;" then Some('"')
    else if |s| >= 5 && s[..5] == "&#39;" then Some('\'')
    else if |s| >= 5 && s[..5] == "&#47;" then Some('/')
    else None
  }

  /** Reading the entities back, the way a browser decodes the six. */
  function Unescape(s: string): string
    decreases |s|
  {
    if s == [] then ""
    else match EntityPrefix(s)
      case Some(c) => [c] + Unescape(s[|Entity(c)|..])
      case None => [s[0]] + Unescape(s[1..])
  }

  /** The text `p + rest` starts with `p`, and what follows it is `rest`. */
  lemma Starts(p: string, rest: string)
    ensures (p + rest)[..|p|] == p && (p + rest)[|p|..] == rest
  {
  }

  /** An escaped character is read back as itself. */
  lemma EntityPrefixOf(c: char, rest: string)
    ensures EntityPrefix(Entity(c) + rest) == if Special(c) then Some(c) else None
  {
    var s := Entity(c) + rest;
    Starts(Entity(c), rest);
    if c == '&' {
    } else if c == '<' {
      assert s[1] == 'l';
    } else if c == '>' {
      assert s[1] == 'g';
    } else if c == '"' {
      assert s[1] == 'q';
    } else if c == '\'' {
      assert s[1] == '#' && s[2] == '3';
    } else if c == '/' {
      assert s[1] == '#' && s[2] == '4';
    } else {
      assert s[0] == c;
    }
  }

  lemma UnescapeEntity(c: char, rest: string)
    ensures Unescape(Entity(c) + rest) == [c] + Unescape(rest)
  {
    Starts(Entity(c), rest);
    EntityPrefixOf(c, rest);
  }

  /** Decoding the escaped text gives the text back: nothing is lost or altered. */
  lemma {:induction false} EscapeRoundTrip(s: string)
    ensures Unescape(EscapeText(s)) == s
  {
    if s != [] {
      EscapeRoundTrip(s[1..]);
      UnescapeEntity(s[0], EscapeText(s[1..]));
      assert s == [s[0]] + s[1..];
    }
  }

  // ---------------------------------------------------------------------------
  // capitalize (js/app.js:686)

  function UpperChar(c: char): char {
    if 'a' <= c <= 'z' then (c as int - 32) as char else c
  }

  /** `capitalize(s)`: the first character upper-cased; a missing or empty value gives ''. */
  function Capitalize(s: Option<string>): (r: string)
    ensures s.None? || s.value == "" ==> r == ""
    ensures s.Some? && s.value != "" ==> |r| == |s.value| && r[1..] == s.value[1..] && r[0] == UpperChar(s.value[0])
  {
    if s.None? || s.value == "" then "" else [UpperChar(s.value[0])] + s.value[1..]
  }

  /** Capitalizing changes nothing but the case of the first letter. */
  lemma CapitalizeKeepsLetters(s: string)
    requires s != ""
    ensures Text.Lower(Capitalize(Some(s))) == Text.Lower(s)
  {
    var r := Capitalize(Some(s));
    assert forall i :: 1 <= i < |s| ==> r[i] == s[i];
  }

  // ---------------------------------------------------------------------------
  // The combos of a capacity (js/app.js:192-193, 1333-1344, 1595-1620, 1674-1683)

  /** A row of `pegHistoryByCapacity[capacity]`: a snapshot of one config. */
  datatype FeedRow = FeedRow(iface: string, cond: string, configId: int)

  const Interfaces: seq<string> := ["sata", "sas"]
  const Conditions: seq<string> := ["new", "used", "recertified"]

  /** `${String(h.interface).toLowerCase()}|${String(h.condition_type).toLowerCase()}` */
  function RowKey(h: FeedRow): string {
    Text.Lower(h.iface) + "|" + Text.Lower(h.cond)
  }

  /** The key of the combo at (`a`, `b`) of the two lists. */
  function ComboKey(a: nat, b: nat): string
    requires a < |Interfaces| && b < |Conditions|
  {
    Interfaces[a] + "|" + Conditions[b]
  }

  /** `new Set(history.map(...))` */
  function Existing(history: seq<FeedRow>): set<string> {
    set i | 0 <= i < |history| :: RowKey(history[i])
  }

  /** Combo (`a'`, `b'`) comes before (`a`, `b`) in the nested loops. */
  predicate Before(a': nat, b': nat, a: nat, b: nat) {
    a' < a || (a' == a && b' < b)
  }

  /** (`a`, `b`) is absent and every combo before it is present. */
  predicate FirstAbsent(existing: set<string>, a: nat, b: nat)
    requires a < |Interfaces| && b < |Conditions|
  {
    ComboKey(a, b) !in existing
    && forall a', b' :: 0 <= a' < |Interfaces| && 0 <= b' < |Conditions| && Before(a', b', a, b) ==> ComboKey(a', b') in existing
  }

  /** `findFirstMissingCombo(capacity)`: the first combo, in the order of the two lists,
      that no feed row has; `None` exactly when all six are there. */
  method FindFirstMissingCombo(history: seq<FeedRow>) returns (r: Option<(string, string)>)
    ensures r.None? <==> forall a, b :: 0 <= a < |Interfaces| && 0 <= b < |Conditions| ==> ComboKey(a, b) in Existing(history)
    ensures r.Some? ==>
      exists a, b :: 0 <= a < |Interfaces| && 0 <= b < |Conditions|
                     && r.value == (Interfaces[a], Conditions[b]) && FirstAbsent(Existing(history), a, b)
  {
    var existing := Existing(history);
    var a := 0;
    while a < |Interfaces|
      invariant 0 <= a <= |Interfaces|
      invariant forall a', b' :: 0 <= a' < a && 0 <= b' < |Conditions| ==> ComboKey(a', b') in existing
    {
      var b := 0;
      while b < |Conditions|
        invariant 0 <= b <= |Conditions|
        invariant forall a', b' :: 0 <= a' < a && 0 <= b' < |Conditions| ==> ComboKey(a', b') in existing
        invariant forall b' :: 0 <= b' < b ==> ComboKey(a, b') in existing
      {
        var key := Interfaces[a] + "|" + Conditions[b];
        if key !in existing {
          assert FirstAbsent(existing, a, b);
          return Some((Interfaces[a], Conditions[b]));
        }
        b := b + 1;
      }
      a := a + 1;
    }
    return None;
  }

  /** The row matches the combo case-insensitively. */
  predicate SameCombo(h: FeedRow, iface: string, cond: string) {
    Text.Lower(h.iface) == Text.Lower(iface) && Text.Lower(h.cond) == Text.Lower(cond)
  }

  /** `findConfigIdByCombo(capacity, iface, condition)`: the config of the first matching row. */
  function FindConfigIdByCombo(history: seq<FeedRow>, iface: string, cond: string): Option<int> {
    if history == [] then None
    else if SameCombo(history[0], iface, cond) then Some(history[0].configId)
    else FindConfigIdByCombo(history[1..], iface, cond)
  }

  /** Null exactly when no row matches; otherwise the config of the first row that does. */
  lemma {:induction false} FindConfigIdFirst(history: seq<FeedRow>, iface: string, cond: string)
    ensures FindConfigIdByCombo(history, iface, cond).None? <==>
      forall i :: 0 <= i < |history| ==> !SameCombo(history[i], iface, cond)
    ensures FindConfigIdByCombo(history, iface, cond).Some? ==>
      exists i :: 0 <= i < |history| && SameCombo(history[i], iface, cond)
        && FindConfigIdByCombo(history, iface, cond).value == history[i].configId
        && forall j :: 0 <= j < i ==> !SameCombo(history[j], iface, cond)
  {
    if history != [] && !SameCombo(history[0], iface, cond) {
      FindConfigIdFirst(history[1..], iface, cond);
      assert forall j :: 0 < j < |history| ==> history[j] == history[1..][j - 1];
      if FindConfigIdByCombo(history, iface, cond).Some? {
        var i :| 0 <= i < |history[1..]| && SameCombo(history[1..][i], iface, cond)
          && FindConfigIdByCombo(history, iface, cond).value == history[1..][i].configId
          && forall j :: 0 <= j < i ==> !SameCombo(history[1..][j], iface, cond);
        assert SameCombo(history[i + 1], iface, cond);
      }
    }
  }

  /** The config of the last row with key `k`. */
  function LastConfigId(history: seq<FeedRow>, k: string): Option<int>
    decreases |history|
  {
    if history == [] then None
    else if RowKey(history[|history| - 1]) == k then Some(history[|history| - 1].configId)
    else LastConfigId(history[..|history| - 1], k)
  }

  /** `getExistingConfigMap(capacity)`: every key of the feed, mapped by the later rows over
      the earlier ones, so to the config of its last row. */
  method GetExistingConfigMap(history: seq<FeedRow>) returns (m: map<string, int>)
    ensures m.Keys == Existing(history)
    ensures forall k :: k in m ==> Some(m[k]) == LastConfigId(history, k)
  {
    m := map[];
    var i := 0;
    while i < |history|
      invariant 0 <= i <= |history|
      invariant m.Keys == Existing(history[..i])
      invariant forall k :: k in m ==> Some(m[k]) == LastConfigId(history[..i], k)
    {
      var h := history[i];
      m := m[RowKey(h) := h.configId];
      assert history[..i + 1][..i] == history[..i];
      assert Existing(history[..i + 1]) == Existing(history[..i]) + {RowKey(h)} by {
        ExistingStep(history, i);
      }
      i := i + 1;
    }
    assert history[..|history|] == history;
  }

  lemma ExistingStep(history: seq<FeedRow>, i: nat)
    requires i < |history|
    ensures Existing(history[..i + 1]) == Existing(history[..i]) + {RowKey(history[i])}
  {
    var p, q := history[..i], history[..i + 1];
    forall x | x in Existing(q) ensures x in Existing(p) + {RowKey(history[i])} {
      var j :| 0 <= j < |q| && RowKey(q[j]) == x;
      if j < i { assert p[j] == q[j]; }
    }
    forall x | x in Existing(p) ensures x in Existing(q) {
      var j :| 0 <= j < |p| && RowKey(p[j]) == x;
      assert q[j] == p[j];
    }
    assert RowKey(q[i]) == RowKey(history[i]);
  }

  /** The last row with a key gives its config. */
  lemma {:induction false} LastConfigIdIs(history: seq<FeedRow>, i: nat)
    requires i < |history|
    requires forall j :: i < j < |history| ==> RowKey(history[j]) != RowKey(history[i])
    ensures LastConfigId(history, RowKey(history[i])) == Some(history[i].configId)
    decreases |history|
  {
    if i < |history| - 1 {
      var p := history[..|history| - 1];
      assert p[i] == history[i];
      LastConfigIdIs(p, i);
    }
  }

  /** The first-match lookup and the last-row map can disagree only when one combo's rows
      carry different configs: with one config per key they give the same id. */
  lemma {:induction false} LookupsAgree(history: seq<FeedRow>, i: nat, m: map<string, int>)
    requires i < |history|
    requires forall p, q :: 0 <= p < |history| && 0 <= q < |history| && RowKey(history[p]) == RowKey(history[q]) ==>
      history[p].configId == history[q].configId
    requires forall k :: k in m ==> Some(m[k]) == LastConfigId(history, k)
    requires RowKey(history[i]) in m
    ensures FindConfigIdByCombo(history, history[i].iface, history[i].cond) == Some(m[RowKey(history[i])])
  {
    var h := history[i];
    FindConfigIdFirst(history, h.iface, h.cond);
    assert SameCombo(h, h.iface, h.cond);
    var f :| 0 <= f < |history| && SameCombo(history[f], h.iface, h.cond)
      && FindConfigIdByCombo(history, h.iface, h.cond).value == history[f].configId
      && forall j :: 0 <= j < f ==> !SameCombo(history[j], h.iface, h.cond);
    assert RowKey(history[f]) == RowKey(h);
    LastConfigIdFrom(history, RowKey(h));
  }

  /** The last config of a key is the config of some row with that key. */
  lemma {:induction false} LastConfigIdFrom(history: seq<FeedRow>, k: string)
    requires LastConfigId(history, k).Some?
    ensures exists j :: 0 <= j < |history| && RowKey(history[j]) == k && history[j].configId == LastConfigId(history, k).value
    decreases |history|
  {
    var n := |history| - 1;
    if RowKey(history[n]) != k {
      var p := history[..n];
      LastConfigIdFrom(p, k);
      var j :| 0 <= j < |p| && RowKey(p[j]) == k && p[j].configId == LastConfigId(p, k).value;
      assert history[j] == p[j];
    }
  }

  // ---------------------------------------------------------------------------
  // The chart of one point (js/app.js:1550-1568)

  type DayPrice = Reads.DayPrice

  /** The slot of `date` in the dictionary, if it has one. */
  function SlotOf(byDate: seq<DayPrice>, date: string): (r: Option<nat>)
    ensures r.Some? ==> r.value < |byDate| && byDate[r.value].date == date
    ensures r.None? ==> forall i :: 0 <= i < |byDate| ==> byDate[i].date != date
    decreases |byDate|
  {
    if byDate == [] then None
    else if byDate[0].date == date then Some(0)
    else match SlotOf(byDate[1..], date)
      case None => None
      case Some(i) => Some(i + 1)
  }

  /** One row of the loop: a new date is added; a stored price is replaced when it is 0
      (JavaScript's falsy test) or lower than the row's. */
  function Keep(byDate: seq<DayPrice>, h: DayPrice): seq<DayPrice> {
    match SlotOf(byDate, h.date)
    case None => byDate + [h]
    case Some(i) => if byDate[i].price == 0.0 || h.price > byDate[i].price then byDate[i := h] else byDate
  }

  /** The `byDate` object after the rows: its entries in insertion order. */
  function HighestByDay(rows: seq<DayPrice>): seq<DayPrice>
    decreases |rows|
  {
    if rows == [] then [] else Keep(HighestByDay(rows[..|rows| - 1]), rows[|rows| - 1])
  }

  /** The `for (const h of res.history)` loop. */
  method DailyHighest(rows: seq<DayPrice>) returns (byDate: seq<DayPrice>)
    ensures byDate == HighestByDay(rows)
  {
    byDate := [];
    var i := 0;
    while i < |rows|
      invariant 0 <= i <= |rows|
      invariant byDate == HighestByDay(rows[..i])
    {
      var h := rows[i];
      assert rows[..i + 1][..i] == rows[..i];
      var slot := SlotOf(byDate, h.date);
      if slot.None? {
        byDate := byDate + [h];
      } else if byDate[slot.value].price == 0.0 || h.price > byDate[slot.value].price {
        byDate := byDate[slot.value := h];
      }
      i := i + 1;
    }
    assert rows[..|rows|] == rows;
  }

  predicate DistinctDates(s: seq<DayPrice>) {
    forall i, j :: 0 <= i < j < |s| ==> s[i].date != s[j].date
  }

  /** One row keeps the slots and dates already there, adds at most one at the end, and
      leaves its date with a slot. */
  lemma KeepDates(before: seq<DayPrice>, h: DayPrice)
    ensures var after := Keep(before, h);
      |before| <= |after| <= |before| + 1
      && (forall s :: 0 <= s < |before| ==> after[s].date == before[s].date)
      && (|after| > |before| ==> after[|before|] == h)
      && exists s :: 0 <= s < |after| && after[s].date == h.date
  {
    var after := Keep(before, h);
    if SlotOf(before, h.date).None? {
      assert after[|before|] == h;
    } else {
      var s := SlotOf(before, h.date).value;
      assert after[s].date == h.date;
    }
  }

  /** Every entry is a row, every row's date has an entry, and no date has two. */
  lemma {:induction false} HighestEntries(rows: seq<DayPrice>)
    ensures DistinctDates(HighestByDay(rows))
    ensures forall e :: e in HighestByDay(rows) ==> e in rows
    ensures forall i :: 0 <= i < |rows| ==> SlotOf(HighestByDay(rows), rows[i].date).Some?
    decreases |rows|
  {
    if rows != [] {
      var p, h := rows[..|rows| - 1], rows[|rows| - 1];
      HighestEntries(p);
      var before := HighestByDay(p);
      var after := HighestByDay(rows);
      assert after == Keep(before, h);
      KeepDates(before, h);
      KeepDistinct(before, h);
      KeepFrom(before, h);
      forall i | 0 <= i < |rows| ensures SlotOf(after, rows[i].date).Some? {
        if i < |p| {
          assert rows[i] == p[i];
          var s := SlotOf(before, p[i].date).value;
          assert after[s].date == rows[i].date;
        } else {
          var s :| 0 <= s < |after| && after[s].date == h.date;
        }
      }
      forall e | e in after ensures e in rows {
        if e != h {
          var j :| 0 <= j < |p| && p[j] == e;
          assert rows[j] == e;
        }
      }
    }
  }

  /** A row either takes a new slot or replaces the price in its date's slot: the dates
      stay distinct. */
  lemma KeepDistinct(before: seq<DayPrice>, h: DayPrice)
    requires DistinctDates(before)
    ensures DistinctDates(Keep(before, h))
  {
    if SlotOf(before, h.date).None? {
      assert Keep(before, h) == before + [h];
    } else {
      var s := SlotOf(before, h.date).value;
      assert Keep(before, h) == before || Keep(before, h) == before[s := h];
    }
  }

  /** Every entry after a row was there before it or is that row. */
  lemma KeepFrom(before: seq<DayPrice>, h: DayPrice)
    ensures forall e :: e in Keep(before, h) ==> e in before || e == h
  {
  }

  /** Replacing the stored price for a date (a stored 0 or a higher row) never lowers
      what the slot holds below a non-negative row with that date. */
  lemma {:induction false} HighestIsMax(rows: seq<DayPrice>)
    requires forall i :: 0 <= i < |rows| ==> rows[i].price >= 0.0
    ensures forall i, s :: 0 <= i < |rows| && 0 <= s < |HighestByDay(rows)| && HighestByDay(rows)[s].date == rows[i].date ==>
      rows[i].price <= HighestByDay(rows)[s].price
    decreases |rows|
  {
    if rows != [] {
      var p, h := rows[..|rows| - 1], rows[|rows| - 1];
      HighestIsMax(p);
      HighestEntries(p);
      var before := HighestByDay(p);
      var after := HighestByDay(rows);
      assert after == Keep(before, h);
      KeepDates(before, h);
      forall i, s | 0 <= i < |rows| && 0 <= s < |after| && after[s].date == rows[i].date
        ensures rows[i].price <= after[s].price
      {
        if i < |p| {
          assert rows[i] == p[i];
          var t := SlotOf(before, p[i].date).value;
          assert s < |before|;
          assert before[s].date == p[i].date;
          assert p[i].price <= before[s].price;
        } else {
          KeepHolds(before, h, s);
        }
      }
    }
  }

  /** The slot of the row's own date ends up holding at least the row's price. */
  lemma KeepHolds(before: seq<DayPrice>, h: DayPrice, s: nat)
    requires DistinctDates(before)
    requires s < |Keep(before, h)| && Keep(before, h)[s].date == h.date
    ensures h.price <= Keep(before, h)[s].price
  {
    var after := Keep(before, h);
    KeepDates(before, h);
    match SlotOf(before, h.date)
    case None =>
      assert s == |before|;
    case Some(t) =>
      assert after[t].date == h.date;
      assert s == t;
  }

  // ---------------------------------------------------------------------------
  // The rows the chart shows (js/app.js:1522, 1562-1565)

  function DateKey(e: DayPrice): Sorting.Key { Sorting.Key(e.date, 0) }

  /** `list.slice(start)`: a negative start counts from the end and stops at the front. */
  function SliceFrom<T>(s: seq<T>, start: int): seq<T> {
    var from := if start < 0 then (if |s| + start < 0 then 0 else |s| + start)
                else if start > |s| then |s| else start;
    s[from..]
  }

  /** `Object.entries(byDate)` sorted by date and sliced with `-days`. */
  function Display(rows: seq<DayPrice>, days: int): seq<DayPrice> {
    SliceFrom(Sorting.SortBy(HighestByDay(rows), DateKey), -days)
  }

  /** `Number(historyRangeSelect.value) || 30`: 0 and a non-number give 30. */
  function DaysSelected(value: Option<int>): (d: int)
    ensures d != 0
    ensures value.Some? && value.value != 0 ==> d == value.value
  {
    if value.None? || value.value == 0 then 30 else value.value
  }

  /** Dates strictly increase along the list. */
  predicate Ascending(s: seq<DayPrice>) {
    forall i, j :: 0 <= i < j < |s| ==> Lex.Lt(s[i].date, s[j].date)
  }

  lemma AscendingSuffix(s: seq<DayPrice>, from: nat)
    requires Ascending(s) && from <= |s|
    ensures Ascending(s[from..])
  {
    var d := s[from..];
    forall i, j | 0 <= i < j < |d| ensures Lex.Lt(d[i].date, d[j].date) {
      assert d[i] == s[from + i] && d[j] == s[from + j];
    }
  }

  /** Sorting the entries of `byDate`, whose dates are distinct, orders them strictly. */
  lemma SortedDistinctDates(rows: seq<DayPrice>)
    ensures var sorted := Sorting.SortBy(HighestByDay(rows), DateKey);
      multiset(sorted) == multiset(HighestByDay(rows))
      && |sorted| == |HighestByDay(rows)|
      && Ascending(sorted)
  {
    var all := HighestByDay(rows);
    var sorted := Sorting.SortBy(all, DateKey);
    Sorting.SortBySorted(all, DateKey);
    HighestEntries(rows);
    PermutedDistinctDates(all, sorted);
    forall i, j | 0 <= i < j < |sorted| ensures Lex.Lt(sorted[i].date, sorted[j].date) {
      assert Sorting.KeyLe(DateKey(sorted[i]), DateKey(sorted[j]));
    }
  }

  /** Reordering a list whose dates are distinct keeps them distinct. */
  lemma PermutedDistinctDates(all: seq<DayPrice>, s: seq<DayPrice>)
    requires multiset(s) == multiset(all) && DistinctDates(all)
    ensures DistinctDates(s)
  {
    assert Sorting.Distinct(all);
    Sorting.PermutationDistinct(s, all);
    forall i, j | 0 <= i < j < |s| ensures s[i].date != s[j].date {
      assert s[i] != s[j];
      assert s[i] in multiset(all) && s[j] in multiset(all);
      var p :| 0 <= p < |all| && all[p] == s[i];
      var q :| 0 <= q < |all| && all[q] == s[j];
      if p < q {
        assert all[p].date != all[q].date;
      } else {
        assert all[q].date != all[p].date;
      }
    }
  }

  /** The chart's dates strictly increase. */
  lemma DisplayAscending(rows: seq<DayPrice>, days: int)
    ensures Ascending(Display(rows, days))
  {
    var sorted := Sorting.SortBy(HighestByDay(rows), DateKey);
    SortedDistinctDates(rows);
    var d := Display(rows, days);
    AscendingSuffix(sorted, |sorted| - |d|);
  }

  /** For a positive `days` the chart holds the newest `days` dates of the point, one entry
      per date taken from `byDate`, and every date left out is older than all shown. */
  lemma DisplayNewest(rows: seq<DayPrice>, days: int)
    requires days > 0
    ensures var d := Display(rows, days); var all := HighestByDay(rows);
      |d| == (if days < |all| then days else |all|)
      && (forall i :: 0 <= i < |d| ==> d[i] in all)
      && forall e, j :: e in all && e !in d && 0 <= j < |d| ==> Lex.Lt(e.date, d[j].date)
  {
    var all := HighestByDay(rows);
    var sorted := Sorting.SortBy(all, DateKey);
    SortedDistinctDates(rows);
    var d := Display(rows, days);
    var from := |sorted| - |d|;
    assert d == sorted[from..];
    forall i | 0 <= i < |d| ensures d[i] in all {
      assert d[i] == sorted[from + i];
      assert d[i] in multiset(sorted);
    }
    forall e, j | e in all && e !in d && 0 <= j < |d| ensures Lex.Lt(e.date, d[j].date) {
      assert e in multiset(sorted);
      var p :| 0 <= p < |sorted| && sorted[p] == e;
      assert p < from;
      assert d[j] == sorted[from + j];
    }
  }

  // ---------------------------------------------------------------------------
  // normalizeDailySeries (js/app.js:1911-1923)

  /** A row of the series: its day key and its value, `None` for a null. */
  datatype DayValue = DayValue(day: string, value: Option<real>)

  /** `Object.fromEntries(rows.map(r => [r.day, r.value]))`: a later row overwrites an
      earlier one with the same day. */
  function FromEntries(rows: seq<DayValue>): map<string, Option<real>>
    decreases |rows|
  {
    if rows == [] then map[]
    else FromEntries(rows[..|rows| - 1])[rows[|rows| - 1].day := rows[|rows| - 1].value]
  }

  /** The value of the last row on `day`. */
  function LastValue(rows: seq<DayValue>, day: string): Option<real>
    decreases |rows|
  {
    if rows == [] then None
    else if rows[|rows| - 1].day == day then rows[|rows| - 1].value
    else LastValue(rows[..|rows| - 1], day)
  }

  /** `map[key]`: a missing key and a null both read as nothing. */
  function Lookup(m: map<string, Option<real>>, key: string): Option<real> {
    if key in m then m[key] else None
  }

  /** The map's keys are the rows' days, and each holds the value of its last row. */
  lemma {:induction false} FromEntriesLast(rows: seq<DayValue>, day: string)
    ensures day in FromEntries(rows) <==> exists i :: 0 <= i < |rows| && rows[i].day == day
    ensures Lookup(FromEntries(rows), day) == LastValue(rows, day)
    decreases |rows|
  {
    if rows != [] {
      var p := rows[..|rows| - 1];
      FromEntriesLast(p, day);
      if day in FromEntries(p) {
        var i :| 0 <= i < |p| && p[i].day == day;
        assert rows[i] == p[i];
      }
      if exists i :: 0 <= i < |rows| && rows[i].day == day {
        var i :| 0 <= i < |rows| && rows[i].day == day;
        if i < |p| { assert p[i] == rows[i]; }
      }
    }
  }

  /** What `last` holds after the days `keys` have been walked. */
  function Carried(keys: seq<string>, rows: seq<DayValue>): Option<real>
    decreases |keys|
  {
    if keys == [] then None
    else match LastValue(rows, keys[|keys| - 1])
      case Some(v) => Some(v)
      case None => Carried(keys[..|keys| - 1], rows)
  }

  /** The loop over the days from `startDate` to `endDate`; `keys` are their ISO dates. */
  method NormalizeDailySeries(keys: seq<string>, rows: seq<DayValue>) returns (result: seq<Option<real>>)
    ensures |result| == |keys|
    ensures forall i :: 0 <= i < |keys| ==> result[i] == Carried(keys[..i + 1], rows)
  {
    var m := FromEntries(rows);
    result := [];
    var last: Option<real> := None;
    var i := 0;
    while i < |keys|
      invariant 0 <= i <= |keys|
      invariant |result| == i
      invariant last == Carried(keys[..i], rows)
      invariant forall j :: 0 <= j < i ==> result[j] == Carried(keys[..j + 1], rows)
    {
      var key := keys[i];
      FromEntriesLast(rows, key);
      assert keys[..i + 1][..i] == keys[..i];
      if key in m && m[key].Some? {
        last := m[key];
      }
      result := result + [last];
      i := i + 1;
    }
  }

  /** A day is null exactly when no day up to it has a value. */
  lemma {:induction false} CarriedNone(keys: seq<string>, rows: seq<DayValue>)
    ensures Carried(keys, rows).None? <==> forall j :: 0 <= j < |keys| ==> LastValue(rows, keys[j]).None?
    decreases |keys|
  {
    if keys != [] {
      var p := keys[..|keys| - 1];
      CarriedNone(p, rows);
      assert forall j :: 0 <= j < |p| ==> keys[j] == p[j];
    }
  }

  /** A day holds the value of the most recent day at or before it that has one. */
  lemma {:induction false} CarriedIsLatest(keys: seq<string>, rows: seq<DayValue>, j: nat)
    requires j < |keys| && LastValue(rows, keys[j]).Some?
    requires forall k :: j < k < |keys| ==> LastValue(rows, keys[k]).None?
    ensures Carried(keys, rows) == LastValue(rows, keys[j])
    decreases |keys|
  {
    if j < |keys| - 1 {
      var p := keys[..|keys| - 1];
      assert p[j] == keys[j];
      assert forall k :: j < k < |p| ==> p[k] == keys[k];
      CarriedIsLatest(p, rows, j);
    }
  }

  /** The value a day holds was the value of some day at or before it. */
  lemma {:induction false} CarriedFrom(keys: seq<string>, rows: seq<DayValue>) returns (j: nat)
    requires Carried(keys, rows).Some?
    ensures j < |keys| && LastValue(rows, keys[j]) == Carried(keys, rows)
    ensures forall k :: j < k < |keys| ==> LastValue(rows, keys[k]).None?
    decreases |keys|
  {
    var n := |keys| - 1;
    if LastValue(rows, keys[n]).Some? {
      j := n;
    } else {
      var p := keys[..n];
      j := CarriedFrom(p, rows);
      assert keys[j] == p[j];
      assert forall k :: j < k < |p| ==> p[k] == keys[k];
    }
  }

  // ---------------------------------------------------------------------------
  // The dated edit (js/app.js:2177-2246)

  /** A point of the editor's block: `id` is `None` before the point is saved. */
  datatype EditorPoint = EditorPoint(id: Option<int>, caption: string, channel: string, qty: Option<int>)

  /** A row of `getLivePegPointsFromEditor()`. */
  datatype LivePoint = LivePoint(id: int, caption: string, channel: string, qty: int)

  /** `Number(p.id)` (a null id gives 0) and `p.qty ?? 0`. */
  function Live(p: EditorPoint): LivePoint {
    LivePoint(p.id.GetOr(0), p.caption, p.channel, p.qty.GetOr(0))
  }

  /** `getLivePegPointsFromEditor()`: one live row per editor point, in order. */
  function LivePoints(editor: seq<EditorPoint>): (r: seq<LivePoint>)
    ensures |r| == |editor| && forall i :: 0 <= i < |editor| ==> r[i] == Live(editor[i])
  {
    seq(|editor|, i requires 0 <= i < |editor| => Live(editor[i]))
  }

  /** The merged price: the history row's price, `''` when there is no row, and
      `undefined` when the row is one of the structure answer's, which have no price. */
  datatype MergedPrice = Priced(value: real) | Blank | Undefined

  datatype MergedPoint = MergedPoint(id: int, caption: string, channel: string, qty: int, price: MergedPrice)

  /** The rows of a history answer: each carries its price. */
  function PricedEntries(priced: seq<Reads.DatedPoint>): (r: seq<(int, MergedPrice)>)
    ensures |r| == |priced|
    ensures forall i :: 0 <= i < |r| ==> r[i] == (priced[i].pointId as int, Priced(priced[i].price))
  {
    seq(|priced|, i requires 0 <= i < |priced| => (priced[i].pointId as int, Priced(priced[i].price)))
  }

  /** The rows of a structure answer: no `price` field. */
  function PlainEntries(structure: seq<Reads.PlainPoint>): (r: seq<(int, MergedPrice)>)
    ensures |r| == |structure|
    ensures forall i :: 0 <= i < |r| ==> r[i] == (structure[i].pointId as int, Undefined)
  {
    seq(|structure|, i requires 0 <= i < |structure| => (structure[i].pointId as int, Undefined))
  }

  /** The answer's `points` as pairs of `peg_point_id` and the `price` field they carry;
      an error answer has no array. */
  function Answered(res: Reads.DateLoad): (r: seq<(int, MergedPrice)>)
    ensures (res.InvalidParams? || res.NothingStored?) ==> r == []
  {
    match res
    case FromHistory(priced, _) => PricedEntries(priced)
    case FromStructure(structure) => PlainEntries(structure)
    case _ => []
  }

  /** `historyMap.set(p.peg_point_id, p)` over the rows: a later row replaces an earlier one. */
  function HistoryMap(entries: seq<(int, MergedPrice)>): map<int, MergedPrice>
    decreases |entries|
  {
    if entries == [] then map[]
    else HistoryMap(entries[..|entries| - 1])[entries[|entries| - 1].0 := entries[|entries| - 1].1]
  }

  /** `hist ? hist.price : ""` */
  function PriceFor(m: map<int, MergedPrice>, id: int): MergedPrice {
    if id in m then m[id] else Blank
  }

  function MergedWith(m: map<int, MergedPrice>, lp: LivePoint): MergedPoint {
    MergedPoint(lp.id, lp.caption, lp.channel, lp.qty, PriceFor(m, lp.id))
  }

  /** The dated-edit draft: each live point, in its order, with the merged price. */
  function Merged(live: seq<LivePoint>, res: Reads.DateLoad): seq<MergedPoint> {
    seq(|live|, i requires 0 <= i < |live| => MergedWith(HistoryMap(Answered(res)), live[i]))
  }

  /** The two loops of the merge: building `historyMap`, then mapping the live points. */
  method MergeForDate(live: seq<LivePoint>, res: Reads.DateLoad) returns (merged: seq<MergedPoint>)
    ensures |merged| == |live|
    ensures forall i :: 0 <= i < |live| ==> merged[i] == Merged(live, res)[i]
  {
    var entries := Answered(res);
    var historyMap: map<int, MergedPrice> := map[];
    var i := 0;
    while i < |entries|
      invariant 0 <= i <= |entries|
      invariant historyMap == HistoryMap(entries[..i])
    {
      assert entries[..i + 1][..i] == entries[..i];
      historyMap := historyMap[entries[i].0 := entries[i].1];
      i := i + 1;
    }
    assert entries[..|entries|] == entries;
    merged := [];
    var k := 0;
    while k < |live|
      invariant 0 <= k <= |live|
      invariant |merged| == k
      invariant forall j :: 0 <= j < k ==> merged[j] == MergedWith(historyMap, live[j])
    {
      var lp := live[k];
      var price := if lp.id in historyMap then historyMap[lp.id] else Blank;
      merged := merged + [MergedPoint(lp.id, lp.caption, lp.channel, lp.qty, price)];
      k := k + 1;
    }
  }

  /** An id is in the map exactly when some row has it, and it holds the price of one of them. */
  lemma {:induction false} HistoryMapFrom(entries: seq<(int, MergedPrice)>, id: int) returns (j: nat)
    requires id in HistoryMap(entries)
    ensures j < |entries| && entries[j] == (id, HistoryMap(entries)[id])
    decreases |entries|
  {
    var n := |entries| - 1;
    if entries[n].0 == id {
      j := n;
    } else {
      var p := entries[..n];
      j := HistoryMapFrom(p, id);
      assert entries[j] == p[j];
    }
  }

  lemma {:induction false} HistoryMapHas(entries: seq<(int, MergedPrice)>, j: nat)
    requires j < |entries|
    ensures entries[j].0 in HistoryMap(entries)
    decreases |entries|
  {
    var n := |entries| - 1;
    if j < n {
      var p := entries[..n];
      assert p[j] == entries[j];
      HistoryMapHas(p, j);
    }
  }

  /** The map is empty exactly when the answer has no rows. */
  lemma HistoryMapEmpty(entries: seq<(int, MergedPrice)>)
    ensures |HistoryMap(entries)| > 0 <==> entries != []
  {
    if entries != [] {
      HistoryMapHas(entries, 0);
    }
  }

  /** A point of the list with a history row on `day` has a row in the join. */
  lemma {:induction false} PricedOnHas(points: seq<Schema.PointRow>, history: seq<Schema.HistoryRow>, day: string, j: nat)
    requires j < |points| && Schema.FindHistory(history, points[j].id, day).Some?
    ensures Reads.Dated(points[j], Schema.FindHistory(history, points[j].id, day).value) in Reads.PricedOn(points, history, day)
  {
    if j > 0 {
      PricedOnHas(points[1..], history, day, j - 1);
      assert points[1..][j - 1] == points[j];
    }
  }

  /** The list holds a point with this id. */
  predicate HasPoint(points: seq<Schema.PointRow>, id: int) {
    exists j :: 0 <= j < |points| && points[j].id == id
  }

  /** Config `c` owns a point with this id. */
  predicate OwnsPoint(t: Schema.Tables, c: int, id: int) {
    exists j :: 0 <= j < |t.points| && t.points[j].configId == c && t.points[j].id == id
  }

  /** The config's ordered points hold exactly the ids it owns. */
  lemma OwnPoints(t: Schema.Tables, c: int, id: int)
    ensures HasPoint(Reads.PointsById(t.points, c), id) <==> OwnsPoint(t, c, id)
  {
    var own := Reads.PointsById(t.points, c);
    if HasPoint(own, id) {
      var q :| 0 <= q < |own| && own[q].id == id;
      assert own[q] in t.points;
      var w :| 0 <= w < |t.points| && t.points[w] == own[q];
    }
    if OwnsPoint(t, c, id) {
      var w :| 0 <= w < |t.points| && t.points[w].configId == c && t.points[w].id == id;
      assert t.points[w] in own;
      var q :| 0 <= q < |own| && own[q] == t.points[w];
    }
  }

  /** A row of the map built from a join is the join of a listed point with its history
      row on `day`. */
  lemma JoinedPrice(points: seq<Schema.PointRow>, history: seq<Schema.HistoryRow>, day: string, id: int)
    requires id in HistoryMap(PricedEntries(Reads.PricedOn(points, history, day)))
    ensures HasPoint(points, id) && Schema.FindHistory(history, id, day).Some?
    ensures HistoryMap(PricedEntries(Reads.PricedOn(points, history, day)))[id] ==
      Priced(Schema.FindHistory(history, id, day).value.price)
  {
    var priced := Reads.PricedOn(points, history, day);
    var entries := PricedEntries(priced);
    var j := HistoryMapFrom(entries, id);
    Reads.PricedOnFrom(points, history, day);
    assert priced[j] in priced;
    assert Reads.JoinedFrom(points, history, day, priced[j]);
    var q :| 0 <= q < |points| && Reads.PricedAt(points[q], history, day, priced[j]);
  }

  /** A listed point with a history row on `day` has a row in the map built from the join. */
  lemma JoinedHas(points: seq<Schema.PointRow>, history: seq<Schema.HistoryRow>, day: string, id: int)
    requires HasPoint(points, id) && Schema.FindHistory(history, id, day).Some?
    ensures id in HistoryMap(PricedEntries(Reads.PricedOn(points, history, day)))
  {
    var priced := Reads.PricedOn(points, history, day);
    var entries := PricedEntries(priced);
    var q :| 0 <= q < |points| && points[q].id == id;
    PricedOnHas(points, history, day, q);
    var d := Reads.Dated(points[q], Schema.FindHistory(history, id, day).value);
    var j :| 0 <= j < |priced| && priced[j] == d;
    assert entries[j].0 == id;
    HistoryMapHas(entries, j);
  }

  /** Over a history answer, a live point's price is the price of its history row on the
      date, and it is blank exactly when the config owns no point with that id that has
      one; the other fields are the live point's. */
  lemma MergedFromHistory(t: Schema.Tables, c: int, day: string, live: seq<LivePoint>, i: nat)
    requires i < |live| && Reads.LoadByDate(t, c, Some(day)).FromHistory?
    ensures var r := Merged(live, Reads.LoadByDate(t, c, Some(day)))[i];
      r.id == live[i].id && r.caption == live[i].caption && r.channel == live[i].channel && r.qty == live[i].qty
      && (r.price == Blank <==> !(OwnsPoint(t, c, live[i].id) && Schema.FindHistory(t.history, live[i].id, day).Some?))
      && (r.price != Blank ==> r.price == Priced(Schema.FindHistory(t.history, live[i].id, day).value.price))
  {
    var own := Reads.PointsById(t.points, c);
    var id := live[i].id;
    var m := HistoryMap(PricedEntries(Reads.PricedOn(own, t.history, day)));
    assert Reads.LoadByDate(t, c, Some(day)).priced == Reads.PricedOn(own, t.history, day);
    OwnPoints(t, c, id);
    if id in m {
      JoinedPrice(own, t.history, day, id);
    }
    if HasPoint(own, id) && Schema.FindHistory(t.history, id, day).Some? {
      JoinedHas(own, t.history, day, id);
    }
  }

  /** Over a structure answer, a live point the config owns gets `undefined` and any other
      a blank. */
  lemma MergedFromStructure(t: Schema.Tables, c: int, day: Option<string>, live: seq<LivePoint>, i: nat)
    requires i < |live| && Reads.LoadByDate(t, c, day).FromStructure?
    ensures var r := Merged(live, Reads.LoadByDate(t, c, day))[i];
      r.id == live[i].id && r.caption == live[i].caption && r.channel == live[i].channel && r.qty == live[i].qty
      && (OwnsPoint(t, c, live[i].id) ==> r.price == Undefined)
      && (!OwnsPoint(t, c, live[i].id) ==> r.price == Blank)
  {
    var own := Reads.PointsById(t.points, c);
    var entries := PlainEntries(Reads.Plains(own));
    var m := HistoryMap(entries);
    var id := live[i].id;
    assert Reads.LoadByDate(t, c, day).structure == Reads.Plains(own);
    OwnPoints(t, c, id);
    if id in m {
      var j := HistoryMapFrom(entries, id);
      assert own[j].id == id;
    }
    if HasPoint(own, id) {
      var q :| 0 <= q < |own| && own[q].id == id;
      assert entries[q].0 == id;
      HistoryMapHas(entries, q);
    }
  }

  /** An error answer or an empty one blanks every price. */
  lemma MergedWithoutRows(t: Schema.Tables, c: int, day: Option<string>, live: seq<LivePoint>, i: nat)
    requires i < |live|
    requires Reads.LoadByDate(t, c, day).InvalidParams? || Reads.LoadByDate(t, c, day).NothingStored?
    ensures Merged(live, Reads.LoadByDate(t, c, day))[i].price == Blank
  {
  }

  /** What `loadPegForDate` leaves on the page. */
  datatype DateEdit =
    | Skipped                                        // no capacity or no date selected
    | NoConfiguration                                // "No configuration exists yet."
    | Draft(points: seq<MergedPoint>, editing: bool)  // `editing`: `historyMap.size > 0`

  /** `loadPegForDate(selectedDate)` over the feed of the current capacity, the editor's
      points and the tables the request reads. */
  function LoadPegForDate(
    capacity: Option<string>, feed: seq<FeedRow>, iface: string, cond: string,
    date: Option<string>, editor: seq<EditorPoint>, t: Schema.Tables): (r: DateEdit)
    ensures r.Skipped? <==> capacity.None? || capacity.value == "" || date.None? || date.value == ""
    ensures r.NoConfiguration? <==> (!r.Skipped? &&
      (FindConfigIdByCombo(feed, iface, cond).None? || FindConfigIdByCombo(feed, iface, cond) == Some(0)))
    ensures r.Draft? ==> (|r.points| == |editor|
      && r.editing == (Answered(Reads.LoadByDate(t, FindConfigIdByCombo(feed, iface, cond).value, date)) != []))
    ensures r.Draft? ==>
      r.points == Merged(LivePoints(editor), Reads.LoadByDate(t, FindConfigIdByCombo(feed, iface, cond).value, date))
    ensures r.Draft? ==> forall i :: 0 <= i < |editor| ==>
      r.points[i].id == editor[i].id.GetOr(0) && r.points[i].caption == editor[i].caption
      && r.points[i].channel == editor[i].channel && r.points[i].qty == editor[i].qty.GetOr(0)
  {
    if capacity.None? || capacity.value == "" || date.None? || date.value == "" then Skipped
    else
      var configId := FindConfigIdByCombo(feed, iface, cond);
      if configId.None? || configId.value == 0 then NoConfiguration
      else
        var res := Reads.LoadByDate(t, configId.value, date);
        var live := LivePoints(editor);
        var entries := Answered(res);
        HistoryMapEmpty(entries);
        Draft(Merged(live, res), |HistoryMap(entries)| > 0)
  }
}
