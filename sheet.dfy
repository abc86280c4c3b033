/** The buy-price sheet (js/tableEditor.js): condition names typed into the sheet are
    normalised, each row with a known combo gets its buy prices from the latest snapshot of
    its config, and the sheet is exported as CSV. */
module Sheet {
  import opened Wrappers
  import Text
  import Schema
  import Reads
  import Pricing

  // ---------------------------------------------------------------------------
  // normalizeCondition (js/tableEditor.js:4-12)

  /** `String(cond || '').toLowerCase().trim()`: a missing value reads as ''. */
  function Cleaned(cond: Option<string>): string {
    Text.Trim(Text.Lower(cond.GetOr("")), Text.JsSpace)
  }

  /** The condition the text names, matched in the order the source tries them. */
  function NormalizeCondition(cond: Option<string>): (r: Option<string>)
    ensures r.Some? ==> Canonical(r.value)
  {
    var c := Cleaned(cond);
    if c == "fr" || Text.Contains(c, "recert") then Some("recertified")
    else if c == "new" then Some("new")
    else if c == "cr" || Text.Contains(c, "used") then Some("used")
    else None
  }

  /** Text without surrounding space is its own trim. */
  lemma TrimPlain(s: string)
    requires forall i :: 0 <= i < |s| ==> !Text.JsSpace(s[i])
    ensures Text.Trim(s, Text.JsSpace) == s
  {
    Text.TrimCutsOnlySpaces(s, Text.JsSpace);
    var r := Text.Trim(s, Text.JsSpace);
    var k: nat :| Text.TrimmedAt(s, r, k, Text.JsSpace);
    assert k == 0 && |r| == |s|;
    assert r == s[0..|s|];
  }

  /** Text without an upper-case letter is its own lower case. */
  lemma LowerPlain(s: string)
    requires forall i :: 0 <= i < |s| ==> !('A' <= s[i] <= 'Z')
    ensures Text.Lower(s) == s
  {
  }

  predicate Canonical(c: string) {
    c == "new" || c == "used" || c == "recertified"
  }

  /** Lower-case letters are cleaned to themselves. */
  lemma CleanedPlain(c: string)
    requires forall i :: 0 <= i < |c| ==> 'a' <= c[i] <= 'z'
    ensures Cleaned(Some(c)) == c
  {
    LowerPlain(c);
    TrimPlain(c);
  }

  lemma NormalizeRecertified()
    ensures NormalizeCondition(Some("recertified")) == Some("recertified")
  {
    CleanRecertified();
    RecertPrefix(Some("recertified"));
  }

  /** Whatever begins with 'recert' once cleaned is recertified. */
  lemma RecertPrefix(cond: Option<string>)
    requires |Cleaned(cond)| >= 6 && Cleaned(cond)[..6] == "recert"
    ensures NormalizeCondition(cond) == Some("recertified")
  {
    Text.ContainsAt(Cleaned(cond), "recert", 0);
  }

  lemma CleanRecertified()
    ensures Cleaned(Some("recertified")) == "recertified"
    ensures "recertified"[..6] == "recert"
  {
    var c := "recertified";
    assert forall i :: 0 <= i < |c| ==> 'a' <= c[i] <= 'z';
    CleanedPlain(c);
  }

  lemma NormalizeNew()
    ensures NormalizeCondition(Some("new")) == Some("new")
  {
    CleanedPlain("new");
    assert !Text.Contains("new", "recert");
  }

  lemma NormalizeUsed()
    ensures NormalizeCondition(Some("used")) == Some("used")
  {
    CleanedPlain("used");
    Text.ContainsAt("used", "used", 0);
    assert !Text.Contains("used", "recert");
  }

  /** Each of the three canonical names normalises to itself; so normalising twice is
      normalising once. */
  lemma NormalizeCanonical(c: string)
    requires Canonical(c)
    ensures NormalizeCondition(Some(c)) == Some(c)
  {
    NormalizeRecertified();
    NormalizeNew();
    NormalizeUsed();
  }

  lemma NormalizeIdempotent(cond: Option<string>)
    requires NormalizeCondition(cond).Some?
    ensures NormalizeCondition(NormalizeCondition(cond)) == NormalizeCondition(cond)
  {
    NormalizeCanonical(NormalizeCondition(cond).value);
  }

  /** The first test wins: a text naming both a recertified and a used drive is
      recertified, and only the exact text 'new' is new. */
  lemma NormalizeOrder(cond: Option<string>)
    ensures Text.Contains(Cleaned(cond), "recert") ==> NormalizeCondition(cond) == Some("recertified")
    ensures NormalizeCondition(cond) == Some("new") <==> Cleaned(cond) == "new"
    ensures NormalizeCondition(cond).None? <==>
      (Cleaned(cond) !in {"fr", "new", "cr"} && !Text.Contains(Cleaned(cond), "recert") && !Text.Contains(Cleaned(cond), "used"))
  {
    if Cleaned(cond) == "new" {
      assert !Text.Contains("new", "recert");
    }
  }

  // ---------------------------------------------------------------------------
  // Cells

  /** A cell of the sheet: empty, text, or a number. */
  datatype Cell = Null | Str(s: string) | Num(x: real)

  /** JavaScript's conversions the sheet code relies on, which the model does not spell out:
      `Number(text)` (`None` for NaN), `String(number)` and `number.toFixed(2)`. */
  datatype Conversions = Conversions(parse: string -> Option<real>, show: real -> string, fixed: real -> string)

  /** `Number(cell)`; null is 0. */
  function ToNumber(c: Cell, cv: Conversions): Option<real> {
    match c
    case Null => Some(0.0)
    case Str(s) => cv.parse(s)
    case Num(x) => Some(x)
  }

  /** `String(cell)` of a cell that is not null. */
  function ToText(c: Cell, cv: Conversions): string {
    match c
    case Null => "null"
    case Str(s) => s
    case Num(x) => cv.show(x)
  }

  predicate Truthy(c: Cell) {
    match c
    case Null => false
    case Str(s) => s != ""
    case Num(x) => x != 0.0
  }

  /** `hot.getDataAtCell(r, j)`: null past the end of the row. */
  function CellAt(row: seq<Cell>, j: nat): Cell {
    if j < |row| then row[j] else Null
  }

  /** `hot.setDataAtCell(r, j, c)`: a row too short is padded with nulls. */
  function WithCell(row: seq<Cell>, j: nat, c: Cell): (r: seq<Cell>)
    ensures |r| == if j < |row| then |row| else j + 1
    ensures r[j] == c && forall k :: 0 <= k < |r| && k != j ==> r[k] == CellAt(row, k)
  {
    if j < |row| then row[j := c] else row + seq(j - |row|, _ => Null) + [c]
  }

  // ---------------------------------------------------------------------------
  // generateBuyPricesFromDB (js/tableEditor.js:13-66)

  /** What a row asks of the buy-price endpoint, or `None` when it is skipped before the
      request: a falsy capacity, interface or condition, a qty that is not positive, a
      condition that does not normalise, or an interface that is not text (its
      `toLowerCase()` throws inside the `try`). */
  datatype Request = Request(capacity: string, iface: string, cond: string, qty: real)

  function RequestOf(row: seq<Cell>, cv: Conversions): Option<Request> {
    var qty := ToNumber(CellAt(row, 1), cv).GetOr(0.0);
    var iface, capacity, condition := CellAt(row, 3), CellAt(row, 4), CellAt(row, 5);
    if !Truthy(capacity) || !Truthy(iface) || !Truthy(condition) || qty <= 0.0 then None
    else
      var norm := NormalizeCondition(Some(ToText(condition, cv)));
      if norm.None? || !iface.Str? then None
      else Some(Request(ToText(capacity, cv), Text.Lower(iface.s), norm.value, qty))
  }

  /** `Number(res.margin_percent) || 80` */
  function SheetMargin(margin: real): real {
    if margin == 0.0 then 80.0 else margin
  }

  /** The four prices a looked-up row gets: unit and total, low and high. */
  datatype BuyCells = BuyCells(lowUnit: real, highUnit: real, lowTotal: real, highTotal: real)

  function Prices(adjusted: real, margin: real, qty: real): BuyCells {
    var band := Pricing.BandPrices(adjusted, SheetMargin(margin));
    BuyCells(band.low, band.high, band.low * qty, band.high * qty)
  }

  /** The prices for request `q` given the endpoint's answer `p`: none unless it is a price. */
  function PricesFor(q: Request, p: Reads.BuyPrice): Option<BuyCells> {
    match p
    case Price(_, adjusted, margin) => Some(Prices(adjusted, margin, q.qty))
    case _ => None
  }

  /** The prices of a row, when its request is made and answers with a price. */
  function RowPrices(row: seq<Cell>, t: Schema.Tables, cv: Conversions): Option<BuyCells> {
    match RequestOf(row, cv)
    case None => None
    case Some(q) => PricesFor(q, Reads.BuyPriceOf(t, Some(q.capacity), Some(q.iface), Some(q.cond)))
  }

  /** Columns 7 to 10 of the row hold the four prices. */
  function Written(row: seq<Cell>, b: BuyCells, cv: Conversions): seq<Cell> {
    var r7 := WithCell(row, 7, Str(cv.fixed(b.lowUnit)));
    var r8 := WithCell(r7, 8, Str(cv.fixed(b.highUnit)));
    var r9 := WithCell(r8, 9, Str(cv.fixed(b.lowTotal)));
    WithCell(r9, 10, Str(cv.fixed(b.highTotal)))
  }

  function RowAfter(row: seq<Cell>, t: Schema.Tables, cv: Conversions): seq<Cell> {
    match RowPrices(row, t, cv)
    case None => row
    case Some(b) => Written(row, b, cv)
  }

  /** A skipped row is left as it is; a priced one changes only in columns 7 to 10, which
      hold the four prices in order. */
  lemma RowAfterCells(row: seq<Cell>, t: Schema.Tables, cv: Conversions)
    ensures RowPrices(row, t, cv).None? ==> RowAfter(row, t, cv) == row
    ensures RowPrices(row, t, cv).Some? ==>
      var r, b := RowAfter(row, t, cv), RowPrices(row, t, cv).value;
      |r| == (if |row| > 11 then |row| else 11)
      && (forall j :: 0 <= j < |r| && !(7 <= j <= 10) ==> r[j] == CellAt(row, j))
      && r[7] == Str(cv.fixed(b.lowUnit)) && r[8] == Str(cv.fixed(b.highUnit))
      && r[9] == Str(cv.fixed(b.lowTotal)) && r[10] == Str(cv.fixed(b.highTotal))
  {
    if RowPrices(row, t, cv).Some? {
      var b := RowPrices(row, t, cv).value;
      var r7 := WithCell(row, 7, Str(cv.fixed(b.lowUnit)));
      var r8 := WithCell(r7, 8, Str(cv.fixed(b.highUnit)));
      var r9 := WithCell(r8, 9, Str(cv.fixed(b.lowTotal)));
      var r := WithCell(r9, 10, Str(cv.fixed(b.highTotal)));
      assert r == RowAfter(row, t, cv);
      forall j | 0 <= j < |r| && !(7 <= j <= 10) ensures r[j] == CellAt(row, j) {
        assert r[j] == CellAt(r9, j) == CellAt(r8, j) == CellAt(r7, j) == CellAt(row, j);
      }
    }
  }

  /** An answer gives prices exactly when it is a price; the low unit price is the
      snapshot's adjusted price times its margin (80 when the margin is 0 or null), the high
      one 5% more, and the totals are the unit prices times the qty. */
  lemma PricesFromSnapshot(q: Request, p: Reads.BuyPrice)
    ensures PricesFor(q, p).Some? <==> p.Price?
    ensures p.Price? ==>
      var b := PricesFor(q, p).value;
      b.lowUnit * 100.0 == p.adjusted * SheetMargin(p.margin)
      && b.highUnit == b.lowUnit + b.lowUnit / 20.0
      && b.lowTotal == b.lowUnit * q.qty && b.highTotal == b.highUnit * q.qty
      && SheetMargin(p.margin) != 0.0
      && (p.margin == 0.0 ==> b.lowUnit == p.adjusted * 0.8)
  {
  }

  /** Only rows with a truthy capacity, interface and condition, a positive qty and a
      condition that normalises make a request; it asks for the lower-cased interface and
      the normalised condition. */
  lemma RequestConditions(row: seq<Cell>, cv: Conversions)
    ensures RequestOf(row, cv).Some? ==>
      Truthy(CellAt(row, 3)) && Truthy(CellAt(row, 4)) && Truthy(CellAt(row, 5))
      && ToNumber(CellAt(row, 1), cv).Some? && ToNumber(CellAt(row, 1), cv).value > 0.0
      && NormalizeCondition(Some(ToText(CellAt(row, 5), cv))) == Some(RequestOf(row, cv).value.cond)
      && RequestOf(row, cv).value.iface == Text.Lower(CellAt(row, 3).s)
      && Canonical(RequestOf(row, cv).value.cond)
  {
  }

  // ---------------------------------------------------------------------------
  // exportPegSheetToCSV (js/tableEditor.js:74-94)

  /** `String(cell).replace(/"/g, '""')` */
  function Doubled(s: string): (r: string)
    ensures |r| >= |s|
  {
    if s == [] then "" else (if s[0] == '"' then "\"\"" else [s[0]]) + Doubled(s[1..])
  }

  /** A cell of the CSV text: null is empty, anything else quoted. */
  function CsvCell(c: Cell, cv: Conversions): string {
    if c.Null? then "" else "\"" + Doubled(ToText(c, cv)) + "\""
  }

  function CsvCells(row: seq<Cell>, cv: Conversions): (r: seq<string>)
    ensures |r| == |row| && forall j :: 0 <= j < |row| ==> r[j] == CsvCell(row[j], cv)
  {
    seq(|row|, j requires 0 <= j < |row| => CsvCell(row[j], cv))
  }

  function CsvLine(row: seq<Cell>, cv: Conversions): string {
    Text.Join(CsvCells(row, cv), ",") + "\n"
  }

  function CsvLines(data: seq<seq<Cell>>, cv: Conversions): string
    decreases |data|
  {
    if data == [] then "" else CsvLines(data[..|data| - 1], cv) + CsvLine(data[|data| - 1], cv)
  }

  /** The CSV text: the headers joined unquoted, then one line per row. */
  function Csv(headers: seq<string>, data: seq<seq<Cell>>, cv: Conversions): string {
    HeaderLine(headers) + CsvLines(data, cv)
  }

  function HeaderLine(headers: seq<string>): string {
    Text.Join(headers, ",") + "\n"
  }

  /** The `csv +=` loop over the rows. */
  method ExportCsv(headers: seq<string>, data: seq<seq<Cell>>, cv: Conversions) returns (csv: string)
    ensures csv == Csv(headers, data, cv)
  {
    var header := HeaderLine(headers);
    csv := header;
    var i := 0;
    while i < |data|
      invariant 0 <= i <= |data|
      invariant csv == header + CsvLines(data[..i], cv)
    {
      var line := CsvLine(data[i], cv);
      CsvLinesStep(data, i, cv);
      Appended(header, CsvLines(data[..i], cv), line);
      csv := csv + line;
      i := i + 1;
    }
    assert data[..|data|] == data;
  }

  lemma Appended(a: string, b: string, c: string)
    ensures (a + b) + c == a + (b + c)
  {
  }

  lemma CsvLinesStep(data: seq<seq<Cell>>, i: nat, cv: Conversions)
    requires i < |data|
    ensures CsvLines(data[..i + 1], cv) == CsvLines(data[..i], cv) + CsvLine(data[i], cv)
  {
    var p := data[..i + 1];
    assert p[..|p| - 1] == data[..i] && p[|p| - 1] == data[i];
  }

  /** Reading a quoted field back: a pair of quotes is one quote. */
  function Undoubled(s: string): string
    decreases |s|
  {
    if s == [] then ""
    else if |s| >= 2 && s[0] == '"' && s[1] == '"' then "\"" + Undoubled(s[2..])
    else [s[0]] + Undoubled(s[1..])
  }

  /** The doubling loses nothing: undoubling gives the cell's text back. */
  lemma {:induction false} DoubledRoundTrip(s: string)
    ensures Undoubled(Doubled(s)) == s
  {
    if s != [] {
      DoubledRoundTrip(s[1..]);
      var rest := Doubled(s[1..]);
      if s[0] == '"' {
        assert Doubled(s) == "\"\"" + rest;
        assert (("\"\"" + rest)[2..]) == rest;
      } else {
        assert Doubled(s) == [s[0]] + rest;
        assert ([s[0]] + rest)[1..] == rest;
      }
      assert s == [s[0]] + s[1..];
    }
  }

  /** Quotes inside a quoted field come in pairs (section 2, rule 7 of RFC 4180): the
      doubled text splits into single non-quote characters and `""` pairs. */
  predicate QuotesPaired(s: string)
    decreases |s|
  {
    s == [] || (s[0] != '"' && QuotesPaired(s[1..])) || (|s| >= 2 && s[..2] == "\"\"" && QuotesPaired(s[2..]))
  }

  lemma {:induction false} DoubledQuotesPaired(s: string)
    ensures QuotesPaired(Doubled(s))
  {
    if s != [] {
      DoubledQuotesPaired(s[1..]);
      var rest := Doubled(s[1..]);
      if s[0] == '"' {
        var d := "\"\"" + rest;
        assert d[..2] == "\"\"" && d[2..] == rest;
      } else {
        var d := [s[0]] + rest;
        assert d[1..] == rest;
      }
    }
  }

  /** A quoted cell reads back as the cell's text. */
  lemma CsvCellRoundTrip(c: Cell, cv: Conversions)
    requires !c.Null?
    ensures var q := CsvCell(c, cv);
      |q| >= 2 && q[0] == '"' && q[|q| - 1] == '"' && Undoubled(q[1..|q| - 1]) == ToText(c, cv)
      && QuotesPaired(q[1..|q| - 1])
  {
    var q := CsvCell(c, cv);
    var inner := Doubled(ToText(c, cv));
    assert q[1..|q| - 1] == inner;
    DoubledRoundTrip(ToText(c, cv));
    DoubledQuotesPaired(ToText(c, cv));
  }

  /** The text ends with a line break after the header line and after each row's line. */
  lemma {:induction false} CsvLinesEnd(data: seq<seq<Cell>>, cv: Conversions)
    ensures data != [] ==> |CsvLines(data, cv)| > 0 && CsvLines(data, cv)[|CsvLines(data, cv)| - 1] == '\n'
    ensures data == [] ==> CsvLines(data, cv) == ""
  {
  }

  // ---------------------------------------------------------------------------
  // The sheet

  class PegSheet {
    var rows: seq<seq<Cell>>

    constructor(data: seq<seq<Cell>>)
      ensures rows == data
    {
      rows := data;
    }

    /** `generateBuyPricesFromDB`: every row is looked up in turn and written back when it
        gets a price; the lookups read tables the loop does not change. */
    method GenerateBuyPrices(t: Schema.Tables, cv: Conversions)
      modifies this
      ensures |rows| == |old(rows)|
      ensures forall r :: 0 <= r < |rows| ==> rows[r] == RowAfter(old(rows)[r], t, cv)
    {
      var n := |rows|;
      ghost var before := rows;
      for r := 0 to n
        invariant |rows| == n
        invariant forall k :: 0 <= k < r ==> rows[k] == RowAfter(before[k], t, cv)
        invariant forall k :: r <= k < n ==> rows[k] == before[k]
      {
        var row := rows[r];
        var prices := RowPrices(row, t, cv);
        if prices.Some? {
          var b := prices.value;
          row := WithCell(row, 7, Str(cv.fixed(b.lowUnit)));
          row := WithCell(row, 8, Str(cv.fixed(b.highUnit)));
          row := WithCell(row, 9, Str(cv.fixed(b.lowTotal)));
          row := WithCell(row, 10, Str(cv.fixed(b.highTotal)));
          rows := rows[r := row];
        }
      }
    }

    /** `exportPegSheetToCSV` builds its text from the current rows. */
    method Export(headers: seq<string>, cv: Conversions) returns (csv: string)
      ensures csv == Csv(headers, rows, cv)
    {
      csv := ExportCsv(headers, rows, cv);
    }
  }
}
