/** `formatTableAsText` and the row shaping that `console.table` does before calling it. */
module Table {
  import opened JsStrings
  import opened JsValues

  /** At most this many data rows are drawn (LIMITS.MAX_TABLE_ROWS). */
  const MaxRows: nat := 100
  /** Column widths are clamped to this range. */
  const MinWidth: nat := 8
  const MaxWidth: nat := 50

  const IndexHeader := "(index)"
  const EmptyTable := "Table: Empty"

  // Box-drawing characters of the grid.
  const Horizontal := '\U{2500}'
  const TopLeft := '\U{250C}'
  const TopMid := '\U{252C}'
  const TopRight := '\U{2510}'
  const MidLeft := '\U{251C}'
  const MidMid := '\U{253C}'
  const MidRight := '\U{2524}'
  const BottomLeft := '\U{2514}'
  const BottomMid := '\U{2534}'
  const BottomRight := '\U{2518}'

  // ---------------------------------------------------------------------------------------
  // Rows and their cells

  datatype Field = Field(key: string, value: Value)

  /** A row of the table: an element of the data array as it is, or an object that
      `console.table` builds itself (`{index, value}` or `{index, key, value}`). */
  datatype Row = Raw(v: Value) | Synth(fields: seq<Field>)

  predicate RowInHeap(h: Heap, row: Row) {
    match row
    case Raw(v) => InHeap(h, v)
    case Synth(fields) => forall i :: 0 <= i < |fields| ==> InHeap(h, fields[i].value)
  }

  function FindField(fields: seq<Field>, key: string): (r: Option<Value>)
    ensures r.None? <==> forall i :: 0 <= i < |fields| ==> fields[i].key != key
    ensures r.Some? ==> exists i :: (0 <= i < |fields| && fields[i] == Field(key, r.value)
                                     && forall j :: 0 <= j < i ==> fields[j].key != key)
  {
    if |fields| == 0 then None
    else if fields[0].key == key then Some(fields[0].value)
    else
      var r := FindField(fields[1..], key);
      assert forall i :: 1 <= i < |fields| ==> fields[i] == fields[1..][i - 1];
      r
  }

  /** The text a property value shows in a cell: `String(x)`, or "" for undefined. */
  function CellValueText(h: Heap, x: Value): string
    requires InHeap(h, x)
  {
    if x == Undefined then "" else ToJsString(h, x)
  }

  /** The text of one cell as the source computes it,
      `row && row[header] !== undefined ? String(row[header]) : ''`; None when reading the
      property throws. */
  function CellText(h: Heap, row: Row, header: string): (r: Option<string>)
    requires Closed(h) && RowInHeap(h, row)
  {
    match row
    case Raw(v) =>
      if !Truthy(v) then Some("")
      else (match GetProperty(h, v, header)
            case Throwing => None
            case Data(x) => Some(CellValueText(h, x)))
    case Synth(fields) =>
      var x := FindField(fields, header);
      Some(if x.None? then "" else CellValueText(h, x.value))
  }

  /** One readable property of a row: its key and the text it shows, or None when its
      getter throws. */
  datatype Read = Read(key: string, text: Option<string>)

  /** A row as the table sees it: its readable properties in order. A falsy row has none. */
  type RowView = seq<Read>

  function View(h: Heap, row: Row): RowView
    requires Closed(h) && RowInHeap(h, row)
  {
    match row
    case Synth(fields) =>
      seq(|fields|, i requires 0 <= i < |fields| => Read(fields[i].key, Some(CellValueText(h, fields[i].value))))
    case Raw(v) =>
      if !Truthy(v) then []
      else match v
        case Str(s) => seq(|s|, i requires 0 <= i < |s| => Read(NatToString(i), Some([s[i]])))
        case Ref(a) =>
          (match h[a].shape
           case ArrayOf(items) =>
             seq(|items|, i requires 0 <= i < |items| => Read(NatToString(i), Some(CellValueText(h, items[i]))))
           case Plain(props) => PropsView(h, props)
           case ErrorObj(_, message, stack) => PropsView(h, ErrorProps(message, stack))
           case _ => [])
        case Func(name, _) => PropsView(h, FunctionProps(name))
        case _ => []
  }

  /** The view of an object with own properties `props`, in order. */
  function PropsView(h: Heap, props: seq<Prop>): RowView
    requires forall i :: 0 <= i < |props| ==> props[i].getter.Data? ==> InHeap(h, props[i].getter.value)
  {
    seq(|props|, i requires 0 <= i < |props| =>
      Read(props[i].key, if props[i].getter.Throwing? then None else Some(CellValueText(h, props[i].getter.value))))
  }

  /** The cell a row shows under `header`: the first property with that key, or "" when
      there is none. */
  function Cell(row: RowView, header: string): Option<string> {
    if |row| == 0 then Some("")
    else if row[0].key == header then row[0].text
    else Cell(row[1..], header)
  }

  /** The first property with the header's key gives the cell. */
  lemma {:induction false} CellAt(row: RowView, header: string, i: nat)
    requires i < |row| && row[i].key == header
    requires forall j :: 0 <= j < i ==> row[j].key != header
    ensures Cell(row, header) == row[i].text
  {
    if i > 0 {
      assert row[0].key != header;
      CellAt(row[1..], header, i - 1);
    }
  }

  /** A row without the header's key shows "" under it. */
  lemma {:induction false} CellAbsent(row: RowView, header: string)
    requires forall i :: 0 <= i < |row| ==> row[i].key != header
    ensures Cell(row, header) == Some("")
  {
    if |row| > 0 {
      assert row[0].key != header;
      CellAbsent(row[1..], header);
    }
  }

  // ---------------------------------------------------------------------------------------
  // The grid

  /** Every cell of column `header` in the first `n` rows can be read. */
  predicate ColumnReadable(rows: seq<RowView>, header: string, n: nat)
    requires n <= |rows|
  {
    forall i :: 0 <= i < n ==> Cell(rows[i], header).Some?
  }

  /** Every cell of the first `n` rows can be read. */
  predicate Readable(rows: seq<RowView>, headers: seq<string>, n: nat)
    requires n <= |rows|
  {
    forall j :: 0 <= j < |headers| ==> ColumnReadable(rows, headers[j], n)
  }

  /** The cells of the first `n` rows include those of the first `m`. */
  lemma ReadablePrefix(rows: seq<RowView>, headers: seq<string>, n: nat, m: nat)
    requires m <= n <= |rows| && Readable(rows, headers, n)
    ensures Readable(rows, headers, m)
  {
    forall j | 0 <= j < |headers| ensures ColumnReadable(rows, headers[j], m) {
      assert ColumnReadable(rows, headers[j], n);
    }
  }

  function Max(a: nat, b: nat): nat {
    if a < b then b else a
  }

  function Clamp(x: nat): (r: nat)
    ensures MinWidth <= r <= MaxWidth
    ensures MinWidth <= x <= MaxWidth ==> r == x
  {
    if x < MinWidth then MinWidth else if x > MaxWidth then MaxWidth else x
  }

  /** The length of the longest of the header and the cells of its column in the first
      `m` rows. */
  function Longest(rows: seq<RowView>, header: string, m: nat): nat
    requires m <= |rows| && ColumnReadable(rows, header, m)
    decreases m
  {
    if m == 0 then |header|
    else Max(Longest(rows, header, m - 1), |Cell(rows[m - 1], header).value|)
  }

  /** The widths of the columns: the longest text of each column, clamped to 8..50. */
  function Widths(rows: seq<RowView>, headers: seq<string>, n: nat): (ws: seq<nat>)
    requires n <= |rows| && Readable(rows, headers, n)
    ensures |ws| == |headers|
  {
    seq(|headers|, j requires 0 <= j < |headers| => Clamp(Longest(rows, headers[j], n)))
  }

  /** A cell padded to its column: a longer text keeps its first `w - 3` characters and
      gets "...". */
  function FitCell(v: string, w: nat): string
    requires w >= 3
  {
    PadEnd(if |v| > w then v[..w - 3] + "..." else v, w)
  }

  function Dashes(ws: seq<nat>): seq<string> {
    seq(|ws|, j requires 0 <= j < |ws| => Repeat(Horizontal, ws[j] + 2))
  }

  /** A horizontal rule: one run of dashes per column, two wider than the column. */
  function Border(left: char, mid: char, right: char, ws: seq<nat>): string {
    [left] + Join(Dashes(ws), [mid]) + [right]
  }

  function PaddedHeaders(headers: seq<string>, ws: seq<nat>): (r: seq<string>)
    requires |ws| == |headers|
    ensures |r| == |headers|
  {
    seq(|headers|, j requires 0 <= j < |headers| => PadEnd(headers[j], ws[j]))
  }

  /** The header line; a header is padded but never cut. */
  function HeaderLine(headers: seq<string>, ws: seq<nat>): string
    requires |ws| == |headers|
  {
    "\U{2502} " + Join(PaddedHeaders(headers, ws), " \U{2502} ") + " \U{2502}"
  }

  /** The texts of one row, one per header. */
  function RowTexts(row: RowView, headers: seq<string>): (cells: seq<string>)
    requires forall j :: 0 <= j < |headers| ==> Cell(row, headers[j]).Some?
    ensures |cells| == |headers|
  {
    seq(|headers|, j requires 0 <= j < |headers| => Cell(row, headers[j]).value)
  }

  function FittedCells(cells: seq<string>, ws: seq<nat>): (r: seq<string>)
    requires |cells| == |ws| && forall j :: 0 <= j < |ws| ==> ws[j] >= MinWidth
    ensures |r| == |cells|
  {
    seq(|cells|, j requires 0 <= j < |cells| => FitCell(cells[j], ws[j]))
  }

  function RowLine(cells: seq<string>, ws: seq<nat>): string
    requires |cells| == |ws| && forall j :: 0 <= j < |ws| ==> ws[j] >= MinWidth
  {
    "\U{2502} " + Join(FittedCells(cells, ws), " \U{2502} ") + " \U{2502}"
  }

  /** The lines of the first `m` rows, each followed by a newline. */
  function RowLines(rows: seq<RowView>, headers: seq<string>, ws: seq<nat>, m: nat): string
    requires m <= |rows| && Readable(rows, headers, m)
    requires |ws| == |headers| && forall j :: 0 <= j < |ws| ==> ws[j] >= MinWidth
    decreases m
  {
    if m == 0 then ""
    else RowLines(rows, headers, ws, m - 1) + (RowLine(RowTexts(rows[m - 1], headers), ws) + "\n")
  }

  function Summary(total: nat, shown: nat): string {
    if total > shown then "... (" + NatToString(total - shown) + " more rows)" else ""
  }

  /** How many rows are drawn: all of them, up to 100. */
  function Shown(rows: seq<RowView>): (n: nat)
    ensures n <= |rows| && n <= MaxRows
    ensures n == |rows| || n == MaxRows
  {
    if |rows| < MaxRows then |rows| else MaxRows
  }

  /** What precedes the rows: the title, the top border, the header line and the rule
      under it, each on its own line. */
  function Head(headers: seq<string>, ws: seq<nat>): string
    requires |ws| == |headers|
  {
    "Table:\n"
    + Border(TopLeft, TopMid, TopRight, ws) + "\n"
    + HeaderLine(headers, ws) + "\n"
    + Border(MidLeft, MidMid, MidRight, ws) + "\n"
  }

  /** What follows the rows: the bottom border and the count of rows left out. */
  function Foot(ws: seq<nat>, total: nat, shown: nat): string {
    Border(BottomLeft, BottomMid, BottomRight, ws) + "\n" + Summary(total, shown)
  }

  /** The text of a table whose drawn cells can all be read. */
  function Render(rows: seq<RowView>, headers: seq<string>): string
    requires Readable(rows, headers, Shown(rows))
  {
    var n := Shown(rows);
    var ws := Widths(rows, headers, n);
    Head(headers, ws) + RowLines(rows, headers, ws, n) + Foot(ws, |rows|, n)
  }

  /** `formatTableAsText(rows, headers)`; None when reading a cell throws. */
  function TableSpec(rows: seq<RowView>, headers: seq<string>): Option<string> {
    if |rows| == 0 || |headers| == 0 then Some(EmptyTable)
    else if !Readable(rows, headers, Shown(rows)) then None
    else Some(Render(rows, headers))
  }

  // ---------------------------------------------------------------------------------------
  // formatTableAsText

  /** The width loop of `formatTableAsText` for one header; None when a cell throws. */
  method ColumnWidth(rows: seq<RowView>, header: string, maxRows: nat) returns (w: Option<nat>)
    requires maxRows <= |rows|
    ensures w.Some? <==> ColumnReadable(rows, header, maxRows)
    ensures w.Some? ==> w.value == Clamp(Longest(rows, header, maxRows))
  {
    var maxWidth := |header|;
    var i := 0;
    while i < maxRows
      invariant 0 <= i <= maxRows
      invariant ColumnReadable(rows, header, i)
      invariant maxWidth == Longest(rows, header, i)
    {
      var value := Cell(rows[i], header);
      if value.None? {
        return None;
      }
      maxWidth := Max(maxWidth, |value.value|);
      i := i + 1;
    }
    return Some(Clamp(maxWidth));
  }

  /** The `columnWidths` map of `formatTableAsText`; None when a cell throws. */
  method ColumnWidths(rows: seq<RowView>, headers: seq<string>, maxRows: nat) returns (r: Option<seq<nat>>)
    requires maxRows <= |rows|
    ensures r.Some? <==> Readable(rows, headers, maxRows)
    ensures r.Some? ==> r.value == Widths(rows, headers, maxRows)
  {
    var columnWidths: seq<nat> := [];
    var j := 0;
    while j < |headers|
      invariant 0 <= j <= |headers| && |columnWidths| == j
      invariant forall jj :: 0 <= jj < j ==> ColumnReadable(rows, headers[jj], maxRows)
      invariant forall jj :: 0 <= jj < j ==> columnWidths[jj] == Clamp(Longest(rows, headers[jj], maxRows))
    {
      var w := ColumnWidth(rows, headers[j], maxRows);
      if w.None? {
        return None;
      }
      columnWidths := columnWidths + [w.value];
      j := j + 1;
    }
    return Some(columnWidths);
  }

  /** The row loop of `formatTableAsText`: one line per drawn row appended to `text`. */
  method AppendRows(rows: seq<RowView>, headers: seq<string>, ws: seq<nat>, maxRows: nat, text: string)
    returns (tableText: string)
    requires maxRows <= |rows| && Readable(rows, headers, maxRows)
    requires |ws| == |headers| && forall j :: 0 <= j < |ws| ==> ws[j] >= MinWidth
    ensures tableText == text + RowLines(rows, headers, ws, maxRows)
  {
    tableText := text;
    var i := 0;
    while i < maxRows
      invariant 0 <= i <= maxRows && Readable(rows, headers, i)
      invariant tableText == text + RowLines(rows, headers, ws, i)
    {
      ReadablePrefix(rows, headers, maxRows, i + 1);
      var rowText := RowLine(RowTexts(rows[i], headers), ws);
      AppendAssoc(text, RowLines(rows, headers, ws, i), rowText + "\n");
      tableText := tableText + (rowText + "\n");
      i := i + 1;
    }
  }

  /** `formatTableAsText(rows, headers)`. */
  method FormatTableAsText(rows: seq<RowView>, headers: seq<string>) returns (r: Option<string>)
    ensures r == TableSpec(rows, headers)
  {
    if |rows| == 0 || |headers| == 0 {
      return Some(EmptyTable);
    }
    var maxRows := if |rows| < MaxRows then |rows| else MaxRows;
    assert maxRows == Shown(rows);
    var widths := ColumnWidths(rows, headers, maxRows);
    if widths.None? {
      return None;
    }
    var tableText := DrawTable(rows, headers, widths.value, maxRows);
    return Some(tableText);
  }

  /** The drawing half of `formatTableAsText`, once the widths are known. */
  method DrawTable(rows: seq<RowView>, headers: seq<string>, columnWidths: seq<nat>, maxRows: nat)
    returns (tableText: string)
    requires maxRows == Shown(rows) && Readable(rows, headers, maxRows)
    requires columnWidths == Widths(rows, headers, maxRows)
    ensures tableText == Render(rows, headers)
  {
    tableText := Head(headers, columnWidths);
    tableText := AppendRows(rows, headers, columnWidths, maxRows, tableText);
    tableText := tableText + Foot(columnWidths, |rows|, maxRows);
  }

  // ---------------------------------------------------------------------------------------
  // Reading rows through their views

  /** `String(i)` tells indices apart, and the key it gives names index `i` again. */
  lemma IndexKey(i: nat, k: nat)
    ensures ArrayIndex(NatToString(i)) == Some(i)
    ensures NatToString(i) == NatToString(k) ==> i == k
  {
    NatToStringRoundTrip(i);
    NatToStringRoundTrip(k);
  }

  /** A row's view shows, under every header, the very cell the source reads from the row
      itself, including the reads that throw. */
  lemma ViewAgrees(h: Heap, row: Row, header: string)
    requires Closed(h) && RowInHeap(h, row)
    ensures Cell(View(h, row), header) == CellText(h, row, header)
  {
    match row
    case Synth(fields) =>
      SynthAgrees(h, fields, header);
    case Raw(v) =>
      if !Truthy(v) {
        assert View(h, row) == [];
      } else {
        match v
        case Str(s) =>
          IndexedAgrees(header, |s|, View(h, row), i requires 0 <= i < |s| => Some([s[i]]));
        case Ref(a) =>
          match h[a].shape {
            case ArrayOf(items) =>
              IndexedAgrees(header, |items|, View(h, row), i requires 0 <= i < |items| => Some(CellValueText(h, items[i])));
            case Plain(props) =>
              PlainAgrees(h, props, header, View(h, row));
            case ErrorObj(_, message, stack) =>
              PlainAgrees(h, ErrorProps(message, stack), header, View(h, row));
            case _ =>
              assert View(h, row) == [];
          }
        case Func(name, _) =>
          PlainAgrees(h, FunctionProps(name), header, View(h, row));
        case _ =>
      }
  }

  lemma SynthAgrees(h: Heap, fields: seq<Field>, header: string)
    requires Closed(h) && forall i :: 0 <= i < |fields| ==> InHeap(h, fields[i].value)
    ensures var x := FindField(fields, header);
      Cell(View(h, Synth(fields)), header) == Some(if x.None? then "" else CellValueText(h, x.value))
  {
    var view := View(h, Synth(fields));
    var x := FindField(fields, header);
    if x.Some? {
      var i :| 0 <= i < |fields| && fields[i] == Field(header, x.value)
               && forall j :: 0 <= j < i ==> fields[j].key != header;
      assert view[i].key == header && forall j :: 0 <= j < i ==> view[j].key != header;
      CellAt(view, header, i);
    } else {
      assert forall i :: 0 <= i < |view| ==> view[i].key != header;
      CellAbsent(view, header);
    }
  }

  lemma PlainAgrees(h: Heap, props: seq<Prop>, header: string, view: RowView)
    requires forall i :: 0 <= i < |props| ==> props[i].getter.Data? ==> InHeap(h, props[i].getter.value)
    requires |view| == |props|
    requires forall i :: 0 <= i < |props| ==>
      view[i] == Read(props[i].key, if props[i].getter.Throwing? then None else Some(CellValueText(h, props[i].getter.value)))
    ensures var g := FindProp(props, header);
      Cell(view, header) == if g.None? then Some("")
                            else if g.value.Throwing? then None
                            else Some(CellValueText(h, g.value.value))
  {
    var g := FindProp(props, header);
    if g.Some? {
      var i :| 0 <= i < |props| && props[i].key == header && props[i].getter == g.value
               && forall j :: 0 <= j < i ==> props[j].key != header;
      CellAt(view, header, i);
    } else {
      CellAbsent(view, header);
    }
  }

  /** The view of an array or a string, whose keys are the indices in order: the cell under
      a key naming an index in range is that element's, and any other key shows "". */
  lemma IndexedAgrees(header: string, n: nat, view: RowView, text: nat --> Option<string>)
    requires |view| == n
    requires forall i :: 0 <= i < n ==> text.requires(i) && view[i] == Read(NatToString(i), text(i))
    ensures var idx := ArrayIndex(header);
      Cell(view, header) == if idx.Some? && idx.value < n then text(idx.value) else Some("")
  {
    var idx := ArrayIndex(header);
    if idx.Some? && idx.value < n {
      var k := idx.value;
      forall j | 0 <= j < k
        ensures view[j].key != header
      {
        IndexKey(j, k);
      }
      CellAt(view, header, k);
    } else {
      forall j | 0 <= j < n
        ensures view[j].key != header
      {
        IndexKey(j, j);
      }
      CellAbsent(view, header);
    }
  }

  // ---------------------------------------------------------------------------------------
  // Column widths and cells

  /** The longest text of a column bounds the header and every cell, and is one of them. */
  lemma {:induction false} LongestIsMax(rows: seq<RowView>, header: string, m: nat)
    requires m <= |rows| && ColumnReadable(rows, header, m)
    ensures |header| <= Longest(rows, header, m)
    ensures forall i :: 0 <= i < m ==> |Cell(rows[i], header).value| <= Longest(rows, header, m)
    ensures Longest(rows, header, m) == |header|
            || exists i :: 0 <= i < m && Longest(rows, header, m) == |Cell(rows[i], header).value|
    decreases m
  {
    if m > 0 {
      LongestIsMax(rows, header, m - 1);
    }
  }

  function Min(a: nat, b: nat): nat {
    if a < b then a else b
  }

  /** Each column is 8 to 50 wide, at least as wide as its header and each of its drawn cells
      up to 50, and no wider than needed: it is 8, 50, or the length of one of those texts. */
  lemma WidthFits(rows: seq<RowView>, headers: seq<string>, n: nat, j: nat)
    requires n <= |rows| && Readable(rows, headers, n) && j < |headers|
    ensures var w := Widths(rows, headers, n)[j];
      && MinWidth <= w <= MaxWidth
      && Min(|headers[j]|, MaxWidth) <= w
      && (forall i :: 0 <= i < n ==> Min(|Cell(rows[i], headers[j]).value|, MaxWidth) <= w)
      && (w == MinWidth || w == MaxWidth || w == |headers[j]|
          || exists i :: 0 <= i < n && w == |Cell(rows[i], headers[j]).value|)
  {
    assert ColumnReadable(rows, headers[j], n);
    LongestIsMax(rows, headers[j], n);
  }

  /** A fitted cell is exactly as wide as its column: a short text is padded with spaces and
      a long one is cut to `w - 3` characters followed by "...". */
  lemma FitCellShape(v: string, w: nat)
    requires w >= 3
    ensures |FitCell(v, w)| == w
    ensures |v| <= w ==> FitCell(v, w)[..|v|] == v && forall i :: |v| <= i < w ==> FitCell(v, w)[i] == ' '
    ensures |v| > w ==> FitCell(v, w) == v[..w - 3] + "..."
  {
  }

  /** A drawn cell is cut exactly when its text is longer than 50: it is then shown as its
      first 47 characters and "..."; a shorter text is only padded. */
  lemma DrawnCell(rows: seq<RowView>, headers: seq<string>, i: nat, j: nat)
    requires Readable(rows, headers, Shown(rows)) && i < Shown(rows) && j < |headers|
    ensures var w := Widths(rows, headers, Shown(rows))[j];
      var v := Cell(rows[i], headers[j]).value;
      && (|v| <= MaxWidth ==> |v| <= w && FitCell(v, w) == PadEnd(v, w))
      && (|v| > MaxWidth ==> w == MaxWidth && FitCell(v, w) == v[..MaxWidth - 3] + "...")
  {
    WidthFits(rows, headers, Shown(rows), j);
  }

  // ---------------------------------------------------------------------------------------
  // Line widths

  /** The width every line of a grid with columns `ws` has: each column plus its two
      padding spaces and one bar, and the closing bar. */
  function LineWidth(ws: seq<nat>): nat {
    Sum(ws) + 3 * |ws| + 1
  }

  lemma {:induction false} SumShift(ws: seq<nat>, lens: seq<nat>, c: nat)
    requires |lens| == |ws| && forall j :: 0 <= j < |ws| ==> lens[j] == ws[j] + c
    ensures Sum(lens) == Sum(ws) + c * |ws|
  {
    if |ws| > 0 {
      SumShift(ws[1..], lens[1..], c);
    }
  }

  lemma {:induction false} SumMono(ws: seq<nat>, lens: seq<nat>)
    requires |lens| == |ws| && forall j :: 0 <= j < |ws| ==> ws[j] <= lens[j]
    ensures Sum(ws) <= Sum(lens)
    ensures (exists j :: 0 <= j < |ws| && ws[j] < lens[j]) ==> Sum(ws) < Sum(lens)
  {
    if |ws| > 0 {
      SumMono(ws[1..], lens[1..]);
      if exists j :: 0 <= j < |ws| && ws[j] < lens[j] {
        var j :| 0 <= j < |ws| && ws[j] < lens[j];
        if j > 0 {
          assert ws[1..][j - 1] < lens[1..][j - 1];
        }
      }
    }
  }

  lemma BorderWidth(left: char, mid: char, right: char, ws: seq<nat>)
    requires |ws| > 0
    ensures |Border(left, mid, right, ws)| == LineWidth(ws)
  {
    var lens := seq(|ws|, j requires 0 <= j < |ws| => ws[j] + 2);
    JoinLength(Dashes(ws), [mid], lens);
    SumShift(ws, lens, 2);
  }

  lemma RowLineWidth(cells: seq<string>, ws: seq<nat>)
    requires |cells| == |ws| > 0 && forall j :: 0 <= j < |ws| ==> ws[j] >= MinWidth
    ensures |RowLine(cells, ws)| == LineWidth(ws)
  {
    forall j | 0 <= j < |ws|
      ensures |FittedCells(cells, ws)[j]| == ws[j]
    {
      FitCellShape(cells[j], ws[j]);
    }
    JoinLength(FittedCells(cells, ws), " \U{2502} ", ws);
  }

  /** The header line is as wide as the other lines when no header is longer than its
      column, and wider otherwise: headers are padded but never cut. */
  lemma HeaderLineWidth(headers: seq<string>, ws: seq<nat>)
    requires |ws| == |headers| > 0
    ensures (forall j :: 0 <= j < |ws| ==> |headers[j]| <= ws[j]) ==> |HeaderLine(headers, ws)| == LineWidth(ws)
    ensures (exists j :: 0 <= j < |ws| && |headers[j]| > ws[j]) ==> |HeaderLine(headers, ws)| > LineWidth(ws)
  {
    var lens := seq(|ws|, j requires 0 <= j < |ws| => Max(|headers[j]|, ws[j]));
    forall j | 0 <= j < |ws|
      ensures |PaddedHeaders(headers, ws)[j]| == lens[j]
    {
    }
    JoinLength(PaddedHeaders(headers, ws), " \U{2502} ", lens);
    SumMono(ws, lens);
    if forall j :: 0 <= j < |ws| ==> |headers[j]| <= ws[j] {
      assert lens == ws;
    }
  }

  /** In a drawn table the borders and every row line have the same width, and so does the
      header line exactly when no header is longer than 50. */
  lemma GridAligned(rows: seq<RowView>, headers: seq<string>)
    requires |headers| > 0 && Readable(rows, headers, Shown(rows))
    ensures var ws := Widths(rows, headers, Shown(rows));
      && |Border(TopLeft, TopMid, TopRight, ws)| == LineWidth(ws)
      && |Border(MidLeft, MidMid, MidRight, ws)| == LineWidth(ws)
      && |Border(BottomLeft, BottomMid, BottomRight, ws)| == LineWidth(ws)
      && (forall i :: 0 <= i < Shown(rows) ==> |RowLine(RowTexts(rows[i], headers), ws)| == LineWidth(ws))
      && ((forall j :: 0 <= j < |headers| ==> |headers[j]| <= MaxWidth) <==> |HeaderLine(headers, ws)| == LineWidth(ws))
  {
    var n := Shown(rows);
    var ws := Widths(rows, headers, n);
    BorderWidth(TopLeft, TopMid, TopRight, ws);
    BorderWidth(MidLeft, MidMid, MidRight, ws);
    BorderWidth(BottomLeft, BottomMid, BottomRight, ws);
    forall i | 0 <= i < n
      ensures |RowLine(RowTexts(rows[i], headers), ws)| == LineWidth(ws)
    {
      RowLineWidth(RowTexts(rows[i], headers), ws);
    }
    forall j | 0 <= j < |headers|
      ensures |headers[j]| <= MaxWidth ==> |headers[j]| <= ws[j]
      ensures |headers[j]| > MaxWidth ==> |headers[j]| > ws[j]
    {
      WidthFits(rows, headers, n, j);
    }
    HeaderLineWidth(headers, ws);
  }

  // ---------------------------------------------------------------------------------------
  // Row limit

  lemma FootEnding(pre: string, ws: seq<nat>, total: nat, shown: nat)
    ensures total <= shown ==> EndsWith(pre + Foot(ws, total, shown), [BottomRight, '\n'])
    ensures total > shown ==>
      EndsWith(pre + Foot(ws, total, shown), "... (" + NatToString(total - shown) + " more rows)")
  {
    var dashes := Join(Dashes(ws), [BottomMid]);
    var f := pre + Foot(ws, total, shown);
    if total <= shown {
      assert f == (pre + [BottomLeft] + dashes) + [BottomRight, '\n'];
    } else {
      assert f == (pre + Border(BottomLeft, BottomMid, BottomRight, ws) + "\n") + Summary(total, shown);
    }
  }

  /** A drawn table ends with the bottom border when it has at most 100 rows, and otherwise
      with the count of the rows left out. */
  lemma TableEnding(rows: seq<RowView>, headers: seq<string>)
    requires Readable(rows, headers, Shown(rows))
    ensures |rows| <= MaxRows ==> EndsWith(Render(rows, headers), [BottomRight, '\n'])
    ensures |rows| > MaxRows ==>
      EndsWith(Render(rows, headers), "... (" + NatToString(|rows| - MaxRows) + " more rows)")
  {
    var n := Shown(rows);
    var ws := Widths(rows, headers, n);
    var pre := Head(headers, ws) + RowLines(rows, headers, ws, n);
    assert Render(rows, headers) == pre + Foot(ws, |rows|, n);
    FootEnding(pre, ws, |rows|, n);
    assert |rows| > MaxRows ==> n == MaxRows;
  }

  /** Cells of the rows drawn decide the widths and the lines; rows past the first 100
      only count. */
  lemma {:induction false} LongestPrefix(rows: seq<RowView>, rows': seq<RowView>, header: string, m: nat)
    requires m <= |rows| && m <= |rows'| && rows[..m] == rows'[..m]
    requires ColumnReadable(rows, header, m)
    ensures ColumnReadable(rows', header, m)
    ensures Longest(rows, header, m) == Longest(rows', header, m)
    decreases m
  {
    assert forall i :: 0 <= i < m ==> rows[i] == rows[..m][i] == rows'[i];
    if m > 0 {
      assert rows[..m - 1] == rows[..m][..m - 1];
      assert rows'[..m - 1] == rows'[..m][..m - 1];
      LongestPrefix(rows, rows', header, m - 1);
    }
  }

  lemma {:induction false} RowLinesPrefix(rows: seq<RowView>, rows': seq<RowView>, headers: seq<string>, ws: seq<nat>, m: nat)
    requires m <= |rows| && m <= |rows'| && rows[..m] == rows'[..m]
    requires Readable(rows, headers, m) && Readable(rows', headers, m)
    requires |ws| == |headers| && forall j :: 0 <= j < |ws| ==> ws[j] >= MinWidth
    ensures RowLines(rows, headers, ws, m) == RowLines(rows', headers, ws, m)
    decreases m
  {
    if m > 0 {
      assert rows[m - 1] == rows[..m][m - 1] == rows'[m - 1];
      assert rows[..m - 1] == rows[..m][..m - 1];
      assert rows'[..m - 1] == rows'[..m][..m - 1];
      RowLinesPrefix(rows, rows', headers, ws, m - 1);
    }
  }

  /** Two tables with as many rows that agree on their first 100 rows read the same. */
  lemma RowsPastLimitIgnored(rows: seq<RowView>, rows': seq<RowView>, headers: seq<string>)
    requires |rows| == |rows'| && rows[..Shown(rows)] == rows'[..Shown(rows)]
    ensures TableSpec(rows, headers) == TableSpec(rows', headers)
  {
    var n := Shown(rows);
    assert n == Shown(rows');
    if |rows| > 0 && |headers| > 0 {
      forall j | 0 <= j < |headers|
        ensures ColumnReadable(rows, headers[j], n) <==> ColumnReadable(rows', headers[j], n)
      {
        if ColumnReadable(rows, headers[j], n) {
          LongestPrefix(rows, rows', headers[j], n);
        }
        if ColumnReadable(rows', headers[j], n) {
          LongestPrefix(rows', rows, headers[j], n);
        }
      }
      if Readable(rows, headers, n) {
        forall j | 0 <= j < |headers|
          ensures Longest(rows, headers[j], n) == Longest(rows', headers[j], n)
        {
          LongestPrefix(rows, rows', headers[j], n);
        }
        var ws := Widths(rows, headers, n);
        assert ws == Widths(rows', headers, n);
        RowLinesPrefix(rows, rows', headers, ws, n);
      }
    }
  }
}
