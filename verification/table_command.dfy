/** The `console.table` wrapper: how it turns its first argument into rows and headers for
    `formatTableAsText`, and the text it logs. */
module TableCommand {
  import opened JsStrings
  import opened JsValues
  import opened Serializer
  import opened Format
  import opened Table

  // ---------------------------------------------------------------------------------------
  // The array-like test `!isNaN(parseInt(key))`

  predicate IsHexDigit(c: char) {
    IsDigit(c) || 'a' <= c <= 'f' || 'A' <= c <= 'F'
  }

  /** `parseInt(key)` is a number (not NaN): after leading white space and an optional sign,
      the key starts with a decimal digit, or with "0x" or "0X" and a hexadecimal digit. */
  predicate ParsesAsInteger(key: string) {
    var t := TrimStart(key);
    var u := if |t| > 0 && (t[0] == '+' || t[0] == '-') then t[1..] else t;
    if |u| >= 2 && u[0] == '0' && (u[1] == 'x' || u[1] == 'X') then |u| >= 3 && IsHexDigit(u[2])
    else |u| > 0 && IsDigit(u[0])
  }

  /** Every array index key passes the test, so an object keyed by indices is array-like. */
  lemma IndexKeysParse(i: nat)
    ensures ParsesAsInteger(NatToString(i))
  {
    var s := NatToString(i);
    assert !IsWhitespace(s[0]);
    assert TrimStart(s) == s;
  }

  /** The test accepts more than indices: a sign and trailing text pass. */
  lemma ParseIntAccepts()
    ensures ParsesAsInteger("-3") && ParsesAsInteger("12px")
  {
    assert TrimStart("-3") == "-3";
    assert TrimStart("12px") == "12px";
  }

  /** A key without a leading digit, or a bare hex prefix, fails the test. */
  lemma ParseIntRejects()
    ensures !ParsesAsInteger("name") && !ParsesAsInteger("0x")
  {
    assert !IsWhitespace('n') && !IsWhitespace('0');
    assert TrimStart("name") == "name";
    assert TrimStart("0x") == "0x";
  }

  // ---------------------------------------------------------------------------------------
  // Rows and headers

  /** The rows `data` itself supplies when its first element is an object. */
  function ElementRows(items: seq<Value>): (rows: seq<Row>)
    ensures |rows| == |items| && forall i :: 0 <= i < |items| ==> rows[i] == Raw(items[i])
  {
    seq(|items|, i requires 0 <= i < |items| => Raw(items[i]))
  }

  /** `data.map((item, idx) => ({ index: idx, value: item }))`. */
  function IndexedRows(items: seq<Value>): (rows: seq<Row>)
    ensures |rows| == |items|
    ensures forall i :: 0 <= i < |items| ==> rows[i] == Synth([Field("index", Num(NatToString(i), true)), Field("value", items[i])])
    ensures Synthesized(rows) && forall i :: 0 <= i < |items| ==> FindField(rows[i].fields, "value") == Some(items[i])
  {
    var rows := seq(|items|, i requires 0 <= i < |items| =>
      Synth([Field("index", Num(NatToString(i), true)), Field("value", items[i])]));
    forall i | 0 <= i < |items|
      ensures FindField(rows[i].fields, "value") == Some(items[i])
    {
      assert rows[i].fields[0].key != "value";
    }
    rows
  }

  /** `keys.map((key) => ({ index: key, value: data[key] }))`, given the values read. */
  function ArrayLikeRows(keys: seq<string>, values: seq<Value>): (rows: seq<Row>)
    requires |values| == |keys|
    ensures |rows| == |keys|
    ensures forall i :: 0 <= i < |keys| ==> rows[i] == Synth([Field("index", Str(keys[i])), Field("value", values[i])])
    ensures Synthesized(rows) && forall i :: 0 <= i < |keys| ==> FindField(rows[i].fields, "value") == Some(values[i])
  {
    var rows := seq(|keys|, i requires 0 <= i < |keys| => Synth([Field("index", Str(keys[i])), Field("value", values[i])]));
    forall i | 0 <= i < |keys|
      ensures FindField(rows[i].fields, "value") == Some(values[i])
    {
      assert rows[i].fields[0].key != "value";
    }
    rows
  }

  /** `keys.map((key, idx) => ({ index: idx, key: key, value: data[key] }))`, given the values read. */
  function KeyedRows(keys: seq<string>, values: seq<Value>): (rows: seq<Row>)
    requires |values| == |keys|
    ensures |rows| == |keys|
    ensures forall i :: 0 <= i < |keys| ==>
      rows[i] == Synth([Field("index", Num(NatToString(i), true)), Field("key", Str(keys[i])), Field("value", values[i])])
    ensures Synthesized(rows) && forall i :: 0 <= i < |keys| ==> FindField(rows[i].fields, "value") == Some(values[i])
  {
    var rows := seq(|keys|, i requires 0 <= i < |keys| =>
      Synth([Field("index", Num(NatToString(i), true)), Field("key", Str(keys[i])), Field("value", values[i])]));
    forall i | 0 <= i < |keys|
      ensures FindField(rows[i].fields, "value") == Some(values[i])
    {
      ValueThird(Field("index", Num(NatToString(i), true)), Field("key", Str(keys[i])), Field("value", values[i]));
    }
    rows
  }

  /** A row `{index, value}` lies in the heap when its value does. */
  lemma PairRowInHeap(h: Heap, index: Value, v: Value)
    requires !index.Ref? && InHeap(h, v)
    ensures RowInHeap(h, Synth([Field("index", index), Field("value", v)]))
  {
    var fields := [Field("index", index), Field("value", v)];
    assert forall i :: 0 <= i < |fields| ==> InHeap(h, fields[i].value);
  }

  /** A row `{index, key, value}` lies in the heap when its value does. */
  lemma KeyedRowInHeap(h: Heap, index: string, key: string, v: Value)
    requires InHeap(h, v)
    ensures RowInHeap(h, Synth([Field("index", Num(index, true)), Field("key", Str(key)), Field("value", v)]))
  {
    var fields := [Field("index", Num(index, true)), Field("key", Str(key)), Field("value", v)];
    assert forall i :: 0 <= i < |fields| ==> InHeap(h, fields[i].value);
  }

  /** The value of a row `{index, key, value}` is found under "value". */
  lemma ValueThird(a: Field, b: Field, c: Field)
    requires a.key != "value" && b.key != "value" && c.key == "value"
    ensures FindField([a, b, c], "value") == Some(c.value)
  {
    assert FindField([c], "value") == Some(c.value);
    assert [b, c][1..] == [c];
    assert FindField([b, c], "value") == Some(c.value);
    assert [a, b, c][1..] == [b, c];
  }

  /** `data[key]` for every key in order; None as soon as one read throws. */
  function ReadAll(h: Heap, data: Value, keys: seq<string>): (r: Option<seq<Value>>)
    requires Closed(h) && InHeap(h, data)
    ensures r.None? <==> exists i :: 0 <= i < |keys| && GetProperty(h, data, keys[i]).Throwing?
    ensures r.Some? ==> |r.value| == |keys|
    ensures r.Some? ==> forall i :: 0 <= i < |keys| ==> GetProperty(h, data, keys[i]) == Data(r.value[i])
    ensures r.Some? ==> forall i :: 0 <= i < |r.value| ==> InHeap(h, r.value[i])
  {
    if |keys| == 0 then Some([])
    else match GetProperty(h, data, keys[0])
      case Throwing => None
      case Data(x) =>
        var rest := ReadAll(h, data, keys[1..]);
        assert forall i :: 1 <= i < |keys| ==> keys[i] == keys[1..][i - 1];
        if rest.None? then None else Some([x] + rest.value)
  }

  /** What `console.table` does with its first argument. */
  datatype Plan =
    | Grid(rows: seq<Row>, headers: seq<string>)
      /** not a table: the arguments are formatted like `console.log`'s */
    | FormatArgs
      /** reading a property of `data` threw while the rows were built */
    | ReadThrows

  /** `data` is a non-empty array whose first element is an object: its elements are the rows. */
  predicate ElementsAreRows(h: Heap, data: Value) {
    data.Ref? && data.addr in h && h[data.addr].shape.ArrayOf?
    && |h[data.addr].shape.items| > 0 && h[data.addr].shape.items[0].Ref?
  }

  /** Rows that `console.table` built itself, none of them with a key "(index)". */
  predicate Synthesized(rows: seq<Row>) {
    forall i :: 0 <= i < |rows| ==>
      rows[i].Synth? && forall k :: 0 <= k < |rows[i].fields| ==> rows[i].fields[k].key != IndexHeader
  }

  function TablePlan(h: Heap, data: Value): (p: Plan)
    requires Closed(h) && InHeap(h, data)
    ensures p.Grid? ==> forall i :: 0 <= i < |p.rows| ==> RowInHeap(h, p.rows[i])
    ensures p.Grid? && !ElementsAreRows(h, data) ==>
      Synthesized(p.rows) && |p.headers| > 0 && p.headers[0] == IndexHeader
    ensures p.ReadThrows? <==> KeyReadThrows(h, data)
    ensures p.FormatArgs? <==>
      !data.Ref? || (h[data.addr].shape.ArrayOf? && |h[data.addr].shape.items| == 0)
  {
    if data.Ref? && h[data.addr].shape.ArrayOf? && |h[data.addr].shape.items| > 0 then
      ArrayPlan(h, h[data.addr].shape.items)
    else if data.Ref? && !h[data.addr].shape.ArrayOf? then ObjectPlan(h, data)
    else FormatArgs
  }

  /** The plan for a non-empty array: its own elements as rows when the first is an
      object, otherwise one `{index, value}` row per element. */
  function ArrayPlan(h: Heap, items: seq<Value>): (p: Plan)
    requires Closed(h) && |items| > 0 && forall i :: 0 <= i < |items| ==> InHeap(h, items[i])
    ensures p.Grid? && forall i :: 0 <= i < |p.rows| ==> RowInHeap(h, p.rows[i])
    ensures !items[0].Ref? ==> Synthesized(p.rows) && p.headers == [IndexHeader, "value"]
    ensures !items[0].Ref? ==> (|p.rows| == |items|
      && forall i :: 0 <= i < |items| ==> FindField(p.rows[i].fields, "value") == Some(items[i]))
  {
    if items[0].Ref? then
      var rows := ElementRows(items);
      assert forall i :: 0 <= i < |rows| ==> RowInHeap(h, rows[i]);
      Grid(rows, OwnKeys(h, items[0]))
    else
      var rows := IndexedRows(items);
      forall i | 0 <= i < |rows| ensures RowInHeap(h, rows[i]) {
        PairRowInHeap(h, Num(NatToString(i), true), items[i]);
      }
      Grid(rows, [IndexHeader, "value"])
  }

  /** The plan for an object that is not an array: one row per own key, unless reading a
      value throws. */
  function ObjectPlan(h: Heap, data: Value): (p: Plan)
    requires Closed(h) && data.Ref? && data.addr in h
    ensures p.Grid? ==> forall i :: 0 <= i < |p.rows| ==> RowInHeap(h, p.rows[i])
    ensures p.Grid? ==> Synthesized(p.rows) && |p.headers| > 0 && p.headers[0] == IndexHeader
    ensures p.Grid? ==> var keys := OwnKeys(h, data);
      |p.rows| == |keys| && forall i :: 0 <= i < |keys| ==>
        && GetProperty(h, data, keys[i]).Data?
        && FindField(p.rows[i].fields, "value") == Some(GetProperty(h, data, keys[i]).value)
    ensures !p.FormatArgs?
    ensures p.ReadThrows? <==>
      exists i :: 0 <= i < |OwnKeys(h, data)| && GetProperty(h, data, OwnKeys(h, data)[i]).Throwing?
  {
    var keys := OwnKeys(h, data);
    var values := ReadAll(h, data, keys);
    if values.None? then ReadThrows else KeyPlan(h, keys, values.value, ArrayLike(keys))
  }

  /** `data` is an object that is not an array and the getter of one of its own keys throws. */
  predicate KeyReadThrows(h: Heap, data: Value)
    requires Closed(h) && InHeap(h, data)
  {
    data.Ref? && !h[data.addr].shape.ArrayOf?
    && exists i :: 0 <= i < |OwnKeys(h, data)| && GetProperty(h, data, OwnKeys(h, data)[i]).Throwing?
  }

  /** `keys.length > 0 && keys.every((key) => !isNaN(parseInt(key)))`. */
  predicate ArrayLike(keys: seq<string>) {
    |keys| > 0 && forall i :: 0 <= i < |keys| ==> ParsesAsInteger(keys[i])
  }

  /** The rows for an object's keys and values: `{index, value}` when the keys are
      array-like, `{index, key, value}` otherwise. */
  function KeyPlan(h: Heap, keys: seq<string>, values: seq<Value>, arrayLike: bool): (p: Plan)
    requires |values| == |keys| && forall i :: 0 <= i < |values| ==> InHeap(h, values[i])
    ensures p.Grid? && forall i :: 0 <= i < |p.rows| ==> RowInHeap(h, p.rows[i])
    ensures Synthesized(p.rows) && |p.headers| > 0 && p.headers[0] == IndexHeader
    ensures |p.rows| == |keys| && forall i :: 0 <= i < |keys| ==> FindField(p.rows[i].fields, "value") == Some(values[i])
  {
    if arrayLike then
      var rows := ArrayLikeRows(keys, values);
      forall i | 0 <= i < |rows| ensures RowInHeap(h, rows[i]) {
        PairRowInHeap(h, Str(keys[i]), values[i]);
      }
      Grid(rows, [IndexHeader, "value"])
    else
      var rows := KeyedRows(keys, values);
      forall i | 0 <= i < |rows| ensures RowInHeap(h, rows[i]) {
        KeyedRowInHeap(h, NatToString(i), keys[i], values[i]);
      }
      Grid(rows, [IndexHeader, "key", "value"])
  }

  function Views(h: Heap, rows: seq<Row>): (views: seq<RowView>)
    requires Closed(h) && forall i :: 0 <= i < |rows| ==> RowInHeap(h, rows[i])
    ensures |views| == |rows|
  {
    seq(|rows|, i requires 0 <= i < |rows| => View(h, rows[i]))
  }

  // ---------------------------------------------------------------------------------------
  // What is logged

  /** The table part of the logged text: the grid, or the formatted arguments. */
  datatype TableBody = GridText(text: string) | Formatted(m: Message)

  /** The logged text: `body + "\n\nOriginal object:\n" + safeStringify(data)`, or, when
      something threw, `"Table: " + formatMessage(args)`. */
  datatype TableLog = Composed(body: TableBody, original: string) | Fallback(m: Message)

  function TableLogSpec(h: Heap, args: seq<Value>): TableLog
    requires Closed(h) && |args| > 0 && forall j :: 0 <= j < |args| ==> InHeap(h, args[j])
  {
    var data := args[0];
    match TablePlan(h, data)
    case ReadThrows => Fallback(FormatSpec(h, args))
    case FormatArgs => Composed(Formatted(FormatSpec(h, args)), SafeStringify(h, data, 0))
    case Grid(rows, headers) =>
      match TableSpec(Views(h, rows), headers)
      case None => Fallback(FormatSpec(h, args))
      case Some(t) => Composed(GridText(t), SafeStringify(h, data, 0))
  }

  /** The body of the `console.table` wrapper after its zero-argument check. */
  method TableMessage(h: Heap, args: seq<Value>) returns (log: TableLog)
    requires Closed(h) && |args| > 0 && forall j :: 0 <= j < |args| ==> InHeap(h, args[j])
    ensures log == TableLogSpec(h, args)
  {
    var data := args[0];
    var plan := TablePlan(h, data);
    var tableMessage: TableBody;
    if plan.ReadThrows? {
      var m := FormatMessage(h, args);
      return Fallback(m);
    } else if plan.FormatArgs? {
      var m := FormatMessage(h, args);
      tableMessage := Formatted(m);
    } else {
      var text := FormatTableAsText(Views(h, plan.rows), plan.headers);
      if text.None? {
        var m := FormatMessage(h, args);
        return Fallback(m);
      }
      tableMessage := GridText(text.value);
    }
    var originalObject := SafeStringify(h, data, 0);
    return Composed(tableMessage, originalObject);
  }

  // ---------------------------------------------------------------------------------------
  // Properties

  /** The wrapper falls back to `"Table: " + formatMessage(args)` exactly when a read throws:
      a value of a keyed object, or a drawn cell of a non-empty grid. */
  lemma FallbackIffThrows(h: Heap, args: seq<Value>)
    requires Closed(h) && |args| > 0 && forall j :: 0 <= j < |args| ==> InHeap(h, args[j])
    ensures var p := TablePlan(h, args[0]);
      TableLogSpec(h, args).Fallback? <==>
        || KeyReadThrows(h, args[0])
        || (p.Grid? && |p.rows| > 0 && |p.headers| > 0
            && exists i, j :: 0 <= i < Shown(Views(h, p.rows)) && 0 <= j < |p.headers|
                              && CellText(h, p.rows[i], p.headers[j]).None?)
  {
    var p := TablePlan(h, args[0]);
    if p.Grid? {
      GridFallback(Views(h, p.rows), p.headers);
      UnreadableIffThrows(h, p.rows, p.headers);
    }
  }

  /** `formatTableAsText` gives up exactly when a drawn cell of a non-empty grid throws. */
  lemma GridFallback(views: seq<RowView>, headers: seq<string>)
    ensures TableSpec(views, headers).None? <==>
      |views| > 0 && |headers| > 0 && !Readable(views, headers, Shown(views))
  {
  }

  /** A drawn cell of the views is unreadable exactly when reading it from its row throws. */
  lemma UnreadableIffThrows(h: Heap, rows: seq<Row>, headers: seq<string>)
    requires Closed(h) && forall i :: 0 <= i < |rows| ==> RowInHeap(h, rows[i])
    ensures var views := Views(h, rows);
      !Readable(views, headers, Shown(views)) <==>
        exists i, j :: 0 <= i < Shown(views) && 0 <= j < |headers| && CellText(h, rows[i], headers[j]).None?
  {
    var views := Views(h, rows);
    var n := Shown(views);
    forall i, j | 0 <= i < n && 0 <= j < |headers|
      ensures Cell(views[i], headers[j]) == CellText(h, rows[i], headers[j])
    {
      ViewAgrees(h, rows[i], headers[j]);
    }
    if !Readable(views, headers, n) {
      var j :| 0 <= j < |headers| && !ColumnReadable(views, headers[j], n);
      var i :| 0 <= i < n && Cell(views[i], headers[j]).None?;
      assert CellText(h, rows[i], headers[j]).None?;
    }
  }

  /** The rows `console.table` builds itself never have a key "(index)", so their first
      column is always blank and as narrow as a column can be. */
  lemma IndexColumnBlank(h: Heap, data: Value)
    requires Closed(h) && InHeap(h, data)
    requires TablePlan(h, data).Grid? && !ElementsAreRows(h, data)
    ensures var p := TablePlan(h, data);
      var views := Views(h, p.rows);
      && |p.headers| > 0 && p.headers[0] == IndexHeader
      && (forall i :: 0 <= i < |views| ==> Cell(views[i], IndexHeader) == Some(""))
      && Readable(views, p.headers, Shown(views))
      && Widths(views, p.headers, Shown(views))[0] == MinWidth
  {
    var p := TablePlan(h, data);
    var views: seq<RowView> := Views(h, p.rows);
    var n := Shown(views);
    forall i, header | 0 <= i < |views|
      ensures Cell(views[i], header).Some?
      ensures header == IndexHeader ==> Cell(views[i], header) == Some("")
    {
      ViewAgrees(h, p.rows[i], header);
    }
    assert Readable(views, p.headers, n);
    LongestIsMax(views, IndexHeader, n);
  }

  /** Each synthesized row shows, under "value", the element or the property value it was
      built from, in order. */
  lemma ValueColumn(h: Heap, data: Value, i: nat)
    requires Closed(h) && InHeap(h, data)
    requires TablePlan(h, data).Grid? && !ElementsAreRows(h, data) && i < |TablePlan(h, data).rows|
    ensures var p := TablePlan(h, data);
      var view := View(h, p.rows[i]);
      && (data.Ref? && h[data.addr].shape.ArrayOf? ==>
            Cell(view, "value") == Some(CellValueText(h, h[data.addr].shape.items[i])))
      && (!(data.Ref? && h[data.addr].shape.ArrayOf?) ==>
            var key := OwnKeys(h, data)[i];
            GetProperty(h, data, key).Data?
            && Cell(view, "value") == Some(CellValueText(h, GetProperty(h, data, key).value)))
  {
    var p := TablePlan(h, data);
    ViewAgrees(h, p.rows[i], "value");
  }

  /** An array whose first element is an object is drawn from its own elements, under the
      first element's keys; an empty array is not a table. */
  lemma ArrayOfObjects(h: Heap, a: Addr)
    requires Closed(h) && a in h && h[a].shape.ArrayOf?
    ensures var items := h[a].shape.items;
      && (|items| == 0 ==> TablePlan(h, Ref(a)) == FormatArgs)
      && (|items| > 0 && items[0].Ref? ==>
            var p := TablePlan(h, Ref(a));
            p.Grid? && p.headers == OwnKeys(h, items[0])
            && forall i :: 0 <= i < |items| ==> View(h, p.rows[i]) == View(h, Raw(items[i])))
  {
  }
}
