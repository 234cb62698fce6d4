/** One sheet of a control matrix, loaded row by row. */
module ControlMatrix {
  import opened Wrappers
  import opened Extremes
  import opened Text
  import opened Normalization
  import opened CanonicalDocuments
  import opened RowLocators
  import opened RowText

  datatype CellValue = CellValue(text: string, formula: Option<string>)

  function Rendered(v: CellValue): string {
    match v.formula
    case None => v.text
    case Some(formula) => "[formula:=" + formula + "; cached:" + v.text + "]"
  }

  type Cells = map<nat, CellValue>

  type Rows = map<nat, Cells>

  // ---- sorted(rows) ----

  function Ascending(keys: set<nat>): (order: seq<nat>)
    decreases |keys|
  {
    if keys == {} then [] else [Least(keys)] + Ascending(keys - {Least(keys)})
  }

  lemma {:induction false} AscendingIsSorted(keys: set<nat>)
    ensures forall n :: n in Ascending(keys) <==> n in keys
    ensures forall i, j | 0 <= i < j < |Ascending(keys)| :: Ascending(keys)[i] < Ascending(keys)[j]
    decreases |keys|
  {
    if keys != {} {
      var least := Least(keys);
      var rest := Ascending(keys - {least});
      AscendingIsSorted(keys - {least});
      var order: seq<nat> := Ascending(keys);
      forall i, j | 0 <= i < j < |order| ensures order[i] < order[j] {
        assert order[j] == rest[j - 1] && rest[j - 1] in keys - {least};
      }
      forall n ensures n in order <==> n in keys {
        assert n in order <==> n == least || n in rest;
      }
    }
  }

  // ---- merged ranges ----

  const MAX_MATRIX_ROWS: nat := 10_000
  const MAX_MATRIX_COLUMNS: nat := 256

  datatype MergeRange = MergeRange(startRow: nat, startColumn: nat, endRow: nat, endColumn: nat)

  predicate Usable(m: MergeRange) {
    && m.startColumn <= m.endColumn && m.startRow <= m.endRow
    && m.endColumn <= MAX_MATRIX_COLUMNS && m.endRow <= MAX_MATRIX_ROWS
  }

  // A cell of the range other than its first one.
  predicate Continues(m: MergeRange, row: nat, column: nat) {
    && m.startRow <= row <= m.endRow && m.startColumn <= column <= m.endColumn
    && (row, column) != (m.startRow, m.startColumn)
  }

  predicate ContinuesAny(ranges: seq<MergeRange>, row: nat, column: nat) {
    exists k | 0 <= k < |ranges| :: Continues(ranges[k], row, column)
  }

  // _read_merged_ranges; None stands for the raised error.
  method ReadMergedRanges(ranges: seq<MergeRange>) returns (r: Option<set<(nat, nat)>>)
    ensures r.None? <==> exists k | 0 <= k < |ranges| ::
      || ranges[k].startRow > ranges[k].endRow || ranges[k].endRow > 10_000
      || ranges[k].startColumn > ranges[k].endColumn || ranges[k].endColumn > 256
    ensures r.Some? ==> forall row: nat, column: nat ::
      (row, column) in r.value <==> exists k | 0 <= k < |ranges| ::
        && ranges[k].startRow <= row <= ranges[k].endRow && ranges[k].startColumn <= column <= ranges[k].endColumn
        && (row > ranges[k].startRow || column > ranges[k].startColumn)
  {
    var continuations: set<(nat, nat)> := {};
    for k := 0 to |ranges|
      invariant forall j | 0 <= j < k :: Usable(ranges[j])
      invariant forall row: nat, column: nat :: (row, column) in continuations <==>
        ContinuesAny(ranges[..k], row, column)
    {
      if !Usable(ranges[k]) {
        return None;
      }
      continuations := AddRange(ranges[k], continuations);
      forall row: nat, column: nat
        ensures ContinuesAny(ranges[..k + 1], row, column)
          <==> ContinuesAny(ranges[..k], row, column) || Continues(ranges[k], row, column)
      {
        OneMoreRange(ranges, k, row, column);
      }
    }
    assert ranges[..|ranges|] == ranges;
    return Some(continuations);
  }

  lemma OneMoreRange(ranges: seq<MergeRange>, k: nat, row: nat, column: nat)
    requires k < |ranges|
    ensures ContinuesAny(ranges[..k + 1], row, column)
      <==> ContinuesAny(ranges[..k], row, column) || Continues(ranges[k], row, column)
  {
    hide Continues;
    var before, after := ranges[..k], ranges[..k + 1];
    if ContinuesAny(before, row, column) {
      var j :| 0 <= j < k && Continues(before[j], row, column);
      assert Continues(after[j], row, column);
    }
    if Continues(ranges[k], row, column) {
      assert Continues(after[k], row, column);
    }
    if ContinuesAny(after, row, column) {
      var j :| 0 <= j < k + 1 && Continues(after[j], row, column);
      assert j < k ==> Continues(before[j], row, column);
    }
  }

  method AddRange(m: MergeRange, before: set<(nat, nat)>) returns (after: set<(nat, nat)>)
    requires m.startColumn <= m.endColumn && m.startRow <= m.endRow
    ensures forall row: nat, column: nat :: (row, column) in after <==>
      (row, column) in before || Continues(m, row, column)
  {
    after := before;
    for row := m.startRow to m.endRow + 1
      invariant forall r: nat, c: nat :: (r, c) in after <==> (r, c) in before || (Continues(m, r, c) && r < row)
    {
      for column := m.startColumn to m.endColumn + 1
        invariant forall r: nat, c: nat ::
          (r, c) in after <==> (r, c) in before || (Continues(m, r, c) && (r < row || (r == row && c < column)))
      {
        if (row, column) != (m.startRow, m.startColumn) {
          after := after + {(row, column)};
        }
      }
    }
  }

  // The rows without the cells a merged range merely continues into.
  function Kept(rows: Rows, merged: set<(nat, nat)>): (kept: Rows)
    ensures kept.Keys == rows.Keys
  {
    map n | n in rows :: KeptCells(n, rows[n], merged)
  }

  function KeptCells(n: nat, cells: Cells, merged: set<(nat, nat)>): Cells {
    map c | c in cells && (n, c) !in merged :: cells[c]
  }

  method PopMerged(n: nat, cells: Cells, merged: set<(nat, nat)>) returns (kept: Cells)
    ensures kept == KeptCells(n, cells, merged)
  {
    kept := cells;
    var left := merged;
    while left != {}
      invariant left <= merged
      invariant kept == map c | c in cells && ((n, c) !in merged || (n, c) in left) :: cells[c]
      decreases |left|
    {
      var position :| position in left;
      left := left - {position};
      if position.0 == n {
        kept := kept - {position.1};
      }
    }
  }

  method DropContinuations(rows: Rows, merged: set<(nat, nat)>) returns (kept: Rows)
    ensures kept == Kept(rows, merged)
  {
    hide KeptCells, PartlyKept;
    kept := rows;
    var left := rows.Keys;
    PartlyKeptEnds(rows, merged);
    while left != {}
      invariant left <= rows.Keys && kept == PartlyKept(rows, merged, left)
      decreases |left|
    {
      var n :| n in left;
      var cells := PopMerged(n, rows[n], merged);
      OneMoreKept(rows, merged, left, n);
      kept, left := kept + map[n := cells], left - {n};
    }
  }

  lemma PartlyKeptEnds(rows: Rows, merged: set<(nat, nat)>)
    ensures PartlyKept(rows, merged, rows.Keys) == rows
    ensures PartlyKept(rows, merged, {}) == Kept(rows, merged)
  {
    hide KeptCells;
  }

  lemma OneMoreKept(rows: Rows, merged: set<(nat, nat)>, left: set<nat>, n: nat)
    requires n in left && n in rows
    ensures PartlyKept(rows, merged, left - {n})
      == PartlyKept(rows, merged, left) + map[n := KeptCells(n, rows[n], merged)]
  {
    hide KeptCells;
    var was, after := PartlyKept(rows, merged, left), PartlyKept(rows, merged, left - {n});
    var updated := was + map[n := KeptCells(n, rows[n], merged)];
    assert updated.Keys == after.Keys;
    assert forall k | k in after :: after[k] == updated[k];
  }

  // Halfway through: the rows still left are as they were.
  function PartlyKept(rows: Rows, merged: set<(nat, nat)>, left: set<nat>): Rows {
    map n | n in rows :: if n in left then rows[n] else KeptCells(n, rows[n], merged)
  }

  // ---- the header ----

  // Columns of a row that hold more than white space.
  function Populated(n: nat, cells: Cells, merged: set<(nat, nat)>): set<nat> {
    set c | c in cells && (n, c) !in merged && !Blank(Rendered(cells[c]))
  }

  predicate HeaderLike(rows: Rows, merged: set<(nat, nat)>, n: nat)
    requires n in rows
  {
    |Populated(n, rows[n], merged)| >= 2
  }

  // The first row, by number, with two populated columns.
  predicate FirstHeaderLike(rows: Rows, merged: set<(nat, nat)>, n: nat) {
    && n in rows && HeaderLike(rows, merged, n)
    && forall k | k in rows && k < n :: !HeaderLike(rows, merged, k)
  }

  // _find_header_row
  method FindHeaderRow(rows: Rows, merged: set<(nat, nat)>) returns (r: Option<nat>)
    ensures r.None? ==> forall k | k in rows :: !HeaderLike(rows, merged, k)
    ensures r.Some? ==> FirstHeaderLike(rows, merged, r.value)
  {
    hide HeaderLike, Ascending;
    var order: seq<nat> := Ascending(rows.Keys);
    AscendingIsSorted(rows.Keys);
    for i := 0 to |order|
      invariant forall j | 0 <= j < i :: order[j] in rows && !HeaderLike(rows, merged, order[j])
    {
      assert order[i] in order;
      if HeaderLike(rows, merged, order[i]) {
        return Some(order[i]);
      }
    }
    return None;
  }

  function CellText(n: nat, cells: Cells, column: nat, merged: set<(nat, nat)>): string {
    if (n, column) in merged then "" else if column in cells then Rendered(cells[column]) else ""
  }

  function ValuesOf(n: nat, cells: Cells, minimum: nat, maximum: nat, merged: set<(nat, nat)>): (r: seq<string>)
    requires minimum <= maximum
    ensures |r| == maximum - minimum + 1
  {
    seq(maximum - minimum + 1, i requires 0 <= i => CellText(n, cells, minimum + i, merged))
  }

  datatype Header = Header(row: nat, minimum: nat, maximum: nat, names: seq<string>)

  // The span of the populated columns and the text of each, in column order.
  ghost predicate HeaderSpans(h: Header, rows: Rows, merged: set<(nat, nat)>) {
    && h.row in rows && h.minimum < h.maximum
    && h.minimum in Populated(h.row, rows[h.row], merged) && h.maximum in Populated(h.row, rows[h.row], merged)
    && (forall c | c in Populated(h.row, rows[h.row], merged) :: h.minimum <= c <= h.maximum)
    && h.names == ValuesOf(h.row, rows[h.row], h.minimum, h.maximum, merged)
  }

  predicate NamesUsable(names: seq<string>, cells: Cells) {
    && (forall i | 0 <= i < |names| :: !Blank(names[i]))
    && (forall i, j | 0 <= i < j < |names| :: names[i] != names[j])
    && (forall c | c in cells :: cells[c].formula.None?)
  }

  lemma TwoElements(keys: set<nat>)
    requires |keys| >= 2
    ensures Least(keys) < Greatest(keys)
  {
    var a :| a in keys;
    assert |keys - {a}| == |keys| - 1;
    var b :| b in keys - {a};
    assert a in keys && b in keys && a != b;
  }

  // _headers, on a row known to have two populated columns.
  method Headers(n: nat, rows: Rows, merged: set<(nat, nat)>) returns (h: Header, usable: bool)
    requires n in rows && HeaderLike(rows, merged, n)
    ensures h.row == n && HeaderSpans(h, rows, merged)
    ensures usable <==> NamesUsable(h.names, rows[n])
  {
    hide ValuesOf, NamesUsable, Least, Greatest;
    var columns := Populated(n, rows[n], merged);
    TwoElements(columns);
    var minimum, maximum := Least(columns), Greatest(columns);
    h := Header(n, minimum, maximum, ValuesOf(n, rows[n], minimum, maximum, merged));
    usable := NamesUsable(h.names, rows[n]);
  }

  // ---- the data rows ----

  // _reject_values_outside_header
  predicate HoldsOutside(cells: Cells, minimum: nat, maximum: nat) {
    exists c | c in cells :: (c < minimum || c > maximum) && !Blank(Rendered(cells[c]))
  }

  predicate AnyValue(values: seq<string>) {
    exists i | 0 <= i < |values| :: values[i] != ""
  }

  predicate IsDataRow(n: nat, rows: Rows, merged: set<(nat, nat)>, h: Header)
    requires h.minimum <= h.maximum
  {
    n in rows && n > h.row && AnyValue(ValuesOf(n, rows[n], h.minimum, h.maximum, merged))
  }

  function DataRows(order: seq<nat>, rows: Rows, merged: set<(nat, nat)>, h: Header): (data: seq<nat>)
    requires h.minimum <= h.maximum
    ensures forall n | n in data :: n in order && IsDataRow(n, rows, merged, h)
  {
    if order == [] then []
    else
      var last := order[|order| - 1];
      DataRows(order[..|order| - 1], rows, merged, h) + if IsDataRow(last, rows, merged, h) then [last] else []
  }

  // The block one data row becomes.
  ghost predicate IsRowBlock(b: Block, sheet: string, n: nat, rows: Rows, merged: set<(nat, nat)>, h: Header)
    requires h.minimum <= h.maximum && n in rows
  {
    && b.blockType == Table
    && b.text == Normalize(RenderRow(h.names, ValuesOf(n, rows[n], h.minimum, h.maximum, merged)))
    && b.locator == RowLocator(sheet, h.minimum, h.maximum, n)
  }

  // The blocks added for the data rows, one each, in their order.
  ghost predicate RowsAdded(
    before: seq<Block>, after: seq<Block>, data: seq<nat>, sheet: string, rows: Rows, merged: set<(nat, nat)>,
    h: Header)
    requires h.minimum <= h.maximum && forall n | n in data :: n in rows
  {
    && |after| == |before| + |data| && before == after[..|before|]
    && forall k | 0 <= k < |data| :: IsRowBlock(after[|before| + k], sheet, data[k], rows, merged, h)
  }

  datatype Loaded = Refused | NoHeader | Counted(count: nat)

  predicate Columned(rows: Rows) {
    forall n, c | n in rows && c in rows[n] :: c >= 1
  }

  // _load_sheet on a parsed sheet, whose rows and columns count from one. The header is a ghost result so that the
  // contract can speak of it; Refused stands for the raised error, which discards the document.
  method LoadSheet(sheet: string, rows: Rows, merged: set<(nat, nat)>, builder: CanonicalDocumentBuilder)
    returns (r: Loaded, ghost h: Header)
    requires builder.Valid() && Columned(rows)
    modifies builder
    ensures builder.Valid()
    ensures r.NoHeader? <==> forall n | n in rows :: !HeaderLike(Kept(rows, merged), merged, n)
    ensures r.NoHeader? ==> builder.blocks == old(builder.blocks)
    ensures !r.NoHeader? ==>
      && FirstHeaderLike(Kept(rows, merged), merged, h.row) && HeaderSpans(h, Kept(rows, merged), merged)
      && (r.Refused? <==> !SheetUsable(Kept(rows, merged), h))
    ensures r.Counted? ==>
      var data := DataRows(Ascending(rows.Keys), Kept(rows, merged), merged, h);
      r.count == |data| && RowsAdded(old(builder.blocks), builder.blocks, data, sheet, Kept(rows, merged), merged, h)
  {
    hide *;
    h := Header(0, 0, 0, []);
    var kept := DropContinuations(rows, merged);
    var found := FindHeaderRow(kept, merged);
    KeptKeys(rows, merged);
    match found {
      case None =>
        return NoHeader, h;
      case Some(n) =>
        FirstIsLike(kept, merged, n);
        var header, usable := Headers(n, kept, merged);
        h := header;
        SpansMeans(h, kept, merged);
        KeptColumned(rows, merged);
        r := LoadRows(sheet, kept, merged, builder, header, usable);
        assert kept.Keys == rows.Keys;
    }
  }

  predicate SheetUsable(rows: Rows, h: Header)
    requires h.row in rows
  {
    && NamesUsable(h.names, rows[h.row])
    && forall n | n in rows && n > h.row :: !HoldsOutside(rows[n], h.minimum, h.maximum)
  }

  lemma KeptKeys(rows: Rows, merged: set<(nat, nat)>)
    ensures Kept(rows, merged).Keys == rows.Keys
    ensures forall n | n in rows :: n in Kept(rows, merged)
  {
  }

  lemma KeptColumned(rows: Rows, merged: set<(nat, nat)>)
    requires Columned(rows)
    ensures Columned(Kept(rows, merged))
  {
  }

  lemma FirstIsLike(rows: Rows, merged: set<(nat, nat)>, n: nat)
    requires FirstHeaderLike(rows, merged, n)
    ensures n in rows && HeaderLike(rows, merged, n)
  {
    hide HeaderLike;
  }

  lemma SpansMeans(h: Header, rows: Rows, merged: set<(nat, nat)>)
    requires HeaderSpans(h, rows, merged)
    ensures h.row in rows && h.minimum < h.maximum
    ensures |h.names| == h.maximum - h.minimum + 1
    ensures Columned(rows) ==> h.minimum >= 1
  {
    hide ValuesOf;
  }

  lemma UnusableNames(rows: Rows, h: Header)
    requires h.row in rows && !NamesUsable(h.names, rows[h.row])
    ensures !SheetUsable(rows, h)
  {
    hide NamesUsable;
  }

  lemma RowOutside(rows: Rows, h: Header, n: nat)
    requires h.row in rows && n in rows && n > h.row && HoldsOutside(rows[n], h.minimum, h.maximum)
    ensures !SheetUsable(rows, h)
  {
    hide NamesUsable, HoldsOutside;
  }

  lemma UsableNames(order: seq<nat>, rows: Rows, h: Header)
    requires h.row in rows && NamesUsable(h.names, rows[h.row])
    requires forall n | n in rows :: n in order
    requires forall j | 0 <= j < |order| :: order[j] in rows
    requires forall j | 0 <= j < |order| && order[j] > h.row :: !HoldsOutside(rows[order[j]], h.minimum, h.maximum)
    ensures SheetUsable(rows, h)
  {
    hide NamesUsable, HoldsOutside;
  }

  lemma NoRowsYet(before: seq<Block>, sheet: string, rows: Rows, merged: set<(nat, nat)>, h: Header)
    requires h.minimum <= h.maximum
    ensures DataRows([], rows, merged, h) == [] && RowsAdded(before, before, [], sheet, rows, merged, h)
  {
  }

  lemma OneMoreRow(order: seq<nat>, i: nat, rows: Rows, merged: set<(nat, nat)>, h: Header)
    requires i < |order| && h.minimum <= h.maximum
    ensures var data := DataRows(order[..i], rows, merged, h);
      DataRows(order[..i + 1], rows, merged, h)
        == if IsDataRow(order[i], rows, merged, h) then data + [order[i]] else data
  {
    hide IsDataRow;
    assert order[..i + 1][..i] == order[..i];
  }

  lemma AddedOne(
    before: seq<Block>, was: seq<Block>, after: seq<Block>, data: seq<nat>, sheet: string, n: nat,
    rows: Rows, merged: set<(nat, nat)>, h: Header)
    requires h.minimum <= h.maximum && n in rows && forall m | m in data :: m in rows
    requires RowsAdded(before, was, data, sheet, rows, merged, h)
    requires |after| == |was| + 1 && after[..|was|] == was && IsRowBlock(after[|was|], sheet, n, rows, merged, h)
    ensures RowsAdded(before, after, data + [n], sheet, rows, merged, h)
  {
    hide IsRowBlock;
    assert after[..|before|] == was[..|before|];
    forall k | 0 <= k < |data| + 1
      ensures IsRowBlock(after[|before| + k], sheet, (data + [n])[k], rows, merged, h)
    {
      if k < |data| {
        assert after[|before| + k] == was[|before| + k];
      }
    }
  }

  // One data row; its text shows at least the pipes, so the builder never skips it.
  method LoadRow(
    sheet: string, n: nat, rows: Rows, merged: set<(nat, nat)>, builder: CanonicalDocumentBuilder, h: Header)
    requires builder.Valid() && h.minimum <= h.maximum && n in rows
    modifies builder
    ensures builder.Valid()
    ensures |builder.blocks| == |old(builder.blocks)| + 1
    ensures builder.blocks[..|old(builder.blocks)|] == old(builder.blocks)
    ensures IsRowBlock(builder.blocks[|old(builder.blocks)|], sheet, n, rows, merged, h)
  {
    hide RenderRow, Normalize, RowLocator, ValuesOf, Blank, WellBuilt, HeadingsOf, InForce;
    var values := ValuesOf(n, rows[n], h.minimum, h.maximum, merged);
    RowShows(h.names, values);
    var added := builder.AddBlock(Table, RenderRow(h.names, values), RowLocator(sheet, h.minimum, h.maximum, n));
  }

  lemma RowShows(names: seq<string>, values: seq<string>)
    ensures !Blank(RenderRow(names, values))
  {
    hide IsSpace, RenderLine;
    LineIsClosed(names);
    PipeIsNoSpace();
    var text := RenderRow(names, values);
    assert text[0] == '|';
  }

  // The loop over the rows below the header.
  method LoadRows(
    sheet: string, rows: Rows, merged: set<(nat, nat)>, builder: CanonicalDocumentBuilder, h: Header, usable: bool)
    returns (r: Loaded)
    requires builder.Valid() && HeaderSpans(h, rows, merged) && h.row in rows && h.minimum < h.maximum
    requires usable <==> NamesUsable(h.names, rows[h.row])
    modifies builder
    ensures builder.Valid() && !r.NoHeader?
    ensures r.Refused? <==> !SheetUsable(rows, h)
    ensures r.Counted? ==>
      var data := DataRows(Ascending(rows.Keys), rows, merged, h);
      r.count == |data| && RowsAdded(old(builder.blocks), builder.blocks, data, sheet, rows, merged, h)
  {
    hide *;
    ghost var before := builder.blocks;
    if !usable {
      UnusableNames(rows, h);
      return Refused;
    }
    var order: seq<nat> := Ascending(rows.Keys);
    AscendingIsSorted(rows.Keys);
    var count := 0;
    NoRowsYet(before, sheet, rows, merged, h);
    assert order[..0] == [];
    for i := 0 to |order|
      invariant builder.Valid()
      invariant forall j | 0 <= j < i && order[j] > h.row :: !HoldsOutside(rows[order[j]], h.minimum, h.maximum)
      invariant count == |DataRows(order[..i], rows, merged, h)|
      invariant RowsAdded(before, builder.blocks, DataRows(order[..i], rows, merged, h), sheet, rows, merged, h)
    {
      assert order[i] in order;
      if order[i] > h.row && HoldsOutside(rows[order[i]], h.minimum, h.maximum) {
        RowOutside(rows, h, order[i]);
        return Refused;
      }
      ghost var data := DataRows(order[..i], rows, merged, h);
      OneMoreRow(order, i, rows, merged, h);
      if IsDataRow(order[i], rows, merged, h) {
        ghost var was := builder.blocks;
        LoadRow(sheet, order[i], rows, merged, builder, h);
        AddedOne(before, was, builder.blocks, data, sheet, order[i], rows, merged, h);
        count := count + 1;
      }
    }
    assert order[..|order|] == order;
    UsableNames(order, rows, h);
    return Counted(count);
  }

  // ---- no cell is silently lost ----

  lemma {:induction false} DataRowsFindsAll(order: seq<nat>, rows: Rows, merged: set<(nat, nat)>, h: Header, n: nat)
    requires h.minimum <= h.maximum && n in order && IsDataRow(n, rows, merged, h)
    ensures n in DataRows(order, rows, merged, h)
  {
    hide IsDataRow;
    var last := |order| - 1;
    if order[last] != n {
      assert n in order[..last];
      DataRowsFindsAll(order[..last], rows, merged, h, n);
    }
  }

  lemma {:induction false} DataRowsKeepsOrder(order: seq<nat>, rows: Rows, merged: set<(nat, nat)>, h: Header)
    requires h.minimum <= h.maximum
    requires forall i, j | 0 <= i < j < |order| :: order[i] < order[j]
    ensures var data := DataRows(order, rows, merged, h);
      forall i, j | 0 <= i < j < |data| :: data[i] < data[j]
  {
    hide IsDataRow;
    if order != [] {
      var last := |order| - 1;
      DataRowsKeepsOrder(order[..last], rows, merged, h);
      var before := DataRows(order[..last], rows, merged, h);
      forall n | n in before ensures n < order[last] {
        assert n in order[..last];
      }
      OneMoreRow(order, last, rows, merged, h);
      assert order[..last + 1] == order;
      hide DataRows;
      AppendIncreasing(before, order[last]);
    }
  }

  lemma AppendIncreasing(data: seq<nat>, n: nat)
    requires (forall i, j | 0 <= i < j < |data| :: data[i] < data[j]) && forall m | m in data :: m < n
    ensures forall i, j | 0 <= i < j < |data + [n]| :: (data + [n])[i] < (data + [n])[j]
  {
    var longer := data + [n];
    forall i, j | 0 <= i < j < |longer| ensures longer[i] < longer[j] {
      assert data[i] in data && longer[i] == data[i];
      assert j < |data| ==> longer[j] == data[j];
    }
  }

  // The rows that become blocks are exactly the rows below the header with any value, each once, in row order.
  lemma EveryDataRowOnce(rows: Rows, merged: set<(nat, nat)>, h: Header)
    requires h.minimum <= h.maximum
    ensures var data := DataRows(Ascending(rows.Keys), rows, merged, h);
      && (forall n: nat :: n in data <==> IsDataRow(n, rows, merged, h))
      && (forall i, j | 0 <= i < j < |data| :: data[i] < data[j])
  {
    hide IsDataRow, Ascending, DataRows;
    var order := Ascending(rows.Keys);
    AscendingIsSorted(rows.Keys);
    DataRowsKeepsOrder(order, rows, merged, h);
    forall n: nat | IsDataRow(n, rows, merged, h) ensures n in DataRows(order, rows, merged, h) {
      KnownRow(n, rows, merged, h);
      DataRowsFindsAll(order, rows, merged, h, n);
    }
  }

  lemma KnownRow(n: nat, rows: Rows, merged: set<(nat, nat)>, h: Header)
    requires h.minimum <= h.maximum && IsDataRow(n, rows, merged, h)
    ensures n in rows
  {
  }

  lemma ValueAt(n: nat, cells: Cells, minimum: nat, maximum: nat, merged: set<(nat, nat)>, c: nat)
    requires minimum <= c <= maximum
    ensures ValuesOf(n, cells, minimum, maximum, merged)[c - minimum] == CellText(n, cells, c, merged)
  {
    hide CellText;
    var i := c - minimum;
    assert minimum + i == c;
  }

  // A cell of the sheet below the header that holds more than white space and that no merged range continues into
  // lies in a data row, inside the header's span, and is the value at its own column's place.
  lemma NoCellIsLost(rows: Rows, merged: set<(nat, nat)>, h: Header, n: nat, c: nat)
    requires HeaderSpans(h, Kept(rows, merged), merged) && SheetUsable(Kept(rows, merged), h)
    requires n in rows && n > h.row && c in rows[n] && (n, c) !in merged && !Blank(Rendered(rows[n][c]))
    ensures h.minimum <= c <= h.maximum && IsDataRow(n, Kept(rows, merged), merged, h)
    ensures ValuesOf(n, Kept(rows, merged)[n], h.minimum, h.maximum, merged)[c - h.minimum] == Rendered(rows[n][c])
  {
    hide Blank, Populated, NamesUsable, Rendered;
    var kept := Kept(rows, merged);
    assert c in kept[n] && kept[n][c] == rows[n][c];
    assert !HoldsOutside(kept[n], h.minimum, h.maximum);
    var values := ValuesOf(n, kept[n], h.minimum, h.maximum, merged);
    ValueAt(n, kept[n], h.minimum, h.maximum, merged, c);
    NotBlankNotEmpty(Rendered(rows[n][c]));
  }

  // What a row's block says about a cell can be read back out of its text, next to the name of its column.
  lemma CellReadsBack(
    b: Block, sheet: string, rows: Rows, merged: set<(nat, nat)>, h: Header, n: nat, c: nat)
    requires HeaderSpans(h, Kept(rows, merged), merged) && SheetUsable(Kept(rows, merged), h)
    requires n in rows && n > h.row && c in rows[n] && (n, c) !in merged && !Blank(Rendered(rows[n][c]))
    requires h.minimum <= h.maximum && n in Kept(rows, merged) && IsRowBlock(b, sheet, n, Kept(rows, merged), merged, h)
    requires var values := ValuesOf(n, Kept(rows, merged)[n], h.minimum, h.maximum, merged);
      && !AnyHoldsBreak(h.names) && !AnyHoldsBreak(values)
      && !AnyHoldsReturn(h.names) && !AnyHoldsReturn(values)
    ensures RowOf(b.text).Some?
    ensures h.minimum <= c <= h.maximum
    ensures RowOf(b.text).value.0 == h.names && |h.names| == |RowOf(b.text).value.1| == h.maximum - h.minimum + 1
    ensures RowOf(b.text).value.1[c - h.minimum] == Rendered(rows[n][c])
  {
    var kept := Kept(rows, merged);
    var values := ValuesOf(n, kept[n], h.minimum, h.maximum, merged);
    NoCellIsLost(rows, merged, h, n, c);
    SpansMeans(h, kept, merged);
    RowBlockText(b, sheet, n, kept, merged, h);
    hide *;
    assert values != [] by { assert |values| > 0; }
    assert h.names != [] by { assert |h.names| > 0; }
    StoredRowReadsBackExactly(h.names, values);
  }

  lemma RowBlockText(b: Block, sheet: string, n: nat, rows: Rows, merged: set<(nat, nat)>, h: Header)
    requires h.minimum <= h.maximum && n in rows && IsRowBlock(b, sheet, n, rows, merged, h)
    ensures b.text == Normalize(RenderRow(h.names, ValuesOf(n, rows[n], h.minimum, h.maximum, merged)))
  {
  }

  // Every block of a loaded sheet is one segmentation accepts, and it names the block's own sheet and row.
  lemma RowBlocksAreLocated(
    before: seq<Block>, after: seq<Block>, sheet: string, rows: Rows, merged: set<(nat, nat)>, h: Header, k: nat)
    requires sheet != "" && Columned(rows) && HeaderSpans(h, rows, merged) && h.minimum <= h.maximum
    requires var data := DataRows(Ascending(rows.Keys), rows, merged, h);
      k < |data| && RowsAdded(before, after, data, sheet, rows, merged, h)
    ensures var data := DataRows(Ascending(rows.Keys), rows, merged, h);
      && |before| + k < |after|
      && ValidLocator(after[|before| + k].locator)
      && ControlMatrixLocation(after[|before| + k]) == Some((sheet, data[k]))
  {
    hide RowLocator, ControlMatrixLocation, ValidLocator, IsDataRow, DataRows, Ascending, ValuesOf, Populated,
      RenderRow, Normalize;
    var data := DataRows(Ascending(rows.Keys), rows, merged, h);
    var b := after[|before| + k];
    SpansMeans(h, rows, merged);
    assert data[k] in data;
    BelowHeader(data[k], rows, merged, h);
    assert IsRowBlock(b, sheet, data[k], rows, merged, h);
    RowLocatorRoundTrip(sheet, h.minimum, h.maximum, data[k], b);
  }

  lemma BelowHeader(n: nat, rows: Rows, merged: set<(nat, nat)>, h: Header)
    requires h.minimum <= h.maximum && IsDataRow(n, rows, merged, h)
    ensures n >= 1 && n in rows
  {
  }
}

/** The profile that makes one section of every row of a control matrix. */
module ControlMatrixProfile {
  import opened Wrappers
  import opened Decimal
  import opened Normalization
  import opened CanonicalDocuments
  import opened Anchors
  import opened RowLocators
  import opened Segmentation

  // The anchor of a row before repeats are numbered.
  function RowAnchor(slug: string -> string, sheet: string, row: nat): string {
    var name := slug(sheet);
    (if name == "" then "sheet" else name) + "/row-" + Show(row)
  }

  predicate AllLocated(blocks: seq<Block>) {
    forall k | 0 <= k < |blocks| :: ControlMatrixLocation(blocks[k]).Some?
  }

  function RowAnchors(slug: string -> string, blocks: seq<Block>): (bases: seq<string>)
    requires AllLocated(blocks)
    ensures |bases| == |blocks|
  {
    seq(|blocks|, k requires 0 <= k < |blocks| =>
      var at := ControlMatrixLocation(blocks[k]).value; RowAnchor(slug, at.0, at.1))
  }

  lemma RowAnchorHasNoTilde(slug: string -> string, sheet: string, row: nat)
    requires TildeFree(slug)
    ensures '~' !in RowAnchor(slug, sheet, row)
  {
    hide Show;
    ShowAvoids(row, '~');
  }

  // No two rows share an anchor, even when two sheets have the same slug.
  lemma RowAnchorsAreDistinct(slug: string -> string, blocks: seq<Block>)
    requires TildeFree(slug) && AllLocated(blocks)
    ensures var anchors := AnchorsOf(RowAnchors(slug, blocks));
      forall i, j | 0 <= i < j < |anchors| :: anchors[i] != anchors[j]
  {
    hide RowAnchor, ControlMatrixLocation;
    var bases := RowAnchors(slug, blocks);
    forall b | b in bases ensures '~' !in b {
      var k :| 0 <= k < |bases| && bases[k] == b;
      var at := ControlMatrixLocation(blocks[k]).value;
      RowAnchorHasNoTilde(slug, at.0, at.1);
    }
    AnchorsAreDistinct(bases);
  }

  // One section per block: the row's own text under its sheet's name.
  ghost predicate IsRowSection(s: Section, anchor: string, b: Block)
    requires ControlMatrixLocation(b).Some?
  {
    s == Section(anchor, [ControlMatrixLocation(b).value.0], b.text, Canonical(b.locator), [b.blockId])
  }

  // segment_document; None stands for the raised errors.
  method SegmentRows(slug: string -> string, blocks: seq<Block>) returns (r: Option<seq<Section>>)
    requires TildeFree(slug)
    ensures r.None? <==> blocks == [] || !AllLocated(blocks)
    ensures r.Some? ==>
      && |r.value| == |blocks|
      && (forall k | 0 <= k < |blocks| ::
        IsRowSection(r.value[k], AnchorsOf(RowAnchors(slug, blocks))[k], blocks[k]))
      && (forall i, j | 0 <= i < j < |blocks| :: r.value[i].anchor != r.value[j].anchor)
  {
    hide *;
    var sections: seq<Section> := [];
    var used: map<string, nat> := NoUses();
    ghost var bases: seq<string> := [];
    NothingSoFar(slug, blocks);
    for k := 0 to |blocks|
      invariant |bases| == k && CountsUses(used, bases) && SoFar(slug, blocks, sections, bases)
    {
      var at := ControlMatrixLocation(blocks[k]);
      if at.None? {
        NotAllLocated(blocks, k);
        return None;
      }
      var base := RowAnchor(slug, at.value.0, at.value.1);
      var anchor;
      anchor, used := NumberAnchor(base, used, bases);
      var locator := Canonical(blocks[k].locator);
      var section := Section(anchor, [at.value.0], blocks[k].text, locator, [blocks[k].blockId]);
      OneMore(slug, blocks, sections, bases, section);
      sections, bases := sections + [section], bases + [base];
    }
    SoFarIsAll(slug, blocks, sections, bases);
    if sections == [] {
      return None;
    }
    return Some(sections);
  }

  // The first rows are located, and have their bases and sections.
  ghost predicate SoFar(slug: string -> string, blocks: seq<Block>, sections: seq<Section>, bases: seq<string>) {
    && |sections| == |bases| <= |blocks|
    && forall j | 0 <= j < |bases| :: RowDone(slug, blocks[j], sections[j], bases, j)
  }

  ghost predicate RowDone(slug: string -> string, b: Block, s: Section, bases: seq<string>, j: nat)
    requires j < |bases|
  {
    && ControlMatrixLocation(b).Some?
    && bases[j] == RowAnchor(slug, ControlMatrixLocation(b).value.0, ControlMatrixLocation(b).value.1)
    && IsRowSection(s, Numbered(bases[j], Occurrences(bases[..j], bases[j])), b)
  }

  lemma NothingSoFar(slug: string -> string, blocks: seq<Block>)
    ensures SoFar(slug, blocks, [], [])
  {
  }

  lemma NotAllLocated(blocks: seq<Block>, k: nat)
    requires k < |blocks| && ControlMatrixLocation(blocks[k]).None?
    ensures !AllLocated(blocks)
  {
    hide ControlMatrixLocation;
  }

  lemma StaysDone(slug: string -> string, b: Block, s: Section, bases: seq<string>, j: nat, base: string)
    requires j < |bases| && RowDone(slug, b, s, bases, j)
    ensures RowDone(slug, b, s, bases + [base], j)
  {
    hide ControlMatrixLocation, RowAnchor, Occurrences, Numbered, IsRowSection;
    assert (bases + [base])[..j] == bases[..j];
  }

  lemma NewlyDone(slug: string -> string, b: Block, s: Section, bases: seq<string>)
    requires ControlMatrixLocation(b).Some?
    requires var at := ControlMatrixLocation(b).value; var base := RowAnchor(slug, at.0, at.1);
      s == Section(Numbered(base, Occurrences(bases, base)), [at.0], b.text, Canonical(b.locator), [b.blockId])
    ensures var at := ControlMatrixLocation(b).value;
      RowDone(slug, b, s, bases + [RowAnchor(slug, at.0, at.1)], |bases|)
  {
    hide ControlMatrixLocation, RowAnchor, Occurrences, Numbered, Canonical;
    var at := ControlMatrixLocation(b).value;
    assert (bases + [RowAnchor(slug, at.0, at.1)])[..|bases|] == bases;
  }

  lemma OneMore(slug: string -> string, blocks: seq<Block>, sections: seq<Section>, bases: seq<string>, s: Section)
    requires SoFar(slug, blocks, sections, bases) && |bases| < |blocks|
    requires ControlMatrixLocation(blocks[|bases|]).Some?
    requires var b := blocks[|bases|]; var at := ControlMatrixLocation(b).value;
      var base := RowAnchor(slug, at.0, at.1);
      s == Section(Numbered(base, Occurrences(bases, base)), [at.0], b.text, Canonical(b.locator), [b.blockId])
    ensures var at := ControlMatrixLocation(blocks[|bases|]).value;
      SoFar(slug, blocks, sections + [s], bases + [RowAnchor(slug, at.0, at.1)])
  {
    hide ControlMatrixLocation, Canonical, RowAnchor, Occurrences, Numbered, RowDone;
    var at := ControlMatrixLocation(blocks[|bases|]).value;
    var base := RowAnchor(slug, at.0, at.1);
    NewlyDone(slug, blocks[|bases|], s, bases);
    forall j | 0 <= j < |bases| ensures RowDone(slug, blocks[j], (sections + [s])[j], bases + [base], j) {
      StaysDone(slug, blocks[j], sections[j], bases, j, base);
    }
  }

  lemma SoFarIsAll(slug: string -> string, blocks: seq<Block>, sections: seq<Section>, bases: seq<string>)
    requires TildeFree(slug)
    requires SoFar(slug, blocks, sections, bases) && |bases| == |blocks|
    ensures AllLocated(blocks) && |sections| == |blocks|
    ensures forall k | 0 <= k < |blocks| :: IsRowSection(sections[k], AnchorsOf(RowAnchors(slug, blocks))[k], blocks[k])
    ensures forall i, j | 0 <= i < j < |blocks| :: sections[i].anchor != sections[j].anchor
  {
    hide ControlMatrixLocation, Canonical, RowAnchor, Occurrences, Numbered;
    forall j | 0 <= j < |blocks| ensures ControlMatrixLocation(blocks[j]).Some? {
      assert RowDone(slug, blocks[j], sections[j], bases, j);
    }
    assert bases == RowAnchors(slug, blocks) by {
      forall j | 0 <= j < |blocks| ensures bases[j] == RowAnchors(slug, blocks)[j] {
        assert RowDone(slug, blocks[j], sections[j], bases, j);
      }
    }
    forall k | 0 <= k < |blocks|
      ensures IsRowSection(sections[k], AnchorsOf(RowAnchors(slug, blocks))[k], blocks[k])
    {
      assert RowDone(slug, blocks[k], sections[k], bases, k);
    }
    RowAnchorsAreDistinct(slug, blocks);
  }
}
