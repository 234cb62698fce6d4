/** Laying a table with column and row spans out on a grid, and printing the grid. */
module HtmlTable {
  import opened Wrappers
  import opened Text
  import opened Decimal
  import opened Sequences

  // A cell's inline text and its spans, already clamped.
  datatype Cell = Cell(text: string, spanX: nat, spanY: nat)

  predicate ValidCell(c: Cell) {
    1 <= c.spanX <= 64 && 1 <= c.spanY <= 64
  }

  predicate ValidTable(rows: seq<seq<Cell>>) {
    forall y, k | 0 <= y < |rows| && 0 <= k < |rows[y]| :: ValidCell(rows[y][k])
  }

  // ---- the span attributes ----

  // What the interpreter takes for digits: isdigit(), and the value of those that are decimal digits. A superscript
  // is a digit without such a value.
  datatype Numerals = Numerals(isDigit: char -> bool, decimal: char -> Option<nat>) {
    ghost predicate Valid() {
      && (forall c | decimal(c).Some? :: isDigit(c) && decimal(c).value < 10)
      && (forall c | IsDigit(c) :: decimal(c) == Some(c as int - '0' as int))
    }

    predicate Digits(s: string) {
      s != "" && forall c | c in s :: isDigit(c)
    }

    predicate Decimals(s: string) {
      forall c | c in s :: decimal(c).Some?
    }

    function ValueOf(s: string): nat
      requires Decimals(s)
    {
      if s == "" then 0 else ValueOf(s[..|s| - 1]) * 10 + decimal(s[|s| - 1]).value
    }

    // int() on a text of digits; it also raises on more digits than the interpreter converts.
    function Int(s: string): Option<nat> {
      if Decimals(s) && |s| <= MaxDigits then Some(ValueOf(s)) else None
    }
  }

  const MaxDigits: nat := 4300

  // The value of a span attribute, or the error int() raises.
  function Span(raw: string, numerals: Numerals): (r: Option<nat>)
    ensures var s := Strip(raw);
      r.None? <==> numerals.Digits(s) && !(numerals.Decimals(s) && |s| <= MaxDigits)
    ensures r.Some? ==> 1 <= r.value <= 64
  {
    var s := Strip(raw);
    if !numerals.Digits(s) then Some(1)
    else
      var number := numerals.Int(s);
      if number.None? then None
      else if number.value < 1 then Some(1)
      else if number.value > 64 then Some(64)
      else number
  }

  lemma {:induction false} ValueOfDigits(s: string, numerals: Numerals)
    requires numerals.Valid() && AllDigits(s)
    ensures numerals.Decimals(s) && numerals.ValueOf(s) == Decimal.Read(s)
  {
    hide IsDigit;
    forall c | c in s ensures numerals.decimal(c).Some? {
      var k :| 0 <= k < |s| && s[k] == c;
    }
    if s != "" {
      ValueOfDigits(s[..|s| - 1], numerals);
      assert IsDigit(s[|s| - 1]);
    }
  }

  lemma DigitIsSolid(c: char)
    requires IsDigit(c)
    ensures !IsSpace(c)
  {
  }

  lemma DigitsStandAlone(s: string)
    requires AllDigits(s) && s != ""
    ensures Strip(s) == s
  {
    hide IsDigit, IsSpace;
    DigitIsSolid(s[0]);
    DigitIsSolid(s[|s| - 1]);
    assert TrimRight(s, IsSpace) == s;
    assert TrimLeft(s, IsSpace) == s;
  }

  // A span written as a numeral is read back, cut to 1..64.
  lemma SpanOfNumeral(n: nat, numerals: Numerals)
    requires numerals.Valid() && |Show(n)| <= MaxDigits
    ensures Span(Show(n), numerals) == Some(if n < 1 then 1 else if n > 64 then 64 else n)
  {
    hide Strip, Show;
    DigitsStandAlone(Show(n));
    ReadOfShow(n);
    ValueOfDigits(Show(n), numerals);
    assert numerals.Digits(Show(n));
  }

  // A superscript two passes the guard and makes int() raise.
  lemma SuperscriptSpanRaises(numerals: Numerals)
    requires numerals.isDigit('\U{00b2}') && numerals.decimal('\U{00b2}').None?
    ensures Span("\U{00b2}", numerals).None?
  {
    var s := "\U{00b2}";
    assert s[0] in s;
    assert TrimRight(s, IsSpace) == s;
    assert TrimLeft(s, IsSpace) == s;
  }

  // A cell as it stands in the tree, an absent attribute as "1".
  datatype SourceCell = SourceCell(text: string, colspan: string, rowspan: string)

  predicate SpansRaise(c: SourceCell, numerals: Numerals) {
    Span(c.colspan, numerals).None? || Span(c.rowspan, numerals).None?
  }

  function ReadCell(c: SourceCell, numerals: Numerals): (r: Cell)
    requires !SpansRaise(c, numerals)
    ensures ValidCell(r) && r.text == c.text
    ensures Span(c.colspan, numerals) == Some(r.spanX) && Span(c.rowspan, numerals) == Some(r.spanY)
  {
    Cell(c.text, Span(c.colspan, numerals).value, Span(c.rowspan, numerals).value)
  }

  predicate RowRaises(row: seq<SourceCell>, numerals: Numerals) {
    exists k | 0 <= k < |row| :: SpansRaise(row[k], numerals)
  }

  function ReadRow(row: seq<SourceCell>, numerals: Numerals): seq<Cell>
    requires !RowRaises(row, numerals)
  {
    seq(|row|, k requires 0 <= k < |row| => ReadCell(row[k], numerals))
  }

  // The table is lost as soon as one attribute makes int() raise.
  predicate TableRaises(rows: seq<seq<SourceCell>>, numerals: Numerals) {
    exists y | 0 <= y < |rows| :: RowRaises(rows[y], numerals)
  }

  function ReadTable(rows: seq<seq<SourceCell>>, numerals: Numerals): (r: seq<seq<Cell>>)
    requires !TableRaises(rows, numerals)
    ensures ValidTable(r)
  {
    seq(|rows|, y requires 0 <= y < |rows| => ReadRow(rows[y], numerals))
  }

  // ---- where cells belong ----

  datatype Placed = Placed(row: nat, column: nat, cell: Cell)

  predicate Covers(p: Placed, y: int, x: int) {
    p.row <= y < p.row + p.cell.spanY && p.column <= x < p.column + p.cell.spanX
  }

  predicate Occupied(ps: seq<Placed>, y: int, x: int) {
    exists i | 0 <= i < |ps| :: Covers(ps[i], y, x)
  }

  function RightEdge(ps: seq<Placed>): (edge: nat)
    ensures forall i, y, x | 0 <= i < |ps| && Covers(ps[i], y, x) :: x < edge
  {
    if ps == [] then 0
    else
      var last := ps[|ps| - 1];
      var edge := RightEdge(ps[..|ps| - 1]);
      if edge < last.column + last.cell.spanX then last.column + last.cell.spanX else edge
  }

  // The first column from x on that no placed cell covers.
  function FirstFree(ps: seq<Placed>, y: nat, x: nat): (c: nat)
    ensures x <= c && !Occupied(ps, y, c)
    ensures forall z | x <= z < c :: Occupied(ps, y, z)
    decreases RightEdge(ps) - x
  {
    if Occupied(ps, y, x) then FirstFree(ps, y, x + 1) else x
  }

  // The cells of one row after those already placed, and the column that follows them.
  function PlaceRow(ps: seq<Placed>, y: nat, cells: seq<Cell>): (seq<Placed>, nat) {
    if cells == [] then (ps, 0)
    else
      var (before, x) := PlaceRow(ps, y, cells[..|cells| - 1]);
      var cell := cells[|cells| - 1];
      var c := FirstFree(before, y, x);
      (before + [Placed(y, c, cell)], c + cell.spanX)
  }

  function Place(rows: seq<seq<Cell>>): seq<Placed> {
    if rows == [] then [] else PlaceRow(Place(rows[..|rows| - 1]), |rows| - 1, rows[|rows| - 1]).0
  }

  function CellsOf(ps: seq<Placed>): seq<Cell> {
    seq(|ps|, i requires 0 <= i < |ps| => ps[i].cell)
  }

  predicate Before(p: Placed, q: Placed) {
    p.row < q.row || (p.row == q.row && p.column < q.column)
  }

  // Reading order, and no start is covered by any other cell's span.
  ghost predicate WellPlaced(ps: seq<Placed>) {
    && (forall i | 0 <= i < |ps| :: ValidCell(ps[i].cell))
    && (forall i, j | 0 <= i < j < |ps| ::
         && Before(ps[i], ps[j])
         && !Covers(ps[i], ps[j].row, ps[j].column)
         && !Covers(ps[j], ps[i].row, ps[i].column))
  }

  lemma {:induction false} PlaceRowIsWellPlaced(ps: seq<Placed>, y: nat, cells: seq<Cell>)
    requires WellPlaced(ps) && (forall i | 0 <= i < |ps| :: ps[i].row < y)
    requires forall c | c in cells :: ValidCell(c)
    ensures var (qs, x) := PlaceRow(ps, y, cells);
      && WellPlaced(qs) && CellsOf(qs) == CellsOf(ps) + cells
      && (forall i | 0 <= i < |qs| :: qs[i].row <= y && (qs[i].row == y ==> qs[i].column + qs[i].cell.spanX <= x))
  {
    if cells == [] {
      assert CellsOf(ps) + [] == CellsOf(ps);
    } else {
      var init, cell := cells[..|cells| - 1], cells[|cells| - 1];
      PlaceRowIsWellPlaced(ps, y, init);
      var (before, x) := PlaceRow(ps, y, init);
      var c := FirstFree(before, y, x);
      var qs := before + [Placed(y, c, cell)];
      forall i | 0 <= i < |before|
        ensures Before(before[i], Placed(y, c, cell))
        ensures !Covers(before[i], y, c) && !Covers(Placed(y, c, cell), before[i].row, before[i].column)
      {
      }
      calc {
        CellsOf(qs);
        CellsOf(before) + [cell];
        CellsOf(ps) + init + [cell];
        { assert init + [cell] == cells; }
        CellsOf(ps) + cells;
      }
    }
  }

  // Every cell is placed exactly once, in reading order, on a slot no other cell's span covers.
  lemma {:induction false} PlaceIsWellPlaced(rows: seq<seq<Cell>>)
    requires ValidTable(rows)
    ensures WellPlaced(Place(rows)) && CellsOf(Place(rows)) == Flatten(rows)
    ensures forall i | 0 <= i < |Place(rows)| :: Place(rows)[i].row < |rows|
  {
    if rows != [] {
      var last := rows[|rows| - 1];
      PlaceIsWellPlaced(rows[..|rows| - 1]);
      forall c | c in last ensures ValidCell(c) {
        var k :| 0 <= k < |last| && last[k] == c;
        assert ValidCell(rows[|rows| - 1][k]);
      }
      PlaceRowIsWellPlaced(Place(rows[..|rows| - 1]), |rows| - 1, last);
    }
  }

  // ---- the grid ----

  type Grid = seq<seq<string>>

  function Escape(text: string): string {
    Replace(Replace(text, '\n', " "), '|', "\\|")
  }

  // The text of the cell that starts at a slot; every other slot is empty.
  function TextAt(ps: seq<Placed>, y: int, x: int): string {
    if ps == [] then ""
    else
      var last := ps[|ps| - 1];
      if last.row == y && last.column == x then Escape(last.cell.text) else TextAt(ps[..|ps| - 1], y, x)
  }

  function Max(a: nat, b: nat): nat {
    if a < b then b else a
  }

  // How far the spans that reach a row extend.
  function WidthAt(ps: seq<Placed>, y: int): nat {
    if ps == [] then 0
    else
      var last, w := ps[|ps| - 1], WidthAt(ps[..|ps| - 1], y);
      if last.row <= y < last.row + last.cell.spanY then Max(w, last.column + last.cell.spanX) else w
  }

  function HeightOf(ps: seq<Placed>): nat {
    if ps == [] then 0
    else
      var last := ps[|ps| - 1];
      Max(HeightOf(ps[..|ps| - 1]), last.row + last.cell.spanY)
  }

  ghost predicate RowShows(row: seq<string>, ps: seq<Placed>, y: int) {
    |row| == WidthAt(ps, y) && forall x | 0 <= x < |row| :: row[x] == TextAt(ps, y, x)
  }

  ghost predicate GridShows(grid: Grid, ps: seq<Placed>, rows: nat) {
    && |grid| == Max(rows, HeightOf(ps))
    && forall y | 0 <= y < |grid| :: RowShows(grid[y], ps, y)
  }

  ghost predicate Marks(occupied: set<(nat, nat)>, ps: seq<Placed>) {
    forall y: nat, x: nat :: (y, x) in occupied <==> Occupied(ps, y, x)
  }

  lemma {:induction false} TextIsInside(ps: seq<Placed>, y: int, x: int)
    requires forall i | 0 <= i < |ps| :: ValidCell(ps[i].cell)
    ensures TextAt(ps, y, x) != "" ==> y < HeightOf(ps) && x < WidthAt(ps, y)
    ensures y >= HeightOf(ps) ==> WidthAt(ps, y) == 0
  {
    if ps != [] {
      assert ValidCell(ps[|ps| - 1].cell);
      TextIsInside(ps[..|ps| - 1], y, x);
    }
  }

  ghost predicate Padded(row: seq<string>, from: seq<string>, width: nat) {
    from <= row && |row| == Max(|from|, width) && forall x | |from| <= x < |row| :: row[x] == ""
  }

  function RowOf(grid: Grid, y: nat): seq<string> {
    if y < |grid| then grid[y] else []
  }

  // Marks a cell's rectangle and grows the grid until it holds the rectangle.
  method Reserve(grid: Grid, occupied: set<(nat, nat)>, p: Placed) returns (grid': Grid, occupied': set<(nat, nat)>)
    requires ValidCell(p.cell)
    ensures forall y: nat, x: nat :: (y, x) in occupied' <==> (y, x) in occupied || Covers(p, y, x)
    ensures |grid'| == Max(|grid|, p.row + p.cell.spanY)
    ensures forall y: nat | y < |grid'| ::
      Padded(grid'[y], RowOf(grid, y), if p.row <= y < p.row + p.cell.spanY then p.column + p.cell.spanX else 0)
  {
    grid', occupied' := grid, occupied;
    for dy := 0 to p.cell.spanY
      invariant forall y: nat, x: nat ::
        (y, x) in occupied' <==> (y, x) in occupied || (Covers(p, y, x) && y < p.row + dy)
      invariant |grid'| == if dy == 0 then |grid| else Max(|grid|, p.row + dy)
      invariant forall y: nat | y < |grid'| ::
        Padded(grid'[y], RowOf(grid, y), if p.row <= y < p.row + dy then p.column + p.cell.spanX else 0)
    {
      grid', occupied' := ReserveRow(grid', occupied', p, p.row + dy);
    }
  }

  // The inner loop: one row of the rectangle.
  method ReserveRow(grid: Grid, occupied: set<(nat, nat)>, p: Placed, row: nat)
    returns (grid': Grid, occupied': set<(nat, nat)>)
    requires ValidCell(p.cell)
    ensures forall y: nat, x: nat :: (y, x) in occupied' <==>
      (y, x) in occupied || (y == row && p.column <= x < p.column + p.cell.spanX)
    ensures |grid'| == Max(|grid|, row + 1)
    ensures forall y: nat | y < |grid'| ::
      Padded(grid'[y], RowOf(grid, y), if y == row then p.column + p.cell.spanX else 0)
  {
    grid', occupied' := grid, occupied;
    for dx := 0 to p.cell.spanX
      invariant forall y: nat, x: nat :: (y, x) in occupied' <==>
        (y, x) in occupied || (y == row && p.column <= x < p.column + dx)
      invariant |grid'| == Max(|grid|, if dx == 0 then 0 else row + 1)
      invariant forall y: nat | y < |grid'| ::
        Padded(grid'[y], RowOf(grid, y), if y == row && dx > 0 then p.column + dx else 0)
    {
      occupied' := occupied' + {(row, p.column + dx)};
      grid' := GrowGrid(grid', row + 1);
      var target := GrowRow(grid'[row], p.column + dx + 1);
      grid' := grid'[row := target];
    }
  }

  method GrowGrid(grid: Grid, height: nat) returns (r: Grid)
    ensures |r| == Max(|grid|, height) && forall y | 0 <= y < |r| :: r[y] == RowOf(grid, y)
  {
    r := grid;
    while |r| < height
      invariant |grid| <= |r| <= Max(|grid|, height) && forall y | 0 <= y < |r| :: r[y] == RowOf(grid, y)
    {
      r := r + [[]];
    }
  }

  method GrowRow(row: seq<string>, width: nat) returns (r: seq<string>)
    ensures Padded(r, row, width)
  {
    r := row;
    while |r| < width
      invariant |row| <= |r| <= Max(|row|, width) && Padded(r, row, |r|)
    {
      r := r + [""];
    }
  }

  lemma PlacedCellShows(grid: Grid, grid': Grid, ps: seq<Placed>, p: Placed, rows: nat)
    requires GridShows(grid, ps, rows) && p.row < rows
    requires ValidCell(p.cell) && forall i | 0 <= i < |ps| :: ValidCell(ps[i].cell)
    requires |grid'| == Max(|grid|, p.row + p.cell.spanY)
    requires forall y: nat | y < |grid'| ::
      Padded(grid'[y], RowOf(grid, y), if p.row <= y < p.row + p.cell.spanY then p.column + p.cell.spanX else 0)
    ensures p.column < |grid'[p.row]|
    ensures GridShows(grid'[p.row := grid'[p.row][p.column := Escape(p.cell.text)]], ps + [p], rows)
  {
    var final := grid'[p.row := grid'[p.row][p.column := Escape(p.cell.text)]];
    var ps' := ps + [p];
    assert ps'[..|ps|] == ps;
    forall y | 0 <= y < |final| ensures RowShows(final[y], ps', y) {
      TextIsInside(ps, y, 0);
      assert |RowOf(grid, y)| == WidthAt(ps, y);
      forall x | 0 <= x < |final[y]| ensures final[y][x] == TextAt(ps', y, x) {
        TextIsInside(ps, y, x);
      }
    }
  }

  lemma MarkedCell(before: set<(nat, nat)>, after: set<(nat, nat)>, ps: seq<Placed>, p: Placed)
    requires Marks(before, ps)
    requires forall y: nat, x: nat :: (y, x) in after <==> (y, x) in before || Covers(p, y, x)
    ensures Marks(after, ps + [p])
  {
    var ps' := ps + [p];
    forall y: nat, x: nat ensures (y, x) in after <==> Occupied(ps', y, x) {
      if Occupied(ps, y, x) {
        var i :| 0 <= i < |ps| && Covers(ps[i], y, x);
        assert Covers(ps'[i], y, x);
      }
      if Covers(p, y, x) {
        assert Covers(ps'[|ps|], y, x);
      }
    }
  }

  lemma {:induction false} PlaceRowKeepsValid(ps: seq<Placed>, y: nat, cells: seq<Cell>)
    requires (forall i | 0 <= i < |ps| :: ValidCell(ps[i].cell)) && forall c | c in cells :: ValidCell(c)
    ensures forall i | 0 <= i < |PlaceRow(ps, y, cells).0| :: ValidCell(PlaceRow(ps, y, cells).0[i].cell)
  {
    if cells != [] {
      PlaceRowKeepsValid(ps, y, cells[..|cells| - 1]);
    }
  }

  // One row of cells: skip what earlier spans cover, reserve the span, write the text at its start.
  method LayOutRow(grid: Grid, occupied: set<(nat, nat)>, ghost ps: seq<Placed>, y: nat, cells: seq<Cell>)
    returns (grid': Grid, occupied': set<(nat, nat)>)
    requires (forall i | 0 <= i < |ps| :: ValidCell(ps[i].cell)) && forall c | c in cells :: ValidCell(c)
    requires GridShows(grid, ps, y + 1) && Marks(occupied, ps)
    ensures GridShows(grid', PlaceRow(ps, y, cells).0, y + 1) && Marks(occupied', PlaceRow(ps, y, cells).0)
  {
    hide Marks, GridShows, Escape;
    grid', occupied' := grid, occupied;
    var column := 0;
    assert cells[..0] == [];
    for k := 0 to |cells|
      invariant PlaceRow(ps, y, cells[..k]).1 == column
      invariant GridShows(grid', PlaceRow(ps, y, cells[..k]).0, y + 1)
      invariant Marks(occupied', PlaceRow(ps, y, cells[..k]).0)
    {
      ghost var before := PlaceRow(ps, y, cells[..k]).0;
      column := SkipOccupied(occupied', before, y, column);
      var cell := cells[k];
      ghost var p := Placed(y, column, cell);
      assert cells[..k + 1][..k] == cells[..k] && cells[..k + 1][k] == cell;
      assert PlaceRow(ps, y, cells[..k + 1]) == (before + [p], column + cell.spanX);
      PlaceRowKeepsValid(ps, y, cells[..k]);
      var reserved, marked := Reserve(grid', occupied', Placed(y, column, cell));
      PlacedCellShows(grid', reserved, before, p, y + 1);
      MarkedCell(occupied', marked, before, p);
      grid' := reserved[y := reserved[y][column := Escape(cell.text)]];
      occupied' := marked;
      column := column + cell.spanX;
    }
    assert cells[..|cells|] == cells;
  }

  method SkipOccupied(occupied: set<(nat, nat)>, ghost ps: seq<Placed>, y: nat, from: nat) returns (column: nat)
    requires Marks(occupied, ps)
    ensures column == FirstFree(ps, y, from)
  {
    column := from;
    while (y, column) in occupied
      invariant FirstFree(ps, y, column) == FirstFree(ps, y, from)
      decreases RightEdge(ps) - column
    {
      column := column + 1;
    }
  }

  method LayOut(rows: seq<seq<Cell>>) returns (grid: Grid)
    requires ValidTable(rows)
    ensures GridShows(grid, Place(rows), |rows|)
  {
    grid := [];
    var occupied: set<(nat, nat)> := {};
    assert rows[..0] == [];
    for y := 0 to |rows|
      invariant GridShows(grid, Place(rows[..y]), y) && Marks(occupied, Place(rows[..y]))
    {
      ghost var ps := Place(rows[..y]);
      assert rows[..y + 1][..y] == rows[..y];
      PlaceIsWellPlaced(rows[..y]);
      NewRowShows(grid, ps, y);
      forall c | c in rows[y] ensures ValidCell(c) {
        var k :| 0 <= k < |rows[y]| && rows[y][k] == c;
      }
      grid := GrowGrid(grid, y + 1);
      grid, occupied := LayOutRow(grid, occupied, ps, y, rows[y]);
    }
    assert rows[..|rows|] == rows;
  }

  lemma NewRowShows(grid: Grid, ps: seq<Placed>, y: nat)
    requires GridShows(grid, ps, y) && forall i | 0 <= i < |ps| :: ValidCell(ps[i].cell)
    ensures forall g: Grid | |g| == Max(|grid|, y + 1) && (forall k | 0 <= k < |g| :: g[k] == RowOf(grid, k)) ::
      GridShows(g, ps, y + 1)
  {
    forall g: Grid, k | |g| == Max(|grid|, y + 1) && (forall k | 0 <= k < |g| :: g[k] == RowOf(grid, k)) && 0 <= k < |g|
      ensures RowShows(g[k], ps, k)
    {
      TextIsInside(ps, k, 0);
    }
  }

  lemma {:induction false} TextAtStart(ps: seq<Placed>, i: nat, n: nat)
    requires WellPlaced(ps) && i < n <= |ps|
    ensures TextAt(ps[..n], ps[i].row, ps[i].column) == Escape(ps[i].cell.text)
  {
    assert ps[..n][..n - 1] == ps[..n - 1];
    if i < n - 1 {
      TextAtStart(ps, i, n - 1);
      assert Before(ps[i], ps[n - 1]);
    }
  }

  lemma {:induction false} TextAtElsewhere(ps: seq<Placed>, y: int, x: int)
    requires forall i | 0 <= i < |ps| :: ps[i].row != y || ps[i].column != x
    ensures TextAt(ps, y, x) == ""
  {
    if ps != [] {
      assert ps[|ps| - 1].row != y || ps[|ps| - 1].column != x;
      TextAtElsewhere(ps[..|ps| - 1], y, x);
    }
  }

  // On the laid-out grid each cell's text stands at its own start, and every other slot, in particular every
  // slot a span merely continues over, is empty.
  lemma GridHoldsEachTextOnce(rows: seq<seq<Cell>>, grid: Grid)
    requires ValidTable(rows) && GridShows(grid, Place(rows), |rows|)
    ensures forall i | 0 <= i < |Place(rows)| ::
      var p := Place(rows)[i];
      p.row < |grid| && p.column < |grid[p.row]| && grid[p.row][p.column] == Escape(p.cell.text)
    ensures forall y, x | 0 <= y < |grid| && 0 <= x < |grid[y]| && grid[y][x] != "" ::
      exists i :: 0 <= i < |Place(rows)| && Place(rows)[i].row == y && Place(rows)[i].column == x
    ensures forall i, y, x | 0 <= i < |Place(rows)| && Covers(Place(rows)[i], y, x) ::
      y < |grid| && x < |grid[y]|
  {
    var ps := Place(rows);
    PlaceIsWellPlaced(rows);
    forall i | 0 <= i < |ps|
      ensures ps[i].row < |grid| && ps[i].column < |grid[ps[i].row]|
      ensures grid[ps[i].row][ps[i].column] == Escape(ps[i].cell.text)
      ensures forall y, x | Covers(ps[i], y, x) :: y < |grid| && x < |grid[y]|
    {
      forall y, x | Covers(ps[i], y, x) ensures y < |grid| && x < |grid[y]| {
        SpanIsInside(ps, i, |ps|, y, x);
        assert ps[..|ps|] == ps;
        assert RowShows(grid[y], ps, y);
      }
      assert Covers(ps[i], ps[i].row, ps[i].column);
      TextAtStart(ps, i, |ps|);
      assert ps[..|ps|] == ps;
      assert RowShows(grid[ps[i].row], ps, ps[i].row);
    }
    forall y, x | 0 <= y < |grid| && 0 <= x < |grid[y]| && grid[y][x] != ""
      ensures exists i :: 0 <= i < |ps| && ps[i].row == y && ps[i].column == x
    {
      assert RowShows(grid[y], ps, y);
      if forall i | 0 <= i < |ps| :: ps[i].row != y || ps[i].column != x {
        TextAtElsewhere(ps, y, x);
      }
    }
  }

  lemma {:induction false} SpanIsInside(ps: seq<Placed>, i: nat, n: nat, y: int, x: int)
    requires i < n <= |ps| && Covers(ps[i], y, x)
    ensures y < HeightOf(ps[..n]) && x < WidthAt(ps[..n], y)
  {
    assert ps[..n][..n - 1] == ps[..n - 1];
    if i < n - 1 {
      SpanIsInside(ps, i, n - 1, y, x);
    }
  }

  // ---- printing ----

  function GridWidth(grid: Grid): (w: nat)
    ensures forall y | 0 <= y < |grid| :: |grid[y]| <= w
    ensures w == 0 || exists y :: 0 <= y < |grid| && |grid[y]| == w
  {
    if grid == [] then 0
    else
      var w := GridWidth(grid[..|grid| - 1]);
      assert forall y | 0 <= y < |grid| - 1 :: grid[y] == grid[..|grid| - 1][y];
      Max(w, |grid[|grid| - 1]|)
  }

  function PadRow(row: seq<string>, width: nat): (r: seq<string>)
    ensures Padded(r, row, width)
  {
    row + seq(if width > |row| then width - |row| else 0, _ => "")
  }

  function PrintRow(row: seq<string>, width: nat): string {
    "| " + Join(PadRow(row, width), " | ") + " |"
  }

  function PrintRows(grid: Grid, width: nat): seq<string> {
    seq(|grid|, y requires 0 <= y < |grid| => PrintRow(grid[y], width))
  }

  // A grid without columns prints nothing; otherwise every row prints, even an empty one.
  function Print(grid: Grid): string {
    if GridWidth(grid) == 0 then "" else Join(PrintRows(grid, GridWidth(grid)), "\n")
  }

  // The pipes no backslash precedes, given the character before the text.
  function BarePipes(previous: char, s: string): nat
    decreases |s|
  {
    if s == [] then 0
    else (if s[0] == '|' && previous != '\\' then 1 else 0) + BarePipes(s[0], s[1..])
  }

  function LastOf(previous: char, s: string): char {
    if s == [] then previous else s[|s| - 1]
  }

  lemma {:induction false} BarePipesConcat(previous: char, a: string, b: string)
    ensures BarePipes(previous, a + b) == BarePipes(previous, a) + BarePipes(LastOf(previous, a), b)
    decreases |a|
  {
    if a == [] {
      assert a + b == b;
    } else {
      BarePipesConcat(a[0], a[1..], b);
      assert (a + b)[1..] == a[1..] + b;
    }
  }

  lemma {:induction false} EscapedHasNoBarePipe(previous: char, s: string)
    ensures BarePipes(previous, Replace(s, '|', "\\|")) == 0
    decreases |s|
  {
    if s != [] {
      var head := if s[0] == '|' then "\\|" else [s[0]];
      EscapedHasNoBarePipe(LastOf(previous, head), s[1..]);
      BarePipesConcat(previous, head, Replace(s[1..], '|', "\\|"));
      assert head[1..] == if s[0] == '|' then "|" else "";
      assert s[0] == '|' ==> head[1..][1..] == "";
    }
  }

  lemma {:induction false} ReplaceKeepsOut(s: string, c: char, with: string, d: char)
    requires d !in s && d !in with
    ensures d !in Replace(s, c, with)
  {
    if s != [] {
      ReplaceKeepsOut(s[1..], c, with, d);
    }
  }

  // A text the grid can hold: no line break, and every pipe escaped.
  ghost predicate Printable(text: string) {
    '\n' !in text && forall previous :: BarePipes(previous, text) == 0
  }

  lemma EscapedIsPrintable(text: string)
    ensures Printable(Escape(text)) && Printable("")
  {
    var flat := Replace(text, '\n', " ");
    ReplaceRemoves(text, '\n', " ");
    ReplaceKeepsOut(flat, '|', "\\|", '\n');
    forall previous ensures BarePipes(previous, Escape(text)) == 0 {
      EscapedHasNoBarePipe(previous, flat);
    }
  }

  lemma {:induction false} TextAtIsPrintable(ps: seq<Placed>, y: int, x: int)
    ensures Printable(TextAt(ps, y, x))
  {
    if ps != [] {
      EscapedIsPrintable(ps[|ps| - 1].cell.text);
      TextAtIsPrintable(ps[..|ps| - 1], y, x);
    }
  }

  lemma {:induction false} JoinedPipes(cells: seq<string>)
    requires cells != [] && forall c | c in cells :: Printable(c)
    ensures BarePipes(' ', Join(cells, " | ")) == |cells| - 1 && '\n' !in Join(cells, " | ")
  {
    assert Printable(cells[0]);
    if |cells| > 1 {
      JoinedPipes(cells[1..]);
      var tail := Join(cells[1..], " | ");
      assert Join(cells, " | ") == cells[0] + (" | " + tail);
      BarePipesConcat(' ', cells[0], " | " + tail);
      BarePipesConcat(LastOf(' ', cells[0]), " | ", tail);
      assert " | "[1..] == "| " && "| "[1..] == " " && " "[1..] == "";
    }
  }

  lemma PrintedRowPipes(row: seq<string>, width: nat)
    requires |row| <= width && 1 <= width && forall c | c in row :: Printable(c)
    ensures BarePipes(' ', PrintRow(row, width)) == width + 1 && '\n' !in PrintRow(row, width)
  {
    var cells := PadRow(row, width);
    EscapedIsPrintable("");
    forall c | c in cells ensures Printable(c) {
      var x :| 0 <= x < |cells| && cells[x] == c;
      if x < |row| {
        assert row[x] in row;
      }
    }
    JoinedPipes(cells);
    var body := Join(cells, " | ");
    assert PrintRow(row, width) == "| " + (body + " |");
    BarePipesConcat(' ', "| ", body + " |");
    BarePipesConcat(' ', body, " |");
    assert "| "[1..] == " " && " "[1..] == "" && " |"[1..] == "|" && "|"[1..] == "";
  }

  // The printed table is rectangular: every line of it has the same cells, one between each two bare pipes.
  lemma PrintedTableIsRectangular(rows: seq<seq<Cell>>, grid: Grid)
    requires ValidTable(rows) && GridShows(grid, Place(rows), |rows|) && GridWidth(grid) > 0
    ensures Split(Print(grid), '\n') == PrintRows(grid, GridWidth(grid))
    ensures forall line | line in Split(Print(grid), '\n') :: BarePipes(' ', line) == GridWidth(grid) + 1
  {
    var width := GridWidth(grid);
    var lines := PrintRows(grid, width);
    forall line | line in lines ensures '\n' !in line && BarePipes(' ', line) == width + 1 {
      var y :| 0 <= y < |grid| && lines[y] == line;
      assert RowShows(grid[y], Place(rows), y);
      forall c | c in grid[y] ensures Printable(c) {
        var x :| 0 <= x < |grid[y]| && grid[y][x] == c;
        TextAtIsPrintable(Place(rows), y, x);
      }
      PrintedRowPipes(grid[y], width);
    }
    SplitOfJoin(lines, '\n');
  }

  // _render_table from the rows found in the table element. The source reads the spans as it lays the cells out; a
  // call that raises leaves nothing behind, so they can as well be read before.
  method RenderTable(source: seq<seq<SourceCell>>, numerals: Numerals) returns (text: Option<string>)
    ensures text.None? <==> TableRaises(source, numerals)
    ensures text.Some? ==>
      var rows := ReadTable(source, numerals);
      exists grid :: GridShows(grid, Place(rows), |rows|) && text.value == Print(grid)
  {
    if TableRaises(source, numerals) {
      return None;
    }
    var grid := LayOut(ReadTable(source, numerals));
    text := Some(Print(grid));
  }
}
