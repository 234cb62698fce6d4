/** Where each cell of a table goes, and what the printed table still says. */
module TableLaws {
  import opened Text
  import opened HtmlTable

  // ---- placement ----

  // The row each cell comes from, in reading order.
  function RowNumbers(rows: seq<seq<Cell>>): seq<nat> {
    if rows == [] then [] else RowNumbers(rows[..|rows| - 1]) + seq(|rows[|rows| - 1]|, _ => |rows| - 1)
  }

  function RowsOf(ps: seq<Placed>): seq<nat> {
    seq(|ps|, i requires 0 <= i < |ps| => ps[i].row)
  }

  // The least column of its row that no cell before it covers.
  ghost predicate AtFirstFree(ps: seq<Placed>, i: nat)
    requires i < |ps|
  {
    && !Occupied(ps[..i], ps[i].row, ps[i].column)
    && forall x: nat | x < ps[i].column :: Occupied(ps[..i], ps[i].row, x)
  }

  ghost predicate AllAtFirstFree(ps: seq<Placed>) {
    forall i: nat | i < |ps| :: AtFirstFree(ps, i)
  }

  // Every column before this one is covered.
  ghost predicate CoveredUpTo(ps: seq<Placed>, y: nat, x: nat) {
    forall z: nat | z < x :: Occupied(ps, y, z)
  }

  lemma OneMorePlaced(ps: seq<Placed>, p: Placed)
    requires AllAtFirstFree(ps)
    requires !Occupied(ps, p.row, p.column) && CoveredUpTo(ps, p.row, p.column)
    ensures AllAtFirstFree(ps + [p])
  {
    hide Occupied;
    var qs := ps + [p];
    forall i: nat | i < |qs| ensures AtFirstFree(qs, i) {
      if i < |ps| {
        assert qs[..i] == ps[..i];
        assert AtFirstFree(ps, i);
      } else {
        assert qs[..i] == ps;
      }
    }
  }

  lemma StaysOccupied(ps: seq<Placed>, p: Placed, y: int, x: int)
    requires Occupied(ps, y, x) || Covers(p, y, x)
    ensures Occupied(ps + [p], y, x)
  {
    var qs := ps + [p];
    if Occupied(ps, y, x) {
      var i :| 0 <= i < |ps| && Covers(ps[i], y, x);
      assert Covers(qs[i], y, x);
    } else {
      assert Covers(qs[|ps|], y, x);
    }
  }

  lemma {:induction false} RowIsCompact(ps: seq<Placed>, y: nat, cells: seq<Cell>)
    requires AllAtFirstFree(ps) && forall c | c in cells :: ValidCell(c)
    ensures var (qs, x) := PlaceRow(ps, y, cells);
      && AllAtFirstFree(qs) && CoveredUpTo(qs, y, x)
      && RowsOf(qs) == RowsOf(ps) + seq(|cells|, _ => y)
  {
    hide AllAtFirstFree, Occupied;
    if cells == [] {
      assert RowsOf(ps) + seq(0, _ => y) == RowsOf(ps);
    } else {
      var init, cell := cells[..|cells| - 1], cells[|cells| - 1];
      RowIsCompact(ps, y, init);
      var (before, x) := PlaceRow(ps, y, init);
      var p := Placed(y, FirstFree(before, y, x), cell);
      assert cell in cells;
      OneMorePlaced(before, p);
      forall z: nat | z < p.column + cell.spanX ensures Occupied(before + [p], y, z) {
        StaysOccupied(before, p, y, z);
      }
      assert RowsOf(before + [p]) == RowsOf(before) + [y];
    }
  }

  // Reading the rows in order, each cell starts in its own row at the first column that no cell before it covers.
  lemma {:induction false} CellsTakeFirstFree(rows: seq<seq<Cell>>)
    requires ValidTable(rows)
    ensures AllAtFirstFree(Place(rows)) && RowsOf(Place(rows)) == RowNumbers(rows)
  {
    if rows != [] {
      hide AllAtFirstFree, PlaceRow;
      var last := rows[|rows| - 1];
      CellsTakeFirstFree(rows[..|rows| - 1]);
      forall c | c in last ensures ValidCell(c) {
        var k :| 0 <= k < |last| && last[k] == c;
        assert ValidCell(rows[|rows| - 1][k]);
      }
      RowIsCompact(Place(rows[..|rows| - 1]), |rows| - 1, last);
    }
  }

  // ---- reading a printed table back ----

  // The pieces between pipes that no backslash precedes, given the character before the text.
  function BarePieces(previous: char, s: string): (r: seq<string>)
    ensures r != []
    decreases |s|
  {
    if s == [] then [[]]
    else
      var rest := BarePieces(s[0], s[1..]);
      if s[0] == '|' && previous != '\\' then [[]] + rest else [[s[0]] + rest[0]] + rest[1..]
  }

  function UnescapePipes(s: string): string {
    if s == [] then []
    else if |s| >= 2 && s[0] == '\\' && s[1] == '|' then ['|'] + UnescapePipes(s[2..])
    else [s[0]] + UnescapePipes(s[1..])
  }

  // What a piece shows: one space on each side dropped, the escapes undone.
  function CellOf(piece: string): string {
    if |piece| >= 2 then UnescapePipes(piece[1..|piece| - 1]) else ""
  }

  // The cells of a printed line, which begins and ends with a pipe.
  function LineCells(line: string): seq<string> {
    var pieces := BarePieces(' ', line);
    if |pieces| < 2 then [] else seq(|pieces| - 2, k requires 0 <= k < |pieces| - 2 => CellOf(pieces[k + 1]))
  }

  lemma {:induction false} UnescapesPipes(s: string)
    ensures UnescapePipes(Replace(s, '|', "\\|")) == s
    ensures Replace(s, '|', "\\|") != [] ==> Replace(s, '|', "\\|")[0] != '|'
  {
    if s != [] {
      var rest := Replace(s[1..], '|', "\\|");
      UnescapesPipes(s[1..]);
      if s[0] == '|' {
        assert ("\\|" + rest)[2..] == rest;
      } else {
        assert ([s[0]] + rest)[1..] == rest;
      }
    }
  }

  // A cell's text is recovered up to its line breaks, which became spaces.
  lemma EscapeIsUndone(text: string)
    ensures UnescapePipes(Escape(text)) == Replace(text, '\n', " ")
  {
    hide Replace;
    UnescapesPipes(Replace(text, '\n', " "));
  }

  lemma {:induction false} PieceEnds(previous: char, a: string, b: string)
    requires BarePipes(previous, a) == 0 && LastOf(previous, a) != '\\'
    ensures BarePieces(previous, a + "|" + b) == [a] + BarePieces('|', b)
    decreases |a|
  {
    var s := a + "|" + b;
    if a == [] {
      assert s[1..] == b;
    } else {
      PieceEnds(a[0], a[1..], b);
      assert s[1..] == a[1..] + "|" + b;
      assert [a[0]] + a[1..] == a;
    }
  }

  lemma PaddedHasNoBarePipe(previous: char, cell: string)
    requires Printable(cell)
    ensures BarePipes(previous, " " + cell + " ") == 0 && LastOf(previous, " " + cell + " ") == ' '
  {
    assert BarePipes(' ', cell) == 0;
    BarePipesConcat(previous, " ", cell + " ");
    BarePipesConcat(' ', cell, " ");
    assert " " + cell + " " == " " + (cell + " ");
    assert " "[1..] == "";
  }

  function PaddedAll(cells: seq<string>): seq<string> {
    seq(|cells|, k requires 0 <= k < |cells| => " " + cells[k] + " ")
  }

  lemma {:induction false} BodyPieces(cells: seq<string>)
    requires cells != [] && forall c | c in cells :: Printable(c)
    ensures BarePieces('|', " " + Join(cells, " | ") + " |") == PaddedAll(cells) + [""]
  {
    hide BarePipes, BarePieces, Printable;
    var padded := " " + cells[0] + " ";
    PaddedHasNoBarePipe('|', cells[0]);
    NoPiece();
    if |cells| == 1 {
      assert " " + Join(cells, " | ") + " |" == padded + "|" + "";
      PieceEnds('|', padded, "");
    } else {
      var tail := " " + Join(cells[1..], " | ") + " |";
      BodyPieces(cells[1..]);
      assert " " + Join(cells, " | ") + " |" == padded + "|" + tail;
      PieceEnds('|', padded, tail);
      assert [padded] + PaddedAll(cells[1..]) == PaddedAll(cells);
    }
  }

  lemma NoPiece()
    ensures BarePieces('|', "") == [""]
  {
  }

  lemma LineReadsBack(row: seq<string>, width: nat)
    requires |row| <= width && width >= 1 && forall c | c in row :: Printable(c)
    ensures var cells := LineCells(PrintRow(row, width));
      |cells| == width && forall x | 0 <= x < width :: cells[x] == UnescapePipes(if x < |row| then row[x] else "")
  {
    hide BarePipes, BarePieces, Printable, UnescapePipes;
    var cells := PadRow(row, width);
    EscapedIsPrintable("");
    forall c | c in cells ensures Printable(c) {
      var x :| 0 <= x < |cells| && cells[x] == c;
      if x < |row| {
        assert row[x] in row;
      }
    }
    BodyPieces(cells);
    var body := " " + Join(cells, " | ") + " |";
    var line := PrintRow(row, width);
    assert line == "" + "|" + body;
    NoPipes();
    PieceEnds(' ', "", body);
    var pieces := BarePieces(' ', line);
    assert pieces == [""] + (PaddedAll(cells) + [""]);
    forall x | 0 <= x < width ensures CellOf(pieces[x + 1]) == UnescapePipes(cells[x]) {
      assert pieces[x + 1] == " " + cells[x] + " ";
      assert (" " + cells[x] + " ")[1..|cells[x]| + 1] == cells[x];
    }
  }

  lemma NoPipes()
    ensures BarePipes(' ', "") == 0
  {
  }

  // The printed table says, slot by slot, what the table says: each line has one cell a column, the text of a cell
  // stands where the cell starts, line breaks apart, and every other slot is empty.
  lemma PrintedTableReadsBack(rows: seq<seq<Cell>>, grid: Grid)
    requires ValidTable(rows) && GridShows(grid, Place(rows), |rows|) && GridWidth(grid) > 0
    ensures var lines, ps := Split(Print(grid), '\n'), Place(rows);
      && |lines| == |grid|
      && (forall y | 0 <= y < |lines| :: |LineCells(lines[y])| == GridWidth(grid))
      && (forall i | 0 <= i < |ps| ::
          && ps[i].row < |lines| && ps[i].column < |LineCells(lines[ps[i].row])|
          && LineCells(lines[ps[i].row])[ps[i].column] == Replace(ps[i].cell.text, '\n', " "))
      && (forall y: nat, x: nat | y < |lines| && x < |LineCells(lines[y])|
            && (forall i | 0 <= i < |ps| :: ps[i].row != y || ps[i].column != x) ::
          LineCells(lines[y])[x] == "")
  {
    hide *;
    var lines, ps, width := Split(Print(grid), '\n'), Place(rows), GridWidth(grid);
    PrintedTableIsRectangular(rows, grid);
    PrintedLines(grid, width);
    GridHoldsEachTextOnce(rows, grid);
    forall y: nat | y < |lines|
      ensures |LineCells(lines[y])| == width
      ensures forall x: nat | x < width ::
        LineCells(lines[y])[x] == UnescapePipes(if x < |grid[y]| then grid[y][x] else "")
    {
      GridIsPrintable(rows, grid, y);
      LineReadsBack(grid[y], width);
    }
    forall i | 0 <= i < |ps|
      ensures ps[i].row < |lines| && ps[i].column < |LineCells(lines[ps[i].row])|
        && LineCells(lines[ps[i].row])[ps[i].column] == Replace(ps[i].cell.text, '\n', " ")
    {
      EscapeIsUndone(ps[i].cell.text);
    }
    NothingIsUnescaped();
  }

  lemma NothingIsUnescaped()
    ensures UnescapePipes("") == ""
  {
  }

  lemma PrintedLines(grid: Grid, width: nat)
    ensures |PrintRows(grid, width)| == |grid|
    ensures forall y | 0 <= y < |grid| :: PrintRows(grid, width)[y] == PrintRow(grid[y], width)
    ensures forall y | 0 <= y < |grid| :: |grid[y]| <= GridWidth(grid)
  {
  }

  lemma GridIsPrintable(rows: seq<seq<Cell>>, grid: Grid, y: nat)
    requires GridShows(grid, Place(rows), |rows|) && y < |grid|
    ensures forall c | c in grid[y] :: Printable(c)
  {
    hide Printable, Place;
    assert RowShows(grid[y], Place(rows), y);
    forall c | c in grid[y] ensures Printable(c) {
      var x :| 0 <= x < |grid[y]| && grid[y][x] == c;
      TextAtIsPrintable(Place(rows), y, x);
    }
  }

  // ---- the size of the grid ----

  lemma {:induction false} WidthIsTight(ps: seq<Placed>, y: int)
    requires forall i | 0 <= i < |ps| :: ValidCell(ps[i].cell)
    ensures WidthAt(ps, y) > 0 ==> Occupied(ps, y, WidthAt(ps, y) - 1)
    ensures forall x | Occupied(ps, y, x) :: x < WidthAt(ps, y)
  {
    if ps != [] {
      var n := |ps| - 1;
      WidthIsTight(ps[..n], y);
      assert ps == ps[..n] + [ps[n]];
      assert ValidCell(ps[n].cell);
      forall x ensures Occupied(ps, y, x) <==> Occupied(ps[..n], y, x) || Covers(ps[n], y, x) {
        OccupiedNext(ps, y, x);
      }
    }
  }

  lemma OccupiedNext(ps: seq<Placed>, y: int, x: int)
    requires ps != []
    ensures Occupied(ps, y, x) <==> Occupied(ps[..|ps| - 1], y, x) || Covers(ps[|ps| - 1], y, x)
  {
    var before := ps[..|ps| - 1];
    assert forall i | 0 <= i < |before| :: before[i] == ps[i];
  }

  // A span reaches the row.
  ghost predicate Reached(ps: seq<Placed>, y: int) {
    exists x: nat :: Occupied(ps, y, x)
  }

  lemma {:induction false} HeightIsTight(ps: seq<Placed>)
    requires forall i | 0 <= i < |ps| :: ValidCell(ps[i].cell)
    ensures HeightOf(ps) > 0 ==> Reached(ps, HeightOf(ps) - 1)
    ensures forall y, x | Occupied(ps, y, x) :: y < HeightOf(ps)
  {
    if ps != [] {
      var n := |ps| - 1;
      HeightIsTight(ps[..n]);
      assert ValidCell(ps[n].cell);
      forall y, x ensures Occupied(ps, y, x) <==> Occupied(ps[..n], y, x) || Covers(ps[n], y, x) {
        OccupiedNext(ps, y, x);
      }
      var last := ps[n];
      assert Covers(last, last.row + last.cell.spanY - 1, last.column);
      if HeightOf(ps[..n]) > 0 {
        var y := HeightOf(ps[..n]) - 1;
        var x: nat :| Occupied(ps[..n], y, x);
        assert Occupied(ps, y, x);
      }
    }
  }

  // A grid row as wide as the spans that reach it.
  ghost predicate JustWide(row: seq<string>, ps: seq<Placed>, y: int) {
    && (row != [] ==> Occupied(ps, y, |row| - 1))
    && forall x | Occupied(ps, y, x) :: x < |row|
  }

  lemma RowIsTight(row: seq<string>, ps: seq<Placed>, y: int)
    requires RowShows(row, ps, y) && forall i | 0 <= i < |ps| :: ValidCell(ps[i].cell)
    ensures JustWide(row, ps, y)
  {
    hide Occupied, WidthAt, TextAt;
    WidthIsTight(ps, y);
  }

  lemma ShownGrid(rows: seq<seq<Cell>>, grid: Grid)
    requires ValidTable(rows) && GridShows(grid, Place(rows), |rows|)
    ensures forall i | 0 <= i < |Place(rows)| :: ValidCell(Place(rows)[i].cell)
    ensures forall y | 0 <= y < |grid| :: RowShows(grid[y], Place(rows), y)
    ensures |grid| == Max(|rows|, HeightOf(Place(rows)))
  {
    hide Place, HeightOf, RowShows;
    PlaceIsWellPlaced(rows);
  }

  lemma TallerExactly(a: nat, b: nat)
    ensures a <= Max(a, b) && b <= Max(a, b) && (Max(a, b) > a ==> Max(a, b) == b)
  {
  }

  // The grid is just large enough: each row as wide as the spans that reach it, and as many rows as the table has or
  // its spans reach.
  lemma GridIsTight(rows: seq<seq<Cell>>, grid: Grid)
    requires ValidTable(rows) && GridShows(grid, Place(rows), |rows|)
    ensures forall y | 0 <= y < |grid| :: JustWide(grid[y], Place(rows), y)
    ensures |rows| <= |grid| && (|grid| > |rows| ==> Reached(Place(rows), |grid| - 1))
    ensures forall y, x | Occupied(Place(rows), y, x) :: y < |grid|
  {
    hide *;
    ShownGrid(rows, grid);
    HeightIsTight(Place(rows));
    TallerExactly(|rows|, HeightOf(Place(rows)));
    forall y | 0 <= y < |grid| ensures JustWide(grid[y], Place(rows), y) {
      RowIsTight(grid[y], Place(rows), y);
    }
  }
}
