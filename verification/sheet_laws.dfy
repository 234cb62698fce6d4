/** What loading a sheet finds and refuses, told of the sheet's own cells. */
module SheetLaws {
  import opened Wrappers
  import opened Text
  import opened CanonicalDocuments
  import opened ColumnNames
  import opened RowLocators
  import opened ControlMatrix
  import opened ControlMatrixProfile
  import opened Decimal

  // What the sheet shows in a place: nothing where a merged range continues, the formula of a cell beside its value.
  function Shown(rows: Rows, merged: set<(nat, nat)>, n: nat, c: nat): string {
    if (n, c) in merged || n !in rows || c !in rows[n] then ""
    else
      var cell := rows[n][c];
      if cell.formula == None then cell.text
      else "[formula:=" + cell.formula.value + "; cached:" + cell.text + "]"
  }

  predicate Filled(rows: Rows, merged: set<(nat, nat)>, n: nat, c: nat) {
    !Blank(Shown(rows, merged, n, c))
  }

  // Two columns of the row are filled.
  ghost predicate TwoFilled(rows: Rows, merged: set<(nat, nat)>, n: nat) {
    exists a: nat, b: nat :: a < b && Filled(rows, merged, n, a) && Filled(rows, merged, n, b)
  }

  lemma EmptyIsBlank()
    ensures Blank("")
  {
  }

  lemma PopulatedExactly(rows: Rows, merged: set<(nat, nat)>, n: nat, c: nat)
    requires n in rows
    ensures c in Populated(n, Kept(rows, merged)[n], merged) <==> Filled(rows, merged, n, c)
  {
    hide Blank;
    EmptyIsBlank();
  }

  lemma TwoExactly(keys: set<nat>)
    ensures |keys| >= 2 <==> exists a: nat, b: nat :: a < b && a in keys && b in keys
  {
    if |keys| >= 2 {
      var a: nat :| a in keys;
      assert |keys - {a}| == |keys| - 1;
      var b: nat :| b in keys - {a};
      if a < b {
        assert a in keys && b in keys;
      } else {
        assert b < a && b in keys && a in keys;
      }
    }
    if a: nat, b: nat :| a < b && a in keys && b in keys {
      assert {a, b} <= keys;
      CardinalityGrows({a, b}, keys);
    }
  }

  lemma CardinalityGrows(a: set<nat>, b: set<nat>)
    requires a <= b
    ensures |a| <= |b|
  {
    assert b == a + (b - a);
  }

  lemma HeaderLikeExactly(rows: Rows, merged: set<(nat, nat)>, n: nat)
    requires n in rows
    ensures HeaderLike(Kept(rows, merged), merged, n) <==> TwoFilled(rows, merged, n)
  {
    hide Populated, Filled;
    var columns := Populated(n, Kept(rows, merged)[n], merged);
    TwoExactly(columns);
    forall c: nat ensures c in columns <==> Filled(rows, merged, n, c) {
      PopulatedExactly(rows, merged, n, c);
    }
  }

  // The header: the lowest row with two filled columns, from its first to its last filled column, and what it shows in
  // each.
  ghost predicate IsHeader(rows: Rows, merged: set<(nat, nat)>, h: Header) {
    && h.row in rows && TwoFilled(rows, merged, h.row)
    && (forall n | n in rows && n < h.row :: !TwoFilled(rows, merged, n))
    && h.minimum < h.maximum
    && Filled(rows, merged, h.row, h.minimum) && Filled(rows, merged, h.row, h.maximum)
    && (forall c: nat | Filled(rows, merged, h.row, c) :: h.minimum <= c <= h.maximum)
    && |h.names| == h.maximum - h.minimum + 1
    && (forall i: nat | i < |h.names| :: h.names[i] == Shown(rows, merged, h.row, h.minimum + i))
  }

  lemma TextExactly(rows: Rows, merged: set<(nat, nat)>, n: nat, c: nat)
    requires n in rows
    ensures CellText(n, Kept(rows, merged)[n], c, merged) == Shown(rows, merged, n, c)
  {
  }

  lemma HeaderExactly(rows: Rows, merged: set<(nat, nat)>, h: Header)
    requires FirstHeaderLike(Kept(rows, merged), merged, h.row) && HeaderSpans(h, Kept(rows, merged), merged)
    ensures IsHeader(rows, merged, h)
  {
    var kept := Kept(rows, merged);
    hide HeaderLike, Populated, Filled, TwoFilled, CellText, Shown, Kept;
    KeptKeys(rows, merged);
    forall n | n in rows ensures HeaderLike(kept, merged, n) <==> TwoFilled(rows, merged, n) {
      HeaderLikeExactly(rows, merged, n);
    }
    forall c: nat ensures c in Populated(h.row, kept[h.row], merged) <==> Filled(rows, merged, h.row, c) {
      PopulatedExactly(rows, merged, h.row, c);
    }
    forall i: nat | i < |h.names| ensures h.names[i] == Shown(rows, merged, h.row, h.minimum + i) {
      TextExactly(rows, merged, h.row, h.minimum + i);
    }
  }

  // Why a sheet is refused: a blank or repeated name, a formula in the header row, or something outside the header's
  // columns below it.
  ghost predicate Unusable(rows: Rows, merged: set<(nat, nat)>, h: Header) {
    || (exists i | 0 <= i < |h.names| :: Blank(h.names[i]))
    || (exists i, j | 0 <= i < j < |h.names| :: h.names[i] == h.names[j])
    || (exists c: nat | h.row in rows && c in rows[h.row] && (h.row, c) !in merged :: rows[h.row][c].formula != None)
    || (exists n: nat, c: nat | n > h.row && (c < h.minimum || c > h.maximum) :: Filled(rows, merged, n, c))
  }

  lemma OutsideExactly(rows: Rows, merged: set<(nat, nat)>, h: Header, n: nat)
    requires n in rows
    ensures HoldsOutside(Kept(rows, merged)[n], h.minimum, h.maximum)
      <==> exists c: nat | c < h.minimum || c > h.maximum :: Filled(rows, merged, n, c)
  {
    hide Blank;
    EmptyIsBlank();
    var cells := Kept(rows, merged)[n];
    forall c: nat ensures c in cells && !Blank(Rendered(cells[c])) <==> Filled(rows, merged, n, c) {
    }
  }

  lemma NamesExactly(rows: Rows, merged: set<(nat, nat)>, h: Header)
    requires h.row in rows
    ensures !NamesUsable(h.names, Kept(rows, merged)[h.row]) <==>
      || (exists i | 0 <= i < |h.names| :: Blank(h.names[i]))
      || (exists i, j | 0 <= i < j < |h.names| :: h.names[i] == h.names[j])
      || (exists c: nat | c in rows[h.row] && (h.row, c) !in merged :: rows[h.row][c].formula != None)
  {
    hide Blank;
    var cells := Kept(rows, merged)[h.row];
    forall c: nat ensures c in cells <==> c in rows[h.row] && (h.row, c) !in merged {
    }
  }

  lemma RefusedExactly(rows: Rows, merged: set<(nat, nat)>, h: Header)
    requires h.row in rows
    ensures h.row in Kept(rows, merged)
    ensures !SheetUsable(Kept(rows, merged), h) <==> Unusable(rows, merged, h)
  {
    hide Blank, NamesUsable, HoldsOutside, Filled, Kept;
    KeptKeys(rows, merged);
    NamesExactly(rows, merged, h);
    forall n: nat | n in rows
      ensures HoldsOutside(Kept(rows, merged)[n], h.minimum, h.maximum)
        <==> exists c: nat | c < h.minimum || c > h.maximum :: Filled(rows, merged, n, c)
    {
      OutsideExactly(rows, merged, h, n);
    }
    forall n: nat, c: nat | Filled(rows, merged, n, c) ensures n in rows {
      FilledIsThere(rows, merged, n, c);
    }
  }

  lemma FilledIsThere(rows: Rows, merged: set<(nat, nat)>, n: nat, c: nat)
    requires Filled(rows, merged, n, c)
    ensures n in rows
  {
    hide Blank;
    EmptyIsBlank();
  }

  // A data row shows something in the header's columns.
  lemma DataRowExactly(rows: Rows, merged: set<(nat, nat)>, h: Header, n: nat)
    requires h.minimum <= h.maximum
    ensures IsDataRow(n, Kept(rows, merged), merged, h)
      <==> n in rows && n > h.row && exists c: nat | h.minimum <= c <= h.maximum :: Shown(rows, merged, n, c) != ""
  {
    hide CellText, Shown, Kept;
    KeptKeys(rows, merged);
    if n in rows {
      var cells := Kept(rows, merged)[n];
      var values := ValuesOf(n, cells, h.minimum, h.maximum, merged);
      forall c: nat | h.minimum <= c <= h.maximum
        ensures values[c - h.minimum] == Shown(rows, merged, n, c)
      {
        ValueAt(n, cells, h.minimum, h.maximum, merged, c);
        TextExactly(rows, merged, n, c);
      }
      if i :| 0 <= i < |values| && values[i] != "" {
        assert values[h.minimum + i - h.minimum] == Shown(rows, merged, n, h.minimum + i);
      }
    }
  }

  // ---- sections ----

  // A row's anchor base is its sheet's slug, or sheet, and its number.
  lemma RowAnchorExactly(slug: string -> string, sheet: string, row: nat)
    requires '/' !in slug(sheet)
    ensures Split(RowAnchor(slug, sheet, row), '/')
      == [if slug(sheet) == "" then "sheet" else slug(sheet), "row-" + Show(row)]
  {
    var name := if slug(sheet) == "" then "sheet" else slug(sheet);
    ShowAvoids(row, '/');
    hide Show, Split;
    assert '/' !in "row-" + Show(row);
    SplitAfterPart(name, "row-" + Show(row), '/');
    SplitWithoutSeparator("row-" + Show(row), '/');
    assert RowAnchor(slug, sheet, row) == name + "/" + ("row-" + Show(row));
  }

  // The cells a row's locator names: its row in the header's first and last column.
  lemma RangeExactly(sheet: string, minimum: nat, maximum: nat, row: nat)
    ensures var range := RowLocator(sheet, minimum, maximum, row).path[1];
      && range.0 == "range"
      && exists first, last ::
        && Letters(first) && Letters(last) && Uppers(first) && Uppers(last)
        && NumberOf(first) == minimum && NumberOf(last) == maximum
        && range.1 == Cells(first, last, row)
  {
    NumberOfName(minimum);
    NumberOfName(maximum);
    hide Show, NameOf, NumberOf;
    assert RowLocator(sheet, minimum, maximum, row).path[1].1 == Cells(NameOf(minimum), NameOf(maximum), row);
  }

  function Cells(first: string, last: string, row: nat): string {
    first + Show(row) + ":" + last + Show(row)
  }

  // Two cells of one row, written as a range.
  predicate IsRange(text: string, first: string, last: string, digits: string) {
    && first != "" && Uppers(first) && last != "" && Uppers(last)
    && PositiveNumeral(digits) && text == first + digits + ":" + last + digits
  }

  ghost predicate NamesRow(text: string, row: nat) {
    exists first, last, digits :: IsRange(text, first, last, digits) && row == Decimal.Read(digits)
  }

  lemma RangeNamesRow(text: string)
    requires RangeRow(text).Some?
    ensures NamesRow(text, RangeRow(text).value)
  {
    hide RowDigits, Split, Decimal.Read;
    var parts := Split(text, ':');
    JoinOfSplit(text, ':');
    TwoParts(parts);
    RowDigitsOnlyMatches(parts[0]);
    RowDigitsOnlyMatches(parts[1]);
    var digits := RowDigits(parts[0]).value;
    var first :| first != "" && Uppers(first) && parts[0] == first + digits;
    var last :| last != "" && Uppers(last) && parts[1] == last + digits;
    assert first + digits + ":" + (last + digits) == first + digits + ":" + last + digits;
    assert IsRange(text, first, last, digits);
  }

  lemma NamedRow(text: string, first: string, last: string, digits: string)
    requires IsRange(text, first, last, digits)
    ensures RangeRow(text) == Some(Decimal.Read(digits))
  {
    hide RowDigits, Split, Decimal.Read;
    NoColon(first, digits);
    NoColon(last, digits);
    assert text == (first + digits) + [':'] + (last + digits);
    SplitAfterPart(first + digits, last + digits, ':');
    SplitWithoutSeparator(last + digits, ':');
    RowDigitsMatches(first + digits, first, digits);
    RowDigitsMatches(last + digits, last, digits);
  }

  lemma RangeRowExactly(text: string, row: nat)
    ensures RangeRow(text) == Some(row) <==> NamesRow(text, row)
  {
    hide RangeRow;
    if RangeRow(text).Some? {
      RangeNamesRow(text);
    }
    if NamesRow(text, row) {
      var first, last, digits :| IsRange(text, first, last, digits) && row == Decimal.Read(digits);
      NamedRow(text, first, last, digits);
    }
  }

  lemma TwoParts(parts: seq<string>)
    requires |parts| == 2
    ensures Join(parts, ":") == parts[0] + ":" + parts[1]
  {
    assert parts[1..] == [parts[1]];
  }

  lemma NoColon(name: string, digits: string)
    requires Uppers(name) && PositiveNumeral(digits)
    ensures ':' !in name + digits
  {
  }

  // What segmentation locates: a table block of a workbook, with a sheet name and a range within one row.
  lemma LocationExactly(b: Block, sheet: string, row: nat)
    ensures ControlMatrixLocation(b) == Some((sheet, row)) <==>
      && b.blockType == Table && b.locator.scheme == "xlsx"
      && sheet != "" && Unquote(Lookup(b.locator.path, "sheet")) == sheet
      && NamesRow(Lookup(b.locator.path, "range"), row)
  {
    hide NamesRow, RangeRow, Unquote, Lookup;
    RangeRowExactly(Lookup(b.locator.path, "range"), row);
  }
}
