/** Spreadsheet addresses: column names (ECMA-376 Part 1 section 18.18.7), sheet names, and row locators. */
module ColumnNames {
  import opened Wrappers

  predicate IsUpper(c: char) {
    'A' <= c <= 'Z'
  }

  predicate IsLetter(c: char) {
    'A' <= c <= 'Z' || 'a' <= c <= 'z'
  }

  predicate Letters(name: string) {
    forall k | 0 <= k < |name| :: IsLetter(name[k])
  }

  predicate Uppers(name: string) {
    forall k | 0 <= k < |name| :: IsUpper(name[k])
  }

  // str.upper() on the letters of a column name.
  function Upper(c: char): (u: char)
    requires IsLetter(c)
    ensures IsUpper(u)
    ensures IsUpper(c) ==> u == c
  {
    if IsUpper(c) then c else (c as int - 'a' as int + 'A' as int) as char
  }

  function UpperAll(name: string): string
    requires Letters(name)
  {
    seq(|name|, k requires 0 <= k < |name| => Upper(name[k]))
  }

  // A is 1, Z is 26.
  function Rank(c: char): (r: nat)
    requires IsLetter(c)
    ensures 1 <= r <= 26
  {
    Upper(c) as int - 'A' as int + 1
  }

  function LetterOf(i: nat): (c: char)
    requires i < 26
    ensures IsUpper(c) && Rank(c) == i + 1
  {
    (i + 'A' as int) as char
  }

  // Base 26 without a zero digit, most significant letter first.
  function NumberOf(name: string): nat
    requires Letters(name)
  {
    if name == [] then 0 else NumberOf(name[..|name| - 1]) * 26 + Rank(name[|name| - 1])
  }

  function NameOf(number: nat): (name: string)
    ensures Uppers(name) && Letters(name)
    ensures number > 0 ==> name != []
  {
    if number == 0 then [] else NameOf((number - 1) / 26) + [LetterOf((number - 1) % 26)]
  }

  // Every column number is recovered from its name.
  lemma {:induction false} NumberOfName(number: nat)
    ensures NumberOf(NameOf(number)) == number
  {
    if number > 0 {
      var name := NameOf(number);
      NumberOfName((number - 1) / 26);
      assert name[..|name| - 1] == NameOf((number - 1) / 26);
    }
  }

  lemma LetterOfRank(c: char)
    requires IsLetter(c)
    ensures LetterOf(Rank(c) - 1) == Upper(c)
  {
  }

  // Every name, whatever its case, is recovered from its number in upper case.
  lemma {:induction false} NameOfNumber(name: string)
    requires Letters(name)
    ensures NameOf(NumberOf(name)) == UpperAll(name)
  {
    if name != [] {
      var n := |name| - 1;
      var before, rank := NumberOf(name[..n]), Rank(name[n]);
      NameOfNumber(name[..n]);
      LetterOfRank(name[n]);
      assert (before * 26 + rank - 1) / 26 == before && (before * 26 + rank - 1) % 26 == rank - 1;
      assert UpperAll(name) == UpperAll(name[..n]) + [Upper(name[n])];
    }
  }

  // _column_name: letters least significant first, then reversed. None stands for the raised error.
  method ColumnName(number: int) returns (name: Option<string>)
    ensures name == if number < 1 then None else Some(NameOf(number))
  {
    if number < 1 {
      return None;
    }
    var value: nat := number;
    var reversed: string := [];
    while value > 0
      invariant NameOf(value) + Backwards(reversed) == NameOf(number)
    {
      var remainder := (value - 1) % 26;
      assert NameOf(value) == NameOf((value - 1) / 26) + [LetterOf(remainder)];
      assert Backwards(reversed + [LetterOf(remainder)]) == [LetterOf(remainder)] + Backwards(reversed);
      value, reversed := (value - 1) / 26, reversed + [LetterOf(remainder)];
    }
    assert NameOf(0) + Backwards(reversed) == Backwards(reversed);
    return Some(Backwards(reversed));
  }

  function Backwards(s: string): string {
    seq(|s|, k requires 0 <= k < |s| => s[|s| - 1 - k])
  }

  // _column_number
  method ColumnNumber(name: string) returns (value: nat)
    requires Letters(name)
    ensures value == NumberOf(name)
  {
    value := 0;
    for k := 0 to |name|
      invariant value == NumberOf(name[..k])
    {
      assert name[..k + 1][..k] == name[..k];
      value := value * 26 + Rank(name[k]);
    }
    assert name[..|name|] == name;
  }
}

/** Sheet names and data rows as locators, and the way back that segmentation takes. */
module RowLocators {
  import opened Wrappers
  import opened Text
  import opened Decimal
  import opened CanonicalDocuments
  import opened ColumnNames

  // _locator_value: five replacements in a row, the percent sign first.
  function LocatorValue(value: string): string {
    Replace(Replace(Replace(Replace(Replace(
      value, '%', "%25"), '=', "%3D"), '/', "%2F"), '\r', "%0D"), '\n', "%0A")
  }

  function EncodedChar(c: char): string {
    if c == '%' then "%25"
    else if c == '=' then "%3D"
    else if c == '/' then "%2F"
    else if c == '\r' then "%0D"
    else if c == '\n' then "%0A"
    else [c]
  }

  // The same in one pass.
  function Encoded(value: string): string {
    if value == [] then [] else EncodedChar(value[0]) + Encoded(value[1..])
  }

  lemma LocatorValueConcat(a: string, b: string)
    ensures LocatorValue(a + b) == LocatorValue(a) + LocatorValue(b)
  {
    var a1, b1 := Replace(a, '%', "%25"), Replace(b, '%', "%25");
    var a2, b2 := Replace(a1, '=', "%3D"), Replace(b1, '=', "%3D");
    var a3, b3 := Replace(a2, '/', "%2F"), Replace(b2, '/', "%2F");
    var a4, b4 := Replace(a3, '\r', "%0D"), Replace(b3, '\r', "%0D");
    hide Replace;
    ReplaceConcat(a, b, '%', "%25");
    ReplaceConcat(a1, b1, '=', "%3D");
    ReplaceConcat(a2, b2, '/', "%2F");
    ReplaceConcat(a3, b3, '\r', "%0D");
    ReplaceConcat(a4, b4, '\n', "%0A");
  }

  lemma LocatorValueOfChar(c: char)
    ensures LocatorValue([c]) == EncodedChar(c)
  {
    hide Replace;
    ReplaceOne(c, '%', "%25");
    var s1 := Replace([c], '%', "%25");
    if c == '%' {
      ReplaceAbsent(s1, '=', "%3D");
      ReplaceAbsent(s1, '/', "%2F");
      ReplaceAbsent(s1, '\r', "%0D");
      ReplaceAbsent(s1, '\n', "%0A");
    } else {
      LocatorValueOfOther(c);
    }
  }

  lemma LocatorValueOfOther(c: char)
    requires c != '%'
    ensures LocatorValue([c]) == EncodedChar(c)
  {
    hide Replace;
    ReplaceOne(c, '%', "%25");
    ReplaceOne(c, '=', "%3D");
    ReplaceOne(c, '/', "%2F");
    ReplaceOne(c, '\r', "%0D");
    ReplaceOne(c, '\n', "%0A");
    if c == '=' {
      ReplaceAbsent("%3D", '/', "%2F");
      ReplaceAbsent("%3D", '\r', "%0D");
      ReplaceAbsent("%3D", '\n', "%0A");
    } else if c == '/' {
      ReplaceAbsent("%2F", '\r', "%0D");
      ReplaceAbsent("%2F", '\n', "%0A");
    } else if c == '\r' {
      ReplaceAbsent("%0D", '\n', "%0A");
    }
  }

  // The replacements do not disturb one another.
  lemma {:induction false} LocatorValueIsOnePass(value: string)
    ensures LocatorValue(value) == Encoded(value)
  {
    if value == [] {
      assert LocatorValue([]) == [];
    } else {
      LocatorValueIsOnePass(value[1..]);
      hide LocatorValue;
      LocatorValueConcat([value[0]], value[1..]);
      LocatorValueOfChar(value[0]);
      assert [value[0]] + value[1..] == value;
    }
  }

  function HexDigit(c: char): (d: Option<nat>)
    ensures d.Some? ==> d.value < 16
  {
    if IsDigit(c) then Some(c as int - '0' as int)
    else if 'A' <= c <= 'F' then Some(c as int - 'A' as int + 10)
    else if 'a' <= c <= 'f' then Some(c as int - 'a' as int + 10)
    else None
  }

  // The character an escape at the head of the text stands for (section 2.1 of RFC 3986).
  function EscapedChar(s: string): (c: Option<char>)
    ensures c.Some? ==> |s| >= 3
  {
    if |s| >= 3 && s[0] == '%' && HexDigit(s[1]).Some? && HexDigit(s[2]).Some? then
      var code := HexDigit(s[1]).value * 16 + HexDigit(s[2]).value;
      if code < 0x80 then Some(code as char) else None
    else None
  }

  // urllib.parse.unquote on ASCII escapes; an incomplete escape stays as it is.
  function Unquote(s: string): string {
    if s == [] then []
    else if EscapedChar(s).Some? then [EscapedChar(s).value] + Unquote(s[3..])
    else [s[0]] + Unquote(s[1..])
  }

  lemma EncodedCharEscapes(c: char, tail: string)
    ensures c == '%' || c == '=' || c == '/' || c == '\r' || c == '\n' ==> EscapedChar(EncodedChar(c) + tail) == Some(c)
  {
    var s := EncodedChar(c) + tail;
    if c == '%' {
      assert s[1] == '2' && s[2] == '5';
    } else if c == '=' {
      assert s[1] == '3' && s[2] == 'D';
    } else if c == '/' {
      assert s[1] == '2' && s[2] == 'F';
    } else if c == '\r' {
      assert s[1] == '0' && s[2] == 'D';
    } else if c == '\n' {
      assert s[1] == '0' && s[2] == 'A';
    }
  }

  lemma UnquoteStep(c: char, tail: string)
    ensures Unquote(EncodedChar(c) + tail) == [c] + Unquote(tail)
  {
    hide HexDigit;
    EncodedCharEscapes(c, tail);
    var s := EncodedChar(c) + tail;
    if |EncodedChar(c)| == 3 {
      assert s[3..] == tail;
    } else {
      assert s[1..] == tail && s[0] != '%';
    }
  }

  // Decoding gives every sheet name back.
  lemma {:induction false} UnquoteOfLocatorValue(value: string)
    ensures Unquote(LocatorValue(value)) == value
  {
    LocatorValueIsOnePass(value);
    hide LocatorValue;
    if value != [] {
      hide Unquote;
      UnquoteOfLocatorValue(value[1..]);
      LocatorValueIsOnePass(value[1..]);
      UnquoteStep(value[0], Encoded(value[1..]));
      assert [value[0]] + value[1..] == value;
    }
  }

  lemma {:induction false} EncodedIsAddressable(value: string)
    ensures forall c | c in Encoded(value) :: c != '=' && c != '/' && c != '\r' && c != '\n'
    ensures value != "" ==> Encoded(value) != ""
  {
    if value != [] {
      EncodedIsAddressable(value[1..]);
      assert forall c | c in EncodedChar(value[0]) :: c != '=' && c != '/' && c != '\r' && c != '\n';
    }
  }

  // A1:D1 for row 1 and columns 1 to 4.
  function RangeOf(minimum: nat, maximum: nat, row: nat): string {
    NameOf(minimum) + Show(row) + ":" + NameOf(maximum) + Show(row)
  }

  function RowLocator(sheet: string, minimum: nat, maximum: nat, row: nat): SourceLocator {
    SourceLocator("xlsx", [("sheet", LocatorValue(sheet)), ("range", RangeOf(minimum, maximum, row))])
  }

  // dict(path).get(key, ""): the last entry with the key wins.
  function Lookup(path: seq<(string, string)>, key: string): string {
    if path == [] then ""
    else if path[|path| - 1].0 == key then path[|path| - 1].1
    else Lookup(path[..|path| - 1], key)
  }

  // How many capitals a text begins with.
  function CapitalsLength(s: string): (n: nat)
    ensures n <= |s| && (forall k | 0 <= k < n :: IsUpper(s[k])) && (n < |s| ==> !IsUpper(s[n]))
  {
    if s == [] || !IsUpper(s[0]) then 0 else 1 + CapitalsLength(s[1..])
  }

  predicate PositiveNumeral(s: string) {
    s != [] && '1' <= s[0] <= '9' && AllDigits(s)
  }

  // The row digits of a cell address: capitals, then a numeral without leading zero, and nothing else.
  function RowDigits(cell: string): (digits: Option<string>)
    ensures digits.Some? ==> PositiveNumeral(digits.value)
  {
    var n := CapitalsLength(cell);
    if n > 0 && PositiveNumeral(cell[n..]) then Some(cell[n..]) else None
  }

  lemma {:induction false} CapitalsStopAtDigits(name: string, digits: string)
    requires Uppers(name) && PositiveNumeral(digits)
    ensures CapitalsLength(name + digits) == |name|
  {
    var s := name + digits;
    if name == "" {
      assert s == digits && !IsUpper(digits[0]);
    } else {
      CapitalsStopAtDigits(name[1..], digits);
      assert s[0] == name[0] && s[1..] == name[1..] + digits;
    }
  }

  // Exactly the matches of the expression: the groups are determined, since no capital is a digit.
  lemma RowDigitsMatches(cell: string, name: string, digits: string)
    requires name != "" && Uppers(name) && PositiveNumeral(digits) && cell == name + digits
    ensures RowDigits(cell) == Some(digits)
  {
    CapitalsStopAtDigits(name, digits);
    hide PositiveNumeral;
    assert cell[|name|..] == digits;
  }

  lemma RowDigitsOnlyMatches(cell: string)
    requires RowDigits(cell).Some?
    ensures exists name :: name != "" && Uppers(name) && cell == name + RowDigits(cell).value
  {
    hide PositiveNumeral;
    var name := cell[..CapitalsLength(cell)];
    assert cell == name + cell[CapitalsLength(cell)..];
    assert Uppers(name);
  }

  // The row a range names, if both of its cells lie in one row.
  function RangeRow(cells: string): Option<nat> {
    var parts := Split(cells, ':');
    if |parts| != 2 then None
    else if RowDigits(parts[0]).None? || RowDigits(parts[0]) != RowDigits(parts[1]) then None
    else Some(Decimal.Read(RowDigits(parts[0]).value))
  }

  // _control_matrix_location; None stands for the raised error.
  function ControlMatrixLocation(b: Block): Option<(string, nat)> {
    if b.blockType != Table || b.locator.scheme != "xlsx" then None
    else
      var sheet := Unquote(Lookup(b.locator.path, "sheet"));
      var row := RangeRow(Lookup(b.locator.path, "range"));
      if sheet == "" || row.None? then None else Some((sheet, row.value))
  }

  lemma CellHasNoColon(name: string, row: nat)
    requires Uppers(name)
    ensures ':' !in name + Show(row)
  {
    ShowAvoids(row, ':');
    hide Show;
  }

  lemma ShowIsPositiveNumeral(row: nat)
    requires row >= 1
    ensures PositiveNumeral(Show(row))
  {
    var s := Show(row);
    assert IsDigit(s[0]) && s[0] != '0';
  }

  lemma RowOfRange(minimum: nat, maximum: nat, row: nat)
    requires minimum >= 1 && maximum >= 1 && row >= 1
    ensures RangeRow(RangeOf(minimum, maximum, row)) == Some(row)
  {
    hide RowDigits, NameOf, Show, PositiveNumeral, Split, Decimal.Read;
    var left, right := NameOf(minimum) + Show(row), NameOf(maximum) + Show(row);
    CellHasNoColon(NameOf(minimum), row);
    CellHasNoColon(NameOf(maximum), row);
    SplitAfterPart(left, right, ':');
    SplitWithoutSeparator(right, ':');
    assert left + [':'] + right == RangeOf(minimum, maximum, row);
    ShowIsPositiveNumeral(row);
    RowDigitsMatches(left, NameOf(minimum), Show(row));
    RowDigitsMatches(right, NameOf(maximum), Show(row));
    ReadOfShow(row);
  }

  lemma RangeIsAddressable(minimum: nat, maximum: nat, row: nat)
    ensures Addressable(RangeOf(minimum, maximum, row))
  {
    hide Show, NameOf;
    ShowAvoids(row, '=');
    ShowAvoids(row, '/');
    ShowAvoids(row, '\n');
    ShowAvoids(row, '\r');
    CapitalsAreAddressable(NameOf(minimum));
    CapitalsAreAddressable(NameOf(maximum));
  }

  lemma CapitalsAreAddressable(name: string)
    requires Uppers(name)
    ensures '=' !in name && '/' !in name && '\n' !in name && '\r' !in name
  {
  }

  // Every emitted locator passes the locator's own checks, and segmentation reads the sheet and row back.
  lemma RowLocatorRoundTrip(sheet: string, minimum: nat, maximum: nat, row: nat, b: Block)
    requires sheet != "" && minimum >= 1 && maximum >= 1 && row >= 1
    requires b.blockType == Table && b.locator == RowLocator(sheet, minimum, maximum, row)
    ensures ValidLocator(b.locator)
    ensures ControlMatrixLocation(b) == Some((sheet, row))
  {
    hide LocatorValue, Unquote, RangeOf, RangeRow, Encoded;
    LocatorValueIsOnePass(sheet);
    EncodedIsAddressable(sheet);
    UnquoteOfLocatorValue(sheet);
    RangeIsAddressable(minimum, maximum, row);
    RowOfRange(minimum, maximum, row);
    var path := b.locator.path;
    assert path[..1] == [("sheet", LocatorValue(sheet))];
    assert "range"[0] != "sheet"[0];
    assert Lookup(path, "sheet") == Lookup(path[..1], "sheet") == LocatorValue(sheet);
  }
}
