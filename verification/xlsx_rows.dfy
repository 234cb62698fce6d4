/** A data row printed with its header as a two-line table, and what can be read back from it. */
module RowText {
  import opened Wrappers
  import opened Text
  import opened Normalization

  // Three replacements in a row, the backslash first.
  function EscapeValue(value: string): string {
    Replace(Replace(Replace(value, '\\', "\\\\"), '|', "\\|"), '\n', "<br>")
  }

  function EscapedChar(c: char): string {
    if c == '\\' then "\\\\" else if c == '|' then "\\|" else if c == '\n' then "<br>" else [c]
  }

  // The same in one pass.
  function Escaped(value: string): string {
    if value == [] then [] else EscapedChar(value[0]) + Escaped(value[1..])
  }

  lemma EscapeValueConcat(a: string, b: string)
    ensures EscapeValue(a + b) == EscapeValue(a) + EscapeValue(b)
  {
    var a1, b1 := Replace(a, '\\', "\\\\"), Replace(b, '\\', "\\\\");
    var a2, b2 := Replace(a1, '|', "\\|"), Replace(b1, '|', "\\|");
    hide Replace;
    ReplaceConcat(a, b, '\\', "\\\\");
    ReplaceConcat(a1, b1, '|', "\\|");
    ReplaceConcat(a2, b2, '\n', "<br>");
  }

  lemma EscapeValueOfChar(c: char)
    ensures EscapeValue([c]) == EscapedChar(c)
  {
    hide Replace;
    ReplaceOne(c, '\\', "\\\\");
    ReplaceOne(c, '|', "\\|");
    ReplaceOne(c, '\n', "<br>");
    if c == '\\' {
      ReplaceAbsent("\\\\", '|', "\\|");
      ReplaceAbsent("\\\\", '\n', "<br>");
    } else if c == '|' {
      ReplaceAbsent("\\|", '\n', "<br>");
    }
  }

  // The replacements do not disturb one another.
  lemma {:induction false} EscapeValueIsOnePass(value: string)
    ensures EscapeValue(value) == Escaped(value)
  {
    if value == [] {
      assert EscapeValue([]) == [];
    } else {
      EscapeValueIsOnePass(value[1..]);
      hide EscapeValue;
      EscapeValueConcat([value[0]], value[1..]);
      EscapeValueOfChar(value[0]);
      assert [value[0]] + value[1..] == value;
    }
  }

  function EscapeAll(values: seq<string>): seq<string> {
    seq(|values|, k requires 0 <= k < |values| => EscapeValue(values[k]))
  }

  // _render_table_line
  function RenderLine(values: seq<string>): string {
    "| " + Join(EscapeAll(values), " | ") + " |"
  }

  // _render_row
  function RenderRow(headers: seq<string>, values: seq<string>): string {
    RenderLine(headers) + "\n" + RenderLine(values)
  }

  // ---- reading a printed line back ----

  // Pieces between the pipes that no backslash escapes.
  function Pieces(s: string): (r: seq<string>)
    ensures r != []
  {
    if s == [] then [[]]
    else if s[0] == '\\' && |s| >= 2 then
      var rest := Pieces(s[2..]);
      [s[..2] + rest[0]] + rest[1..]
    else
      var rest := Pieces(s[1..]);
      if s[0] == '|' then [[]] + rest else [[s[0]] + rest[0]] + rest[1..]
  }

  function Unescape(s: string): string {
    if s == [] then []
    else if |s| >= 2 && s[0] == '\\' && (s[1] == '\\' || s[1] == '|') then [s[1]] + Unescape(s[2..])
    else if "<br>" <= s then ['\n'] + Unescape(s[4..])
    else [s[0]] + Unescape(s[1..])
  }

  // The value a printed cell shows: one space on each side dropped, the escapes undone.
  function CellOf(piece: string): Option<string> {
    if |piece| >= 2 && piece[0] == ' ' && piece[|piece| - 1] == ' ' then Some(Unescape(piece[1..|piece| - 1])) else None
  }

  // The values of a printed line; the line begins and ends with a pipe.
  function CellsOf(line: string): Option<seq<string>> {
    var pieces := Pieces(line);
    var n := |pieces|;
    if n < 3 || pieces[0] != "" || pieces[n - 1] != "" then None
    else if exists k | 1 <= k < n - 1 :: CellOf(pieces[k]).None? then None
    else Some(seq(n - 2, k requires 0 <= k < n - 2 && CellOf(pieces[k + 1]).Some? => CellOf(pieces[k + 1]).value))
  }

  // Header and values of a printed row.
  function RowOf(text: string): Option<(seq<string>, seq<string>)> {
    var lines := Split(text, '\n');
    if |lines| != 2 || CellsOf(lines[0]).None? || CellsOf(lines[1]).None? then None
    else Some((CellsOf(lines[0]).value, CellsOf(lines[1]).value))
  }

  // What printing and reading back does to one value: a written <br> becomes a line break.
  function BreaksToNewlines(value: string): string {
    if value == [] then []
    else if "<br>" <= value then ['\n'] + BreaksToNewlines(value[4..])
    else [value[0]] + BreaksToNewlines(value[1..])
  }

  predicate HoldsBreak(value: string) {
    exists k | 0 <= k < |value| :: "<br>" <= value[k..]
  }

  predicate Ordinary(c: char) {
    c != '\\' && c != '|' && c != '\n'
  }

  lemma EscapedOrdinary(value: string)
    requires value != "" && Ordinary(value[0])
    ensures Escaped(value) == [value[0]] + Escaped(value[1..]) && Escaped(value)[1..] == Escaped(value[1..])
  {
  }

  lemma EscapedHead(value: string, c: char)
    requires Escaped(value) != "" && Escaped(value)[0] == c && c in "br>"
    ensures value != "" && value[0] == c && Escaped(value)[1..] == Escaped(value[1..])
  {
  }

  // Escaping never forms a <br> out of the characters around it.
  lemma NoNewBreak(value: string)
    requires value != "" && value[0] == '<' && "<br>" <= Escaped(value)
    ensures "<br>" <= value
  {
    hide Escaped;
    var s := Escaped(value);
    EscapedOrdinary(value);
    assert s[1..][0] == 'b' && s[2..][0] == 'r' && s[3..][0] == '>';
    EscapedHead(value[1..], 'b');
    assert value[1..][1..] == value[2..] && s[1..][1..] == s[2..];
    EscapedHead(value[2..], 'r');
    assert value[2..][1..] == value[3..] && s[2..][1..] == s[3..];
    EscapedHead(value[3..], '>');
    assert value[..4] == "<br>";
  }

  lemma WrittenBreak(value: string)
    requires "<br>" <= value
    ensures Escaped(value) == "<br>" + Escaped(value[4..])
  {
    hide Escaped;
    var v1, v2, v3 := value[1..], value[2..], value[3..];
    assert v1[1..] == v2 && v2[1..] == v3 && v3[1..] == value[4..];
    EscapedOrdinary(value);
    EscapedOrdinary(v1);
    EscapedOrdinary(v2);
    EscapedOrdinary(v3);
  }

  // Undoing the escapes of any value gives it back up to written breaks.
  lemma {:induction false} UnescapeOfEscaped(value: string)
    ensures Unescape(Escaped(value)) == BreaksToNewlines(value)
  {
    if value != "" {
      var s := Escaped(value);
      if "<br>" <= value {
        WrittenBreak(value);
        UnescapeOfEscaped(value[4..]);
        assert s[4..] == Escaped(value[4..]);
      } else {
        UnescapeOfEscaped(value[1..]);
        UnescapeStep(value);
      }
    }
  }

  lemma UnescapeStep(value: string)
    requires value != "" && !("<br>" <= value)
    ensures Unescape(Escaped(value)) == [value[0]] + Unescape(Escaped(value[1..]))
  {
    var s, rest := Escaped(value), Escaped(value[1..]);
    if value[0] == '\\' || value[0] == '|' {
      assert s[1] == value[0] && s[2..] == rest;
    } else if value[0] == '\n' {
      assert s[0] == '<' && s[..4] == "<br>" && s[4..] == rest;
    } else {
      assert s[0] == value[0] && s[1..] == rest;
      if "<br>" <= s {
        NoNewBreak(value);
      }
    }
  }

  lemma {:induction false} BreaksToNewlinesShrinks(value: string)
    ensures |BreaksToNewlines(value)| <= |value|
    ensures HoldsBreak(value) ==> |BreaksToNewlines(value)| < |value|
    ensures !HoldsBreak(value) ==> BreaksToNewlines(value) == value
  {
    if value == "" {
    } else if "<br>" <= value {
      BreaksToNewlinesShrinks(value[4..]);
      assert value[0..] == value;
    } else {
      BreaksToNewlinesShrinks(value[1..]);
      assert forall k | 0 <= k < |value[1..]| :: value[1..][k..] == value[k + 1..];
      if HoldsBreak(value) {
        var k :| 0 <= k < |value| && "<br>" <= value[k..];
        assert k > 0 by { assert value[0..] == value; }
        assert value[1..][k - 1..] == value[k..];
      }
    }
  }

  // A prefix that stays inside the first piece.
  function Prefixed(prefix: string, pieces: seq<string>): seq<string>
    requires pieces != []
  {
    [prefix + pieces[0]] + pieces[1..]
  }

  lemma PrefixedTwice(a: string, b: string, pieces: seq<string>)
    requires pieces != []
    ensures Prefixed(a, Prefixed(b, pieces)) == Prefixed(a + b, pieces)
    ensures Prefixed("", pieces) == pieces
  {
    var once := Prefixed(b, pieces);
    assert once[0] == b + pieces[0] && once[1..] == pieces[1..];
    assert a + (b + pieces[0]) == a + b + pieces[0];
    assert "" + pieces[0] == pieces[0];
  }

  lemma {:induction false} PlainPieces(plain: string, tail: string)
    requires '\\' !in plain && '|' !in plain
    ensures Pieces(plain + tail) == Prefixed(plain, Pieces(tail))
  {
    if plain == "" {
      assert plain + tail == tail;
      PrefixedTwice("", "", Pieces(tail));
    } else {
      PlainPieces(plain[1..], tail);
      var s := plain + tail;
      assert s[1..] == plain[1..] + tail;
      PieceGrows(s);
      hide Pieces;
      PrefixedTwice([plain[0]], plain[1..], Pieces(tail));
      assert [plain[0]] + plain[1..] == plain;
    }
  }

  lemma PieceGrows(s: string)
    requires s != "" && s[0] != '\\' && s[0] != '|'
    ensures Pieces(s) == Prefixed([s[0]], Pieces(s[1..]))
  {
  }

  // An escaped value stays inside one piece.
  lemma {:induction false} EscapedPieces(value: string, tail: string)
    ensures Pieces(Escaped(value) + tail) == Prefixed(Escaped(value), Pieces(tail))
  {
    if value == "" {
      assert Escaped(value) + tail == tail;
      PrefixedTwice("", "", Pieces(tail));
    } else {
      var head, rest := EscapedChar(value[0]), Escaped(value[1..]);
      assert Escaped(value) == head + rest;
      hide *;
      EscapedPieces(value[1..], tail);
      assert Escaped(value) + tail == head + (rest + tail);
      HeadPieces(value[0], rest + tail);
      PrefixedTwice(head, rest, Pieces(tail));
    }
  }

  lemma HeadPieces(c: char, tail: string)
    ensures Pieces(EscapedChar(c) + tail) == Prefixed(EscapedChar(c), Pieces(tail))
  {
    var s := EscapedChar(c) + tail;
    if c == '\\' || c == '|' {
      assert s[0] == '\\' && s[2..] == tail && s[..2] == EscapedChar(c);
    } else {
      PlainPieces(EscapedChar(c), tail);
    }
  }

  function Padded(value: string): string {
    " " + Escaped(value) + " "
  }

  lemma CellThenPipe(value: string, rest: string)
    ensures Pieces(Padded(value) + "|" + rest) == [Padded(value)] + Pieces(rest)
  {
    hide Escaped;
    var pipe := "|" + rest;
    PipePieces(rest);
    hide Pieces;
    PlainPieces(" ", pipe);
    EscapedPieces(value, " " + pipe);
    PlainPieces(" ", Escaped(value) + (" " + pipe));
    PrefixedTwice(Escaped(value), " ", Pieces(pipe));
    PrefixedTwice(" ", Escaped(value) + " ", Pieces(pipe));
    assert Padded(value) == " " + (Escaped(value) + " ");
    assert Padded(value) + "|" + rest == " " + (Escaped(value) + (" " + pipe));
    assert Padded(value) + "" == Padded(value);
    assert ([""] + Pieces(rest))[1..] == Pieces(rest);
    assert Prefixed(Padded(value), [""] + Pieces(rest)) == [Padded(value)] + Pieces(rest);
  }

  lemma PipePieces(rest: string)
    ensures Pieces("|" + rest) == [""] + Pieces(rest)
  {
    assert ("|" + rest)[1..] == rest;
  }

  function PaddedAll(values: seq<string>): seq<string> {
    seq(|values|, k requires 0 <= k < |values| => Padded(values[k]))
  }

  lemma {:induction false} BodyPieces(values: seq<string>)
    requires values != []
    ensures Pieces(" " + Join(EscapeAll(values), " | ") + " |") == PaddedAll(values) + [""]
  {
    hide Escaped, EscapeValue, Pieces;
    EscapeValueIsOnePass(values[0]);
    var es := EscapeAll(values);
    if |values| == 1 {
      CellThenPipe(values[0], "");
      NoPieces();
      assert " " + Join(es, " | ") + " |" == Padded(values[0]) + "|" + "";
    } else {
      var rest := " " + Join(es[1..], " | ") + " |";
      BodyPieces(values[1..]);
      assert es[1..] == EscapeAll(values[1..]);
      CellThenPipe(values[0], rest);
      assert " " + Join(es, " | ") + " |" == Padded(values[0]) + "|" + rest;
      assert [Padded(values[0])] + PaddedAll(values[1..]) == PaddedAll(values);
    }
  }

  lemma NoPieces()
    ensures Pieces("") == [""]
  {
  }

  lemma LinePieces(values: seq<string>)
    requires values != []
    ensures Pieces(RenderLine(values)) == [""] + PaddedAll(values) + [""]
  {
    var body := " " + Join(EscapeAll(values), " | ") + " |";
    assert RenderLine(values) == "|" + body;
    BodyPieces(values);
    PipePieces(body);
  }

  function AllBreaksToNewlines(values: seq<string>): seq<string> {
    seq(|values|, k requires 0 <= k < |values| => BreaksToNewlines(values[k]))
  }

  lemma CellOfPadded(value: string)
    ensures CellOf(Padded(value)) == Some(BreaksToNewlines(value))
  {
    UnescapeOfEscaped(value);
    hide Escaped, BreaksToNewlines, Unescape;
    var piece := Padded(value);
    assert piece[1..|piece| - 1] == Escaped(value);
  }

  // A printed line reads back as its values, up to written breaks.
  lemma CellsOfRenderLine(values: seq<string>)
    requires values != []
    ensures CellsOf(RenderLine(values)) == Some(AllBreaksToNewlines(values))
  {
    hide Padded, RenderLine, BreaksToNewlines, CellOf, Pieces;
    LinePieces(values);
    var pieces := Pieces(RenderLine(values));
    forall k | 1 <= k < |pieces| - 1 ensures CellOf(pieces[k]) == Some(BreaksToNewlines(values[k - 1])) {
      CellOfPadded(values[k - 1]);
      assert pieces[k] == PaddedAll(values)[k - 1];
    }
    assert CellsOf(RenderLine(values)).value == AllBreaksToNewlines(values);
  }

  lemma {:induction false} EscapedAlphabet(value: string)
    ensures '\n' !in Escaped(value)
    ensures '\r' in Escaped(value) <==> '\r' in value
  {
    if value != "" {
      EscapedAlphabet(value[1..]);
    }
  }

  lemma EscapeAllHasNoNewline(values: seq<string>)
    ensures forall p | p in EscapeAll(values) :: '\n' !in p
  {
    hide Escaped, EscapeValue;
    var es := EscapeAll(values);
    forall p | p in es ensures '\n' !in p {
      var k :| 0 <= k < |es| && es[k] == p;
      EscapeValueIsOnePass(values[k]);
      EscapedAlphabet(values[k]);
    }
  }

  lemma LineHasNoNewline(values: seq<string>)
    ensures '\n' !in RenderLine(values)
  {
    hide EscapeAll, Join;
    EscapeAllHasNoNewline(values);
    JoinAlphabet(EscapeAll(values), " | ", '\n');
  }

  // A printed row reads back as its headers and values, up to written breaks.
  lemma RowOfRenderRow(headers: seq<string>, values: seq<string>)
    requires headers != [] && values != []
    ensures RowOf(RenderRow(headers, values)) == Some((AllBreaksToNewlines(headers), AllBreaksToNewlines(values)))
  {
    hide RenderLine, CellsOf, AllBreaksToNewlines, Split;
    LineHasNoNewline(headers);
    LineHasNoNewline(values);
    SplitAfterPart(RenderLine(headers), RenderLine(values), '\n');
    SplitWithoutSeparator(RenderLine(values), '\n');
    CellsOfRenderLine(headers);
    CellsOfRenderLine(values);
  }

  predicate AnyHoldsBreak(values: seq<string>) {
    exists k | 0 <= k < |values| :: HoldsBreak(values[k])
  }

  predicate AnyHoldsReturn(values: seq<string>) {
    exists k | 0 <= k < |values| :: '\r' in values[k]
  }

  lemma BreaksGiveAway(values: seq<string>)
    ensures AllBreaksToNewlines(values) == values <==> !AnyHoldsBreak(values)
  {
    hide BreaksToNewlines, HoldsBreak;
    forall k | 0 <= k < |values| ensures BreaksToNewlines(values[k]) == values[k] <==> !HoldsBreak(values[k]) {
      BreaksToNewlinesShrinks(values[k]);
    }
    if k :| 0 <= k < |values| && HoldsBreak(values[k]) {
      assert AllBreaksToNewlines(values)[k] != values[k];
    }
  }

  // Printing is reversible exactly when no header or value holds a written <br>.
  lemma RowReadsBackExactly(headers: seq<string>, values: seq<string>)
    requires headers != [] && values != []
    ensures RowOf(RenderRow(headers, values)) == Some((headers, values))
      <==> !AnyHoldsBreak(headers) && !AnyHoldsBreak(values)
  {
    hide *;
    RowOfRenderRow(headers, values);
    BreaksGiveAway(headers);
    BreaksGiveAway(values);
  }

  lemma {:induction false} EscapedForgetsBreaks(value: string)
    ensures Escaped(BreaksToNewlines(value)) == Escaped(value)
  {
    if value == "" {
    } else if "<br>" <= value {
      WrittenBreak(value);
      EscapedForgetsBreaks(value[4..]);
    } else {
      EscapedForgetsBreaks(value[1..]);
    }
  }

  lemma LineForgetsBreaks(values: seq<string>)
    ensures RenderLine(AllBreaksToNewlines(values)) == RenderLine(values)
  {
    hide Escaped, EscapeValue, BreaksToNewlines, Join;
    var broken := AllBreaksToNewlines(values);
    forall k | 0 <= k < |values| ensures EscapeValue(broken[k]) == EscapeValue(values[k]) {
      EscapeValueIsOnePass(broken[k]);
      EscapeValueIsOnePass(values[k]);
      EscapedForgetsBreaks(values[k]);
    }
    assert EscapeAll(broken) == EscapeAll(values);
  }

  // Two rows print alike if and only if they agree up to written breaks: nothing else is lost in print.
  lemma RowsPrintAlikeExactly(headers: seq<string>, values: seq<string>, headers': seq<string>, values': seq<string>)
    requires headers != [] && values != [] && headers' != [] && values' != []
    ensures RenderRow(headers, values) == RenderRow(headers', values')
      <==> && AllBreaksToNewlines(headers) == AllBreaksToNewlines(headers')
           && AllBreaksToNewlines(values) == AllBreaksToNewlines(values')
  {
    hide RenderLine, AllBreaksToNewlines, RowOf;
    RowOfRenderRow(headers, values);
    RowOfRenderRow(headers', values');
    LineForgetsBreaks(headers);
    LineForgetsBreaks(headers');
    LineForgetsBreaks(values);
    LineForgetsBreaks(values');
  }

  // A line of no values and a line of one empty value print alike; a header has two columns at least.
  lemma NoValuesPrintLikeAnEmptyOne()
    ensures RenderLine([]) == RenderLine([""])
  {
    assert EscapeAll([""]) == [""];
  }

  // ---- the printed row after normalisation ----

  lemma {:induction false} JoinHolds(parts: seq<string>, sep: string, c: char)
    requires c !in sep
    ensures c in Join(parts, sep) <==> exists k | 0 <= k < |parts| :: c in parts[k]
  {
    if |parts| > 1 {
      JoinHolds(parts[1..], sep, c);
      assert forall k | 0 <= k < |parts| - 1 :: parts[1..][k] == parts[k + 1];
      if k :| 0 <= k < |parts| && c in parts[k] {
        assert k > 0 ==> c in parts[1..][k - 1];
      }
    }
  }

  lemma LineHoldsReturn(values: seq<string>)
    ensures '\r' in RenderLine(values) <==> AnyHoldsReturn(values)
  {
    hide Escaped, EscapeValue, Join;
    var es := EscapeAll(values);
    forall k | 0 <= k < |values| ensures '\r' in es[k] <==> '\r' in values[k] {
      EscapeValueIsOnePass(values[k]);
      EscapedAlphabet(values[k]);
    }
    JoinHolds(es, " | ", '\r');
  }

  lemma LineIsClosed(values: seq<string>)
    ensures |RenderLine(values)| >= 4
    ensures RenderLine(values)[0] == '|' && RenderLine(values)[|RenderLine(values)| - 1] == '|'
  {
    hide Join, EscapeAll;
  }

  lemma PipeIsNoSpace()
    ensures !IsSpace('|')
  {
  }

  lemma ClosedLinesAreClean(first: string, second: string)
    requires '\n' !in first && '\n' !in second && first != "" && second != ""
    requires first[|first| - 1] == '|' && second[|second| - 1] == '|'
    ensures LineEndsClean(first + "\n" + second)
  {
    hide IsSpace;
    PipeIsNoSpace();
    var s := first + "\n" + second;
    forall k | 0 <= k < |s| && IsSpace(s[k]) && s[k] != '\n' ensures k + 1 < |s| && s[k + 1] != '\n' {
      if k < |first| {
        assert s[k] == first[k];
        assert s[k + 1] == first[k + 1];
      } else {
        assert s[k] == second[k - |first| - 1];
        assert s[k + 1] == second[k - |first|];
      }
    }
  }

  // A stored row is the printed one, unless a carriage return in it was normalised away.
  lemma PrintedRowIsNormal(headers: seq<string>, values: seq<string>)
    ensures Normalize(RenderRow(headers, values)) == RenderRow(headers, values)
      <==> !AnyHoldsReturn(headers) && !AnyHoldsReturn(values)
  {
    hide RenderLine, LineEndsClean, AnyHoldsReturn, Normalize;
    var first, second := RenderLine(headers), RenderLine(values);
    LineIsClosed(headers);
    LineIsClosed(values);
    LineHasNoNewline(headers);
    LineHasNoNewline(values);
    ClosedLinesAreClean(first, second);
    LineHoldsReturn(headers);
    LineHoldsReturn(values);
    NormalizeFixesExactlyNormal(RenderRow(headers, values));
  }

  lemma {:induction false} PiecesAreInside(s: string)
    ensures forall p, c | p in Pieces(s) && c in p :: c in s
  {
    if s == "" {
    } else if s[0] == '\\' && |s| >= 2 {
      PiecesAreInside(s[2..]);
    } else {
      PiecesAreInside(s[1..]);
    }
  }

  lemma {:induction false} UnescapeAddsNoReturn(s: string)
    requires '\r' !in s
    ensures '\r' !in Unescape(s)
  {
    if s == "" {
    } else if |s| >= 2 && s[0] == '\\' && (s[1] == '\\' || s[1] == '|') {
      UnescapeAddsNoReturn(s[2..]);
    } else if "<br>" <= s {
      UnescapeAddsNoReturn(s[4..]);
    } else {
      UnescapeAddsNoReturn(s[1..]);
    }
  }

  lemma CellsAddNoReturn(line: string)
    requires '\r' !in line
    ensures CellsOf(line).Some? ==> !AnyHoldsReturn(CellsOf(line).value)
  {
    hide Unescape, Pieces;
    PiecesAreInside(line);
    var pieces := Pieces(line);
    forall k | 0 <= k < |pieces| && CellOf(pieces[k]).Some? ensures '\r' !in CellOf(pieces[k]).value {
      assert pieces[k] in pieces;
      UnescapeAddsNoReturn(pieces[k][1..|pieces[k]| - 1]);
    }
  }

  lemma RowAddsNoReturn(text: string)
    requires '\r' !in text
    ensures RowOf(text).Some? ==> !AnyHoldsReturn(RowOf(text).value.0) && !AnyHoldsReturn(RowOf(text).value.1)
  {
    hide CellsOf, AnyHoldsReturn, Split;
    SplitIsInside(text, '\n');
    var lines := Split(text, '\n');
    if |lines| == 2 {
      assert lines[0] in lines && lines[1] in lines;
      CellsAddNoReturn(lines[0]);
      CellsAddNoReturn(lines[1]);
    }
  }

  // The stored text of a row gives its headers and values back exactly when they hold neither a written <br>
  // nor a carriage return.
  lemma StoredRowReadsBackExactly(headers: seq<string>, values: seq<string>)
    requires headers != [] && values != []
    ensures RowOf(Normalize(RenderRow(headers, values))) == Some((headers, values))
      <==> && !AnyHoldsBreak(headers) && !AnyHoldsBreak(values)
           && !AnyHoldsReturn(headers) && !AnyHoldsReturn(values)
  {
    hide RowOf, RenderRow, Normalize, AnyHoldsBreak, AnyHoldsReturn, LineEndsClean, IsSpace;
    PrintedRowIsNormal(headers, values);
    RowReadsBackExactly(headers, values);
    NormalizeIsNormal(RenderRow(headers, values));
    RowAddsNoReturn(Normalize(RenderRow(headers, values)));
  }
}
