/** The one normalisation every content hash goes through, and the slugs anchors are made of. */
module Normalization {
  import opened Text

  // text.replace("\r\n", "\n")
  function UnifyCrLf(s: string): string {
    if s == [] then []
    else if |s| >= 2 && s[0] == '\r' && s[1] == '\n' then ['\n'] + UnifyCrLf(s[2..])
    else [s[0]] + UnifyCrLf(s[1..])
  }

  function UnifyNewlines(s: string): string {
    Replace(UnifyCrLf(s), '\r', "\n")
  }

  function StripEnds(lines: seq<string>): seq<string> {
    seq(|lines|, k requires 0 <= k < |lines| => TrimRight(lines[k], IsSpace))
  }

  // The lines of a text, their line numbers kept.
  function SplitLines(s: string): (lines: seq<string>)
    ensures lines != []
  {
    StripEnds(Split(UnifyNewlines(s), '\n'))
  }

  function Normalize(s: string): string {
    Trim(Join(SplitLines(s), "\n"), IsNewline)
  }

  // No carriage return, no blank before a line end or the end of the text, no line break at either end.
  predicate LineEndsClean(s: string) {
    forall k | 0 <= k < |s| && IsSpace(s[k]) && s[k] != '\n' :: k + 1 < |s| && s[k + 1] != '\n'
  }

  predicate CleanLine(line: string) {
    '\r' !in line && '\n' !in line && (line == "" || !IsSpace(line[|line| - 1]))
  }

  predicate Normal(s: string) {
    && '\r' !in s && LineEndsClean(s)
    && (s != "" ==> s[0] != '\n' && s[|s| - 1] != '\n')
  }

  lemma {:induction false} UnifyWithoutReturns(s: string)
    requires '\r' !in s
    ensures UnifyCrLf(s) == s
  {
    if s != [] {
      UnifyWithoutReturns(s[1..]);
    }
  }

  lemma {:induction false} SplitIsInside(s: string, sep: char)
    ensures forall p, c | p in Split(s, sep) && c in p :: c in s
  {
    if s != [] {
      SplitIsInside(s[1..], sep);
    }
  }

  lemma SplitLinesAreClean(s: string)
    ensures forall line | line in SplitLines(s) :: CleanLine(line)
  {
    hide IsSpace;
    var unified := UnifyNewlines(s);
    ReplaceRemoves(UnifyCrLf(s), '\r', "\n");
    SplitIsInside(unified, '\n');
    var parts, lines := Split(unified, '\n'), SplitLines(s);
    forall line | line in lines ensures CleanLine(line) {
      var k :| 0 <= k < |lines| && lines[k] == line;
      PrefixIsClean(unified, parts[k], line);
    }
  }

  lemma PrefixIsClean(s: string, part: string, line: string)
    requires '\r' !in s && part in Split(s, '\n') && line == TrimRight(part, IsSpace)
    ensures CleanLine(line)
  {
    hide IsSpace;
    SplitIsInside(s, '\n');
    forall c | c in line ensures c in part {
      var i :| 0 <= i < |line| && line[i] == c;
      assert part[i] == c;
    }
  }

  lemma {:induction false} JoinedLinesAreClean(lines: seq<string>)
    requires forall line | line in lines :: CleanLine(line)
    ensures LineEndsClean(Join(lines, "\n")) && '\r' !in Join(lines, "\n")
  {
    hide IsSpace;
    if lines != [] {
      assert CleanLine(lines[0]);
    }
    if |lines| > 1 {
      var head, tail := lines[0], Join(lines[1..], "\n");
      JoinedLinesAreClean(lines[1..]);
      var s := head + "\n" + tail;
      assert s == Join(lines, "\n");
      forall k | 0 <= k < |s| && IsSpace(s[k]) && s[k] != '\n' ensures k + 1 < |s| && s[k + 1] != '\n' {
        if k < |head| {
          assert k + 1 < |head| && head[k + 1] in head;
        } else {
          assert s[k] == tail[k - |head| - 1];
        }
      }
    }
  }

  lemma TrimmedEndIsSolid(s: string)
    requires LineEndsClean(s)
    ensures var t := TrimRight(s, IsNewline); t != "" ==> !IsSpace(t[|t| - 1])
  {
    hide IsSpace;
    var t := TrimRight(s, IsNewline);
    if t != "" {
      var k := |t| - 1;
      assert s[k] == t[k] && !IsNewline(t[k]);
      assert k + 1 < |s| ==> IsNewline(s[k + 1]);
    }
  }

  lemma TrimRightKeepsClean(s: string)
    requires LineEndsClean(s) && '\r' !in s
    ensures LineEndsClean(TrimRight(s, IsNewline)) && '\r' !in TrimRight(s, IsNewline)
  {
    hide IsSpace;
    var t := TrimRight(s, IsNewline);
    TrimmedEndIsSolid(s);
    forall k | 0 <= k < |t| && IsSpace(t[k]) && t[k] != '\n' ensures k + 1 < |t| && t[k + 1] != '\n' {
      assert s[k] == t[k];
    }
    forall c | c in t ensures c in s {
      var i :| 0 <= i < |t| && t[i] == c;
      assert s[i] == c;
    }
  }

  lemma SuffixIsClean(s: string, d: nat)
    requires LineEndsClean(s) && d <= |s|
    ensures LineEndsClean(s[d..])
  {
    hide IsSpace;
    var t := s[d..];
    forall k | 0 <= k < |t| && IsSpace(t[k]) && t[k] != '\n' ensures k + 1 < |t| && t[k + 1] != '\n' {
      assert t[k] == s[d + k];
      assert s[d + k + 1] != '\n';
    }
  }

  lemma TrimLeftKeepsClean(s: string, drop: char -> bool)
    requires LineEndsClean(s)
    ensures LineEndsClean(TrimLeft(s, drop))
    ensures TrimLeft(s, drop) != [] ==> TrimLeft(s, drop)[|TrimLeft(s, drop)| - 1] == s[|s| - 1]
    ensures '\r' !in s ==> '\r' !in TrimLeft(s, drop)
  {
    hide LineEndsClean;
    SuffixIsClean(s, |s| - |TrimLeft(s, drop)|);
  }

  // What is hashed is always in normal form.
  lemma NormalizeIsNormal(s: string)
    ensures Normal(Normalize(s))
  {
    SplitLinesAreClean(s);
    JoinedLinesAreClean(SplitLines(s));
    var joined := Join(SplitLines(s), "\n");
    TrimRightKeepsClean(joined);
    TrimLeftKeepsClean(TrimRight(joined, IsNewline), IsNewline);
    hide SplitLines, LineEndsClean, Join;
  }

  lemma {:induction false} CleanTextHasCleanLines(s: string)
    requires LineEndsClean(s)
    ensures forall p | p in Split(s, '\n') :: p == "" || !IsSpace(p[|p| - 1])
    ensures Split(s, '\n')[0] == "" ==> s == "" || s[0] == '\n'
  {
    hide IsSpace;
    if s != [] {
      forall k | 0 <= k < |s[1..]| && IsSpace(s[1..][k]) && s[1..][k] != '\n'
        ensures k + 1 < |s[1..]| && s[1..][k + 1] != '\n'
      {
        assert s[k + 1] == s[1..][k];
      }
      CleanTextHasCleanLines(s[1..]);
    }
  }

  lemma NormalTextIsFixed(s: string)
    requires Normal(s)
    ensures Normalize(s) == s
  {
    hide IsSpace;
    UnifyWithoutReturns(s);
    ReplaceAbsent(s, '\r', "\n");
    CleanTextHasCleanLines(s);
    var parts := Split(s, '\n');
    assert SplitLines(s) == parts by {
      forall k | 0 <= k < |parts| ensures TrimRight(parts[k], IsSpace) == parts[k] {
        assert parts[k] in parts;
      }
    }
    JoinOfSplit(s, '\n');
    hide SplitLines, LineEndsClean;
    assert TrimRight(s, IsNewline) == s;
    assert TrimLeft(s, IsNewline) == s;
  }

  // The fixed points of normalisation are exactly the texts in normal form.
  lemma NormalizeFixesExactlyNormal(s: string)
    ensures Normalize(s) == s <==> Normal(s)
  {
    NormalizeIsNormal(s);
    hide Normal, Normalize;
    if Normal(s) {
      NormalTextIsFixed(s);
    }
  }

  lemma NormalizeIdempotent(s: string)
    ensures Normalize(Normalize(s)) == Normalize(s)
  {
    hide Normal, Normalize;
    NormalizeIsNormal(s);
    NormalizeFixesExactlyNormal(Normalize(s));
  }

  lemma {:induction false} UnifiesCrLf(s: string)
    requires '\r' !in s
    ensures UnifyCrLf(Replace(s, '\n', "\r\n")) == s
  {
    if s != [] {
      var rest := Replace(s[1..], '\n', "\r\n");
      UnifiesCrLf(s[1..]);
      assert [s[0]] + s[1..] == s;
      if s[0] == '\n' {
        var t := "\r\n" + rest;
        assert t[0] == '\r' && t[1] == '\n' && t[2..] == rest;
      } else {
        var t := [s[0]] + rest;
        assert t[0] == s[0] && t[0] != '\r' && t[1..] == rest;
        assert UnifyCrLf(t) == [s[0]] + UnifyCrLf(rest);
      }
    }
  }

  lemma {:induction false} UnifiesCr(s: string)
    requires '\r' !in s
    ensures UnifyNewlines(Replace(s, '\n', "\r")) == s
  {
    if s != [] {
      var rest := Replace(s[1..], '\n', "\r");
      UnifiesCr(s[1..]);
      ReplaceRemoves(s, '\n', "\r");
      ReplaceRemoves(s[1..], '\n', "\r");
      var head := if s[0] == '\n' then "\r" else [s[0]];
      assert (head + rest)[1..] == rest;
      if rest != [] {
        assert rest[0] in rest;
      }
    }
  }

  // The same document with LF, CRLF or CR line ends has the same lines, and so the same normal text.
  lemma NewlineStyleIsIrrelevant(s: string)
    requires '\r' !in s
    ensures SplitLines(Replace(s, '\n', "\r\n")) == SplitLines(s) == SplitLines(Replace(s, '\n', "\r"))
    ensures Normalize(Replace(s, '\n', "\r\n")) == Normalize(s) == Normalize(Replace(s, '\n', "\r"))
  {
    UnifiesCrLf(s);
    UnifiesCr(s);
    UnifyWithoutReturns(s);
    ReplaceAbsent(s, '\r', "\n");
  }

  lemma {:induction false} TrimRightIgnoresPadding(s: string, pad: string)
    requires Blank(pad)
    ensures TrimRight(s + pad, IsSpace) == TrimRight(s, IsSpace)
  {
    if pad == [] {
      assert s + pad == s;
    } else {
      assert (s + pad)[..|s + pad| - 1] == s + pad[..|pad| - 1];
      TrimRightIgnoresPadding(s, pad[..|pad| - 1]);
    }
  }

  function PadLines(lines: seq<string>, pads: seq<string>): seq<string>
    requires |pads| == |lines|
  {
    seq(|lines|, k requires 0 <= k < |lines| => lines[k] + pads[k])
  }

  // Blanks added at line ends, in any amounts, change neither the lines nor the normal text.
  lemma TrailingBlanksAreIrrelevant(lines: seq<string>, pads: seq<string>)
    requires |pads| == |lines| && lines != []
    requires forall k | 0 <= k < |lines| ::
      '\n' !in lines[k] && '\r' !in lines[k] && '\n' !in pads[k] && '\r' !in pads[k] && Blank(pads[k])
    ensures SplitLines(Join(PadLines(lines, pads), "\n")) == SplitLines(Join(lines, "\n"))
    ensures Normalize(Join(PadLines(lines, pads), "\n")) == Normalize(Join(lines, "\n"))
  {
    var padded := PadLines(lines, pads);
    LinesOfJoin(lines);
    LinesOfJoin(padded);
    forall k | 0 <= k < |lines| ensures TrimRight(padded[k], IsSpace) == TrimRight(lines[k], IsSpace) {
      TrimRightIgnoresPadding(lines[k], pads[k]);
    }
    assert StripEnds(padded) == StripEnds(lines);
  }

  lemma LinesOfJoin(lines: seq<string>)
    requires lines != [] && forall k | 0 <= k < |lines| :: '\n' !in lines[k] && '\r' !in lines[k]
    ensures SplitLines(Join(lines, "\n")) == StripEnds(lines)
  {
    NoReturnsInJoin(lines);
    var s := Join(lines, "\n");
    UnifyWithoutReturns(s);
    ReplaceAbsent(s, '\r', "\n");
    SplitOfJoin(lines, '\n');
  }

  lemma {:induction false} NoReturnsInJoin(lines: seq<string>)
    requires forall k | 0 <= k < |lines| :: '\r' !in lines[k]
    ensures '\r' !in Join(lines, "\n")
  {
    if |lines| > 1 {
      NoReturnsInJoin(lines[1..]);
    }
  }

  // The parts of two texts side by side: the last of one and the first of the other become one.
  function Adjoined(left: seq<string>, right: seq<string>): seq<string>
    requires left != [] && right != []
  {
    if |left| == 1 then [left[0] + right[0]] + right[1..] else [left[0]] + Adjoined(left[1..], right)
  }

  function WithHead(c: char, sep: char, parts: seq<string>): seq<string>
    requires parts != []
  {
    if c == sep then [[]] + parts else [[c] + parts[0]] + parts[1..]
  }

  lemma SplitHead(s: string, sep: char)
    ensures s != [] ==> Split(s, sep) == WithHead(s[0], sep, Split(s[1..], sep))
    ensures s == [] ==> Split(s, sep) == [""]
  {
  }

  lemma WithHeadAdjoined(c: char, sep: char, left: seq<string>, right: seq<string>)
    requires left != [] && right != []
    ensures WithHead(c, sep, Adjoined(left, right)) == Adjoined(WithHead(c, sep, left), right)
  {
    if c == sep {
      assert ([[]] + left)[1..] == left;
    } else if |left| == 1 {
      assert [c] + (left[0] + right[0]) == [c] + left[0] + right[0];
    } else {
      var grown := [[c] + left[0]] + left[1..];
      assert grown[1..] == left[1..];
    }
  }

  lemma {:induction false} SplitConcat(a: string, b: string, sep: char)
    ensures Split(a + b, sep) == Adjoined(Split(a, sep), Split(b, sep))
  {
    hide Split;
    SplitHead(a, sep);
    SplitHead(a + b, sep);
    if a == [] {
      assert a + b == b;
      assert "" + Split(b, sep)[0] == Split(b, sep)[0];
    } else {
      assert (a + b)[1..] == a[1..] + b;
      SplitConcat(a[1..], b, sep);
      WithHeadAdjoined(a[0], sep, Split(a[1..], sep), Split(b, sep));
    }
  }

  function BlankLines(n: nat): seq<string> {
    seq(n, _ => "")
  }

  lemma LinesWithoutReturns(s: string)
    requires '\r' !in s
    ensures SplitLines(s) == StripEnds(Split(s, '\n'))
  {
    UnifyWithoutReturns(s);
    ReplaceAbsent(s, '\r', "\n");
  }

  lemma UnifiedLines(s: string)
    ensures '\r' !in UnifyNewlines(s) && SplitLines(UnifyNewlines(s)) == SplitLines(s)
  {
    ReplaceRemoves(UnifyCrLf(s), '\r', "\n");
    LinesWithoutReturns(UnifyNewlines(s));
    hide IsSpace;
  }

  // A CRLF pair across the seam of two texts.
  predicate Straddles(s: string, tail: string) {
    s != "" && tail != "" && s[|s| - 1] == '\r' && tail[0] == '\n'
  }

  // How many characters the first line end or character takes, and what becomes of it.
  function FirstWidth(s: string): (n: nat)
    requires s != ""
    ensures n <= |s|
  {
    if |s| >= 2 && s[0] == '\r' && s[1] == '\n' then 2 else 1
  }

  function FirstUnified(s: string): string
    requires s != ""
  {
    if FirstWidth(s) == 2 then "\n" else [s[0]]
  }

  lemma UnifyHead(s: string)
    requires s != ""
    ensures UnifyCrLf(s) == FirstUnified(s) + UnifyCrLf(s[FirstWidth(s)..])
  {
  }

  lemma FirstOfBoth(s: string, tail: string)
    requires s != "" && !Straddles(s, tail)
    ensures FirstWidth(s + tail) == FirstWidth(s) && FirstUnified(s + tail) == FirstUnified(s)
    ensures (s + tail)[FirstWidth(s)..] == s[FirstWidth(s)..] + tail
    ensures !Straddles(s[FirstWidth(s)..], tail)
  {
  }

  lemma {:induction false} UnifyCrLfConcat(s: string, tail: string)
    requires !Straddles(s, tail)
    ensures UnifyCrLf(s + tail) == UnifyCrLf(s) + UnifyCrLf(tail)
    decreases |s|
  {
    if s == "" {
      assert s + tail == tail;
    } else {
      var width := FirstWidth(s);
      assert width >= 1;
      hide *;
      FirstOfBoth(s, tail);
      UnifyHead(s);
      UnifyHead(s + tail);
      UnifyCrLfConcat(s[width..], tail);
    }
  }

  lemma UnifyConcat(s: string, tail: string)
    requires !Straddles(s, tail)
    ensures UnifyNewlines(s + tail) == UnifyNewlines(s) + UnifyNewlines(tail)
  {
    hide UnifyCrLf, Replace, Straddles;
    UnifyCrLfConcat(s, tail);
    ReplaceConcat(UnifyCrLf(s), UnifyCrLf(tail), '\r', "\n");
  }

  lemma PairIsOneNewline(tail: string)
    ensures UnifyNewlines("\r\n" + tail) == "\n" + UnifyNewlines(tail)
    ensures UnifyNewlines("\r") == "\n"
  {
    assert ("\r\n" + tail)[2..] == tail;
    assert UnifyCrLf("\r\n" + tail) == "\n" + UnifyCrLf(tail);
    assert ("\n" + UnifyCrLf(tail))[1..] == UnifyCrLf(tail);
    assert UnifyCrLf("\r") == "\r";
  }

  // The line feed of a pair that straddles the seam goes with the carriage return before it.
  lemma StraddlingPair(s: string, tail: string)
    requires Straddles(s, tail)
    ensures UnifyNewlines(s + tail) == UnifyNewlines(s) + UnifyNewlines(tail[1..])
  {
    hide UnifyNewlines;
    var front := s[..|s| - 1];
    assert s == front + "\r" && s + tail == front + ("\r\n" + tail[1..]);
    UnifyConcat(front, "\r");
    UnifyConcat(front, "\r\n" + tail[1..]);
    PairIsOneNewline(tail[1..]);
  }

  lemma UnifyKeepsBlank(s: string)
    requires Blank(s)
    ensures Blank(UnifyNewlines(s))
  {
    hide Visible, Blank, UnifyCrLf, Replace;
    VisibleOfUnifyCrLf(s);
    VisibleOfReplace(UnifyCrLf(s));
    VisibleOfBlank(s);
    VisibleOfBlank(UnifyNewlines(s));
  }

  // White space after the end of a text stays white space after the end of the unified text.
  lemma UnifyBlankTail(s: string, tail: string) returns (rest: string)
    requires Blank(tail)
    ensures Blank(rest) && UnifyNewlines(s + tail) == UnifyNewlines(s) + rest
  {
    hide UnifyNewlines, IsSpace;
    if Straddles(s, tail) {
      StraddlingPair(s, tail);
      UnifyKeepsBlank(tail[1..]);
      return UnifyNewlines(tail[1..]);
    }
    UnifyConcat(s, tail);
    UnifyKeepsBlank(tail);
    return UnifyNewlines(tail);
  }

  // It adds blank lines at most.
  lemma BlankTailAddsBlankLines(s: string, tail: string) returns (n: nat)
    requires Blank(tail)
    ensures SplitLines(s + tail) == SplitLines(s) + BlankLines(n)
  {
    hide IsSpace, SplitLines, Split, Blank, Adjoined, StripEnds, UnifyNewlines;
    var rest := UnifyBlankTail(s, tail);
    UnifiedLines(s);
    UnifiedLines(s + tail);
    n := UnifiedTailAddsBlankLines(UnifyNewlines(s), rest);
  }

  lemma UnifiedTailAddsBlankLines(s: string, tail: string) returns (n: nat)
    requires '\r' !in s + tail && Blank(tail)
    ensures SplitLines(s + tail) == SplitLines(s) + BlankLines(n)
  {
    hide IsSpace, SplitLines, Split, Blank, Adjoined, StripEnds;
    LinesWithoutReturns(s);
    LinesWithoutReturns(s + tail);
    SplitConcat(s, tail, '\n');
    SplitIsInside(tail, '\n');
    var right := Split(tail, '\n');
    forall k | 0 <= k < |right| ensures Blank(right[k]) {
      PartIsBlank(tail, right, k);
    }
    AdjoinedBlanks(Split(s, '\n'), right);
    n := |right| - 1;
  }

  lemma {:induction false} AdjoinedBlanks(left: seq<string>, right: seq<string>)
    requires left != [] && right != [] && forall k | 0 <= k < |right| :: Blank(right[k])
    ensures StripEnds(Adjoined(left, right)) == StripEnds(left) + BlankLines(|right| - 1)
  {
    hide IsSpace, Blank;
    if |left| == 1 {
      TrimRightIgnoresPadding(left[0], right[0]);
      forall k | 1 <= k < |right| ensures TrimRight(right[k], IsSpace) == "" {
        TrimRightIgnoresPadding("", right[k]);
        assert "" + right[k] == right[k];
      }
    } else {
      hide TrimRight;
      AdjoinedBlanks(left[1..], right);
      assert StripEnds(left) == [TrimRight(left[0], IsSpace)] + StripEnds(left[1..]);
      assert StripEnds(Adjoined(left, right))
        == [TrimRight(left[0], IsSpace)] + StripEnds(Adjoined(left[1..], right));
    }
  }

  lemma PartIsBlank(tail: string, right: seq<string>, k: nat)
    requires Blank(tail) && k < |right| && forall p, c | p in right && c in p :: c in tail
    ensures Blank(right[k])
  {
    hide IsSpace;
    var p := right[k];
    forall i | 0 <= i < |p| ensures IsSpace(p[i]) {
      assert p in right && p[i] in p;
      var j :| 0 <= j < |tail| && tail[j] == p[i];
    }
  }

  lemma {:induction false} TrimOfBlankLines(lines: seq<string>, n: nat)
    requires lines != []
    ensures TrimRight(Join(lines + BlankLines(n), "\n"), IsNewline) == TrimRight(Join(lines, "\n"), IsNewline)
  {
    if n == 0 {
      assert lines + BlankLines(0) == lines;
    } else {
      var before := lines + BlankLines(n - 1);
      TrimOfBlankLines(lines, n - 1);
      assert lines + BlankLines(n) == before + [""];
      hide Join;
      JoinConcat(before, [""], "\n");
      var joined := Join(before, "\n");
      OneLine("");
      assert joined + "\n" + "" == joined + "\n";
      assert (joined + "\n")[..|joined|] == joined;
    }
  }

  lemma OneLine(line: string)
    ensures Join([line], "\n") == line
  {
  }

  lemma NormalizeTrims(s: string)
    ensures Normalize(s) == TrimLeft(TrimRight(Join(SplitLines(s), "\n"), IsNewline), IsNewline)
  {
    hide SplitLines, Join, IsNewline, TrimLeft, TrimRight;
  }

  // White space after the end of a text does not change what is hashed.
  lemma TrailingWhitespaceIsIrrelevant(s: string, tail: string)
    requires Blank(tail)
    ensures Normalize(s + tail) == Normalize(s)
  {
    hide *;
    NormalizeTrims(s);
    NormalizeTrims(s + tail);
    var n := BlankTailAddsBlankLines(s, tail);
    TrimOfBlankLines(SplitLines(s), n);
  }

  // ---- normalising drops white space only ----

  function Visible(s: string): string {
    if s == [] then [] else (if IsSpace(s[0]) then [] else [s[0]]) + Visible(s[1..])
  }

  lemma {:induction false} VisibleConcat(a: string, b: string)
    ensures Visible(a + b) == Visible(a) + Visible(b)
  {
    hide IsSpace, Visible;
    VisibleHead(a);
    VisibleHead(a + b);
    if a == [] {
      assert a + b == b;
      assert [] + Visible(b) == Visible(b);
    } else {
      VisibleConcat(a[1..], b);
      assert (a + b)[1..] == a[1..] + b;
    }
  }

  lemma VisibleHead(s: string)
    ensures Visible(s) == if s == [] then [] else (if IsSpace(s[0]) then [] else [s[0]]) + Visible(s[1..])
  {
    hide IsSpace;
  }

  lemma {:induction false} VisibleOfBlank(s: string)
    ensures Visible(s) == [] <==> Blank(s)
  {
    hide IsSpace;
    if s != [] {
      VisibleOfBlank(s[1..]);
      assert forall k | 0 <= k < |s[1..]| :: s[1..][k] == s[k + 1];
      assert Blank(s) ==> IsSpace(s[0]) && Blank(s[1..]);
    }
  }

  lemma VisibleOfTrimRight(s: string, drop: char -> bool)
    requires forall c | drop(c) :: IsSpace(c)
    ensures Visible(TrimRight(s, drop)) == Visible(s)
  {
    hide IsSpace, Visible;
    var t := TrimRight(s, drop);
    VisibleConcat(t, s[|t|..]);
    VisibleOfBlank(s[|t|..]);
    assert s == t + s[|t|..];
    assert Visible(t) + [] == Visible(t);
  }

  lemma VisibleOfTrimLeft(s: string, drop: char -> bool)
    requires forall c | drop(c) :: IsSpace(c)
    ensures Visible(TrimLeft(s, drop)) == Visible(s)
  {
    hide IsSpace, Visible;
    var t := TrimLeft(s, drop);
    var n := |s| - |t|;
    VisibleConcat(s[..n], t);
    VisibleOfBlank(s[..n]);
    assert s == s[..n] + t;
    assert [] + Visible(t) == Visible(t);
  }

  lemma LineEndsAreSpaces()
    ensures IsSpace('\n') && IsSpace('\r') && forall c | IsNewline(c) :: IsSpace(c)
  {
  }

  lemma {:induction false} VisibleOfUnifyCrLf(s: string)
    ensures Visible(UnifyCrLf(s)) == Visible(s)
  {
    hide IsSpace;
    LineEndsAreSpaces();
    if s == [] {
    } else if |s| >= 2 && s[0] == '\r' && s[1] == '\n' {
      VisibleOfUnifyCrLf(s[2..]);
      assert s[1..][1..] == s[2..];
      assert Visible(s) == Visible(s[1..]);
    } else {
      VisibleOfUnifyCrLf(s[1..]);
    }
  }

  lemma {:induction false} VisibleOfReplace(s: string)
    ensures Visible(Replace(s, '\r', "\n")) == Visible(s)
  {
    hide IsSpace;
    LineEndsAreSpaces();
    if s != [] {
      VisibleOfReplace(s[1..]);
    }
  }

  ghost predicate SameVisible(parts: seq<string>, parts': seq<string>) {
    |parts| == |parts'| && forall k | 0 <= k < |parts| :: Visible(parts[k]) == Visible(parts'[k])
  }

  lemma {:induction false} VisibleOfJoin(parts: seq<string>, parts': seq<string>, sep: string)
    requires SameVisible(parts, parts')
    ensures Visible(Join(parts, sep)) == Visible(Join(parts', sep))
  {
    hide Visible;
    if |parts| > 1 {
      assert SameVisible(parts[1..], parts'[1..]);
      VisibleOfJoin(parts[1..], parts'[1..], sep);
      VisibleConcat(parts[0] + sep, Join(parts[1..], sep));
      VisibleConcat(parts'[0] + sep, Join(parts'[1..], sep));
      VisibleConcat(parts[0], sep);
      VisibleConcat(parts'[0], sep);
    }
  }

  // The visible characters of a text survive normalisation, all of them and in order.
  lemma NormalizeKeepsVisible(s: string)
    ensures Visible(Normalize(s)) == Visible(s)
  {
    hide Visible, IsSpace, IsNewline, Join, UnifyCrLf, Replace, Split;
    LineEndsAreSpaces();
    VisibleOfUnifyCrLf(s);
    VisibleOfReplace(UnifyCrLf(s));
    var unified := UnifyNewlines(s);
    JoinOfSplit(unified, '\n');
    var parts := Split(unified, '\n');
    forall k | 0 <= k < |parts| ensures Visible(SplitLines(s)[k]) == Visible(parts[k]) {
      VisibleOfTrimRight(parts[k], IsSpace);
    }
    VisibleOfJoin(SplitLines(s), parts, "\n");
    var joined := Join(SplitLines(s), "\n");
    VisibleOfTrimRight(joined, IsNewline);
    VisibleOfTrimLeft(TrimRight(joined, IsNewline), IsNewline);
  }

  // A text is blank exactly when its normal form is.
  lemma NormalizeKeepsBlank(s: string)
    ensures Blank(Normalize(s)) <==> Blank(s)
  {
    hide Visible, Blank, Normalize;
    NormalizeKeepsVisible(s);
    VisibleOfBlank(s);
    VisibleOfBlank(Normalize(s));
  }

  lemma StripEndsSolid(s: string)
    ensures Strip(s) != "" ==> !IsSpace(Strip(s)[0]) && !IsSpace(Strip(s)[|Strip(s)| - 1])
    ensures Strip(Strip(s)) == Strip(s)
  {
    hide IsSpace;
    var right := TrimRight(s, IsSpace);
    var both := TrimLeft(right, IsSpace);
    if both != "" {
      assert both[|both| - 1] == right[|right| - 1];
      assert TrimRight(both, IsSpace) == both;
    }
  }

  lemma StripFindsBlank(s: string)
    ensures Blank(s) <==> Strip(s) == ""
  {
    hide Visible, IsSpace, Strip, Blank;
    StripIsTrim(s);
    VisibleOfTrimRight(s, IsSpace);
    VisibleOfTrimLeft(TrimRight(s, IsSpace), IsSpace);
    VisibleOfBlank(s);
    VisibleOfBlank(Strip(s));
    BlankSolid(s);
  }

  lemma StripIsTrim(s: string)
    ensures Strip(s) == TrimLeft(TrimRight(s, IsSpace), IsSpace)
  {
  }

  lemma BlankSolid(s: string)
    ensures Blank(Strip(s)) <==> Strip(s) == ""
  {
    hide IsSpace, Strip;
    StripEndsSolid(s);
    var t := Strip(s);
    if t != "" {
      assert !IsSpace(t[0]);
    }
  }

  // ---- slugs ----

  predicate IsSlugGap(c: char) {
    IsSpace(c) || c == '_'
  }

  predicate IsDash(c: char) {
    c == '-'
  }

  predicate IsDashOrDot(c: char) {
    c == '-' || c == '.'
  }

  // Every run of the characters becomes one dash.
  function SquashRuns(s: string, p: char -> bool): string {
    if s == [] then []
    else if !p(s[0]) then [s[0]] + SquashRuns(s[1..], p)
    else if |s| > 1 && p(s[1]) then SquashRuns(s[1..], p)
    else ['-'] + SquashRuns(s[1..], p)
  }

  function KeepSlugCharacters(s: string, isWord: char -> bool): string {
    if s == [] then []
    else (if isWord(s[0]) || IsDashOrDot(s[0]) then [s[0]] else []) + KeepSlugCharacters(s[1..], isWord)
  }

  // slugify, for any case folding and any notion of word character.
  function Slugify(fold: string -> string, isWord: char -> bool, value: string): string {
    var dashed := SquashRuns(fold(Strip(value)), IsSlugGap);
    Trim(SquashRuns(KeepSlugCharacters(dashed, isWord), IsDash), IsDashOrDot)
  }

  lemma {:induction false} SquashRunsAlphabet(s: string, p: char -> bool)
    ensures forall c | c in SquashRuns(s, p) :: c == '-' || c in s
  {
    if s != [] {
      SquashRunsAlphabet(s[1..], p);
    }
  }

  lemma {:induction false} KeepSlugAlphabet(s: string, isWord: char -> bool)
    ensures forall c | c in KeepSlugCharacters(s, isWord) :: isWord(c) || IsDashOrDot(c)
  {
    if s != [] {
      KeepSlugAlphabet(s[1..], isWord);
    }
  }

  lemma TrimIsInside(s: string, drop: char -> bool)
    ensures forall c | c in Trim(s, drop) :: c in s
  {
    var right := TrimRight(s, drop);
    forall c | c in Trim(s, drop) ensures c in s {
      assert c in right;
      var k :| 0 <= k < |right| && right[k] == c;
      assert s[k] == c;
    }
  }

  // A slug holds only word characters, dashes and dots, whatever the value and the folding.
  lemma SlugAlphabet(fold: string -> string, isWord: char -> bool, value: string)
    ensures forall c | c in Slugify(fold, isWord, value) :: isWord(c) || c == '-' || c == '.'
  {
    var kept := KeepSlugCharacters(SquashRuns(fold(Strip(value)), IsSlugGap), isWord);
    KeepSlugAlphabet(SquashRuns(fold(Strip(value)), IsSlugGap), isWord);
    SquashRunsAlphabet(kept, IsDash);
    TrimIsInside(SquashRuns(kept, IsDash), IsDashOrDot);
  }

  // A way of making slugs that never puts a tilde into one: all that anchors need of it.
  ghost predicate TildeFree(slug: string -> string) {
    forall value :: '~' !in slug(value)
  }

  // slugify is one, for every case folding and every class of word characters without the tilde.
  function SluggerOf(fold: string -> string, isWord: char -> bool): (slug: string -> string)
    requires !isWord('~')
    ensures TildeFree(slug) && forall value :: slug(value) == Slugify(fold, isWord, value)
  {
    assert forall value :: '~' !in Slugify(fold, isWord, value) by {
      hide Slugify;
      forall value ensures '~' !in Slugify(fold, isWord, value) {
        SlugAlphabet(fold, isWord, value);
      }
    }
    value => Slugify(fold, isWord, value)
  }
}
