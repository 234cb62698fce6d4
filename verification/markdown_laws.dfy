/** Which lines of a text begin, continue and end which blocks, told of the characters of the lines. */
module MarkdownLaws {
  import opened Text
  import opened Decimal
  import opened CanonicalDocuments
  import opened MarkdownLines
  import opened MarkdownScan
  import opened Markdown

  // ---- lines ----

  // Where the first character that is no white space stands.
  predicate IndentIs(line: string, k: nat) {
    k < |line| && !IsSpace(line[k]) && forall j | 0 <= j < k :: IsSpace(line[j])
  }

  // Where the last one stands.
  predicate LastIs(line: string, k: nat) {
    k < |line| && !IsSpace(line[k]) && forall j | k < j < |line| :: IsSpace(line[j])
  }

  lemma {:induction false} TrimLeftIs(line: string, k: nat)
    requires IndentIs(line, k)
    ensures TrimLeft(line, IsSpace) == line[k..]
  {
    hide IsSpace;
    if k > 0 {
      assert forall j | 0 <= j < |line| - 1 :: line[1..][j] == line[j + 1];
      TrimLeftIs(line[1..], k - 1);
    }
  }

  lemma {:induction false} TrimRightIs(line: string, k: nat)
    requires LastIs(line, k)
    ensures TrimRight(line, IsSpace) == line[..k + 1]
    decreases |line|
  {
    hide IsSpace;
    var n := |line| - 1;
    if k < n {
      assert forall j | 0 <= j < n :: line[..n][j] == line[j];
      TrimRightIs(line[..n], k);
      assert line[..n][..k + 1] == line[..k + 1];
    } else {
      assert line[..k + 1] == line;
    }
  }

  // A line with an indent trims to what follows it; one without is blank.
  lemma TrimLeftExactly(line: string)
    ensures TrimLeft(line, IsSpace) != "" ==> IndentIs(line, |line| - |TrimLeft(line, IsSpace)|)
    ensures forall k: nat | IndentIs(line, k) :: TrimLeft(line, IsSpace) == line[k..]
  {
    hide IsSpace;
    forall k: nat | IndentIs(line, k) ensures TrimLeft(line, IsSpace) == line[k..] {
      TrimLeftIs(line, k);
    }
  }

  // The first and the last character of a line that are no white space.
  predicate Ends(line: string, a: nat, b: nat) {
    IndentIs(line, a) && LastIs(line, b)
  }

  lemma StripIs(line: string, a: nat, b: nat)
    requires Ends(line, a, b)
    ensures a <= b && Strip(line) == line[a..b + 1]
  {
    hide IsSpace;
    TrimRightIs(line, b);
    var right := line[..b + 1];
    assert forall j | 0 <= j < b + 1 :: right[j] == line[j];
    assert a <= b;
    TrimLeftIs(right, a);
  }

  lemma SomeEnds(line: string) returns (a: nat, b: nat)
    requires Strip(line) != ""
    ensures Ends(line, a, b)
  {
    hide IsSpace, TrimLeft, TrimRight;
    var right := TrimRight(line, IsSpace);
    var t := TrimLeft(right, IsSpace);
    assert Strip(line) == t;
    a, b := |right| - |t|, |right| - 1;
    assert t[0] == right[a] && forall j | 0 <= j < |right| :: right[j] == line[j];
  }

  lemma StripExactly(line: string)
    ensures Strip(line) != "" ==> exists a: nat, b: nat :: Ends(line, a, b)
  {
    hide *;
    if Strip(line) != "" {
      var a, b := SomeEnds(line);
    }
  }

  // ---- what a line is ----

  // n hashes at the head of a line.
  predicate Hashes(line: string, n: nat) {
    n <= |line| && (forall j | 0 <= j < n :: line[j] == '#') && (n < |line| ==> line[n] != '#')
  }

  lemma {:induction false} HashCountExactly(line: string)
    ensures Hashes(line, HashCount(line))
    ensures forall n: nat | Hashes(line, n) :: n == HashCount(line)
  {
    if line != "" && line[0] == '#' {
      HashCountExactly(line[1..]);
      assert forall j | 0 <= j < |line| - 1 :: line[1..][j] == line[j + 1];
      forall n: nat | Hashes(line, n) ensures n == HashCount(line) {
        assert Hashes(line[1..], n - 1);
      }
    }
  }

  // A heading is one to six hashes, white space, and something more; its level is the number of hashes.
  lemma HeadingExactly(line: string)
    ensures IsHeadingLine(line) <==> exists n: nat | 1 <= n <= 6 && Hashes(line, n) && n < |line| ::
      IsSpace(line[n]) && exists j | n < j < |line| :: !IsSpace(line[j])
    ensures forall n: nat | Hashes(line, n) :: HashCount(line) == n
  {
    hide IsSpace;
    HashCountExactly(line);
    var n := HashCount(line);
    if n < |line| {
      BlankFrom(line, n);
    }
  }

  lemma BlankFrom(line: string, n: nat)
    requires n < |line|
    ensures IsSpace(line[n]) ==> (!Blank(line[n..]) <==> exists j | n < j < |line| :: !IsSpace(line[j]))
  {
    hide IsSpace;
    assert forall k | 0 <= k < |line| - n :: line[n..][k] == line[n + k];
    if IsSpace(line[n]) && exists j | n < j < |line| :: !IsSpace(line[j]) {
      var j :| n < j < |line| && !IsSpace(line[j]);
      assert !IsSpace(line[n..][j - n]);
    }
  }

  // A fence: three backquotes or three tildes after the indent.
  lemma FenceExactly(line: string)
    ensures FenceOf(line) == Backquotes <==> exists k: nat :: IndentIs(line, k) && "```" <= line[k..]
    ensures FenceOf(line) == Tildes <==> exists k: nat :: IndentIs(line, k) && "~~~" <= line[k..]
  {
    hide IsSpace;
    TrimLeftExactly(line);
    var t := TrimLeft(line, IsSpace);
    if "```" <= t || "~~~" <= t {
      assert t != "";
      assert line[|line| - |t|..] == t;
    }
  }

  // A quote: a greater-than sign after the indent.
  lemma QuoteExactly(line: string)
    ensures IsQuote(line) <==> exists k: nat :: IndentIs(line, k) && line[k] == '>'
  {
    hide IsSpace;
    TrimLeftExactly(line);
    var t := TrimLeft(line, IsSpace);
    if t != "" {
      assert line[|line| - |t|..] == t;
    }
  }

  lemma EndsMean(line: string, a: nat, b: nat)
    requires Ends(line, a, b)
    ensures a <= b < |line| && |Strip(line)| == b - a + 1
    ensures forall k | a <= k <= b :: Strip(line)[k - a] == line[k]
  {
    hide IsSpace;
    StripIs(line, a, b);
  }

  // Pipes at both ends of the line, white space apart.
  predicate Piped(line: string, a: nat, b: nat) {
    Ends(line, a, b) && a < b && line[a] == '|' && line[b] == '|'
  }

  lemma PipedExactly(line: string, a: nat, b: nat)
    requires Ends(line, a, b)
    ensures a <= b < |line|
    ensures IsTableRow(line) <==> Piped(line, a, b)
    ensures IsDelimiter(line) <==>
      Piped(line, a, b) && a + 1 < b && forall j | a < j < b :: IsSpace(line[j]) || line[j] in {':', '-', '|'}
  {
    hide IsSpace, Ends, Strip;
    EndsMean(line, a, b);
    var t := Strip(line);
    assert t[0] == line[a] && t[b - a] == line[b];
    assert forall k | 1 <= k < |t| - 1 :: t[k] == line[a + k];
    assert forall j | a < j < b :: t[j - a] == line[j];
  }

  lemma BlankIsNothing(line: string)
    requires Strip(line) == ""
    ensures !IsTableRow(line) && !IsDelimiter(line)
  {
    hide Strip;
  }

  // A table row: two pipes, with nothing but white space before the first and after the second.
  lemma RowExactly(line: string)
    ensures IsTableRow(line) <==> exists a: nat, b: nat :: Piped(line, a, b)
  {
    hide *;
    StripExactly(line);
    if Strip(line) == "" {
      BlankIsNothing(line);
    } else {
      var a: nat, b: nat :| Ends(line, a, b);
      PipedExactly(line, a, b);
    }
    if a: nat, b: nat :| Piped(line, a, b) {
      PipedEnds(line, a, b);
      PipedExactly(line, a, b);
    }
  }

  lemma PipedEnds(line: string, a: nat, b: nat)
    requires Piped(line, a, b)
    ensures Ends(line, a, b)
  {
    hide Ends;
  }

  // A delimiter: such a row with something between the pipes, all of it white space, colons, dashes and pipes.
  predicate Delimits(line: string, a: nat, b: nat) {
    Piped(line, a, b) && a + 1 < b < |line| && forall j | a < j < b :: IsSpace(line[j]) || line[j] in {':', '-', '|'}
  }

  lemma DelimiterExactly(line: string)
    ensures IsDelimiter(line) <==> exists a: nat, b: nat :: Delimits(line, a, b)
  {
    hide IsSpace, Ends, Strip, Piped, IsDelimiter;
    StripExactly(line);
    if Strip(line) == "" {
      BlankIsNothing(line);
    } else {
      var a: nat, b: nat :| Ends(line, a, b);
      PipedExactly(line, a, b);
      assert IsDelimiter(line) ==> Delimits(line, a, b);
    }
    if a: nat, b: nat :| Delimits(line, a, b) {
      PipedEnds(line, a, b);
      PipedExactly(line, a, b);
    }
  }

  // What closes a code block: the fence again, after any indent and before anything.
  lemma ClosesExactly(line: string)
    ensures Closes(line, Backquotes) <==> exists k: nat :: IndentIs(line, k) && "```" <= line[k..]
    ensures Closes(line, Tildes) <==> exists k: nat :: IndentIs(line, k) && "~~~" <= line[k..]
  {
    hide IsSpace, Strip;
    FenceExactly(line);
    StripBegins(line, '`');
    StripBegins(line, '~');
  }

  // Three equal characters begin a line after its indent if and only if they begin it stripped.
  lemma StripBegins(line: string, c: char)
    requires c == '`' || c == '~'
    ensures [c, c, c] <= Strip(line) <==> exists k: nat :: IndentIs(line, k) && [c, c, c] <= line[k..]
  {
    hide IsSpace, Strip, LastIs;
    MarkIsNoSpace(c);
    if [c, c, c] <= Strip(line) {
      var a, b := SomeEnds(line);
      EndsMean(line, a, b);
      assert line[a..][..3] == [line[a], line[a + 1], line[a + 2]];
    }
    if k: nat :| IndentIs(line, k) && [c, c, c] <= line[k..] {
      var b := LastAfter(line, k, c);
      EndsMean(line, k, b);
      assert line[k..][..3] == [c, c, c];
      assert line[k] == line[k..][0] && line[k + 1] == line[k..][1] && line[k + 2] == line[k..][2];
      assert Strip(line)[..3] == [Strip(line)[0], Strip(line)[1], Strip(line)[2]];
    }
  }

  lemma MarkIsNoSpace(c: char)
    requires c == '`' || c == '~'
    ensures !IsSpace(c)
  {
  }

  // The last character that is no white space comes no earlier than the third mark.
  lemma LastAfter(line: string, k: nat, c: char) returns (b: nat)
    requires IndentIs(line, k) && [c, c, c] <= line[k..] && !IsSpace(c)
    ensures Ends(line, k, b) && b >= k + 2
  {
    hide IsSpace, TrimRight;
    var right := TrimRight(line, IsSpace);
    assert line[k + 2] == line[k..][2] == c;
    assert |right| > k + 2;
    b := |right| - 1;
  }

  // A list marker from k up to m.
  predicate MarkerAt(line: string, k: nat, m: nat) {
    && k < m <= |line|
    && ((m == k + 1 && line[k] in {'-', '*', '+'})
        || (k + 1 < m && line[m - 1] in {'.', ')'} && forall j | k <= j < m - 1 :: IsDigit(line[j])))
  }

  predicate ItemAt(line: string, k: nat, m: nat) {
    IndentIs(line, k) && MarkerAt(line, k, m) && m < |line| && IsSpace(line[m])
  }

  lemma {:induction false} DigitsExactly(s: string)
    ensures forall j | 0 <= j < Digits(s) :: IsDigit(s[j])
    ensures Digits(s) < |s| ==> !IsDigit(s[Digits(s)])
  {
    if s != "" && IsDigit(s[0]) {
      DigitsExactly(s[1..]);
      assert forall j | 0 <= j < |s| - 1 :: s[1..][j] == s[j + 1];
    }
  }

  lemma MarkerExactly(t: string)
    ensures forall m: nat | MarkerAt(t, 0, m) :: m == MarkerLength(t)
    ensures MarkerLength(t) > 0 ==> MarkerAt(t, 0, MarkerLength(t))
  {
    DigitsExactly(t);
    var d := Digits(t);
    forall m: nat | MarkerAt(t, 0, m) ensures m == MarkerLength(t) {
      if m > 1 {
        DigitsUntil(t, m - 1);
      }
    }
  }

  lemma DigitsUntil(t: string, d: nat)
    requires d < |t| && !IsDigit(t[d]) && forall j | 0 <= j < d :: IsDigit(t[j])
    ensures Digits(t) == d
  {
    DigitsExactly(t);
  }

  // Something follows.
  predicate More(line: string, m: nat) {
    exists j | m < j < |line| :: !IsSpace(line[j])
  }

  lemma ItemAfter(line: string, k: nat)
    requires IndentIs(line, k)
    ensures IsListItem(line) <==> exists m: nat :: ItemAt(line, k, m) && More(line, m)
  {
    hide IsSpace, IsDigit, MarkerLength, MarkerAt, Blank;
    TrimLeftIs(line, k);
    var t := line[k..];
    MarkerExactly(t);
    var n := MarkerLength(t);
    Shifted(line, k, n);
    if 0 < n < |t| {
      BlankFrom(t, n);
      MoreShifted(line, k, n);
    }
    if m: nat :| ItemAt(line, k, m) && More(line, m) {
      MarkerIsLater(line, k, m);
      Shifted(line, k, m - k);
      assert m - k == n;
    }
  }

  lemma MarkerIsLater(line: string, k: nat, m: nat)
    requires MarkerAt(line, k, m)
    ensures k < m
  {
    hide IsDigit;
  }

  lemma MoreShifted(line: string, k: nat, n: nat)
    requires k + n < |line|
    ensures More(line[k..], n) <==> More(line, k + n)
  {
    hide IsSpace;
    var t := line[k..];
    if j :| n < j < |t| && !IsSpace(t[j]) {
      assert line[k + j] == t[j];
    }
    if j :| k + n < j < |line| && !IsSpace(line[j]) {
      assert t[j - k] == line[j];
    }
  }

  // A list item: a bullet or a number with a dot or parenthesis after the indent, white space, and something more.
  lemma ItemExactly(line: string)
    ensures IsListItem(line) <==> exists k: nat, m: nat :: ItemAt(line, k, m) && More(line, m)
  {
    hide IsSpace, IsDigit, MarkerAt, More, IsListItem, TrimLeft;
    TrimLeftExactly(line);
    if TrimLeft(line, IsSpace) != "" {
      ItemAfter(line, |line| - |TrimLeft(line, IsSpace)|);
    } else {
      NoItem(line);
    }
    if k: nat, m: nat :| ItemAt(line, k, m) && More(line, m) {
      ItemAfter(line, k);
    }
  }

  lemma NoItem(line: string)
    requires TrimLeft(line, IsSpace) == ""
    ensures !IsListItem(line)
  {
    hide IsSpace;
  }

  lemma Shifted(line: string, k: nat, n: nat)
    requires k + n <= |line|
    ensures MarkerAt(line[k..], 0, n) <==> MarkerAt(line, k, k + n)
    ensures n < |line| - k ==> line[k..][n] == line[k + n]
  {
    hide IsDigit;
    assert forall j | 0 <= j < |line| - k :: line[k..][j] == line[k + j];
    assert forall j | k <= j < |line| :: line[k..][j - k] == line[j];
  }

  // ---- blocks ----

  // What begins a block of which kind: the first that applies of fence, heading, table with its delimiter, quote, list
  // item, paragraph.
  lemma KindExactly(shapes: seq<Shape>, i: nat)
    requires i < |shapes|
    ensures var line, kind := shapes[i], SpanAt(shapes, i).kind;
      var fence, table := !line.fence.NoFence?, line.row && i + 1 < |shapes| && shapes[i + 1].delimiter;
      && (kind == Code <==> fence)
      && (kind == Heading <==> !fence && line.heading)
      && (kind == Table <==> !fence && !line.heading && table)
      && (kind == Quote <==> !fence && !line.heading && !table && line.quote)
      && (kind == ListItem <==> !fence && !line.heading && !table && !line.quote && line.item)
      && (kind == Paragraph <==> !fence && !line.heading && !table && !line.quote && !line.item)
  {
  }

  // Whether a line goes on with the block of a kind.
  predicate GoesOn(kind: BlockType, line: Shape) {
    match kind
    case Table => line.row
    case Quote => line.quote
    case ListItem => line.indented && !line.blank && !line.item && !line.heading
    case Paragraph =>
      !line.blank && !line.heading && !line.item && line.fence.NoFence? && !line.quote && !line.row
    case _ => false
  }

  // A block other than code is as long as can be: all its further lines go on with it, and the line after does not.
  lemma SpanExactly(shapes: seq<Shape>, i: nat)
    requires i < |shapes| && SpanAt(shapes, i).kind != Code
    ensures var s := SpanAt(shapes, i);
      && (forall j | i < j < s.end :: GoesOn(s.kind, shapes[j]))
      && (s.end < |shapes| ==> !GoesOn(s.kind, shapes[s.end]))
  {
    var kind := KindAt(shapes, i);
    FirstStopStops(shapes, i, kind, i + 1);
    hide FirstStop, KindAt;
    forall j | i < j < |shapes| ensures Stops(shapes, i, kind, j) <==> !GoesOn(kind, shapes[j]) {
      match kind {
        case Table => case Quote => case ListItem => case Paragraph => case Heading => case TableCell =>
        case Code =>
      }
    }
  }

  // A code block runs to the first line that begins with its own fence, that line included, or to the end.
  lemma CodeExactly(shapes: seq<Shape>, i: nat)
    requires i < |shapes| && SpanAt(shapes, i).kind == Code
    ensures var s, ticks := SpanAt(shapes, i), shapes[i].fence.Backquotes?;
      && (forall j | i < j < s.end - 1 :: if ticks then !shapes[j].closesBackquotes else !shapes[j].closesTildes)
      && (s.end < |shapes| ==>
          i < s.end - 1
          && if ticks then shapes[s.end - 1].closesBackquotes else shapes[s.end - 1].closesTildes)
  {
    KindExactly(shapes, i);
    CodeSpanShape(shapes, i);
    hide SpanAt;
  }

  // A block is found at the number of its first line, counted from one.
  lemma LineExactly(i: nat)
    ensures var l := LineLocator(i);
      && ValidLocator(l) && l.scheme == "md" && |l.path| == 1 && l.path[0].0 == "line"
      && AllDigits(l.path[0].1) && Decimal.Read(l.path[0].1) == i + 1
  {
    ReadOfShow(i + 1);
    ShowAvoids(i + 1, '=');
    ShowAvoids(i + 1, '/');
    ShowAvoids(i + 1, '\n');
    ShowAvoids(i + 1, '\r');
    hide Show, Decimal.Read;
    assert Addressable("md") && Addressable("line");
  }
}
