/** Strings as sequences of characters: the library calls the repository's text code is built from. */
module Text {

  // str.isspace(), which is also what the regular expression class \s matches.
  predicate IsSpace(c: char) {
    || '\t' <= c <= '\r'
    || '\U{001c}' <= c <= ' '
    || c == '\U{0085}' || c == '\U{00a0}' || c == '\U{1680}'
    || '\U{2000}' <= c <= '\U{200a}'
    || c == '\U{2028}' || c == '\U{2029}' || c == '\U{202f}' || c == '\U{205f}' || c == '\U{3000}'
  }

  predicate IsNewline(c: char) {
    c == '\n'
  }

  predicate IsDigit(c: char) {
    '0' <= c <= '9'
  }

  function TrimRight(s: string, drop: char -> bool): (r: string)
    ensures r <= s
    ensures r == [] || !drop(r[|r| - 1])
    ensures forall k | |r| <= k < |s| :: drop(s[k])
  {
    if s == [] || !drop(s[|s| - 1]) then s else TrimRight(s[..|s| - 1], drop)
  }

  function TrimLeft(s: string, drop: char -> bool): (r: string)
    ensures |r| <= |s| && r == s[|s| - |r|..]
    ensures r == [] || !drop(r[0])
    ensures forall k | 0 <= k < |s| - |r| :: drop(s[k])
  {
    if s == [] || !drop(s[0]) then s else TrimLeft(s[1..], drop)
  }

  function Trim(s: string, drop: char -> bool): string {
    TrimLeft(TrimRight(s, drop), drop)
  }

  function Strip(s: string): string {
    Trim(s, IsSpace)
  }

  predicate Blank(s: string) {
    forall k | 0 <= k < |s| :: IsSpace(s[k])
  }

  // str.replace with a one-character pattern.
  function Replace(s: string, c: char, with: string): string {
    if s == [] then [] else (if s[0] == c then with else [s[0]]) + Replace(s[1..], c, with)
  }

  lemma {:induction false} ReplaceConcat(a: string, b: string, c: char, with: string)
    ensures Replace(a + b, c, with) == Replace(a, c, with) + Replace(b, c, with)
  {
    if a == [] {
      assert a + b == b;
    } else {
      var head := if a[0] == c then with else [a[0]];
      calc {
        Replace(a + b, c, with);
        { assert (a + b)[1..] == a[1..] + b; }
        head + Replace(a[1..] + b, c, with);
        { ReplaceConcat(a[1..], b, c, with); }
        head + (Replace(a[1..], c, with) + Replace(b, c, with));
        Replace(a, c, with) + Replace(b, c, with);
      }
    }
  }

  lemma {:induction false} ReplaceAbsent(s: string, c: char, with: string)
    requires c !in s
    ensures Replace(s, c, with) == s
  {
    if s != [] {
      ReplaceAbsent(s[1..], c, with);
    }
  }

  lemma {:induction false} ReplaceRemoves(s: string, c: char, with: string)
    requires c !in with
    ensures c !in Replace(s, c, with)
  {
    if s != [] {
      ReplaceRemoves(s[1..], c, with);
    }
  }

  lemma ReplaceOne(x: char, c: char, with: string)
    ensures Replace([x], c, with) == if x == c then with else [x]
  {
  }

  // str.split with a one-character separator.
  function Split(s: string, sep: char): (parts: seq<string>)
    ensures |parts| >= 1
    ensures forall p | p in parts :: sep !in p
  {
    if s == [] then [[]]
    else
      var rest := Split(s[1..], sep);
      if s[0] == sep then [[]] + rest else [[s[0]] + rest[0]] + rest[1..]
  }

  function Join(parts: seq<string>, sep: string): string {
    if parts == [] then []
    else if |parts| == 1 then parts[0]
    else parts[0] + sep + Join(parts[1..], sep)
  }

  lemma {:induction false} JoinOfSplit(s: string, sep: char)
    ensures Join(Split(s, sep), [sep]) == s
  {
    if s != [] {
      var rest := Split(s[1..], sep);
      JoinOfSplit(s[1..], sep);
      assert [s[0]] + s[1..] == s;
      if s[0] == sep {
        assert ([[]] + rest)[1..] == rest;
      } else if |rest| == 1 {
        assert [[s[0]] + rest[0]] + rest[1..] == [[s[0]] + rest[0]];
      } else {
        var parts := [[s[0]] + rest[0]] + rest[1..];
        assert parts[1..] == rest[1..];
        assert [s[0]] + (rest[0] + [sep] + Join(rest[1..], [sep])) == parts[0] + [sep] + Join(parts[1..], [sep]);
      }
    }
  }

  lemma {:induction false} SplitAfterPart(part: string, tail: string, sep: char)
    requires sep !in part
    ensures Split(part + [sep] + tail, sep) == [part] + Split(tail, sep)
  {
    if part == [] {
      assert ([] + [sep] + tail)[1..] == tail;
    } else {
      SplitAfterPart(part[1..], tail, sep);
      assert (part + [sep] + tail)[1..] == part[1..] + [sep] + tail;
      assert [part[0]] + part[1..] == part;
    }
  }

  lemma {:induction false} SplitBeforePart(s: string, part: string, sep: char)
    requires sep !in part
    ensures Split(s + [sep] + part, sep) == Split(s, sep) + [part]
  {
    if s == [] {
      SplitWithoutSeparator(part, sep);
      assert ([] + [sep] + part)[1..] == part;
    } else {
      var rest := Split(s[1..], sep);
      assert (s + [sep] + part)[1..] == s[1..] + [sep] + part;
      SplitBeforePart(s[1..], part, sep);
      if s[0] == sep {
        assert [[]] + (rest + [part]) == ([[]] + rest) + [part];
      } else {
        assert (rest + [part])[0] == rest[0] && (rest + [part])[1..] == rest[1..] + [part];
      }
    }
  }

  lemma {:induction false} SplitWithoutSeparator(part: string, sep: char)
    requires sep !in part
    ensures Split(part, sep) == [part]
  {
    if part != [] {
      SplitWithoutSeparator(part[1..], sep);
      assert [part[0]] + part[1..] == part;
    }
  }

  lemma {:induction false} SplitOfJoin(parts: seq<string>, sep: char)
    requires parts != [] && forall p | p in parts :: sep !in p
    ensures Split(Join(parts, [sep]), sep) == parts
  {
    if |parts| == 1 {
      SplitWithoutSeparator(parts[0], sep);
    } else {
      var tail := Join(parts[1..], [sep]);
      calc {
        Split(Join(parts, [sep]), sep);
        Split(parts[0] + [sep] + tail, sep);
        { SplitAfterPart(parts[0], tail, sep); }
        [parts[0]] + Split(tail, sep);
        { SplitOfJoin(parts[1..], sep); }
        [parts[0]] + parts[1..];
        parts;
      }
    }
  }

  lemma {:induction false} JoinAlphabet(parts: seq<string>, sep: string, c: char)
    requires c !in sep && forall p | p in parts :: c !in p
    ensures c !in Join(parts, sep)
  {
    if |parts| > 1 {
      JoinAlphabet(parts[1..], sep, c);
    }
  }

  lemma {:induction false} JoinConcat(a: seq<string>, b: seq<string>, sep: string)
    requires a != [] && b != []
    ensures Join(a + b, sep) == Join(a, sep) + sep + Join(b, sep)
  {
    if |a| == 1 {
      assert (a + b)[1..] == b;
    } else {
      calc {
        Join(a + b, sep);
        { assert (a + b)[1..] == a[1..] + b; }
        a[0] + sep + Join(a[1..] + b, sep);
        { JoinConcat(a[1..], b, sep); }
        a[0] + sep + (Join(a[1..], sep) + sep + Join(b, sep));
        Join(a, sep) + sep + Join(b, sep);
      }
    }
  }
}

/** Decimal numerals, as str() and int() write and read them. */
module Decimal {
  import opened Text

  function DigitOf(d: nat): (c: char)
    requires d < 10
    ensures IsDigit(c)
  {
    (d + '0' as int) as char
  }

  function Show(n: nat): (s: string)
    ensures s != [] && AllDigits(s)
    ensures n >= 1 ==> s[0] != '0'
  {
    if n < 10 then [DigitOf(n)] else Show(n / 10) + [DigitOf(n % 10)]
  }

  predicate AllDigits(s: string) {
    forall k | 0 <= k < |s| :: IsDigit(s[k])
  }

  function Read(s: string): nat
    requires AllDigits(s)
  {
    if s == [] then 0 else Read(s[..|s| - 1]) * 10 + (s[|s| - 1] as int - '0' as int)
  }

  lemma {:induction false} ReadOfShow(n: nat)
    ensures Read(Show(n)) == n
  {
    var s := Show(n);
    if n < 10 {
      assert s[..0] == [];
    } else {
      ReadOfShow(n / 10);
      assert s[..|s| - 1] == Show(n / 10);
    }
  }

  lemma ShowAvoids(n: nat, c: char)
    requires !IsDigit(c)
    ensures c !in Show(n)
  {
    hide IsDigit;
    var s := Show(n);
    forall k | 0 <= k < |s| ensures s[k] != c {
      assert IsDigit(s[k]);
    }
  }

  lemma ShowInjective(m: nat, n: nat)
    requires Show(m) == Show(n)
    ensures m == n
  {
    ReadOfShow(m);
    ReadOfShow(n);
  }
}
