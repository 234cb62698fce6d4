/** What a slug keeps of its heading. */
module SlugLaws {
  import opened Text
  import opened Normalization

  // Every white space character and underscore as a dash.
  function Dashed(s: string): string {
    if s == [] then [] else [if IsSlugGap(s[0]) then '-' else s[0]] + Dashed(s[1..])
  }

  // The parts that are not empty.
  function Solid(parts: seq<string>): seq<string> {
    if parts == [] then []
    else (if parts[0] == "" then [] else [parts[0]]) + Solid(parts[1..])
  }

  // The words of a text: the characters slugs keep, between white space, underscores and dashes.
  function Words(s: string, isWord: char -> bool): seq<string> {
    Solid(Split(KeepSlugCharacters(Dashed(s), isWord), '-'))
  }

  // ---- runs of dashes do not matter ----

  lemma SolidOfDash(t: string)
    ensures Split(['-'] + t, '-')[0] == "" && Split(['-'] + t, '-')[1..] == Split(t, '-')
    ensures Solid(Split(['-'] + t, '-')) == Solid(Split(t, '-'))
  {
    assert (['-'] + t)[1..] == t;
    assert ([[]] + Split(t, '-'))[1..] == Split(t, '-');
  }

  lemma SolidOfOther(c: char, t: string)
    requires c != '-'
    ensures Split([c] + t, '-')[0] == [c] + Split(t, '-')[0] && Split([c] + t, '-')[1..] == Split(t, '-')[1..]
  {
    assert ([c] + t)[1..] == t;
  }

  // The first part, empty or not, and the parts after it that are not empty.
  ghost predicate SameWords(t: string, u: string) {
    var a, b := Split(t, '-'), Split(u, '-');
    a[0] == b[0] && Solid(a[1..]) == Solid(b[1..])
  }

  lemma SameAfter(c: char, t: string, u: string)
    requires SameWords(t, u)
    ensures SameWords([c] + t, [c] + u)
  {
    hide Split;
    if c == '-' {
      SolidOfDash(t);
      SolidOfDash(u);
      SolidHead(Split(t, '-'));
      SolidHead(Split(u, '-'));
    } else {
      SolidOfOther(c, t);
      SolidOfOther(c, u);
    }
  }

  lemma SolidHead(parts: seq<string>)
    requires parts != []
    ensures Solid(parts) == (if parts[0] == "" then [] else [parts[0]]) + Solid(parts[1..])
  {
  }

  lemma DashTwice(t: string)
    ensures SameWords(['-'] + t, ['-'] + (['-'] + t))
  {
    hide Split;
    SolidOfDash(t);
    SolidOfDash(['-'] + t);
  }

  lemma SameChain(t: string, u: string, v: string)
    requires SameWords(t, u) && SameWords(u, v)
    ensures SameWords(t, v)
  {
  }

  // What a character leaves in the text the words are split from.
  function Left(c: char, isWord: char -> bool): string {
    if IsSlugGap(c) then "-" else if isWord(c) || IsDashOrDot(c) then [c] else ""
  }

  lemma KeptDashed(s: string, isWord: char -> bool)
    requires s != []
    ensures KeepSlugCharacters(Dashed(s), isWord) == Left(s[0], isWord) + KeepSlugCharacters(Dashed(s[1..]), isWord)
  {
    hide IsSlugGap;
  }

  lemma KeptSquashed(s: string, isWord: char -> bool)
    requires s != []
    ensures var rest := KeepSlugCharacters(SquashRuns(s[1..], IsSlugGap), isWord);
      KeepSlugCharacters(SquashRuns(s, IsSlugGap), isWord)
        == if IsSlugGap(s[0]) && |s| > 1 && IsSlugGap(s[1]) then rest else Left(s[0], isWord) + rest
  {
    hide IsSlugGap;
    var rest := SquashRuns(s[1..], IsSlugGap);
    assert (['-'] + rest)[1..] == rest && ([s[0]] + rest)[1..] == rest;
  }

  lemma {:induction false} SquashedSameWords(s: string, isWord: char -> bool)
    ensures SameWords(
      KeepSlugCharacters(SquashRuns(s, IsSlugGap), isWord), KeepSlugCharacters(Dashed(s), isWord))
  {
    hide IsSlugGap, SameWords, SquashRuns, KeepSlugCharacters, IsDashOrDot;
    if s == [] {
      NothingSquashed(isWord);
    } else {
      SquashedSameWords(s[1..], isWord);
      var kept := KeepSlugCharacters(SquashRuns(s[1..], IsSlugGap), isWord);
      var dashed := KeepSlugCharacters(Dashed(s[1..]), isWord);
      KeptDashed(s, isWord);
      KeptSquashed(s, isWord);
      hide Dashed;
      if IsSlugGap(s[0]) && |s| > 1 && IsSlugGap(s[1]) {
        var rest := KeepSlugCharacters(Dashed(s[1..][1..]), isWord);
        KeptDashed(s[1..], isWord);
        DashTwice(rest);
        SameChain(kept, dashed, "-" + dashed);
      } else if Left(s[0], isWord) == "" {
        assert "" + kept == kept && "" + dashed == dashed;
      } else {
        SameAfter(Left(s[0], isWord)[0], kept, dashed);
      }
    }
  }

  lemma NothingSquashed(isWord: char -> bool)
    ensures SameWords(
      KeepSlugCharacters(SquashRuns([], IsSlugGap), isWord), KeepSlugCharacters(Dashed([]), isWord))
  {
  }

  // ---- squashing dashes joins the words ----

  function Lead(t: string): string {
    if t != "" && t[0] == '-' then "-" else ""
  }

  function Trail(t: string): string {
    if t != "" && t[|t| - 1] == '-' then "-" else ""
  }

  // A text with every run of dashes as one: its words joined, between the dashes at its ends.
  ghost predicate IsSquashed(t: string, squashed: string) {
    var words := Solid(Split(t, '-'));
    squashed == if words == [] then (if t == "" then "" else "-") else Lead(t) + Join(words, "-") + Trail(t)
  }

  lemma FirstWord(t: string)
    requires t != "" && t[0] != '-'
    ensures Solid(Split(t, '-')) != []
  {
    assert t == [t[0]] + t[1..];
    SolidOfOther(t[0], t[1..]);
  }

  lemma {:induction false} NoWordsAllDashes(t: string)
    requires Solid(Split(t, '-')) == []
    ensures forall k | 0 <= k < |t| :: t[k] == '-'
  {
    if t != "" {
      if t[0] != '-' {
        FirstWord(t);
      }
      assert t == ['-'] + t[1..];
      SolidOfDash(t[1..]);
      NoWordsAllDashes(t[1..]);
      assert forall k | 0 < k < |t| :: t[k] == t[1..][k - 1];
    }
  }

  lemma SquashDash(t: string)
    ensures SquashRuns(['-'] + t, IsDash)
      == if t != "" && t[0] == '-' then SquashRuns(t, IsDash) else ['-'] + SquashRuns(t, IsDash)
  {
    assert (['-'] + t)[1..] == t;
  }

  lemma SquashOther(c: char, t: string)
    requires c != '-'
    ensures SquashRuns([c] + t, IsDash) == [c] + SquashRuns(t, IsDash)
  {
    assert ([c] + t)[1..] == t;
  }

  lemma TrailNext(c: char, t: string)
    ensures Trail([c] + t) == if t == "" then (if c == '-' then "-" else "") else Trail(t)
    ensures Lead([c] + t) == if c == '-' then "-" else ""
  {
  }

  lemma Reassociate(a: string, b: string, c: string)
    ensures a + ("" + b + c) == a + b + c == "" + (a + b) + c
    ensures a + ("-" + b + c) == "" + (a + ("-" + b)) + c
  {
  }

  lemma DashNext(t: string)
    requires IsSquashed(t, SquashRuns(t, IsDash))
    ensures IsSquashed(['-'] + t, SquashRuns(['-'] + t, IsDash))
  {
    hide Split, Join, SquashRuns, Solid, Lead, Trail;
    var words := Solid(Split(t, '-'));
    SolidOfDash(t);
    SquashDash(t);
    TrailNext('-', t);
    NoParts();
    if words == [] {
      NoWordsAllDashes(t);
    } else if t[0] == '-' {
      TrailNext('-', t[1..]);
      assert t == ['-'] + t[1..];
    } else {
      TrailNext(t[0], t[1..]);
      assert t == [t[0]] + t[1..];
      Reassociate("-", Join(words, "-"), Trail(t));
    }
  }

  lemma NoParts()
    ensures Solid(Split("", '-')) == []
  {
  }

  lemma FirstPart(t: string)
    ensures Split(t, '-')[0] == "" <==> t == "" || t[0] == '-'
  {
  }

  lemma JoinFirst(c: char, first: string, rest: seq<string>)
    ensures Join([[c] + first] + rest, "-") == [c] + Join([first] + rest, "-")
    ensures rest != [] ==> Join([[c]] + rest, "-") == [c] + ("-" + Join(rest, "-"))
    ensures Join([[c]], "-") == [c]
  {
    assert ([[c] + first] + rest)[1..] == rest && ([first] + rest)[1..] == rest && ([[c]] + rest)[1..] == rest;
    if rest == [] {
      assert [first] + rest == [first] && [[c] + first] + rest == [[c] + first];
    }
  }

  lemma OtherNext(c: char, t: string)
    requires c != '-' && IsSquashed(t, SquashRuns(t, IsDash))
    ensures IsSquashed([c] + t, SquashRuns([c] + t, IsDash))
  {
    hide Split, Join, SquashRuns, Solid, Lead, Trail;
    var parts := Split(t, '-');
    var first, rest := parts[0], Solid(parts[1..]);
    SolidOfOther(c, t);
    SquashOther(c, t);
    FirstPart(t);
    SolidHead(parts);
    SolidHead(Split([c] + t, '-'));
    JoinFirst(c, first, rest);
    TrailNext(c, t);
    NoParts();
    LeadExactly(t);
    if first != "" {
      Reassociate([c], Join([first] + rest, "-"), Trail(t));
    } else if rest == [] {
      AllDashesTrail(t);
      assert [c] + first == [c];
      assert [[c] + first] + rest == [[c]];
      assert [] + rest == rest;
    } else {
      Reassociate([c], Join(rest, "-"), Trail(t));
      assert [c] + first == [c];
      assert [[c] + first] + rest == [[c]] + rest;
      assert [] + rest == rest;
    }
  }

  lemma LeadExactly(t: string)
    ensures Lead(t) == if t != "" && t[0] == '-' then "-" else ""
  {
  }

  lemma AllDashesTrail(t: string)
    requires Solid(Split(t, '-')) == []
    ensures t != "" ==> Trail(t) == "-"
  {
    NoWordsAllDashes(t);
  }

  lemma {:induction false} SquashJoins(t: string)
    ensures IsSquashed(t, SquashRuns(t, IsDash))
  {
    if t != "" {
      hide *;
      SquashJoins(t[1..]);
      assert t == [t[0]] + t[1..];
      if t[0] == '-' {
        DashNext(t[1..]);
      } else {
        OtherNext(t[0], t[1..]);
      }
    }
  }

  lemma TrimEnds(lead: string, middle: string, trail: string)
    requires lead in {"", "-"} && trail in {"", "-"}
    ensures Trim(lead + middle + trail, IsDashOrDot) == Trim(middle, IsDashOrDot)
  {
    var right := TrimRight(middle, IsDashOrDot);
    TrimRightDash(lead + middle, trail);
    if lead == "" {
      assert lead + middle == middle;
    } else {
      TrimRightKeepsDash(middle);
    }
  }

  lemma TrimRightDash(s: string, trail: string)
    requires trail in {"", "-"}
    ensures TrimRight(s + trail, IsDashOrDot) == TrimRight(s, IsDashOrDot)
  {
    if trail == "" {
      assert s + trail == s;
    } else {
      assert (s + trail)[..|s|] == s;
    }
  }

  lemma {:induction false} TrimRightOfDash(s: string)
    ensures TrimRight("-" + s, IsDashOrDot)
      == if TrimRight(s, IsDashOrDot) == "" then "" else "-" + TrimRight(s, IsDashOrDot)
  {
    var all := "-" + s;
    if s == "" {
      assert all[..0] == "";
    } else if IsDashOrDot(s[|s| - 1]) {
      TrimRightOfDash(s[..|s| - 1]);
      assert all[..|all| - 1] == "-" + s[..|s| - 1];
    }
  }

  lemma TrimRightKeepsDash(s: string)
    ensures Trim("-" + s, IsDashOrDot) == Trim(s, IsDashOrDot)
  {
    var right := TrimRight(s, IsDashOrDot);
    TrimRightOfDash(s);
    hide TrimRight;
    assert ("-" + right)[1..] == right;
  }

  // A slug is the words of the folded heading joined by dashes, without dashes and dots at its ends.
  lemma SlugIsJoinedWords(fold: string -> string, isWord: char -> bool, value: string)
    ensures Slugify(fold, isWord, value) == Trim(Join(Words(fold(Strip(value)), isWord), "-"), IsDashOrDot)
  {
    hide *;
    var folded := fold(Strip(value));
    var kept := KeepSlugCharacters(SquashRuns(folded, IsSlugGap), isWord);
    SquashedSameWords(folded, isWord);
    SquashJoins(kept);
    SlugOf(fold, isWord, value);
    SameSolid(kept, KeepSlugCharacters(Dashed(folded), isWord));
    SquashedTrims(kept);
    WordsOf(folded, isWord);
  }

  lemma SlugOf(fold: string -> string, isWord: char -> bool, value: string)
    ensures Slugify(fold, isWord, value)
      == Trim(SquashRuns(KeepSlugCharacters(SquashRuns(fold(Strip(value)), IsSlugGap), isWord), IsDash), IsDashOrDot)
  {
  }

  lemma WordsOf(s: string, isWord: char -> bool)
    ensures Words(s, isWord) == Solid(Split(KeepSlugCharacters(Dashed(s), isWord), '-'))
  {
  }

  lemma SameSolid(t: string, u: string)
    requires SameWords(t, u)
    ensures Solid(Split(t, '-')) == Solid(Split(u, '-'))
  {
    hide Split;
    SolidHead(Split(t, '-'));
    SolidHead(Split(u, '-'));
  }

  lemma SquashedTrims(t: string)
    requires IsSquashed(t, SquashRuns(t, IsDash))
    ensures Trim(SquashRuns(t, IsDash), IsDashOrDot) == Trim(Join(Solid(Split(t, '-')), "-"), IsDashOrDot)
  {
    hide SquashRuns, Split, Solid, Trim;
    var words := Solid(Split(t, '-'));
    if words == [] {
      TrimEnds("", "", "-");
      assert "" + "" + "-" == "-";
    } else {
      TrimEnds(Lead(t), Join(words, "-"), Trail(t));
    }
  }

  // ---- slugs stay as they are ----

  predicate NoTwoDashes(s: string) {
    forall k | 0 < k < |s| :: s[k - 1] != '-' || s[k] != '-'
  }

  // Kept characters, no white space or underscore, no two dashes in a row, and neither dash nor dot at an end.
  predicate IsSlug(s: string, isWord: char -> bool) {
    && (forall k | 0 <= k < |s| :: !IsSlugGap(s[k]) && (isWord(s[k]) || s[k] == '-' || s[k] == '.'))
    && (forall k | 0 < k < |s| :: s[k - 1] != '-' || s[k] != '-')
    && (s != "" ==> !IsDashOrDot(s[0]) && !IsDashOrDot(s[|s| - 1]))
  }

  lemma {:induction false} DashedStays(s: string, isWord: char -> bool)
    requires forall k | 0 <= k < |s| :: !IsSlugGap(s[k]) && (isWord(s[k]) || s[k] == '-' || s[k] == '.')
    ensures KeepSlugCharacters(Dashed(s), isWord) == s
  {
    hide IsSlugGap;
    if s != [] {
      assert forall k | 0 <= k < |s[1..]| :: s[1..][k] == s[k + 1];
      DashedStays(s[1..], isWord);
    }
  }

  // The first part may be empty, when the text begins with a dash; no other is.
  lemma {:induction false} PartsAreSolid(s: string)
    requires (forall k | 0 < k < |s| :: s[k - 1] != '-' || s[k] != '-') && (s != "" ==> s[|s| - 1] != '-')
    ensures Solid(Split(s, '-')[1..]) == Split(s, '-')[1..]
  {
    if s != "" {
      var rest := s[1..];
      assert forall k | 0 <= k < |rest| :: rest[k] == s[k + 1];
      assert s == [s[0]] + rest;
      PartsAreSolid(rest);
      if s[0] == '-' {
        SolidOfDash(rest);
        FirstPart(rest);
        SolidHead(Split(rest, '-'));
      } else {
        SolidOfOther(s[0], rest);
      }
    }
  }

  lemma {:induction false} WordsJoinBack(s: string)
    requires NoTwoDashes(s) && (s != "" ==> !IsDashOrDot(s[0]) && !IsDashOrDot(s[|s| - 1]))
    ensures Join(Solid(Split(s, '-')), "-") == s
  {
    if s == "" {
      NoParts();
    } else {
      PartsAreSolid(s);
      hide Split, Solid, Join;
      FirstPart(s);
      SolidHead(Split(s, '-'));
      JoinOfSplit(s, '-');
      SolidIsAll(Split(s, '-'));
    }
  }

  lemma SolidIsAll(parts: seq<string>)
    requires parts != [] && parts[0] != "" && Solid(parts[1..]) == parts[1..]
    ensures Solid(parts) == parts
  {
    SolidHead(parts);
    hide Solid;
    assert parts == [parts[0]] + parts[1..];
  }

  // Slugifying a slug changes nothing, if folding does not.
  lemma SlugIsFixed(fold: string -> string, isWord: char -> bool, s: string)
    requires IsSlug(s, isWord) && fold(s) == s
    ensures Slugify(fold, isWord, s) == s
  {
    SlugEnds(s, isWord);
    hide *;
    SlugIsSolid(s, isWord);
    SlugStays(s, isWord);
    SlugIsJoinedWords(fold, isWord, s);
    WordsJoinBack(s);
    WordsOf(s, isWord);
    NothingToTrim(s);
  }

  lemma SlugStays(s: string, isWord: char -> bool)
    requires IsSlug(s, isWord)
    ensures KeepSlugCharacters(Dashed(s), isWord) == s
  {
    DashedStays(s, isWord);
  }

  lemma SlugEnds(s: string, isWord: char -> bool)
    requires IsSlug(s, isWord)
    ensures NoTwoDashes(s) && (s != "" ==> !IsDashOrDot(s[0]) && !IsDashOrDot(s[|s| - 1]))
  {
    hide IsSlugGap, IsDashOrDot;
  }

  lemma SlugIsSolid(s: string, isWord: char -> bool)
    requires IsSlug(s, isWord)
    ensures Strip(s) == s
  {
    hide IsSpace;
    assert s != "" ==> !IsSpace(s[0]) && !IsSpace(s[|s| - 1]);
    assert TrimRight(s, IsSpace) == s;
    assert TrimLeft(s, IsSpace) == s;
  }

  lemma NothingToTrim(s: string)
    requires s != "" ==> !IsDashOrDot(s[0]) && !IsDashOrDot(s[|s| - 1])
    ensures Trim(s, IsDashOrDot) == s
  {
    assert TrimRight(s, IsDashOrDot) == s;
    assert TrimLeft(s, IsDashOrDot) == s;
  }

  lemma {:induction false} SquashedIsNoGap(s: string)
    ensures forall c | c in SquashRuns(s, IsSlugGap) :: c == '-' || !IsSlugGap(c)
  {
    hide IsSlugGap;
    if s != [] {
      SquashedIsNoGap(s[1..]);
    }
  }

  lemma {:induction false} KeptIsInside(s: string, isWord: char -> bool)
    ensures forall c | c in KeepSlugCharacters(s, isWord) :: c in s
  {
    if s != [] {
      KeptIsInside(s[1..], isWord);
    }
  }

  lemma {:induction false} SquashedHasNoTwoDashes(t: string)
    ensures var s := SquashRuns(t, IsDash);
      NoTwoDashes(s) && (t != "" ==> s != "" && s[0] == t[0])
  {
    if t != "" {
      SquashedHasNoTwoDashes(t[1..]);
      assert t == [t[0]] + t[1..];
      if t[0] == '-' {
        SquashDash(t[1..]);
      } else {
        SquashOther(t[0], t[1..]);
      }
    }
  }

  lemma SliceHasNoTwoDashes(s: string, a: nat, b: nat)
    requires NoTwoDashes(s) && a <= b <= |s|
    ensures NoTwoDashes(s[a..b])
  {
    assert forall k | 0 <= k < b - a :: s[a..b][k] == s[a + k];
  }

  // What is left of a text after cutting off its ends.
  lemma TrimIsSlice(s: string, drop: char -> bool) returns (a: nat, b: nat)
    ensures a <= b <= |s| && Trim(s, drop) == s[a..b]
    ensures a < b ==> !drop(s[a]) && !drop(s[b - 1])
  {
    hide *;
    var right := TrimRight(s, drop);
    var t := TrimLeft(right, drop);
    TrimOf(s, drop);
    a, b := |right| - |t|, |right|;
    TailOfPrefix(s, right, t);
  }

  lemma TrimOf(s: string, drop: char -> bool)
    ensures Trim(s, drop) == TrimLeft(TrimRight(s, drop), drop)
  {
  }

  lemma TailOfPrefix(s: string, prefix: string, tail: string)
    requires prefix <= s && |tail| <= |prefix| && tail == prefix[|prefix| - |tail|..]
    ensures tail == s[|prefix| - |tail|..|prefix|]
    ensures tail != "" ==> tail[0] == s[|prefix| - |tail|]
    ensures tail != "" ==> tail[|tail| - 1] == prefix[|prefix| - 1] == s[|prefix| - 1]
  {
  }

  lemma TrimmedEnds(s: string)
    ensures var t := Trim(s, IsDashOrDot);
      && (NoTwoDashes(s) ==> NoTwoDashes(t))
      && (t != "" ==> !IsDashOrDot(t[0]) && !IsDashOrDot(t[|t| - 1]))
  {
    hide *;
    var a, b := TrimIsSlice(s, IsDashOrDot);
    if NoTwoDashes(s) {
      SliceHasNoTwoDashes(s, a, b);
    }
  }

  // What slugify makes is a slug.
  lemma SlugifyMakesSlugs(fold: string -> string, isWord: char -> bool, value: string)
    ensures IsSlug(Slugify(fold, isWord, value), isWord)
  {
    hide IsSlugGap, SquashRuns, KeepSlugCharacters, Trim, Strip;
    var folded := fold(Strip(value));
    var squashed := SquashRuns(folded, IsSlugGap);
    var kept := KeepSlugCharacters(squashed, isWord);
    SquashedIsNoGap(folded);
    KeptIsInside(squashed, isWord);
    KeepSlugAlphabet(squashed, isWord);
    SquashRunsAlphabet(kept, IsDash);
    SquashedHasNoTwoDashes(kept);
    TrimIsInside(SquashRuns(kept, IsDash), IsDashOrDot);
    TrimmedEnds(SquashRuns(kept, IsDash));
    SlugOf(fold, isWord, value);
    var slug := Slugify(fold, isWord, value);
    DashIsNoGap();
    forall k | 0 <= k < |slug| ensures !IsSlugGap(slug[k]) && (isWord(slug[k]) || slug[k] == '-' || slug[k] == '.') {
      assert slug[k] in slug;
    }
  }

  lemma DashIsNoGap()
    ensures !IsSlugGap('-') && forall c :: IsDashOrDot(c) <==> c == '-' || c == '.'
  {
  }

  // So slugify leaves exactly the slugs as they are.
  lemma SlugifyFixesExactly(fold: string -> string, isWord: char -> bool, s: string)
    requires fold(s) == s
    ensures Slugify(fold, isWord, s) == s <==> IsSlug(s, isWord)
  {
    hide Slugify, IsSlug;
    SlugifyMakesSlugs(fold, isWord, s);
    if IsSlug(s, isWord) {
      SlugIsFixed(fold, isWord, s);
    }
  }
}
