/** The text of a source locator, as evidence cites it. */
module Locators {
  import opened Text
  import opened CanonicalDocuments

  predicate ValidPath(path: seq<(string, string)>) {
    path != [] && forall k | 0 <= k < |path| :: Addressable(path[k].0) && Addressable(path[k].1)
  }

  lemma StepInjective(key: string, value: string, key': string, value': string)
    requires Addressable(key) && Addressable(value) && Addressable(key') && Addressable(value')
    requires key + "=" + value == key' + "=" + value'
    ensures key == key' && value == value'
  {
    SplitAfterPart(key, value, '=');
    SplitAfterPart(key', value', '=');
    SplitWithoutSeparator(value, '=');
    SplitWithoutSeparator(value', '=');
    var step := key + "=" + value;
    assert Split(step, '=')[0] == key && Split(step, '=')[1] == value;
    assert Split(step, '=')[0] == key' && Split(step, '=')[1] == value';
  }

  lemma StepsAvoidSlash(path: seq<(string, string)>)
    requires ValidPath(path)
    ensures forall s | s in Steps(path) :: '/' !in s
  {
  }

  lemma PathInjective(path: seq<(string, string)>, path': seq<(string, string)>)
    requires ValidPath(path) && ValidPath(path')
    requires Join(Steps(path), "/") == Join(Steps(path'), "/")
    ensures path == path'
  {
    hide Split, Join;
    var steps, steps' := Steps(path), Steps(path');
    StepsAvoidSlash(path);
    StepsAvoidSlash(path');
    SplitOfJoin(steps, '/');
    SplitOfJoin(steps', '/');
    assert steps == steps' && |path| == |path'|;
    forall k | 0 <= k < |path| ensures path[k] == path'[k] {
      assert steps[k] == steps'[k];
      StepInjective(path[k].0, path[k].1, path'[k].0, path'[k].1);
    }
  }

  lemma CanonicalAfterScheme(l: SourceLocator)
    ensures |Canonical(l)| > |l.scheme|
    ensures Canonical(l)[..|l.scheme|] == l.scheme && Canonical(l)[|l.scheme|] == ':'
    ensures Canonical(l)[|l.scheme| + 1..] == Join(Steps(l.path), "/")
  {
    hide Join, Steps;
  }

  lemma SameScheme(l: SourceLocator, l': SourceLocator)
    requires ValidLocator(l) && ValidLocator(l') && l.scheme == l'.scheme
    requires Canonical(l) == Canonical(l')
    ensures l == l'
  {
    hide Join, Canonical, Steps;
    CanonicalAfterScheme(l);
    CanonicalAfterScheme(l');
    PathInjective(l.path, l'.path);
  }

  lemma SameEnds(l: SourceLocator, l': SourceLocator)
    requires Canonical(l) == Canonical(l') && |l.scheme| == |l'.scheme|
    ensures l.scheme == l'.scheme
  {
    hide Canonical;
    CanonicalAfterScheme(l);
    CanonicalAfterScheme(l');
  }

  // A text under two schemes: the longer one begins with the shorter one and a colon.
  lemma SchemesNest(l: SourceLocator, l': SourceLocator)
    requires Canonical(l) == Canonical(l') && l.scheme != l'.scheme
    ensures l.scheme + ":" <= l'.scheme || l'.scheme + ":" <= l.scheme
  {
    hide Canonical;
    CanonicalAfterScheme(l);
    CanonicalAfterScheme(l');
    var text, m, n := Canonical(l), |l.scheme|, |l'.scheme|;
    if m < n {
      assert l'.scheme[..m] == text[..m] == l.scheme;
      assert l'.scheme[m] == text[m];
    } else if n < m {
      assert l.scheme[..n] == text[..n] == l'.scheme;
      assert l.scheme[n] == text[n];
    } else {
      SameEnds(l, l');
    }
  }

  // Two positions with the same locator text are the same position, over all schemes without a colon.
  lemma CanonicalInjective(l: SourceLocator, l': SourceLocator)
    requires ValidLocator(l) && ValidLocator(l') && ':' !in l.scheme && ':' !in l'.scheme
    requires Canonical(l) == Canonical(l')
    ensures l == l'
  {
    hide Canonical, ValidLocator;
    if l.scheme != l'.scheme {
      SchemesNest(l, l');
      NestedHoldsColon(l.scheme, l'.scheme);
    } else {
      SameScheme(l, l');
    }
  }

  lemma NestedHoldsColon(s: string, s': string)
    ensures s + ":" <= s' ==> ':' in s'
    ensures s' + ":" <= s ==> ':' in s
  {
    if s + ":" <= s' {
      assert s'[|s|] == ':';
    }
    if s' + ":" <= s {
      assert s[|s'|] == ':';
    }
  }

  // The formats of the loaders.
  const LoaderSchemes := {"md", "html", "docx", "pdf", "xlsx"}

  // So over all documents of all five formats a locator text names one position.
  lemma LoaderLocatorsAreUnique(l: SourceLocator, l': SourceLocator)
    requires ValidLocator(l) && ValidLocator(l') && l.scheme in LoaderSchemes && l'.scheme in LoaderSchemes
    ensures Canonical(l) == Canonical(l') <==> l == l'
  {
    hide Canonical, ValidLocator;
    if Canonical(l) == Canonical(l') {
      CanonicalInjective(l, l');
    }
  }

  // Some two positions under the schemes have one text.
  ghost predicate Collide(s: string, s': string) {
    exists l: SourceLocator, l': SourceLocator | ValidLocator(l) && ValidLocator(l') ::
      l.scheme == s && l'.scheme == s' && Canonical(l) == Canonical(l')
  }

  // Exactly the schemes that nest share a text: the checks forbid a colon neither in a scheme nor in a key.
  lemma SchemesCollideExactly(s: string, s': string)
    requires Addressable(s) && Addressable(s') && s != s'
    ensures Collide(s, s') <==> s + ":" <= s' || s' + ":" <= s
  {
    hide Canonical, ValidLocator, Addressable;
    forall l: SourceLocator, l': SourceLocator | l.scheme == s && l'.scheme == s' && Canonical(l) == Canonical(l')
      ensures s + ":" <= s' || s' + ":" <= s
    {
      SchemesNest(l, l');
    }
    if s + ":" <= s' {
      var l, l' := NestedSchemesCollide(s, s');
    }
    if s' + ":" <= s {
      var l', l := NestedSchemesCollide(s', s);
    }
  }

  lemma NestedSchemesCollide(s: string, s': string) returns (l: SourceLocator, l': SourceLocator)
    requires Addressable(s) && Addressable(s') && s + ":" <= s'
    ensures ValidLocator(l) && ValidLocator(l') && l.scheme == s && l'.scheme == s' && Canonical(l) == Canonical(l')
  {
    var key := s'[|s| + 1..] + ":c";
    l, l' := SourceLocator(s, [(key, "d")]), SourceLocator(s', [("c", "d")]);
    assert s' == s + ":" + s'[|s| + 1..];
    assert Canonical(l) == s + ":" + (key + "=" + "d");
    assert Canonical(l') == s' + ":" + ("c" + "=" + "d");
    assert s + ":" + (key + "=" + "d") == s' + ":" + ("c" + "=" + "d");
  }

  // For instance: one text, two positions that both pass the checks.
  lemma SchemesCanCollide()
    ensures exists l, l' :: ValidLocator(l) && ValidLocator(l') && l != l' && Canonical(l) == Canonical(l')
  {
    var l, l' := SourceLocator("a:b", [("c", "d")]), SourceLocator("a", [("b:c", "d")]);
    assert Canonical(l) == "a:b:" + ("c" + "=" + "d") == "a:b:c=d";
    assert Canonical(l') == "a:" + ("b:c" + "=" + "d") == "a:b:c=d";
  }
}
