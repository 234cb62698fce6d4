/** Stable sorting and the orders it is used with. */
module Sorting {

  ghost predicate Sorted<T>(s: seq<T>, le: (T, T) -> bool) {
    forall i, j | 0 <= i < j < |s| :: le(s[i], s[j])
  }

  ghost predicate TotalPreorder<T(!new)>(le: (T, T) -> bool) {
    && (forall a, b :: le(a, b) || le(b, a))
    && (forall a, b, c :: le(a, b) && le(b, c) ==> le(a, c))
  }

  // Elements of s that the order ties are equal.
  ghost predicate TiesEqual<T>(s: seq<T>, le: (T, T) -> bool) {
    forall a, b | a in s && b in s && le(a, b) && le(b, a) :: a == b
  }

  function Insert<T>(x: T, s: seq<T>, le: (T, T) -> bool): seq<T> {
    if s == [] || le(x, s[0]) then [x] + s else [s[0]] + Insert(x, s[1..], le)
  }

  // sorted(): elements that tie keep their order.
  function Sort<T>(s: seq<T>, le: (T, T) -> bool): seq<T> {
    if s == [] then [] else Insert(s[0], Sort(s[1..], le), le)
  }

  lemma {:induction false} InsertPermutes<T>(x: T, s: seq<T>, le: (T, T) -> bool)
    ensures multiset(Insert(x, s, le)) == multiset(s) + multiset{x}
  {
    if s != [] && !le(x, s[0]) {
      InsertPermutes(x, s[1..], le);
      assert s == [s[0]] + s[1..];
    }
  }

  lemma {:induction false} SortPermutes<T>(s: seq<T>, le: (T, T) -> bool)
    ensures multiset(Sort(s, le)) == multiset(s)
  {
    if s != [] {
      SortPermutes(s[1..], le);
      InsertPermutes(s[0], Sort(s[1..], le), le);
      assert s == [s[0]] + s[1..];
    }
  }

  lemma {:induction false} InsertKeepsSorted<T(!new)>(x: T, s: seq<T>, le: (T, T) -> bool)
    requires TotalPreorder(le) && Sorted(s, le)
    ensures Sorted(Insert(x, s, le), le)
  {
    if s == [] {
    } else if le(x, s[0]) {
      forall k | 0 <= k < |s| ensures le(x, s[k]) {
        assert k > 0 ==> le(s[0], s[k]);
      }
    } else {
      var rest := Insert(x, s[1..], le);
      InsertKeepsSorted(x, s[1..], le);
      InsertPermutes(x, s[1..], le);
      forall k | 0 <= k < |rest| ensures le(s[0], rest[k]) {
        assert rest[k] in multiset(s[1..]) + multiset{x};
        assert rest[k] != x ==> rest[k] in s[1..];
      }
    }
  }

  lemma {:induction false} SortSorts<T(!new)>(s: seq<T>, le: (T, T) -> bool)
    requires TotalPreorder(le)
    ensures Sorted(Sort(s, le), le)
  {
    if s != [] {
      SortSorts(s[1..], le);
      InsertKeepsSorted(s[0], Sort(s[1..], le), le);
    }
  }

  // Elements that the order does not tell apart.
  predicate Tied<T>(a: T, b: T, le: (T, T) -> bool) {
    le(a, b) && le(b, a)
  }

  function Without<T>(s: seq<T>, i: nat): (r: seq<T>)
    requires i < |s|
    ensures multiset(r) == multiset(s) - multiset{s[i]}
  {
    assert s == s[..i] + [s[i]] + s[i + 1..];
    s[..i] + s[i + 1..]
  }

  lemma WithoutKeepsSorted<T>(s: seq<T>, i: nat, le: (T, T) -> bool)
    requires i < |s| && Sorted(s, le)
    ensures Sorted(Without(s, i), le)
  {
  }

  // From a place on, everything up to the last element ties with it if the last element does.
  lemma TiedToTheEnd<T(!new)>(s: seq<T>, i: nat, j: nat, le: (T, T) -> bool)
    requires TotalPreorder(le) && Sorted(s, le) && i <= j < |s| && Tied(s[i], s[|s| - 1], le)
    ensures Tied(s[i], s[j], le)
  {
    assert i < j ==> le(s[i], s[j]);
    assert j < |s| - 1 ==> le(s[j], s[|s| - 1]);
  }

  lemma LastTied<T(!new)>(a: seq<T>, b: seq<T>, le: (T, T) -> bool) returns (i: nat)
    requires TotalPreorder(le) && Sorted(a, le) && Sorted(b, le)
    requires multiset(a) == multiset(b) && |a| == |b| > 0
    ensures i < |a| && a[i] == b[|b| - 1] && Tied(a[i], a[|a| - 1], le)
  {
    var n := |a| - 1;
    assert b[n] in multiset(a) && a[n] in multiset(b);
    i :| 0 <= i < |a| && a[i] == b[n];
    var j :| 0 <= j < |b| && b[j] == a[n];
    assert i < n ==> le(a[i], a[n]);
    assert j < n ==> le(b[j], b[n]);
  }

  lemma SameSize<T>(a: seq<T>, b: seq<T>)
    requires multiset(a) == multiset(b)
    ensures |a| == |b|
  {
    assert |multiset(a)| == |a| && |multiset(b)| == |b|;
  }

  lemma AgreeAt<T(!new)>(a: seq<T>, b: seq<T>, i: nat, k: nat, le: (T, T) -> bool)
    requires TotalPreorder(le) && Sorted(a, le) && i < |a| == |b| && k < |a|
    requires b[|b| - 1] == a[i] && Tied(a[i], a[|a| - 1], le)
    requires forall j | 0 <= j < |a| - 1 :: Tied(Without(a, i)[j], b[j], le)
    ensures Tied(a[k], b[k], le)
  {
    var rest := Without(a, i);
    if k < i {
      assert Tied(rest[k], b[k], le);
    } else {
      TiedToTheEnd(a, i, k, le);
      if k < |a| - 1 {
        TiedToTheEnd(a, i, k + 1, le);
        assert Tied(rest[k], b[k], le);
      }
    }
  }

  // Two sorted arrangements agree at every place, up to ties.
  lemma {:induction false} SortedAgree<T(!new)>(a: seq<T>, b: seq<T>, le: (T, T) -> bool)
    requires TotalPreorder(le) && Sorted(a, le) && Sorted(b, le) && multiset(a) == multiset(b)
    ensures |a| == |b| && forall k | 0 <= k < |a| :: Tied(a[k], b[k], le)
    decreases |a|
  {
    hide *;
    SameSize(a, b);
    if a != [] {
      var n := |a| - 1;
      var i := LastTied(a, b, le);
      var rest := Without(a, i);
      WithoutKeepsSorted(a, i, le);
      LastOff(b, le);
      SortedAgree(rest, b[..n], le);
      forall k | 0 <= k < |a| ensures Tied(a[k], b[k], le) {
        AgreeAt(a, b, i, k, le);
      }
    }
  }

  lemma LastOff<T(!new)>(s: seq<T>, le: (T, T) -> bool)
    requires Sorted(s, le) && s != []
    ensures var n := |s| - 1;
      Sorted(s[..n], le) && multiset(s[..n]) == multiset(s) - multiset{s[n]} && s == s[..n] + [s[n]]
  {
    assert s == s[..|s| - 1] + [s[|s| - 1]];
  }

  lemma SortedAppend<T>(s: seq<T>, x: T, le: (T, T) -> bool)
    requires Sorted(s, le) && forall k | 0 <= k < |s| :: le(s[k], x)
    ensures Sorted(s + [x], le)
  {
  }

  // An element that ties with the last, taken out of the elements before it and set down after them.
  lemma TakenOut<T(!new)>(a: seq<T>, i: nat, le: (T, T) -> bool)
    requires TotalPreorder(le) && Sorted(a, le) && i < |a| - 1 && Tied(a[i], a[|a| - 1], le)
    ensures var rest := Without(a[..|a| - 1], i); Sorted(rest + [a[i]], le) && Sorted(rest + [a[|a| - 1]], le)
  {
    var n := |a| - 1;
    var rest := Without(a[..n], i);
    hide Sorted, Without, TotalPreorder, Tied;
    LastOff(a, le);
    WithoutKeepsSorted(a[..n], i, le);
    forall j | 0 <= j < |rest| ensures le(rest[j], a[i]) && le(rest[j], a[n]) {
      RestIsBefore(a, i, j, le);
    }
    SortedAppend(rest, a[i], le);
    SortedAppend(rest, a[n], le);
  }

  lemma RestIsBefore<T(!new)>(a: seq<T>, i: nat, j: nat, le: (T, T) -> bool)
    requires TotalPreorder(le) && Sorted(a, le) && i < |a| - 1 && Tied(a[i], a[|a| - 1], le)
    requires j < |Without(a[..|a| - 1], i)|
    ensures var x := Without(a[..|a| - 1], i)[j]; le(x, a[i]) && le(x, a[|a| - 1])
  {
    if j < i {
      assert le(a[j], a[i]) && le(a[j], a[|a| - 1]);
    } else {
      TiedToTheEnd(a, i, j + 1, le);
    }
  }

  // Two arrangements with different last elements share all the others but those two.
  lemma SharedRest<T(!new)>(a: seq<T>, b: seq<T>, le: (T, T) -> bool) returns (rest: seq<T>)
    requires TotalPreorder(le) && Sorted(a, le) && Sorted(b, le)
    requires multiset(a) == multiset(b) && |a| == |b| > 0 && a[|a| - 1] != b[|b| - 1]
    ensures var n := |a| - 1;
      && |rest| == n - 1 && Tied(a[n], b[n], le)
      && Sorted(rest + [b[n]], le) && multiset(rest + [b[n]]) == multiset(a[..n])
      && Sorted(rest + [a[n]], le) && multiset(rest + [a[n]]) == multiset(b[..n])
  {
    hide TotalPreorder, Sorted, Without;
    var i := LastTied(a, b, le);
    var n := |a| - 1;
    rest := Without(a[..n], i);
    TakenOut(a, i, le);
    LastOff(a, le);
    LastOff(b, le);
    assert |multiset(rest)| == |multiset(a[..n])| - 1;
  }

  lemma SortedUnique<T(!new)>(a: seq<T>, b: seq<T>, le: (T, T) -> bool)
    requires TotalPreorder(le) && Sorted(a, le) && Sorted(b, le)
    requires multiset(a) == multiset(b) && TiesEqual(a, le)
    ensures a == b
  {
    SortedAgree(a, b, le);
    forall k | 0 <= k < |a| ensures a[k] == b[k] {
      assert b[k] in multiset(a);
    }
  }

  // Sorting forgets the order the elements came in.
  lemma SortIgnoresOrder<T(!new)>(a: seq<T>, b: seq<T>, le: (T, T) -> bool)
    requires TotalPreorder(le) && multiset(a) == multiset(b) && TiesEqual(a, le)
    ensures Sort(a, le) == Sort(b, le)
  {
    SortSorts(a, le);
    SortSorts(b, le);
    SortPermutes(a, le);
    SortPermutes(b, le);
    forall x | x in Sort(a, le) ensures x in a {
      assert x in multiset(Sort(a, le));
    }
    SortedUnique(Sort(a, le), Sort(b, le), le);
  }

  // Strings compare by code points.
  predicate StringLe(a: string, b: string) {
    a == [] || (b != [] && (a[0] < b[0] || (a[0] == b[0] && StringLe(a[1..], b[1..]))))
  }

  predicate DifferSmallerAt(a: string, b: string, k: nat) {
    k < |a| && k < |b| && a[..k] == b[..k] && a[k] < b[k]
  }

  // One is the beginning of the other, or they first differ at a smaller character.
  lemma {:induction false} StringLeExactly(a: string, b: string)
    ensures StringLe(a, b) <==> a <= b || exists k: nat :: DifferSmallerAt(a, b, k)
  {
    if a != [] && b != [] && a[0] == b[0] {
      var x, y := a[1..], b[1..];
      StringLeExactly(x, y);
      assert a == [a[0]] + x && b == [b[0]] + y;
      if k: nat :| DifferSmallerAt(x, y, k) {
        assert a[..k + 1] == [a[0]] + x[..k] && b[..k + 1] == [b[0]] + y[..k];
        assert DifferSmallerAt(a, b, k + 1);
      }
      if k: nat :| DifferSmallerAt(a, b, k) {
        assert k > 0 && x[..k - 1] == a[..k][1..] && y[..k - 1] == b[..k][1..];
        assert DifferSmallerAt(x, y, k - 1);
      }
    } else if a != [] && b != [] && a[0] < b[0] {
      assert DifferSmallerAt(a, b, 0);
    } else {
      FirstIsNotSmaller(a, b);
    }
  }

  lemma FirstIsNotSmaller(a: string, b: string)
    requires a == [] || b == [] || a[0] > b[0]
    ensures forall k: nat :: !DifferSmallerAt(a, b, k)
  {
    forall k: nat ensures !DifferSmallerAt(a, b, k) {
      if 0 < k < |a| && k < |b| {
        assert a[..k][0] == a[0] && b[..k][0] == b[0];
      }
    }
  }

  lemma {:induction false} StringLeTotal(a: string, b: string)
    ensures StringLe(a, b) || StringLe(b, a)
    ensures StringLe(a, b) && StringLe(b, a) ==> a == b
  {
    if a != [] && b != [] && a[0] == b[0] {
      StringLeTotal(a[1..], b[1..]);
      assert a == [a[0]] + a[1..] && b == [b[0]] + b[1..];
    }
  }

  lemma {:induction false} StringLeTransitive(a: string, b: string, c: string)
    requires StringLe(a, b) && StringLe(b, c)
    ensures StringLe(a, c)
  {
    if a != [] && a[0] == b[0] == c[0] {
      StringLeTransitive(a[1..], b[1..], c[1..]);
    }
  }

  // Tuples of strings compare component by component.
  predicate TupleLe(a: seq<string>, b: seq<string>) {
    a == [] || (b != [] && (if a[0] == b[0] then TupleLe(a[1..], b[1..]) else StringLe(a[0], b[0])))
  }

  lemma {:induction false} TupleLeTotal(a: seq<string>, b: seq<string>)
    ensures TupleLe(a, b) || TupleLe(b, a)
    ensures TupleLe(a, b) && TupleLe(b, a) ==> a == b
  {
    if a != [] && b != [] {
      StringLeTotal(a[0], b[0]);
      if a[0] == b[0] {
        TupleLeTotal(a[1..], b[1..]);
        assert a == [a[0]] + a[1..] && b == [b[0]] + b[1..];
      }
    }
  }

  lemma {:induction false} TupleLeTransitive(a: seq<string>, b: seq<string>, c: seq<string>)
    requires TupleLe(a, b) && TupleLe(b, c)
    ensures TupleLe(a, c)
  {
    if a != [] {
      if a[0] == b[0] == c[0] {
        TupleLeTransitive(a[1..], b[1..], c[1..]);
      } else if a[0] != b[0] && b[0] != c[0] {
        StringLeTransitive(a[0], b[0], c[0]);
        StringLeTotal(a[0], b[0]);
      }
    }
  }
}
