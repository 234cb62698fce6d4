/** Sequences of sequences, joined. */
module Sequences {

  function Flatten<T>(groups: seq<seq<T>>): seq<T> {
    if groups == [] then [] else Flatten(groups[..|groups| - 1]) + groups[|groups| - 1]
  }

  lemma FlattenAppend<T>(groups: seq<seq<T>>, group: seq<T>)
    ensures Flatten(groups + [group]) == Flatten(groups) + group
  {
    assert (groups + [group])[..|groups|] == groups;
  }

  lemma Reassociate<T>(a: seq<T>, b: seq<T>, c: seq<T>)
    ensures a + (b + c) == a + b + c
  {
  }

  lemma FlattenExtend<T>(groups: seq<seq<T>>, x: T)
    requires groups != []
    ensures var n := |groups| - 1;
      Flatten(groups[..n] + [groups[n] + [x]]) == Flatten(groups) + [x]
  {
    hide *;
    var n := |groups| - 1;
    FlattenAppend(groups[..n], groups[n] + [x]);
    FlattenAppend(groups[..n], groups[n]);
    assert groups == groups[..n] + [groups[n]];
    Reassociate(Flatten(groups[..n]), groups[n], [x]);
  }
}
