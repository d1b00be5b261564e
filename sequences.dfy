/** Facts about sequences shared by the modules of this project. */
module Sequences {
  /** Concatenation is associative. */
  lemma ConcatAssoc<T>(a: seq<T>, b: seq<T>, c: seq<T>)
    ensures a + b + c == a + (b + c)
  {
  }

  /** The parts joined end to end, in order. */
  function Flatten<T>(parts: seq<seq<T>>): seq<T>
    decreases |parts|
  {
    if parts == [] then [] else Flatten(parts[..|parts| - 1]) + parts[|parts| - 1]
  }

  /** Flattening two runs of parts gives the first run's elements, then the second's. */
  lemma {:induction false} FlattenConcat<T>(a: seq<seq<T>>, b: seq<seq<T>>)
    ensures Flatten(a + b) == Flatten(a) + Flatten(b)
    decreases |b|
  {
    if b != [] {
      var last := |b| - 1;
      assert (a + b)[..|a + b| - 1] == a + b[..last];
      FlattenConcat(a, b[..last]);
      ConcatAssoc(Flatten(a), Flatten(b[..last]), b[last]);
    } else {
      assert a + b == a;
    }
  }

  /** Every element of a part is an element of the flattened whole. */
  lemma {:induction false} FlattenContains<T>(parts: seq<seq<T>>, i: nat, x: T)
    requires i < |parts| && x in parts[i]
    ensures x in Flatten(parts)
    decreases |parts|
  {
    var last := |parts| - 1;
    if i < last {
      FlattenContains(parts[..last], i, x);
    }
  }
}
