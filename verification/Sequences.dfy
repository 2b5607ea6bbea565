/** Facts about sequences that several formats need. */
module Sequences {
  lemma Assoc<T>(a: seq<T>, b: seq<T>, c: seq<T>)
    ensures a + b + c == a + (b + c)
  {
  }

  /** The parts end to end. */
  function Concat<T>(parts: seq<seq<T>>): seq<T> {
    if parts == [] then [] else parts[0] + Concat(parts[1..])
  }

  lemma {:induction false} ConcatAppend<T>(parts: seq<seq<T>>, v: seq<T>)
    ensures Concat(parts + [v]) == Concat(parts) + v
  {
    if parts == [] {
      assert parts + [v] == [v];
    } else {
      ConcatAppend(parts[1..], v);
      assert (parts + [v])[1..] == parts[1..] + [v];
    }
  }
}
