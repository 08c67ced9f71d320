/** Shared small types. */
module Prelude {

  datatype Option<+T> = None | Some(value: T)

  /** An octet of a message. */
  newtype Byte = x: int | 0 <= x < 256

  type Bytes = seq<Byte>

  function Elements<T>(s: seq<T>): set<T> {
    set x | x in s
  }

  /** The sequence lists the set, each element once. */
  ghost predicate Lists<T(!new)>(order: seq<T>, s: set<T>) {
    && (forall i, j :: 0 <= i < j < |order| ==> order[i] != order[j])
    && (forall x :: x in order <==> x in s)
  }

  ghost predicate NoRepeat<T>(order: seq<T>) {
    forall i, j :: 0 <= i < j < |order| ==> order[i] != order[j]
  }

  /** The elements in some order. */
  method ListSet<T(!new, ==)>(s: set<T>) returns (order: seq<T>)
    ensures Lists(order, s)
  {
    order := [];
    var rest := s;
    while rest != {}
      invariant rest <= s
      invariant Lists(order, s - rest)
      decreases |rest|
    {
      var x :| x in rest;
      order, rest := order + [x], rest - {x};
    }
  }

  lemma {:induction false} CanList<T(!new)>(s: set<T>) returns (order: seq<T>)
    ensures Lists(order, s)
    decreases |s|
  {
    if s == {} {
      order := [];
    } else {
      var x :| x in s;
      var rest := CanList(s - {x});
      order := rest + [x];
    }
  }
}
