// Sequences read backwards and put together.
module Sequences {

  function Reversed<T>(x: seq<T>): (r: seq<T>)
    ensures |r| == |x| && forall i | 0 <= i < |x| :: r[i] == x[|x| - 1 - i]
  {
    if x == [] then [] else Reversed(x[1..]) + [x[0]]
  }

  lemma Grouped<T>(x: seq<T>, y: seq<T>, z: seq<T>)
    ensures x + (y + z) == x + y + z
  {
  }
}
