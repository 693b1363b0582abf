/**
  Positions in sequences, shared by the string primitives and the
  order-preserving dedupe: the index of the first occurrence of a value.
 */
module Sequences {

  /** Index of the first occurrence of `x` in `xs`, or `|xs|` if absent. */
  function FirstIndex<T(==)>(xs: seq<T>, x: T): (k: nat)
    ensures k <= |xs|
    ensures k < |xs| <==> x in xs
    ensures k < |xs| ==> xs[k] == x
    ensures x !in xs[..k]
  {
    if |xs| == 0 then 0
    else if xs[0] == x then 0
    else
      assert xs[1..][..FirstIndex(xs[1..], x)] == xs[1..1 + FirstIndex(xs[1..], x)];
      1 + FirstIndex(xs[1..], x)
  }

  /** The first occurrence is the one with no earlier occurrence. */
  lemma FirstIndexAt<T>(xs: seq<T>, x: T, k: nat)
    requires k < |xs| && xs[k] == x && x !in xs[..k]
    ensures FirstIndex(xs, x) == k
  {
  }

  /** Appending never moves the first occurrence of a value already
      present. */
  lemma FirstIndexSnoc<T>(xs: seq<T>, x: T, y: T)
    requires y in xs
    ensures FirstIndex(xs + [x], y) == FirstIndex(xs, y)
  {
    var k := FirstIndex(xs, y);
    var zs := xs + [x];
    assert zs[..k] == xs[..k];
    FirstIndexAt(zs, y, k);
  }
}
