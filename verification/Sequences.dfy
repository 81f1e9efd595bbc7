/** Writing into the middle of a sequence, and where its blocks start. */
module Sequences {

  /** r with the elements from position off on replaced by b. */
  function Splice<T>(r: seq<T>, off: nat, b: seq<T>): (q: seq<T>)
    requires off + |b| <= |r|
    ensures |q| == |r|
  {
    r[..off] + b + r[off + |b|..]
  }

  // ------------------------------------------------------------ blocks of one size

  /** Where block i starts. */
  function Start(size: nat, i: nat): nat { i * size }

  lemma StartNext(size: nat, i: nat, j: nat)
    requires i < j
    ensures Start(size, i + 1) == Start(size, i) + size <= Start(size, j)
  {
    assert (i + 1) * size == i * size + size;
    MultiplyKeepsOrder(i + 1, j, size);
  }

  lemma StartOfWhole(size: nat, n: nat)
    requires size > 0 && n % size == 0
    ensures Start(size, n / size) == n
  {}

  lemma MultiplyKeepsOrder(x: nat, y: nat, z: nat)
    requires x <= y
    ensures x * z <= y * z
  {}
}
