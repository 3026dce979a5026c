/** Circular storage: a window of n elements starting at `first` and wrapping at the end of the buffer. */
module Circular {
  /** Position of the i-th element of a window. */
  function Slot(first: nat, i: nat, len: nat): (p: nat)
    requires first < len && i <= len
    ensures p < len
  {
    if first + i < len then first + i else first + i - len
  }

  /** The source computes positions with a remainder. */
  lemma SlotIsRemainder(first: nat, i: nat, len: nat)
    requires first < len && i <= len
    ensures (first + i) % len == Slot(first, i, len)
  {
    RemainderIs(first + i, if first + i < len then 0 else 1, Slot(first, i, len), len);
  }

  lemma RemainderIs(a: nat, q: nat, r: nat, len: nat)
    requires r < len && a == q * len + r
    ensures a % len == r
  {
    var q', r' := a / len, a % len;
    assert a == q' * len + r';
    assert (q - q') * len == r' - r;
    BetweenMultiples(q - q', len);
  }

  lemma BetweenMultiples(d: int, len: int)
    requires len > 0
    ensures -len < d * len < len ==> d == 0
  {
  }

  function Window<T>(buffer: seq<T>, first: nat, n: nat): (w: seq<T>)
    requires first < |buffer| && n <= |buffer|
    ensures |w| == n
  {
    seq(n, i requires 0 <= i < n => buffer[Slot(first, i, |buffer|)])
  }
}
