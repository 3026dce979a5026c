/** Types shared by every part of the model. */
module Prelude {
  datatype Option<+T> = None | Some(value: T)

  /** An unsigned 8-bit value, as stored in the source's byte buffers. */
  type Byte = x: int | 0 <= x < 256
  type Bytes = seq<Byte>

  /** A 32-bit signed integer after wrapping. */
  function Wrap32(v: int): int {
    var m := v % 0x1_0000_0000;
    if m < 0x8000_0000 then m else m - 0x1_0000_0000
  }

  /** The last n elements, or all if there are not so many. */
  function LastOf<T>(q: seq<T>, n: nat): (r: seq<T>)
    ensures |r| <= n
  {
    if |q| <= n then q else q[|q| - n..]
  }
}
