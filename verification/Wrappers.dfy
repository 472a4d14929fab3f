/** What every part of the model shares. */
module Wrappers {

  type Byte = b: nat | b < 0x100
  type Word = w: nat | w < 0x10000

  datatype Option<+T> = None | Some(value: T)

  /** Batches run together. */
  function Flat<T>(batches: seq<seq<T>>): seq<T> {
    if batches == [] then [] else Flat(batches[..|batches| - 1]) + batches[|batches| - 1]
  }

  /** The bytes of a text in ASCII. */
  function Ascii(s: string): (r: seq<Byte>)
    ensures |r| == |s|
  {
    seq(|s|, i requires 0 <= i < |s| => if s[i] as int < 128 then s[i] as int else 0)
  }
}
