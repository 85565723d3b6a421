/** Small types shared by the models. */
module Basics {

  datatype Option<+T> = None | Some(value: T)

  /** A byte as a number. */
  type Byte = b: int | 0 <= b < 256

  /** A byte as eight bits, least significant first. */
  type Octet = b: seq<bool> | |b| == 8 witness seq(8, _ => false)
}
