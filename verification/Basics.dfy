/** Types and small functions that several modules share. */
module Basics {

  datatype Option<T> = None | Some(value: T)

  type Byte = x: nat | x < 256

  /** The longest extent list of a file, on the host and in the FPGA's maps. */
  const MAX_EXTENTS := 512

  function Min(a: nat, b: nat): nat { if a < b then a else b }
  function Max(a: nat, b: nat): nat { if a < b then b else a }
  function Bit(b: bool): nat { if b then 1 else 0 }
}
