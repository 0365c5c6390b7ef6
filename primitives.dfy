/** The .NET primitive types the tree stores and the errors its stream reads can raise. */
module Primitives {

  /** One byte of the backing file. */
  newtype byte = b: int | 0 <= b < 0x100

  /** `int` in C#: the type of a node's value. */
  newtype int32 = x: int | -0x8000_0000 <= x < 0x8000_0000

  /** `long` in C#: the type of file offsets and positions. */
  newtype int64 = x: int | -0x8000_0000_0000_0000 <= x < 0x8000_0000_0000_0000

  const MaxInt64: int := 0x7FFF_FFFF_FFFF_FFFF

  /** The bytes of the backing file; a FileStream's length is a `long`. */
  type File = f: seq<byte> | |f| <= MaxInt64

  /** The exceptions a positioned read can raise. */
  datatype IoError =
    | SeekBeforeBegin   // Seek to a negative position
    | EndOfStream       // fewer bytes remain than the read needs

  datatype Option<T> = None | Some(value: T)

  datatype Result<T> = Ok(value: T) | Err(error: IoError)
}
