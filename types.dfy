/** Machine types and error values shared by the modules of the log shipper. */
module Types {

  /** An octet, Go's `byte`. */
  type byte = b: int | 0 <= b < 0x100

  /** Go's `uint64`. */
  type uint64 = v: int | 0 <= v < 0x1_0000_0000_0000_0000

  const MaxUint64: uint64 := 0xFFFF_FFFF_FFFF_FFFF

  /** A Go byte slice (or string: Go strings are byte strings). */
  type Bytes = seq<byte>

  datatype Option<+T> = None | Some(value: T)

  /** The errors the modelled code returns or hands on. */
  datatype Error =
    | DecompressFailed  // a payload is not a valid gzip stream
    | TransmitFailed    // the POST to the collector failed
    | CommitFailed      // a read-write bbolt transaction did not commit

  datatype Result<+T> = Ok(value: T) | Err(error: Error)
}
