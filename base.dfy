/** Machine types and small wrappers shared by the model of the LSM plugin. */
module Base {

  /** A Go `byte`. */
  newtype byte = x: int | 0 <= x < 0x100

  /** A Go `uint64`, the type of the host's event numbers. */
  newtype u64 = x: int | 0 <= x < 0x1_0000_0000_0000_0000

  type Bytes = seq<byte>

  datatype Option<T> = None | Some(value: T)

  /** What `ioutil.ReadAll` on a reader gives back: every byte, or an error. */
  datatype ReadOutcome = Read(data: Bytes) | ReadFailed
}
