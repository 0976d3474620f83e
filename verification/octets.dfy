/** Byte strings, shared by the codec layer, the storage crate and the
    dispatcher: file contents and object bodies are `Vec<u8>` throughout. */
module Octets {
  newtype byte = x: int | 0 <= x < 256

  type Bytes = seq<byte>
}
