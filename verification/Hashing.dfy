/** The name hashes the loader and the symbol database use. Which functions they are is left open. */
module Hashing {
  import opened Words

  datatype Hashes = Hashes(murmur: string -> U32, elf: string -> U64, djb2: string -> U32)
}
