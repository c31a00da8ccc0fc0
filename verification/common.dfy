/** Types shared by every part of the resource filesystem model. */
module Common {

  /** One byte of file content (`std::uint8_t`). */
  type byte = x: int | 0 <= x < 0x100

  /** The C++ `unsigned` decode parameters (32 bits on the supported targets). */
  type uint32 = x: int | 0 <= x < 0x1_0000_0000

  /** `std::size_t` on a 64-bit target. */
  const SIZE_T_MODULUS: int := 0x1_0000_0000_0000_0000
  type size_t = x: int | 0 <= x < SIZE_T_MODULUS

  /** `(std::size_t)-1`, the error value of `getFileSize`. */
  const SIZE_T_MAX: size_t := 0xFFFF_FFFF_FFFF_FFFF

  /** A byte buffer: its length fits a `std::size_t`. */
  type Bytes = s: seq<byte> | |s| < SIZE_T_MODULUS

  datatype Option<+T> = None | Some(value: T)

  /** The three opaque decode parameters of a file entry (`m_decryptKeySize`,
      `m_decryptKeySeed`, `m_decryptKeyInc`). */
  datatype KeyParams = KeyParams(keySize: uint32, keySeed: uint32, keyInc: uint32)

  const NoKey: KeyParams := KeyParams(0, 0, 0)

  /** The exceptions the core can raise (`std::runtime_error`). */
  datatype Error =
    | LockUnlockMismatch   // `DirectoryEntry::locked` on a negative lock count
    | DecodeFailure        // the installed decoder threw (for example an invalid key size)
    | CreateFileLostEntry  // `createFile` could not find the entry it was just refused

  /** The result of a C++ call that either returns a value or throws. */
  datatype Outcome<+T> = Value(value: T) | Thrown(error: Error)
}
