/**
  The decoder contract of i_file_decoder.h.

  `IFileDecoder::decodeFileData` either returns false (the data needs no
  transform, the output vector is left alone), returns true after filling
  the output vector, or throws.  A decoder is modelled as a function value
  from the raw bytes and the three key parameters to a `DecodeOutcome`.
*/
module FileDecoder {
  import opened Common

  /** What one call of `decodeFileData` does. */
  datatype DecodeOutcome =
    | NoTransform          // returned false; the output vector is untouched
    | Decoded(data: Bytes) // returned true; the output vector now holds `data`
    | DecodeFailed         // threw `std::runtime_error`

  /** An installed `IFileDecoder`. */
  type DecodeFn = (Bytes, KeyParams) -> DecodeOutcome

  /** `NoDecodeFileDecoder::decodeFileData`: never transforms anything. */
  function NoDecode(raw: Bytes, key: KeyParams): (r: DecodeOutcome)
    ensures !r.Decoded? && !r.DecodeFailed?
  {
    NoTransform
  }

  /** The no-op decoder as a value that can be installed. */
  function NoDecodeFileDecoder(): (d: DecodeFn)
    ensures forall raw, key :: d(raw, key) == NoDecode(raw, key)
  {
    (raw: Bytes, key: KeyParams) => NoDecode(raw, key)
  }

  /** `_2c::xorDecrypt` applied to a copy of the buffer: the buffer, the key
      size (1, 2 or 4), the seed and the increment give the decoded bytes.
      The cipher itself belongs to another library and is a parameter. */
  type XorFn = (Bytes, uint32, uint32, uint32) -> Bytes

  /** An in-place transform over a buffer keeps its length. */
  ghost predicate LengthPreserving(xor: XorFn)
  {
    forall data, size, seed, inc :: |xor(data, size, seed, inc)| == |data|
  }

  /** The key sizes `_2c::EKeySize` accepts. */
  predicate ValidXorKeySize(keySize: uint32)
  {
    keySize == 1 || keySize == 2 || keySize == 4
  }

  /** The body of `MARTY_RCFS_IMPLEMENT_XOR_DECRYPT_FILE_DECODER`: a zero key
      size means "not encrypted", a key size other than 1, 2 or 4 throws, and
      otherwise the decoded buffer is the cipher applied to a copy of the
      raw bytes, as long as the raw bytes when the cipher keeps lengths. */
  function XorDecryptDecode(xor: XorFn, raw: Bytes, key: KeyParams): (r: DecodeOutcome)
    ensures r.NoTransform? <==> key.keySize == 0
    ensures r.DecodeFailed? <==> key.keySize != 0 && !ValidXorKeySize(key.keySize)
    ensures r.Decoded? ==> ValidXorKeySize(key.keySize)
    ensures r.Decoded? ==> r.data == xor(raw, key.keySize, key.keySeed, key.keyInc)
    ensures r.Decoded? && LengthPreserving(xor) ==> |r.data| == |raw|
  {
    if key.keySize == 0 then NoTransform
    else if !ValidXorKeySize(key.keySize) then DecodeFailed
    else Decoded(xor(raw, key.keySize, key.keySeed, key.keyInc))
  }

  /** The decoder class the macro defines, as a value that can be installed. */
  function XorDecryptFileDecoder(xor: XorFn): (d: DecodeFn)
    ensures forall raw, key :: d(raw, key) == XorDecryptDecode(xor, raw, key)
  {
    (raw: Bytes, key: KeyParams) => XorDecryptDecode(xor, raw, key)
  }

  /** With a length-preserving cipher and a valid key size, the XOR decoder
      yields an empty buffer exactly when the raw buffer is empty. */
  lemma XorDecodedEmptyIff(xor: XorFn, raw: Bytes, key: KeyParams)
    requires LengthPreserving(xor) && ValidXorKeySize(key.keySize)
    ensures XorDecryptDecode(xor, raw, key).Decoded?
    ensures XorDecryptDecode(xor, raw, key).data == [] <==> raw == []
  {
  }
}
