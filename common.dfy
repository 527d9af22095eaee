/** Value types shared by the whole pipeline: bytes, fixed-length byte strings and
    the Option/Result wrappers that stand for the library calls that can throw. */
module Common {

  /** One octet of a Node.js Buffer. */
  type Byte = b: int | 0 <= b < 256

  /** A BIP32 child private key: always exactly 32 bytes. */
  type PrivateKey = k: seq<Byte> | |k| == 32 witness seq(32, _ => 0)

  /** The BIP39 seed produced by mnemonicToSeed (PBKDF2-HMAC-SHA512 output): 64 bytes. */
  type Seed = s: seq<Byte> | |s| == 64 witness seq(64, _ => 0)

  /** A SHA-256 digest: 32 bytes. */
  type Digest = d: seq<Byte> | |d| == 32 witness seq(32, _ => 0)

  datatype Option<+T> = None | Some(value: T)

  datatype Result<+T, +E> = Ok(value: T) | Err(error: E)

  function Min(a: int, b: int): int
  {
    if a <= b then a else b
  }
}
