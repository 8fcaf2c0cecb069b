/** Shared vocabulary: bytes, 32-byte digests and the Option/Result wrappers. */
module Common {

  /** An unsigned octet; Kotlin's signed `Byte` is modelled by its unsigned value. */
  type byte = x: int | 0 <= x < 256

  /** A SHA-256 digest (FIPS 180-4): always exactly 32 bytes. */
  type Digest = s: seq<byte> | |s| == 32 witness seq(32, _ => 0)

  /** The hash primitive is not modelled; every use takes it as a parameter. */
  type Sha256 = seq<byte> -> Digest

  /** Truncation of a JVM `Int` to its low eight bits, as `Int.toByte()` does. */
  function ToByte(x: int): (b: byte)
    ensures (x - b) % 256 == 0
    ensures 0 <= x < 256 ==> b == x
  {
    x % 256
  }

  datatype Option<+T> = None | Some(value: T)

  datatype Result<+T, +E> = Ok(value: T) | Err(error: E) {
    predicate IsFailure() { Err? }
    function PropagateFailure<U>(): Result<U, E> requires Err? { Err(error) }
    function Extract(): T requires Ok? { value }
  }

  /** All-zero contents, as `ByteBuffer.allocate` provides them. */
  function Zeros(n: nat): (z: seq<byte>)
    ensures |z| == n && forall i :: 0 <= i < n ==> z[i] == 0
  {
    seq(n, _ => 0)
  }
}
