/** Byte strings, as Go's []byte and string values hold them. */
module Bytes {

  type byte = bv8

  /** The byte holding the value `n`. */
  function ByteOf(n: int): (b: byte)
    requires 0 <= n < 256
    ensures b as int == n
  {
    n as byte
  }

  /** Go's byte(n) conversion: the low eight bits of `n`. */
  function Truncate(n: int): (b: byte)
    ensures b as int == n % 256
  {
    ByteOf(n % 256)
  }

  lemma ByteInjective(a: byte, b: byte)
    requires a as int == b as int
    ensures a == b
  {
  }

  /** The byte the attacks feed their oracles where any fixed byte will do ('A'). */
  const Filler: byte := 0x41

  /** `n` copies of the byte `v`, as bytes.Repeat([]byte{v}, n). */
  function Repeat(v: byte, n: nat): (r: seq<byte>)
    ensures |r| == n
    ensures forall i :: 0 <= i < n ==> r[i] == v
  {
    seq(n, _ => v)
  }

  /** Byte-wise exclusive or of two strings of equal length. */
  function Xor(a: seq<byte>, b: seq<byte>): (r: seq<byte>)
    requires |a| == |b|
    ensures |r| == |a|
    ensures forall i :: 0 <= i < |a| ==> r[i] == a[i] ^ b[i]
  {
    seq(|a|, i requires 0 <= i < |a| => a[i] ^ b[i])
  }

  lemma XorCancels(a: seq<byte>, b: seq<byte>)
    requires |a| == |b|
    ensures Xor(Xor(a, b), b) == a
  {
    var x := Xor(Xor(a, b), b);
    forall i | 0 <= i < |a|
      ensures x[i] == a[i]
    {
      assert x[i] == (a[i] ^ b[i]) ^ b[i];
    }
  }
}

/** The outcomes of operations that can fail, with the error kinds the model distinguishes. */
module Outcomes {

  datatype Error =
    | PaddingInvalid     // trailing bytes do not form a PKCS#7 padding
    | ShapeError         // a ciphertext length that is not a whole number of blocks
    | AlignmentFailure   // the forger could not place a field on a block boundary

  datatype Result<+T> = Ok(value: T) | Err(error: Error)

  datatype Option<+T> = None | Some(value: T)
}
