/** PKCS#7 padding to a block boundary (section 6.3 of RFC 5652): `PKCS7` and `RemovePKCS7`. */
module Padding {
  import opened Bytes
  import opened Outcomes
  import Arith

  /** The last `n` bytes of `data` all hold the value `n` (and there are at least `n`). */
  ghost predicate EndsInPad(data: seq<byte>, n: int) {
    1 <= n <= |data| && forall i :: |data| - n <= i < |data| ==> data[i] as int == n
  }

  /**
   * Appends `n` bytes of value `n`, where `n` is the distance to the next block
   * boundary, a whole block when `data` is already aligned. Empty input or a
   * block size that is not positive gives nil (the empty string): nothing to pad.
   * The pad value is stored with Go's byte() truncation.
   */
  function PKCS7(data: seq<byte>, blockSize: int): (r: seq<byte>)
    ensures |data| == 0 || blockSize <= 0 ==> r == []
    ensures |data| > 0 && blockSize > 0 ==>
      && |data| < |r| <= |data| + blockSize
      && |r| % blockSize == 0
      && r[..|data|] == data
      && forall i :: |data| <= i < |r| ==> r[i] as int == (|r| - |data|) % 256
  {
    if |data| == 0 || blockSize <= 0 then []
    else
      var n := blockSize - |data| % blockSize;
      PadReachesBoundary(|data|, blockSize);
      data + Repeat(Truncate(n), n)
  }

  /** The PKCS#7 pad length is between 1 and the block size and ends on a boundary. */
  lemma PadReachesBoundary(len: nat, blockSize: int)
    requires blockSize > 0
    ensures 1 <= blockSize - len % blockSize <= blockSize
    ensures (len + (blockSize - len % blockSize)) % blockSize == 0
  {
    var q := len / blockSize;
    assert len + (blockSize - len % blockSize) == (q + 1) * blockSize;
    Arith.DivModUnique(len + (blockSize - len % blockSize), blockSize, q + 1, 0);
  }

  /**
   * Strips a PKCS#7 padding: the last byte `n` must satisfy `1 <= n <= blockSize`
   * and the final `n` bytes must all equal `n`; anything else is PaddingInvalid.
   */
  function RemovePKCS7(data: seq<byte>, blockSize: int): (r: Result<seq<byte>>)
    ensures r.Ok? <==> exists n :: 1 <= n <= blockSize && EndsInPad(data, n)
    ensures r.Ok? ==>
      && |r.value| < |data|
      && r.value == data[..|r.value|]
      && |data| - |r.value| <= blockSize
      && EndsInPad(data, |data| - |r.value|)
    ensures r.Err? ==> r.error == PaddingInvalid
  {
    if |data| == 0 then Err(PaddingInvalid)
    else
      var n := data[|data| - 1] as int;
      if n == 0 || n > blockSize || n > |data| then Err(PaddingInvalid)
      else if exists i :: |data| - n <= i < |data| && data[i] as int != n then Err(PaddingInvalid)
      else
        assert EndsInPad(data, n);
        Ok(data[..|data| - n])
  }

  /** The padded length is the next multiple of the block size strictly above the input length. */
  lemma PaddedLength(data: seq<byte>, blockSize: int)
    requires |data| > 0 && blockSize > 0
    ensures |PKCS7(data, blockSize)| == (|data| / blockSize + 1) * blockSize
  {
    assert |data| == |data| / blockSize * blockSize + |data| % blockSize;
  }

  /** For block sizes below 256 every pad byte holds the pad length itself. */
  lemma PadBytes(data: seq<byte>, blockSize: int)
    requires |data| > 0 && 0 < blockSize < 256
    ensures var p := PKCS7(data, blockSize);
      forall i :: |data| <= i < |p| ==> p[i] as int == |p| - |data|
  {
    var p := PKCS7(data, blockSize);
    assert 0 < |p| - |data| < 256;
  }

  /** Unpadding inverts padding, including the whole-block case. */
  lemma RoundTrip(data: seq<byte>, blockSize: int)
    requires |data| > 0 && 0 < blockSize < 256
    ensures RemovePKCS7(PKCS7(data, blockSize), blockSize) == Ok(data)
  {
    var p := PKCS7(data, blockSize);
    var n := |p| - |data|;
    PadBytes(data, blockSize);
    assert p[|p| - 1] as int == n;
    assert !exists i :: |p| - n <= i < |p| && p[i] as int != n;
    assert p[..|p| - n] == data;
  }

  /**
   * Conversely, a block-aligned string that unpads to a non-empty `data` is exactly
   * the padding of `data`: padding is the only way to produce a valid padded string.
   */
  lemma OnlyPaddingUnpads(padded: seq<byte>, data: seq<byte>, blockSize: int)
    requires 0 < blockSize < 256
    requires |padded| % blockSize == 0
    requires RemovePKCS7(padded, blockSize) == Ok(data)
    requires |data| > 0
    ensures PKCS7(data, blockSize) == padded
  {
    var p := PKCS7(data, blockSize);
    var n := |padded| - |data|;
    assert 1 <= n <= blockSize && EndsInPad(padded, n) && padded[..|data|] == data;
    var m := |p| - |data|;
    assert 1 <= m <= blockSize && (|data| + m) % blockSize == 0;
    LengthUnique(|data|, n, m, blockSize);
    PadBytes(data, blockSize);
    forall i | 0 <= i < |p|
      ensures p[i] == padded[i]
    {
      if i < |data| {
        assert p[i] == p[..|data|][i] && padded[i] == padded[..|data|][i];
      } else {
        ByteInjective(p[i], padded[i]);
      }
    }
  }

  /** Two pad lengths in 1..blockSize reaching a boundary from the same length agree. */
  lemma LengthUnique(len: nat, n: int, m: int, blockSize: int)
    requires 0 < blockSize
    requires 1 <= n <= blockSize && 1 <= m <= blockSize
    requires (len + n) % blockSize == 0 && (len + m) % blockSize == 0
    ensures n == m
  {
    var q1, q2 := (len + n) / blockSize, (len + m) / blockSize;
    assert len == (q1 - 1) * blockSize + (blockSize - n);
    assert len == (q2 - 1) * blockSize + (blockSize - m);
    Arith.DivModUnique(len, blockSize, q1 - 1, blockSize - n);
    Arith.DivModUnique(len, blockSize, q2 - 1, blockSize - m);
  }

  /**
   * Tampering with any pad byte other than the last one, by writing a different
   * value, makes the padding invalid. (A change of the last byte itself may by
   * chance describe another valid padding.)
   */
  lemma TamperedPadRejected(data: seq<byte>, blockSize: int, i: int, v: byte)
    requires |data| > 0 && 0 < blockSize < 256
    requires |data| <= i < |PKCS7(data, blockSize)| - 1
    requires v != PKCS7(data, blockSize)[i]
    ensures RemovePKCS7(PKCS7(data, blockSize)[i := v], blockSize) == Err(PaddingInvalid)
  {
    var p := PKCS7(data, blockSize);
    var n := |p| - |data|;
    var t := p[i := v];
    assert t[|t| - 1] == p[|p| - 1];
    assert p[|p| - 1] as int == n && p[i] as int == n;
    var r := RemovePKCS7(t, blockSize);
    if r.Ok? {
      var k := |t| - |r.value|;
      assert EndsInPad(t, k);
      assert t[i] as int == p[i] as int;
      ByteInjective(t[i], p[i]);
      assert false;
    }
  }
}
