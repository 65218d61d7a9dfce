/**
 * Block-cipher modes built from a raw block primitive: ECB, and CBC as
 * defined in section 6.2 of NIST SP 800-38A (`AESCBCEncrypt`, `AESCBCDecrypt`).
 */
module Modes {
  import opened Bytes
  import opened Outcomes
  import Padding
  import Arith

  /** AES works on 16-byte blocks; the model uses AES-128 keys. */
  const BlockSize := 16
  const KeyLength := 16

  type Block = s: seq<byte> | |s| == BlockSize witness Repeat(0, BlockSize)
  type Key = s: seq<byte> | |s| == KeyLength witness Repeat(0, KeyLength)

  /**
   * The AES library primitive, treated as opaque: for a key and a block,
   * `encrypt` and `decrypt` give a block.
   */
  datatype Primitive = Primitive(encrypt: (Key, Block) -> Block, decrypt: (Key, Block) -> Block)

  /** What the modes rely on: decryption undoes encryption under every key. */
  ghost predicate IsBlockCipher(p: Primitive) {
    forall key: Key, b: Block :: p.decrypt(key, p.encrypt(key, b)) == b
  }

  /** A whole number of blocks is aligned. */
  lemma Aligned(n: nat)
    ensures (n * BlockSize) % BlockSize == 0 && (n * BlockSize) / BlockSize == n
  {
    Arith.DivModUnique(n * BlockSize, BlockSize, n, 0);
  }

  /** Block `i` (from 0) of a string. */
  function BlockAt(s: seq<byte>, i: nat): seq<byte>
    requires (i + 1) * BlockSize <= |s|
  {
    s[i * BlockSize..(i + 1) * BlockSize]
  }

  lemma BlockAtCons(c: seq<byte>, rest: seq<byte>, i: nat)
    requires |c| == BlockSize && (i + 1) * BlockSize <= |c| + |rest|
    ensures i == 0 ==> BlockAt(c + rest, i) == c
    ensures i > 0 ==> BlockAt(c + rest, i) == BlockAt(rest, i - 1)
  {
  }

  lemma BlockAtDrop(s: seq<byte>, i: nat)
    requires (i + 1) * BlockSize <= |s|
    ensures i == 0 ==> BlockAt(s, i) == s[..BlockSize]
    ensures i > 0 ==> BlockAt(s, i) == BlockAt(s[BlockSize..], i - 1)
  {
  }

  /** Two block-aligned strings that agree block by block are equal. */
  lemma BlocksEqual(a: seq<byte>, b: seq<byte>)
    requires |a| == |b| && |a| % BlockSize == 0
    requires forall i :: 0 <= i < |a| / BlockSize ==> BlockAt(a, i) == BlockAt(b, i)
    ensures a == b
  {
    forall k | 0 <= k < |a|
      ensures a[k] == b[k]
    {
      var i := k / BlockSize;
      assert BlockAt(a, i)[k - i * BlockSize] == a[k];
      assert BlockAt(b, i)[k - i * BlockSize] == b[k];
    }
  }

  // ---------------------------------------------------------------- ECB

  /** ECB: every block is encrypted on its own. */
  function EcbEncrypt(p: Primitive, key: Key, data: seq<byte>): (r: seq<byte>)
    requires |data| % BlockSize == 0
    ensures |r| == |data|
    decreases |data|
  {
    if |data| == 0 then []
    else p.encrypt(key, data[..BlockSize]) + EcbEncrypt(p, key, data[BlockSize..])
  }

  function EcbDecryptBlocks(p: Primitive, key: Key, data: seq<byte>): (r: seq<byte>)
    requires |data| % BlockSize == 0
    ensures |r| == |data|
    decreases |data|
  {
    if |data| == 0 then []
    else p.decrypt(key, data[..BlockSize]) + EcbDecryptBlocks(p, key, data[BlockSize..])
  }

  /** ECB encryption of the PKCS#7-padded input. */
  function AESECBEncrypt(p: Primitive, input: seq<byte>, key: Key): (r: seq<byte>)
    ensures |r| == |Padding.PKCS7(input, BlockSize)|
  {
    EcbEncrypt(p, key, Padding.PKCS7(input, BlockSize))
  }

  /** ECB decryption; a ciphertext that is not a whole number of blocks is a shape error. */
  function EcbDecrypt(p: Primitive, key: Key, data: seq<byte>): (r: Result<seq<byte>>)
    ensures r.Ok? <==> |data| % BlockSize == 0
    ensures r.Ok? ==> |r.value| == |data|
    ensures r.Err? ==> r.error == ShapeError
  {
    if |data| % BlockSize != 0 then Err(ShapeError) else Ok(EcbDecryptBlocks(p, key, data))
  }

  /** Block `i` of the ECB ciphertext is the primitive applied to block `i` of the plaintext. */
  lemma {:induction false} EcbEncryptBlockAt(p: Primitive, key: Key, data: seq<byte>, i: nat)
    requires |data| % BlockSize == 0 && i < |data| / BlockSize
    ensures BlockAt(EcbEncrypt(p, key, data), i) == p.encrypt(key, BlockAt(data, i))
    decreases |data|
  {
    var c := p.encrypt(key, data[..BlockSize]);
    BlockAtCons(c, EcbEncrypt(p, key, data[BlockSize..]), i);
    BlockAtDrop(data, i);
    if i > 0 {
      EcbEncryptBlockAt(p, key, data[BlockSize..], i - 1);
    }
  }

  lemma {:induction false} EcbDecryptBlockAt(p: Primitive, key: Key, data: seq<byte>, i: nat)
    requires |data| % BlockSize == 0 && i < |data| / BlockSize
    ensures BlockAt(EcbDecryptBlocks(p, key, data), i) == p.decrypt(key, BlockAt(data, i))
    decreases |data|
  {
    var c := p.decrypt(key, data[..BlockSize]);
    BlockAtCons(c, EcbDecryptBlocks(p, key, data[BlockSize..]), i);
    BlockAtDrop(data, i);
    if i > 0 {
      EcbDecryptBlockAt(p, key, data[BlockSize..], i - 1);
    }
  }

  /** ECB decryption undoes ECB encryption. */
  lemma EcbRoundTrip(p: Primitive, key: Key, data: seq<byte>)
    requires IsBlockCipher(p)
    requires |data| % BlockSize == 0
    ensures EcbDecrypt(p, key, EcbEncrypt(p, key, data)) == Ok(data)
  {
    var c := EcbEncrypt(p, key, data);
    var d := EcbDecryptBlocks(p, key, c);
    forall i | 0 <= i < |data| / BlockSize
      ensures BlockAt(d, i) == BlockAt(data, i)
    {
      EcbDecryptBlockAt(p, key, c, i);
      EcbEncryptBlockAt(p, key, data, i);
    }
    BlocksEqual(d, data);
  }

  lemma BlockAtAppend(a: seq<byte>, b: seq<byte>, t: nat)
    requires |a| % BlockSize == 0 && (t + 1) * BlockSize <= |a| + |b|
    ensures t < |a| / BlockSize ==> BlockAt(a + b, t) == BlockAt(a, t)
    ensures t >= |a| / BlockSize ==> BlockAt(a + b, t) == BlockAt(b, t - |a| / BlockSize)
  {
  }

  lemma BlockAtSlice(s: seq<byte>, j: nat, k: nat, t: nat)
    requires j <= k && k * BlockSize <= |s| && t < k - j
    ensures BlockAt(s[j * BlockSize..k * BlockSize], t) == BlockAt(s, j + t)
  {
  }

  /** ECB commutes with taking whole blocks out of the middle of a string. */
  lemma EcbSlice(p: Primitive, key: Key, s: seq<byte>, j: nat, k: nat)
    requires |s| % BlockSize == 0 && j <= k && k * BlockSize <= |s|
    ensures EcbEncrypt(p, key, s)[j * BlockSize..k * BlockSize] == EcbEncrypt(p, key, s[j * BlockSize..k * BlockSize])
  {
    var c := EcbEncrypt(p, key, s);
    var lhs, piece := c[j * BlockSize..k * BlockSize], s[j * BlockSize..k * BlockSize];
    var rhs := EcbEncrypt(p, key, piece);
    forall t | 0 <= t < |lhs| / BlockSize
      ensures BlockAt(lhs, t) == BlockAt(rhs, t)
    {
      BlockAtSlice(c, j, k, t);
      BlockAtSlice(s, j, k, t);
      EcbEncryptBlockAt(p, key, s, j + t);
      EcbEncryptBlockAt(p, key, piece, t);
    }
    BlocksEqual(lhs, rhs);
  }

  /** ECB of a concatenation of whole blocks is the concatenation of the ECBs. */
  lemma {:induction false} EcbConcat(p: Primitive, key: Key, x: seq<byte>, y: seq<byte>)
    requires |x| % BlockSize == 0 && |y| % BlockSize == 0
    ensures EcbEncrypt(p, key, x + y) == EcbEncrypt(p, key, x) + EcbEncrypt(p, key, y)
    decreases |x|
  {
    if |x| == 0 {
      assert x + y == y;
    } else {
      assert (x + y)[..BlockSize] == x[..BlockSize];
      assert (x + y)[BlockSize..] == x[BlockSize..] + y;
      EcbConcat(p, key, x[BlockSize..], y);
    }
  }

  /**
   * The cut-and-paste property: decrypting whole ECB ciphertext blocks taken from
   * two encryptions under one key gives the matching plaintext blocks, in order.
   */
  lemma EcbSplice(p: Primitive, key: Key, a: seq<byte>, b: seq<byte>, i: nat, j: nat, k: nat)
    requires IsBlockCipher(p)
    requires |a| % BlockSize == 0 && |b| % BlockSize == 0
    requires i * BlockSize <= |a| && j <= k && k * BlockSize <= |b|
    ensures
      var ca, cb := EcbEncrypt(p, key, a), EcbEncrypt(p, key, b);
      EcbDecrypt(p, key, ca[..i * BlockSize] + cb[j * BlockSize..k * BlockSize])
        == Ok(a[..i * BlockSize] + b[j * BlockSize..k * BlockSize])
  {
    var ca, cb := EcbEncrypt(p, key, a), EcbEncrypt(p, key, b);
    var pHead, pTail := a[..i * BlockSize], b[j * BlockSize..k * BlockSize];
    Aligned(i);
    Aligned(k - j);
    assert |pTail| == (k - j) * BlockSize;
    EcbSlice(p, key, a, 0, i);
    assert a[0 * BlockSize..i * BlockSize] == pHead;
    assert ca[0 * BlockSize..i * BlockSize] == ca[..i * BlockSize];
    assert ca[..i * BlockSize] == EcbEncrypt(p, key, pHead);
    EcbSlice(p, key, b, j, k);
    assert cb[j * BlockSize..k * BlockSize] == EcbEncrypt(p, key, pTail);
    assert |pHead + pTail| % BlockSize == 0 by {
      Aligned(i + (k - j));
      assert |pHead + pTail| == (i + (k - j)) * BlockSize;
    }
    EcbConcat(p, key, pHead, pTail);
    assert ca[..i * BlockSize] + cb[j * BlockSize..k * BlockSize] == EcbEncrypt(p, key, pHead + pTail);
    EcbRoundTrip(p, key, pHead + pTail);
  }

  /** ECB maps equal plaintext blocks to equal ciphertext blocks, and only those. */
  lemma EcbEqualBlocks(p: Primitive, key: Key, data: seq<byte>, i: nat, j: nat)
    requires IsBlockCipher(p)
    requires |data| % BlockSize == 0
    requires i < |data| / BlockSize && j < |data| / BlockSize
    ensures
      var c := EcbEncrypt(p, key, data);
      BlockAt(c, i) == BlockAt(c, j) <==> BlockAt(data, i) == BlockAt(data, j)
  {
    EcbEncryptBlockAt(p, key, data, i);
    EcbEncryptBlockAt(p, key, data, j);
  }

  // ---------------------------------------------------------------- CBC

  /** The block chained into block `i`: the IV for the first block, else the previous ciphertext block. */
  function Chained(iv: seq<byte>, c: seq<byte>, i: nat): seq<byte>
    requires i * BlockSize <= |c|
  {
    if i == 0 then iv else BlockAt(c, i - 1)
  }

  function CbcChain(p: Primitive, key: Key, prev: Block, data: seq<byte>): (r: seq<byte>)
    requires |data| % BlockSize == 0
    ensures |r| == |data|
    decreases |data|
  {
    if |data| == 0 then []
    else
      var c := p.encrypt(key, Xor(data[..BlockSize], prev));
      c + CbcChain(p, key, c, data[BlockSize..])
  }

  function CbcUnchain(p: Primitive, key: Key, prev: Block, data: seq<byte>): (r: seq<byte>)
    requires |data| % BlockSize == 0
    ensures |r| == |data|
    decreases |data|
  {
    if |data| == 0 then []
    else Xor(p.decrypt(key, data[..BlockSize]), prev) + CbcUnchain(p, key, data[..BlockSize], data[BlockSize..])
  }

  /** CBC encryption of the PKCS#7-padded input under `key`, chained from `iv`. */
  function AESCBCEncrypt(p: Primitive, input: seq<byte>, key: Key, iv: Block): (r: seq<byte>)
    ensures |r| == |Padding.PKCS7(input, BlockSize)|
  {
    CbcChain(p, key, iv, Padding.PKCS7(input, BlockSize))
  }

  /** CBC decryption; the result is still padded. A partial final block is a shape error. */
  function AESCBCDecrypt(p: Primitive, ciphertext: seq<byte>, key: Key, iv: Block): (r: Result<seq<byte>>)
    ensures r.Ok? <==> |ciphertext| % BlockSize == 0
    ensures r.Ok? ==> |r.value| == |ciphertext|
    ensures r.Err? ==> r.error == ShapeError
  {
    if |ciphertext| % BlockSize != 0 then Err(ShapeError)
    else Ok(CbcUnchain(p, key, iv, ciphertext))
  }

  /** C_i = CIPH_K(P_i xor C_(i-1)), with C_(-1) = IV. */
  lemma {:induction false} CbcChainBlockAt(p: Primitive, key: Key, iv: Block, data: seq<byte>, i: nat)
    requires |data| % BlockSize == 0 && i < |data| / BlockSize
    ensures
      var c := CbcChain(p, key, iv, data);
      BlockAt(c, i) == p.encrypt(key, Xor(BlockAt(data, i), Chained(iv, c, i)))
    decreases |data|
  {
    var c0 := p.encrypt(key, Xor(data[..BlockSize], iv));
    var rest := CbcChain(p, key, c0, data[BlockSize..]);
    var c := c0 + rest;
    BlockAtCons(c0, rest, i);
    BlockAtDrop(data, i);
    if i > 0 {
      CbcChainBlockAt(p, key, c0, data[BlockSize..], i - 1);
      BlockAtCons(c0, rest, i - 1);
      assert Chained(iv, c, i) == BlockAt(c, i - 1);
      assert Chained(c0, rest, i - 1) == Chained(iv, c, i);
    }
  }

  /** P_i = CIPH^-1_K(C_i) xor C_(i-1), with C_(-1) = IV. */
  lemma {:induction false} CbcUnchainBlockAt(p: Primitive, key: Key, iv: Block, data: seq<byte>, i: nat)
    requires |data| % BlockSize == 0 && i < |data| / BlockSize
    ensures BlockAt(CbcUnchain(p, key, iv, data), i) == Xor(p.decrypt(key, BlockAt(data, i)), Chained(iv, data, i))
    decreases |data|
  {
    var d0 := Xor(p.decrypt(key, data[..BlockSize]), iv);
    BlockAtCons(d0, CbcUnchain(p, key, data[..BlockSize], data[BlockSize..]), i);
    BlockAtDrop(data, i);
    if i > 0 {
      CbcUnchainBlockAt(p, key, data[..BlockSize], data[BlockSize..], i - 1);
      BlockAtDrop(data, i - 1);
    }
  }

  lemma {:induction false} CbcUnchainChain(p: Primitive, key: Key, prev: Block, data: seq<byte>)
    requires IsBlockCipher(p)
    requires |data| % BlockSize == 0
    ensures CbcUnchain(p, key, prev, CbcChain(p, key, prev, data)) == data
    decreases |data|
  {
    if |data| > 0 {
      var block := data[..BlockSize];
      var c := p.encrypt(key, Xor(block, prev));
      var ct := CbcChain(p, key, prev, data);
      assert ct[..BlockSize] == c;
      assert ct[BlockSize..] == CbcChain(p, key, c, data[BlockSize..]);
      XorCancels(block, prev);
      CbcUnchainChain(p, key, c, data[BlockSize..]);
      assert data == block + data[BlockSize..];
    }
  }

  /** Decrypting a CBC encryption with the same key and IV gives back the padded input. */
  lemma CbcRoundTrip(p: Primitive, input: seq<byte>, key: Key, iv: Block)
    requires IsBlockCipher(p)
    ensures AESCBCDecrypt(p, AESCBCEncrypt(p, input, key, iv), key, iv) == Ok(Padding.PKCS7(input, BlockSize))
  {
    CbcUnchainChain(p, key, iv, Padding.PKCS7(input, BlockSize));
  }

  /** ... and removing the padding then gives back the input itself. */
  lemma CbcFullCircle(p: Primitive, input: seq<byte>, key: Key, iv: Block)
    requires IsBlockCipher(p)
    requires |input| > 0
    ensures
      var d := AESCBCDecrypt(p, AESCBCEncrypt(p, input, key, iv), key, iv);
      d.Ok? && Padding.RemovePKCS7(d.value, BlockSize) == Ok(input)
  {
    CbcRoundTrip(p, input, key, iv);
    Padding.RoundTrip(input, BlockSize);
  }
}
