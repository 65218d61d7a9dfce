/**
 * The oracle of TestChallenge12: ECB under a hidden key of the attacker's input
 * followed by a hidden secret; `KeySize` and one round of the byte-at-a-time
 * recovery of the secret.
 */
module SuffixOracle {
  import opened Bytes
  import opened Outcomes
  import opened Modes
  import Padding
  import Arith

  /** What NewEncryptor fixes once: a key (random in the Go package) and the secret suffix. */
  datatype Encryptor = Encryptor(cipher: Primitive, key: Key, secret: seq<byte>)

  /** Encrypt: the PKCS#7-padded `input + secret` under ECB and the hidden key. */
  function Encrypt(e: Encryptor, input: seq<byte>): (r: seq<byte>)
    ensures |r| % BlockSize == 0
    ensures |input + e.secret| > 0 ==> |r| == ((|input| + |e.secret|) / BlockSize + 1) * BlockSize
  {
    if |input + e.secret| > 0 then Padding.PaddedLength(input + e.secret, BlockSize); AESECBEncrypt(e.cipher, input + e.secret, e.key)
    else AESECBEncrypt(e.cipher, input + e.secret, e.key)
  }

  /** The search for the block size gives up after this many input lengths. */
  const MaxProbe := 64

  /** Input lengths from `len` on, until the ciphertext length moves away from `base`. */
  function KeySizeFrom(e: Encryptor, len: nat, base: nat): (r: int)
    requires base % BlockSize == 0
    ensures r % BlockSize == 0
    decreases MaxProbe + 1 - len
  {
    if len > MaxProbe then 0
    else
      var size := |Encrypt(e, Repeat(Filler, len))|;
      if size != base then size - base else KeySizeFrom(e, len + 1, base)
  }

  /**
   * Feeds inputs of 1, 2, 3, ... filler bytes and returns the first change in
   * ciphertext length; 0 when none shows within MaxProbe lengths.
   */
  function KeySize(e: Encryptor): (r: int)
    ensures r % BlockSize == 0
  {
    KeySizeFrom(e, 2, |Encrypt(e, Repeat(Filler, 1))|)
  }

  /** Adding one byte to a length moves its block number by at most one. */
  lemma NextBlockNumber(m: nat)
    ensures (m + 1) / BlockSize == m / BlockSize || (m + 1) / BlockSize == m / BlockSize + 1
    ensures (m + 1) / BlockSize == m / BlockSize ==> m % BlockSize < BlockSize - 1
  {
    if m % BlockSize < BlockSize - 1 {
      Arith.DivModUnique(m + 1, BlockSize, m / BlockSize, m % BlockSize + 1);
    } else {
      Arith.DivModUnique(m + 1, BlockSize, m / BlockSize + 1, 0);
    }
  }

  lemma {:induction false} KeySizeFromFindsJump(e: Encryptor, len: nat)
    requires 2 <= len
    requires (1 + |e.secret|) % BlockSize + (len - 2) < BlockSize  // lengths 1 .. len-1 fill the same blocks
    ensures KeySizeFrom(e, len, |Encrypt(e, Repeat(Filler, 1))|) == BlockSize
    decreases MaxProbe + 1 - len
  {
    var s := |e.secret|;
    var base := |Encrypt(e, Repeat(Filler, 1))|;
    assert base == ((1 + s) / BlockSize + 1) * BlockSize;
    var size := |Encrypt(e, Repeat(Filler, len))|;
    assert size == ((len + s) / BlockSize + 1) * BlockSize;
    Arith.DivModUnique(len - 1 + s, BlockSize, (1 + s) / BlockSize, (1 + s) % BlockSize + (len - 2));
    NextBlockNumber(len - 1 + s);
    if (len + s) / BlockSize == (1 + s) / BlockSize {
      Arith.DivModUnique(len + s, BlockSize, (1 + s) / BlockSize, (1 + s) % BlockSize + (len - 1));
      KeySizeFromFindsJump(e, len + 1);
    } else {
      assert size == base + BlockSize;
    }
  }

  /** The block-size search reports the AES block length, which equals the key length. */
  lemma KeySizeIsBlockSize(e: Encryptor)
    ensures KeySize(e) == BlockSize == KeyLength
  {
    var s := |e.secret|;
    Arith.DivModUnique(1 + s, BlockSize, (1 + s) / BlockSize, (1 + s) % BlockSize);
    KeySizeFromFindsJump(e, 2);
  }

  // ------------------------------------------------- byte-at-a-time, one round

  /**
   * The filler of the round that recovers secret byte `p`: enough bytes to put
   * that byte at the end of a block.
   */
  function RoundFiller(p: nat): (r: seq<byte>)
    ensures |r| + p == (p / BlockSize + 1) * BlockSize - 1
  {
    Repeat(Filler, BlockSize - 1 - p % BlockSize)
  }

  /** Block `b` of the ciphertext for `input`, if the ciphertext has one. */
  function CipherBlock(e: Encryptor, input: seq<byte>, b: nat): Option<seq<byte>> {
    var c := Encrypt(e, input);
    if (b + 1) * BlockSize <= |c| then Some(BlockAt(c, b)) else None
  }

  /** The candidates `c`, `c + 1`, ..., 255 in order; the first whose probe block equals `target`. */
  function FindCandidate(e: Encryptor, known: seq<byte>, target: seq<byte>, c: nat): (r: Option<byte>)
    ensures r.Some? ==> CipherBlock(e, RoundFiller(|known|) + known + [r.value], |known| / BlockSize) == Some(target)
    decreases 256 - c
  {
    if c >= 256 then None
    else
      var guess := ByteOf(c);
      if CipherBlock(e, RoundFiller(|known|) + known + [guess], |known| / BlockSize) == Some(target) then Some(guess)
      else FindCandidate(e, known, target, c + 1)
  }

  /**
   * One round: with `known` the secret bytes recovered so far, the target is the
   * block holding the next secret byte after the filler, and every candidate byte
   * is tried after filler and `known` until its block matches.
   */
  function RecoverNextByte(e: Encryptor, known: seq<byte>): (r: Option<byte>)
    ensures r.Some? ==>
      var b := |known| / BlockSize;
      CipherBlock(e, RoundFiller(|known|), b).Some?
      && CipherBlock(e, RoundFiller(|known|) + known + [r.value], b) == CipherBlock(e, RoundFiller(|known|), b)
  {
    match CipherBlock(e, RoundFiller(|known|), |known| / BlockSize)
    case None => None
    case Some(target) => FindCandidate(e, known, target, 0)
  }

  /** The padded plaintext agrees with the plaintext on every whole block the plaintext covers. */
  lemma PlainBlock(w: seq<byte>, b: nat)
    requires (b + 1) * BlockSize <= |w|
    ensures (b + 1) * BlockSize <= |Padding.PKCS7(w, BlockSize)|
    ensures BlockAt(Padding.PKCS7(w, BlockSize), b) == w[b * BlockSize..(b + 1) * BlockSize]
  {
    var padded := Padding.PKCS7(w, BlockSize);
    assert padded[..|w|] == w;
    assert padded[b * BlockSize..(b + 1) * BlockSize] == padded[..|w|][b * BlockSize..(b + 1) * BlockSize];
  }

  /** The ciphertext block of a whole plaintext block is the primitive applied to it. */
  lemma EncryptBlock(e: Encryptor, input: seq<byte>, b: nat)
    requires (b + 1) * BlockSize <= |input + e.secret|
    ensures CipherBlock(e, input, b)
      == Some(e.cipher.encrypt(e.key, (input + e.secret)[b * BlockSize..(b + 1) * BlockSize]))
  {
    var w := input + e.secret;
    PlainBlock(w, b);
    var padded := Padding.PKCS7(w, BlockSize);
    Aligned(b + 1);
    EcbEncryptBlockAt(e.cipher, e.key, padded, b);
  }

  /**
   * When the secret bytes before position `p` are known, the round finds exactly
   * secret byte `p`: the filler puts it last in its block, the probe with the
   * right candidate encrypts the same block, and since the primitive is
   * injective no other candidate does.
   */
  lemma RecoverNextByteCorrect(e: Encryptor, p: nat)
    requires IsBlockCipher(e.cipher) && p < |e.secret|
    ensures RecoverNextByte(e, e.secret[..p]) == Some(e.secret[p])
  {
    var known := e.secret[..p];
    var b := p / BlockSize;
    var fill := RoundFiller(p);
    var lo, hi := b * BlockSize, (b + 1) * BlockSize;
    var targetPlain := (fill + e.secret)[lo..hi];
    EncryptBlock(e, fill, b);
    var target := e.cipher.encrypt(e.key, targetPlain);
    forall c | 0 <= c < 256
      ensures var guess := ByteOf(c);
        CipherBlock(e, fill + known + [guess], b) == Some(target) <==> guess == e.secret[p]
    {
      var guess := ByteOf(c);
      var probe := fill + known + [guess];
      EncryptBlock(e, probe, b);
      var probePlain := (probe + e.secret)[lo..hi];
      assert |probe| == hi && |probePlain| == BlockSize;
      assert probePlain == probe[lo..];
      assert (guess == e.secret[p]) ==> probePlain == targetPlain;
      if probePlain == targetPlain {
        assert probePlain[BlockSize - 1] == guess;
        assert targetPlain[BlockSize - 1] == e.secret[p];
      }
      assert e.cipher.decrypt(e.key, e.cipher.encrypt(e.key, probePlain)) == probePlain;
    }
    FindCandidateFirst(e, known, target, 0, e.secret[p] as int);
  }

  /** The search returns the only matching candidate when the candidates before it do not match. */
  lemma {:induction false} FindCandidateFirst(e: Encryptor, known: seq<byte>, target: seq<byte>, c: nat, hit: int)
    requires c <= hit < 256
    requires forall d :: c <= d < 256 ==>
      (CipherBlock(e, RoundFiller(|known|) + known + [ByteOf(d)], |known| / BlockSize) == Some(target) <==> d == hit)
    ensures FindCandidate(e, known, target, c) == Some(ByteOf(hit))
    decreases 256 - c
  {
    if c < hit {
      FindCandidateFirst(e, known, target, c + 1, hit);
    }
  }
}
