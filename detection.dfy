/** Telling ECB from CBC by the shape of a ciphertext alone: `GuessBlockCipher`, `OracleEncrypt`. */
module Detection {
  import opened Bytes
  import opened Modes
  import Padding
  import Arith

  datatype Mode = ECB | CBC

  /** Two distinct whole blocks of `data` are byte-identical. */
  ghost predicate HasRepeatedBlock(data: seq<byte>) {
    exists i: nat, j: nat :: i < j && (j + 1) * BlockSize <= |data| && BlockAt(data, i) == BlockAt(data, j)
  }

  /**
   * Looks at the whole blocks from block `k` on, with `seen` holding the
   * blocks before `k`; the first block already seen means ECB.
   */
  function ScanBlocks(data: seq<byte>, k: nat, seen: set<seq<byte>>): (m: Mode)
    requires k * BlockSize <= |data|
    decreases |data| - k * BlockSize
  {
    if |data| < (k + 1) * BlockSize then CBC
    else if BlockAt(data, k) in seen then ECB
    else ScanBlocks(data, k + 1, seen + {BlockAt(data, k)})
  }

  /** ECB exactly when some whole 16-byte block occurs twice; a trailing partial block is ignored. */
  function GuessBlockCipher(data: seq<byte>): (m: Mode)
    ensures m == ECB <==> HasRepeatedBlock(data)
  {
    ScanFinds(data, 0, {});
    ScanBlocks(data, 0, {})
  }

  lemma {:induction false} ScanFinds(data: seq<byte>, k: nat, seen: set<seq<byte>>)
    requires k * BlockSize <= |data|
    requires seen == set i: nat | i < k :: BlockAt(data, i)
    requires forall i: nat, j: nat :: i < j < k ==> BlockAt(data, i) != BlockAt(data, j)
    ensures ScanBlocks(data, k, seen) == ECB <==> HasRepeatedBlock(data)
    decreases |data| - k * BlockSize
  {
    if |data| < (k + 1) * BlockSize {
      assert !HasRepeatedBlock(data);
    } else if BlockAt(data, k) in seen {
      var i: nat :| i < k && BlockAt(data, i) == BlockAt(data, k);
      assert HasRepeatedBlock(data);
    } else {
      var seen' := seen + {BlockAt(data, k)};
      assert seen' == set i: nat | i < k + 1 :: BlockAt(data, i);
      ScanFinds(data, k + 1, seen');
    }
  }

  lemma NextBoundary(n: nat) returns (k: nat)
    ensures n <= k * BlockSize < n + BlockSize
  {
    k := (n + BlockSize - 1) / BlockSize;
    var r := (n + BlockSize - 1) % BlockSize;
    Arith.DivModUnique(n + BlockSize - 1, BlockSize, k, r);
  }

  /** Under one key, an ECB ciphertext repeats a block exactly when its plaintext does. */
  lemma EcbRepeatsIff(p: Primitive, key: Key, data: seq<byte>)
    requires IsBlockCipher(p) && |data| % BlockSize == 0
    ensures GuessBlockCipher(EcbEncrypt(p, key, data)) == ECB <==> HasRepeatedBlock(data)
  {
    var c := EcbEncrypt(p, key, data);
    if HasRepeatedBlock(data) {
      var i: nat, j: nat :| i < j && (j + 1) * BlockSize <= |data| && BlockAt(data, i) == BlockAt(data, j);
      Aligned(j);
      EcbEqualBlocks(p, key, data, i, j);
      assert BlockAt(c, i) == BlockAt(c, j);
    }
    if HasRepeatedBlock(c) {
      var i: nat, j: nat :| i < j && (j + 1) * BlockSize <= |c| && BlockAt(c, i) == BlockAt(c, j);
      Aligned(j);
      EcbEqualBlocks(p, key, data, i, j);
      assert BlockAt(data, i) == BlockAt(data, j);
    }
  }

  /** `x` repeats itself with a period of one block. */
  ghost predicate BlockPeriodic(x: seq<byte>) {
    forall i :: 0 <= i < |x| - BlockSize ==> x[i] == x[i + BlockSize]
  }

  /**
   * A block-periodic input of at least three blocks less one byte, placed after
   * any prefix and before any suffix, fills two neighbouring whole blocks of the
   * padded plaintext with the same bytes, wherever the block boundaries fall.
   */
  lemma PeriodicInputRepeats(before: seq<byte>, x: seq<byte>, after: seq<byte>)
    requires BlockPeriodic(x) && |x| >= 3 * BlockSize - 1
    ensures HasRepeatedBlock(Padding.PKCS7(before + x + after, BlockSize))
  {
    var w := before + x + after;
    var padded := Padding.PKCS7(w, BlockSize);
    var k := NextBoundary(|before|);
    assert padded[..|w|] == w;
    forall t | 0 <= t < BlockSize
      ensures BlockAt(padded, k)[t] == BlockAt(padded, k + 1)[t]
    {
      var i := k * BlockSize + t - |before|;
      assert padded[k * BlockSize + t] == x[i];
      assert padded[(k + 1) * BlockSize + t] == x[i + BlockSize];
    }
    assert BlockAt(padded, k) == BlockAt(padded, k + 1);
  }

  /**
   * The oracle of TestChallenge11: the input goes between a prefix and a suffix
   * (random bytes in the Go package), then is encrypted with ECB or with CBC (a
   * random choice), under a random key and, for CBC, a random IV. The random
   * values are parameters here. The mode used is returned alongside.
   */
  function OracleEncrypt(p: Primitive, key: Key, iv: Block, before: seq<byte>, after: seq<byte>,
                         useEcb: bool, input: seq<byte>): (r: (seq<byte>, Mode))
  {
    var plain := before + input + after;
    if useEcb then (AESECBEncrypt(p, plain, key), ECB) else (AESCBCEncrypt(p, plain, key, iv), CBC)
  }

  /**
   * On a block-periodic input of at least 47 bytes the guess matches the oracle
   * whenever the oracle chose ECB, whatever its prefix and suffix.
   */
  lemma GuessMatchesEcbOracle(p: Primitive, key: Key, iv: Block, before: seq<byte>, after: seq<byte>, input: seq<byte>)
    requires IsBlockCipher(p)
    requires BlockPeriodic(input) && |input| >= 3 * BlockSize - 1
    ensures
      var (data, expected) := OracleEncrypt(p, key, iv, before, after, true, input);
      GuessBlockCipher(data) == expected
  {
    var padded := Padding.PKCS7(before + input + after, BlockSize);
    PeriodicInputRepeats(before, input, after);
    EcbRepeatsIff(p, key, padded);
  }
}
