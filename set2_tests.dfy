/**
 * The concrete cases of set2_test.go, each stated as a lemma about the model:
 * the padding vectors of TestChallenge9, the CBC round trip of TestChallenge10,
 * the mode guesses of TestChallenge11 and TestChallenge12, the key-size probe,
 * and the codec, encryptor and forgery cases of TestChallenge13.
 * Test strings are written out as their bytes.
 */
module Set2Tests {
  import opened Bytes
  import opened Outcomes
  import opened Modes
  import Padding
  import Detection
  import SuffixOracle
  import ProfileCodec
  import ProfileForgery

  // "YELLOW SUBMARINE"
  const Submarine: seq<byte> := [0x59, 0x45, 0x4c, 0x4c, 0x4f, 0x57, 0x20, 0x53, 0x55, 0x42, 0x4d, 0x41, 0x52, 0x49, 0x4e, 0x45]
  // "YELLOW"
  const Yellow: seq<byte> := [0x59, 0x45, 0x4c, 0x4c, 0x4f, 0x57]

  // ------------------------------------------------------------ TestChallenge9

  /** Any 16 bytes padded to 20 gain four bytes 0x04 and keep their place in front. */
  lemma PadSixteenToTwenty(data: seq<byte>)
    requires |data| == 16
    ensures Padding.PKCS7(data, 20) == data + Repeat(0x04, 4)
  {
    var p := Padding.PKCS7(data, 20);
    Padding.PaddedLength(data, 20);
    Padding.PadBytes(data, 20);
    forall i | 16 <= i < 20
      ensures p[i] == 0x04
    {
      ByteInjective(p[i], 0x04);
    }
    assert p == p[..16] + p[16..];
  }

  /** Any 6 bytes at block size 6 are already aligned and gain a whole block of 0x06. */
  lemma PadSixWholeBlock(data: seq<byte>)
    requires |data| == 6
    ensures Padding.PKCS7(data, 6) == data + Repeat(0x06, 6)
  {
    var p := Padding.PKCS7(data, 6);
    Padding.PaddedLength(data, 6);
    Padding.PadBytes(data, 6);
    forall i | 6 <= i < 12
      ensures p[i] == 0x06
    {
      ByteInjective(p[i], 0x06);
    }
    assert p == p[..6] + p[6..];
  }

  /** "YELLOW SUBMARINE" padded to 20 bytes. */
  lemma PadToTwenty()
    ensures Padding.PKCS7(Submarine, 20) == Submarine + Repeat(0x04, 4)
  {
    PadSixteenToTwenty(Submarine);
  }

  /** "YELLOW" padded at block size 6. */
  lemma PadWholeBlock()
    ensures Padding.PKCS7(Yellow, 6) == Yellow + Repeat(0x06, 6)
  {
    PadSixWholeBlock(Yellow);
  }

  /** Nothing to pad: nil in, nil out. */
  lemma PadEmpty()
    ensures Padding.PKCS7([], 4) == []
  {
  }

  /** Unpadding the 20-byte vector gives "YELLOW SUBMARINE" back. */
  lemma UnpadFromTwenty()
    ensures Padding.RemovePKCS7(Submarine + Repeat(0x04, 4), 20) == Ok(Submarine)
  {
    PadToTwenty();
    Padding.RoundTrip(Submarine, 20);
  }

  /** Unpadding the whole-block vector gives "YELLOW" back. */
  lemma UnpadWholeBlock()
    ensures Padding.RemovePKCS7(Yellow + Repeat(0x06, 6), 6) == Ok(Yellow)
  {
    PadWholeBlock();
    Padding.RoundTrip(Yellow, 6);
  }

  // ------------------------------------------------------------ TestChallenge10

  // sixteen '0' characters
  const Zeros: seq<byte> := Repeat(0x30, 16)
  // "something extremely random"
  const Random: seq<byte> := [0x73, 0x6f, 0x6d, 0x65, 0x74, 0x68, 0x69, 0x6e, 0x67, 0x20, 0x65, 0x78, 0x74,
                              0x72, 0x65, 0x6d, 0x65, 0x6c, 0x79, 0x20, 0x72, 0x61, 0x6e, 0x64, 0x6f, 0x6d]

  /**
   * Key "YELLOW SUBMARINE", IV of sixteen '0' characters: decrypting the
   * encryption of the input and unpadding with the key length gives the input
   * back, for every block cipher.
   */
  lemma CbcVector(p: Primitive)
    requires IsBlockCipher(p)
    ensures
      var d := AESCBCDecrypt(p, AESCBCEncrypt(p, Random, Submarine, Zeros), Submarine, Zeros);
      d.Ok? && Padding.RemovePKCS7(d.value, |Submarine|) == Ok(Random)
  {
    CbcFullCircle(p, Random, Submarine, Zeros);
  }

  // ------------------------------------------------------------ TestChallenge11 and 12

  // "things repeated "
  const Things: seq<byte> := [0x74, 0x68, 0x69, 0x6e, 0x67, 0x73, 0x20, 0x72, 0x65, 0x70, 0x65, 0x61, 0x74, 0x65, 0x64, 0x20]
  // "things repeated things repeated things repeated"
  const Repeated: seq<byte> := Things + Things + Things[..15]

  /** The repeated input repeats itself block by block. */
  lemma RepeatedIsPeriodic()
    ensures |Repeated| == 47 && Detection.BlockPeriodic(Repeated)
  {
    forall i | 0 <= i < |Repeated| - BlockSize
      ensures Repeated[i] == Repeated[i + BlockSize]
    {
      if i < 16 {
        assert Repeated[i] == Things[i] && Repeated[i + 16] == Things[i];
      } else {
        assert Repeated[i] == Things[i - 16] && Repeated[i + 16] == Things[..15][i - 16];
      }
    }
  }

  /**
   * Whenever the oracle picks ECB, whatever its key, IV, prefix and suffix, the
   * guess for the repeated input matches the mode it reports.
   */
  lemma GuessRepeatedInput(p: Primitive, key: Key, iv: Block, before: seq<byte>, after: seq<byte>)
    requires IsBlockCipher(p)
    ensures
      var (data, expected) := Detection.OracleEncrypt(p, key, iv, before, after, true, Repeated);
      Detection.GuessBlockCipher(data) == expected
  {
    RepeatedIsPeriodic();
    Detection.GuessMatchesEcbOracle(p, key, iv, before, after, Repeated);
  }

  /** The probed block size of the suffix oracle is its key length. */
  lemma KeySizeVector(e: SuffixOracle.Encryptor)
    ensures SuffixOracle.KeySize(e) == |e.key|
  {
    SuffixOracle.KeySizeIsBlockSize(e);
  }

  /** Three key sizes' worth of 'A' make the suffix oracle's ciphertext look like ECB. */
  lemma SuffixOracleLooksEcb(e: SuffixOracle.Encryptor)
    requires IsBlockCipher(e.cipher)
    ensures SuffixOracle.KeySize(e) == BlockSize
    ensures Detection.GuessBlockCipher(SuffixOracle.Encrypt(e, Repeat(Filler, SuffixOracle.KeySize(e) * 3))) == Detection.ECB
  {
    SuffixOracle.KeySizeIsBlockSize(e);
    var input := Repeat(Filler, 3 * BlockSize);
    assert input == Repeat(Filler, SuffixOracle.KeySize(e) * 3);
    assert [] + input + e.secret == input + e.secret;
    Detection.PeriodicInputRepeats([], input, e.secret);
    var padded := Padding.PKCS7(input + e.secret, BlockSize);
    Detection.EcbRepeatsIff(e.cipher, e.key, padded);
  }

  // ------------------------------------------------------------ TestChallenge13

  // "bar", "1234", "user"
  const Bar: ProfileCodec.Profile := ProfileCodec.Profile([0x62, 0x61, 0x72], [0x31, 0x32, 0x33, 0x34], [0x75, 0x73, 0x65, 0x72])
  // "email=bar&uid=1234&role=user"
  const BarEncoded: seq<byte> := [0x65, 0x6d, 0x61, 0x69, 0x6c, 0x3d, 0x62, 0x61, 0x72, 0x26, 0x75, 0x69, 0x64, 0x3d,
                                  0x31, 0x32, 0x33, 0x34, 0x26, 0x72, 0x6f, 0x6c, 0x65, 0x3d, 0x75, 0x73, 0x65, 0x72]

  /** The profile for "bar" is written as "email=bar&uid=1234&role=user". */
  lemma EncodeBar()
    ensures ProfileCodec.URLEncode(Bar) == BarEncoded
  {
  }

  /** ... and that string reads back as the same profile. */
  lemma DecodeBar()
    ensures ProfileCodec.URLDecode(BarEncoded) == Bar
  {
    EncodeBar();
    assert ProfileCodec.Amp !in Bar.email && ProfileCodec.Amp !in Bar.uid && ProfileCodec.Amp !in Bar.role;
    ProfileCodec.DecodeEncode(Bar);
  }

  // "john.doe@test"
  const John: seq<byte> := [0x6a, 0x6f, 0x68, 0x6e, 0x2e, 0x64, 0x6f, 0x65, 0x40, 0x74, 0x65, 0x73, 0x74]
  // "people.com"
  const PeopleCom: seq<byte> := [0x70, 0x65, 0x6f, 0x70, 0x6c, 0x65, 0x2e, 0x63, 0x6f, 0x6d]

  /** An email with one `&` between two clean parts reads back as the two parts joined. */
  lemma ProfileForDropsAmp(head: seq<byte>, tail: seq<byte>, uid: nat)
    requires ProfileCodec.Amp !in head && ProfileCodec.Eq !in head
    requires ProfileCodec.Amp !in tail && ProfileCodec.Eq !in tail
    ensures
      var got := ProfileCodec.URLDecode(ProfileCodec.ProfileFor(head + [ProfileCodec.Amp] + tail, uid));
      && got == ProfileCodec.Profile(head + tail, got.uid, ProfileCodec.UserRole)
      && got.uid != []
  {
    ProfileCodec.ProfileForDecodes(head + [ProfileCodec.Amp] + tail, uid);
    SanitizeDropsAmp(head, tail);
  }

  /** Sanitizing removes the `&` between two clean parts and nothing else. */
  lemma SanitizeDropsAmp(head: seq<byte>, tail: seq<byte>)
    requires ProfileCodec.Amp !in head && ProfileCodec.Eq !in head
    requires ProfileCodec.Amp !in tail && ProfileCodec.Eq !in tail
    ensures ProfileCodec.Sanitize(head + [ProfileCodec.Amp] + tail) == head + tail
  {
    var amp: seq<byte> := [ProfileCodec.Amp];
    ProfileCodec.SanitizeConcat(head + amp, tail);
    ProfileCodec.SanitizeConcat(head, amp);
    assert amp[1..] == [];
    assert ProfileCodec.Sanitize(amp) == [];
    ProfileCodec.SanitizeKeepsClean(head);
    ProfileCodec.SanitizeKeepsClean(tail);
    assert ProfileCodec.Sanitize(head + amp) == head;
  }

  /** "john.doe@test&people.com" loses its `&`; the role is `user` and the uid is not empty. */
  lemma ProfileForJohn(uid: nat)
    ensures
      var got := ProfileCodec.URLDecode(ProfileCodec.ProfileFor(John + [ProfileCodec.Amp] + PeopleCom, uid));
      && got == ProfileCodec.Profile(John + PeopleCom, got.uid, ProfileCodec.UserRole)
      && got.uid != []
  {
    ProfileForDropsAmp(John, PeopleCom, uid);
  }

  /** A token for an email without delimiters decrypts and decodes to that same email. */
  lemma EncryptorKeepsEmail(e: ProfileForgery.ProfileEncryptor, email: seq<byte>)
    requires IsBlockCipher(e.cipher)
    requires ProfileCodec.Amp !in email && ProfileCodec.Eq !in email
    ensures
      var d := ProfileForgery.Decrypt(e, ProfileForgery.Encrypt(e, email));
      d.Ok? && ProfileCodec.URLDecode(d.value).email == email
  {
    ProfileForgery.DecryptEncrypt(e, email);
    ProfileCodec.SanitizeKeepsClean(email);
  }

  // "test@people.com"
  const TestEmail: seq<byte> := [0x74, 0x65, 0x73, 0x74, 0x40, 0x70, 0x65, 0x6f, 0x70, 0x6c, 0x65, 0x2e, 0x63, 0x6f, 0x6d]

  /** A token for "test@people.com" decrypts and decodes to that email. */
  lemma EncryptorRoundTrip(e: ProfileForgery.ProfileEncryptor)
    requires IsBlockCipher(e.cipher)
    ensures
      var d := ProfileForgery.Decrypt(e, ProfileForgery.Encrypt(e, TestEmail));
      d.Ok? && ProfileCodec.URLDecode(d.value).email == TestEmail
  {
    EncryptorKeepsEmail(e, TestEmail);
  }

  // "me@test.com"
  const MeEmail: seq<byte> := [0x6d, 0x65, 0x40, 0x74, 0x65, 0x73, 0x74, 0x2e, 0x63, 0x6f, 0x6d]

  /** Escalating from "me@test.com" yields a token that decodes with role "admin". */
  lemma EscalateMe(e: ProfileForgery.ProfileEncryptor)
    requires IsBlockCipher(e.cipher)
    ensures ProfileForgery.Escalate(e, MeEmail).Ok?
    ensures
      var d := ProfileForgery.Decrypt(e, ProfileForgery.Escalate(e, MeEmail).value);
      d.Ok? && ProfileCodec.URLDecode(d.value).role == ProfileForgery.Admin
  {
    ProfileForgery.EscalateMakesAdmin(e, MeEmail);
  }
}
