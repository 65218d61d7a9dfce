/**
 * The profile encryptor of TestChallenge13 and the ECB cut-and-paste attack
 * `Escalate`, which forges a token whose profile has role `admin`.
 */
module ProfileForgery {
  import opened Bytes
  import opened Outcomes
  import opened Modes
  import opened ProfileCodec
  import Padding
  import Arith

  /** What NewProfileEncryptor fixes once: a key (random in the Go package) and the uid it hands out. */
  datatype ProfileEncryptor = ProfileEncryptor(cipher: Primitive, key: Key, uid: nat)

  /** Encrypt(email): the profile for `email`, PKCS#7-padded, under ECB and the hidden key. */
  function Encrypt(e: ProfileEncryptor, email: seq<byte>): (r: seq<byte>)
    ensures |r| == (|ProfileFor(email, e.uid)| / BlockSize + 1) * BlockSize
  {
    var plain := ProfileFor(email, e.uid);
    Padding.PaddedLength(plain, BlockSize);
    AESECBEncrypt(e.cipher, plain, e.key)
  }

  /** Decrypt(token): ECB decryption, then the padding removed. */
  function Decrypt(e: ProfileEncryptor, token: seq<byte>): (r: Result<seq<byte>>)
    ensures r.Err? ==> r.error == ShapeError || r.error == PaddingInvalid
  {
    match EcbDecrypt(e.cipher, e.key, token)
    case Err(x) => Err(x)
    case Ok(padded) => Padding.RemovePKCS7(padded, BlockSize)
  }

  /** A token decrypts to the profile it was made for; its email reads back sanitized. */
  lemma DecryptEncrypt(e: ProfileEncryptor, email: seq<byte>)
    requires IsBlockCipher(e.cipher)
    ensures Decrypt(e, Encrypt(e, email)) == Ok(ProfileFor(email, e.uid))
    ensures URLDecode(ProfileFor(email, e.uid)) == Profile(Sanitize(email), Decimal(e.uid), UserRole)
  {
    var plain := ProfileFor(email, e.uid);
    Padding.PaddedLength(plain, BlockSize);
    EcbRoundTrip(e.cipher, e.key, Padding.PKCS7(plain, BlockSize));
    Padding.RoundTrip(plain, BlockSize);
    ProfileForDecodes(email, e.uid);
  }

  // ------------------------------------------------------------ the attack

  const Admin: seq<byte> := [0x61, 0x64, 0x6d, 0x69, 0x6e]  // "admin"

  /** "admin" followed by its PKCS#7 padding: eleven bytes 0x0b. */
  const AdminBlock: seq<byte> := Admin + Repeat(0x0b, 11)

  /**
   * The email of the second request: ten filler bytes complete the block that
   * starts with `email=`, so the next block of its profile is AdminBlock.
   */
  const AdminEmail: seq<byte> := Repeat(Filler, 10) + AdminBlock

  /** How many longer emails the alignment search tries before giving up. */
  const MaxAlign := BlockSize

  /** The encryptor as the attack sees it: a function from emails to tokens. */
  function Oracle(e: ProfileEncryptor): seq<byte> -> seq<byte> {
    email => Encrypt(e, email)
  }

  /**
   * Emails of `t`, `t + 1`, ... filler bytes before `base`: the first length at
   * which the token grows beyond `base0`.
   */
  function AlignmentFrom(encrypt: seq<byte> -> seq<byte>, base: seq<byte>, t: nat, base0: nat): (r: Result<nat>)
    ensures r.Ok? ==> t <= r.value <= MaxAlign && |encrypt(Repeat(Filler, r.value) + base)| != base0
    ensures r.Err? ==> r.error == AlignmentFailure
    decreases MaxAlign + 1 - t
  {
    if t > MaxAlign then Err(AlignmentFailure)
    else if |encrypt(Repeat(Filler, t) + base)| != base0 then Ok(t)
    else AlignmentFrom(encrypt, base, t + 1, base0)
  }

  /** All blocks of `user` but its last, then the second block of `admin`. */
  function Splice(user: seq<byte>, admin: seq<byte>): (r: seq<byte>)
    requires BlockSize <= |user| && 2 * BlockSize <= |admin|
    ensures |r| == |user|
  {
    user[..|user| - BlockSize] + admin[BlockSize..2 * BlockSize]
  }

  /**
   * Escalate: finds how many filler bytes make the encoded profile end on a
   * block boundary (the token grows by a block there); four more push the
   * value `user` alone into the last block. Those blocks become the head of the
   * forged token, and the block AdminBlock of a second token its end.
   * Only the oracle is used: never the key.
   */
  function Escalate(e: ProfileEncryptor, base: seq<byte>): (r: Result<seq<byte>>)
    ensures r.Err? ==> r.error == AlignmentFailure
  {
    var encrypt := Oracle(e);
    match AlignmentFrom(encrypt, base, 1, |encrypt(base)|)
    case Err(x) => Err(x)
    case Ok(t) =>
      var user, admin := encrypt(Repeat(Filler, t + 4) + base), encrypt(AdminEmail);
      AdminEmailSurvives();
      Ok(Splice(user, admin))
  }

  lemma AdminEmailSurvives()
    ensures Sanitize(AdminEmail) == AdminEmail && |AdminEmail| == 26
  {
    forall i | 0 <= i < |AdminEmail|
      ensures AdminEmail[i] != Amp && AdminEmail[i] != Eq
    {
      if i < 10 {
      } else if i < 15 {
        assert AdminEmail[i] == Admin[i - 10];
      }
    }
    SanitizeKeepsClean(AdminEmail);
  }

  /** Filler bytes survive sanitizing. */
  lemma SanitizeFilled(t: nat, base: seq<byte>)
    ensures Sanitize(Repeat(Filler, t) + base) == Repeat(Filler, t) + Sanitize(base)
  {
    SanitizeConcat(Repeat(Filler, t), base);
    SanitizeKeepsClean(Repeat(Filler, t));
  }

  // ------------------------------------------------------------ finding the alignment

  /** `t` more bytes take a string of length `len` to a block boundary. */
  predicate FillsBlock(len: nat, t: nat) {
    (len + t) % BlockSize == 0
  }

  /** Unfolds `FillsBlock` for a length `m` given as a sum, so callers need no modular arithmetic. */
  lemma BoundaryAt(len: nat, t: nat, m: nat)
    requires FillsBlock(len, t) && m == len + t
    ensures m % BlockSize == 0
  {
  }

  /** Growing the email by `t` bytes grows the token by a block exactly when the profile reaches a boundary. */
  lemma GrowthStep(len: nat, t: nat)
    requires len % BlockSize + t <= BlockSize
    ensures len % BlockSize + t < BlockSize ==> (len + t) / BlockSize == len / BlockSize
    ensures len % BlockSize + t == BlockSize ==> (len + t) / BlockSize == len / BlockSize + 1 && (len + t) % BlockSize == 0
  {
    if len % BlockSize + t < BlockSize {
      Arith.DivModUnique(len + t, BlockSize, len / BlockSize, len % BlockSize + t);
    } else {
      Arith.DivModUnique(len + t, BlockSize, len / BlockSize + 1, 0);
    }
  }

  /** The oracle's token for `k` filler bytes before `base` is the padded length of `len + k`. */
  ghost predicate GrowsBy(encrypt: seq<byte> -> seq<byte>, base: seq<byte>, len: nat) {
    forall k: nat :: |encrypt(Repeat(Filler, k) + base)| == ((len + k) / BlockSize + 1) * BlockSize
  }

  /**
   * Against any oracle whose tokens are the padded length of `len` plus the
   * email growth, the search stops at the first length that makes `len` plus it
   * a multiple of the block size.
   */
  lemma {:induction false} AlignmentFinds(encrypt: seq<byte> -> seq<byte>, base: seq<byte>, len: nat, base0: nat, t: nat)
    requires GrowsBy(encrypt, base, len)
    requires base0 == (len / BlockSize + 1) * BlockSize
    requires 1 <= t && len % BlockSize + (t - 1) < BlockSize
    ensures
      var r := AlignmentFrom(encrypt, base, t, base0);
      r.Ok? && t <= r.value <= MaxAlign && (len + r.value) % BlockSize == 0
    decreases MaxAlign + 1 - t
  {
    GrowthStep(len, t);
    if len % BlockSize + t < BlockSize {
      AlignmentFinds(encrypt, base, len, base0, t + 1);
    }
  }

  /** The token for `t` filler bytes before `base`, measured from the profile for `base`. */
  lemma GrownLength(e: ProfileEncryptor, base: seq<byte>, t: nat)
    ensures |Encrypt(e, Repeat(Filler, t) + base)| == ((|ProfileFor(base, e.uid)| + t) / BlockSize + 1) * BlockSize
  {
    SanitizeFilled(t, base);
    assert |ProfileFor(Repeat(Filler, t) + base, e.uid)| == |ProfileFor(base, e.uid)| + t;
  }

  /** The token lengths the oracle shows for every number of filler bytes. */
  lemma OracleLengths(e: ProfileEncryptor, base: seq<byte>)
    ensures GrowsBy(Oracle(e), base, |ProfileFor(base, e.uid)|)
    ensures |Oracle(e)(base)| == (|ProfileFor(base, e.uid)| / BlockSize + 1) * BlockSize
  {
    assert Oracle(e)(base) == Encrypt(e, base);
    forall k: nat
      ensures |Oracle(e)(Repeat(Filler, k) + base)| == ((|ProfileFor(base, e.uid)| + k) / BlockSize + 1) * BlockSize
    {
      var email := Repeat(Filler, k) + base;
      assert Oracle(e)(email) == Encrypt(e, email);
      GrownLength(e, base, k);
    }
  }

  /** The alignment search started at one filler byte, against an oracle of that shape. */
  lemma AlignmentFound(encrypt: seq<byte> -> seq<byte>, base: seq<byte>, len: nat, base0: nat) returns (t: nat)
    requires GrowsBy(encrypt, base, len)
    requires base0 == (len / BlockSize + 1) * BlockSize
    ensures AlignmentFrom(encrypt, base, 1, base0) == Ok(t)
    ensures 1 <= t <= MaxAlign && FillsBlock(len, t)
  {
    AlignmentFinds(encrypt, base, len, base0, 1);
    t := AlignmentFrom(encrypt, base, 1, base0).value;
  }

  /** Against the encryptor, the alignment search succeeds with the first aligning length. */
  lemma AlignmentOf(e: ProfileEncryptor, base: seq<byte>) returns (t: nat)
    ensures AlignmentFrom(Oracle(e), base, 1, |Oracle(e)(base)|) == Ok(t)
    ensures 1 <= t <= MaxAlign && FillsBlock(|ProfileFor(base, e.uid)|, t)
  {
    var encrypt := Oracle(e);
    OracleLengths(e, base);
    t := AlignmentFound(encrypt, base, |ProfileFor(base, e.uid)|, |encrypt(base)|);
  }

  // ------------------------------------------------------------ the splice

  /** Padding a block-aligned head and a tail shorter than a block adds one block and keeps the head. */
  lemma PadAfterAligned(head: seq<byte>, tail: seq<byte>)
    requires |head| % BlockSize == 0 && 0 < |tail| < BlockSize
    ensures var p := Padding.PKCS7(head + tail, BlockSize);
      |p| == |head| + BlockSize && p[..|head|] == head
  {
    var data := head + tail;
    Padding.PaddedLength(data, BlockSize);
    Arith.DivModUnique(|data|, BlockSize, |head| / BlockSize, |tail|);
    var p := Padding.PKCS7(data, BlockSize);
    assert p[..|data|] == data;
    assert p[..|head|] == data[..|head|];
  }

  /** Padding keeps every slice of the data. */
  lemma PadKeeps(data: seq<byte>, i: nat, j: nat)
    requires i <= j <= |data|
    ensures var p := Padding.PKCS7(data, BlockSize);
      j <= |p| && p[i..j] == data[i..j]
  {
    var p := Padding.PKCS7(data, BlockSize);
    assert p[..|data|] == data;
    assert p[i..j] == p[..|data|][i..j];
  }

  /**
   * Two tokens under one key: everything but the last block of the first, then
   * the second block of the other, decrypts to the matching plaintext blocks.
   */
  lemma SpliceDecrypts(p: Primitive, key: Key, userPlain: seq<byte>, adminPlain: seq<byte>, head: seq<byte>, tail: seq<byte>)
    requires IsBlockCipher(p)
    requires userPlain == head + tail && |head| % BlockSize == 0 && 0 < |tail| < BlockSize
    requires 2 * BlockSize <= |adminPlain|
    ensures var user, admin := AESECBEncrypt(p, userPlain, key), AESECBEncrypt(p, adminPlain, key);
      2 * BlockSize <= |admin| &&
      EcbDecrypt(p, key, Splice(user, admin)) == Ok(head + Padding.PKCS7(adminPlain, BlockSize)[BlockSize..2 * BlockSize])
  {
    PadAfterAligned(head, tail);
    var userPadded, adminPadded := Padding.PKCS7(userPlain, BlockSize), Padding.PKCS7(adminPlain, BlockSize);
    var h := |head| / BlockSize;
    assert |head| == h * BlockSize;
    Aligned(h + 1);
    EcbSplice(p, key, userPadded, adminPadded, h, 1, 2);
  }

  /** The encoded profile up to and including `role=`. */
  function RoleHead(email: seq<byte>, uid: seq<byte>): seq<byte> {
    Pair(EmailKey, email) + [Amp] + Pair(UidKey, uid) + [Amp] + RoleKey + [Eq]
  }

  /** An encoded profile is its head up to `role=`, then the role. */
  lemma EncodedAtRole(p: Profile)
    ensures URLEncode(p) == RoleHead(p.email, p.uid) + p.role
    ensures |RoleHead(p.email, p.uid)| == 17 + |p.email| + |p.uid|
  {
  }

  /** The profile for `t + 4` filler bytes before `base`: its head up to `role=`, then `user`. */
  lemma UserPlain(e: ProfileEncryptor, base: seq<byte>, t: nat)
    ensures var head := RoleHead(Repeat(Filler, t + 4) + Sanitize(base), Decimal(e.uid));
      && ProfileFor(Repeat(Filler, t + 4) + base, e.uid) == head + UserRole
      && |head| == |ProfileFor(base, e.uid)| + t
  {
    SanitizeFilled(t + 4, base);
    EncodedAtRole(Profile(Repeat(Filler, t + 4) + Sanitize(base), Decimal(e.uid), UserRole));
  }

  /** The second block of the profile for AdminEmail is AdminBlock. */
  lemma AdminBlockAt(e: ProfileEncryptor)
    ensures var plain := ProfileFor(AdminEmail, e.uid);
      2 * BlockSize <= |plain| && Padding.PKCS7(plain, BlockSize)[BlockSize..2 * BlockSize] == AdminBlock
  {
    AdminEmailSurvives();
    var plain := ProfileFor(AdminEmail, e.uid);
    var pr := Profile(AdminEmail, Decimal(e.uid), UserRole);
    EncodedAtRole(pr);
    var front := EmailKey + [Eq] + Repeat(Filler, 10);
    assert plain == front + AdminBlock + (RoleHead(AdminEmail, Decimal(e.uid))[2 * BlockSize..] + UserRole);
    assert plain[BlockSize..2 * BlockSize] == AdminBlock;
    PadKeeps(plain, BlockSize, 2 * BlockSize);
  }

  /** The spliced plaintext unpads to the profile with role `admin` and decodes to it. */
  lemma ForgedDecodes(email: seq<byte>, uid: seq<byte>)
    requires |RoleHead(email, uid)| % BlockSize == 0
    requires Amp !in email && Amp !in uid
    ensures Padding.RemovePKCS7(RoleHead(email, uid) + AdminBlock, BlockSize)
      == Ok(URLEncode(Profile(email, uid, Admin)))
    ensures URLDecode(URLEncode(Profile(email, uid, Admin))) == Profile(email, uid, Admin)
  {
    var head := RoleHead(email, uid);
    AdminPadding(head);
    Padding.RoundTrip(head + Admin, BlockSize);
    EncodedAtRole(Profile(email, uid, Admin));
    assert Amp !in Admin;
    DecodeEncode(Profile(email, uid, Admin));
  }

  /** The padding of a block-aligned string followed by "admin" is that string followed by AdminBlock. */
  lemma AdminPadding(head: seq<byte>)
    requires |head| % BlockSize == 0
    ensures Padding.PKCS7(head + Admin, BlockSize) == head + AdminBlock
  {
    Arith.DivModUnique(|head + Admin|, BlockSize, |head| / BlockSize, 5);
    ByteInjective(Truncate(11), 0x0b);
    assert Repeat(Truncate(11), 11) == Repeat(0x0b, 11);
  }

  /** The token for AdminEmail has at least two blocks. */
  lemma AdminTokenLength(e: ProfileEncryptor)
    ensures 2 * BlockSize <= |Encrypt(e, AdminEmail)|
  {
    AdminEmailSurvives();
    var n := |ProfileFor(AdminEmail, e.uid)|;
    assert n >= BlockSize;
    assert n / BlockSize >= 1;
  }

  /** The forged token, once the alignment is known. */
  lemma EscalateIs(e: ProfileEncryptor, base: seq<byte>, t: nat)
    requires AlignmentFrom(Oracle(e), base, 1, |Oracle(e)(base)|) == Ok(t)
    ensures 2 * BlockSize <= |Encrypt(e, AdminEmail)|
    ensures Escalate(e, base) ==
      Ok(Splice(Encrypt(e, Repeat(Filler, t + 4) + base), Encrypt(e, AdminEmail)))
  {
    AdminTokenLength(e);
  }

  /**
   * Two tokens under one key, the first for a profile whose head up to `role=`
   * fills whole blocks and the second with AdminBlock as its second padded
   * block: their splice decrypts to the same head with role `admin`.
   */
  lemma ForgedTokenDecrypts(e: ProfileEncryptor, userPlain: seq<byte>, adminPlain: seq<byte>, email: seq<byte>, uid: seq<byte>)
    requires IsBlockCipher(e.cipher)
    requires userPlain == RoleHead(email, uid) + UserRole && |RoleHead(email, uid)| % BlockSize == 0
    requires 2 * BlockSize <= |adminPlain| && Padding.PKCS7(adminPlain, BlockSize)[BlockSize..2 * BlockSize] == AdminBlock
    requires Amp !in email && Amp !in uid
    ensures var user, admin := AESECBEncrypt(e.cipher, userPlain, e.key), AESECBEncrypt(e.cipher, adminPlain, e.key);
      && 2 * BlockSize <= |admin|
      && Decrypt(e, Splice(user, admin)) == Ok(URLEncode(Profile(email, uid, Admin)))
    ensures URLDecode(URLEncode(Profile(email, uid, Admin))) == Profile(email, uid, Admin)
  {
    var head := RoleHead(email, uid);
    SpliceDecrypts(e.cipher, e.key, userPlain, adminPlain, head, UserRole);
    ForgedDecodes(email, uid);
  }

  /** Filler bytes before a sanitized email hold no `&`. */
  lemma FilledHasNoAmp(n: nat, base: seq<byte>)
    ensures Amp !in Repeat(Filler, n) + Sanitize(base)
  {
    assert Amp !in Sanitize(base);
    assert forall i :: 0 <= i < n ==> Repeat(Filler, n)[i] != Amp;
  }

  /** What the first token's profile offers the splice, once the alignment is known. */
  lemma UserSide(e: ProfileEncryptor, base: seq<byte>, t: nat)
    requires FillsBlock(|ProfileFor(base, e.uid)|, t)
    ensures var email, uid := Repeat(Filler, t + 4) + Sanitize(base), Decimal(e.uid);
      && ProfileFor(Repeat(Filler, t + 4) + base, e.uid) == RoleHead(email, uid) + UserRole
      && |RoleHead(email, uid)| % BlockSize == 0
      && Amp !in email && Amp !in uid
  {
    var email, uid := Repeat(Filler, t + 4) + Sanitize(base), Decimal(e.uid);
    UserPlain(e, base, t);
    BoundaryAt(|ProfileFor(base, e.uid)|, t, |RoleHead(email, uid)|);
    DecimalHasNoDelimiter(e.uid);
    FilledHasNoAmp(t + 4, base);
  }

  /** The splice of the two tokens decrypts to the profile with role `admin`. */
  lemma SplicedProfile(e: ProfileEncryptor, base: seq<byte>, t: nat)
    requires IsBlockCipher(e.cipher)
    requires FillsBlock(|ProfileFor(base, e.uid)|, t)
    ensures 2 * BlockSize <= |Encrypt(e, AdminEmail)|
    ensures
      var email := Repeat(Filler, t + 4) + Sanitize(base);
      && Decrypt(e, Splice(Encrypt(e, Repeat(Filler, t + 4) + base), Encrypt(e, AdminEmail)))
        == Ok(URLEncode(Profile(email, Decimal(e.uid), Admin)))
      && URLDecode(URLEncode(Profile(email, Decimal(e.uid), Admin))) == Profile(email, Decimal(e.uid), Admin)
  {
    AdminTokenLength(e);
    var email, uid := Repeat(Filler, t + 4) + Sanitize(base), Decimal(e.uid);
    UserSide(e, base, t);
    AdminBlockAt(e);
    ForgedTokenDecrypts(e, ProfileFor(Repeat(Filler, t + 4) + base, e.uid), ProfileFor(AdminEmail, e.uid), email, uid);
  }

  /**
   * The forged token is accepted and decodes to a profile with role `admin`,
   * whatever the base email and the uid.
   */
  lemma EscalateMakesAdmin(e: ProfileEncryptor, base: seq<byte>)
    requires IsBlockCipher(e.cipher)
    ensures Escalate(e, base).Ok?
    ensures exists n: nat ::
      Decrypt(e, Escalate(e, base).value) ==
        Ok(URLEncode(Profile(Repeat(Filler, n) + Sanitize(base), Decimal(e.uid), Admin)))
    ensures
      var d := Decrypt(e, Escalate(e, base).value);
      d.Ok? && URLDecode(d.value).role == Admin && URLDecode(d.value).uid == Decimal(e.uid)
  {
    var t := AlignmentOf(e, base);
    EscalateIs(e, base, t);
    SplicedProfile(e, base, t);
    var forged := Profile(Repeat(Filler, t + 4) + Sanitize(base), Decimal(e.uid), Admin);
    var d := Decrypt(e, Escalate(e, base).value);
    assert d == Ok(URLEncode(forged));
    assert URLDecode(d.value) == forged;
  }
}
