# go_cryptopals, set 2, in Dafny

A model of the second set of the cryptopals challenges as the Go package `set2`
exercises it:

- PKCS#7 padding and unpadding (section 6.3 of RFC 5652);
- ECB and CBC modes (sections 6.1 and 6.2 of NIST SP 800-38A) over an abstract
  block cipher;
- the ECB/CBC detection oracle;
- the suffix oracle of challenge 12, with its key-size probe and one round of
  the byte-at-a-time attack;
- the `key=value&...` profile codec of challenge 13;
- the ECB cut-and-paste attack `Escalate`, which forges an `admin` token
  without the key.

The Go implementation files of the package are not part of this model. Only
`set2/set2_test.go` is, so every operation follows:
- what those tests pin down;
- the cryptopals challenge statements 9 to 13;
- the two standards above.

Every concrete case of the tests is a lemma of `Set2Tests`, except those listed under "## Left out".

Modules, one per file:

| file | module | contents |
|---|---|---|
| bytes.dfy | `Bytes`, `Outcomes` | bytes (`bv8`), Go's `byte()` truncation, `bytes.Repeat`, XOR; the `Result`/`Option` outcome types and the error kinds |
| arith.dfy | `Arith` | two facts about integer division |
| padding.dfy | `Padding` | `PKCS7`, `RemovePKCS7` |
| modes.dfy | `Modes` | the block cipher as a pair of keyed functions `Primitive(encrypt, decrypt)`, ECB, CBC |
| detection.dfy | `Detection` | `GuessBlockCipher`, `OracleEncrypt` |
| suffix_oracle.dfy | `SuffixOracle` | challenge 12's `Encryptor`, `KeySize`, one round of `BruteForceSingleByte` |
| profile.dfy | `ProfileCodec` | `URLEncode`, `URLDecode`, `ProfileFor` |
| forgery.dfy | `ProfileForgery` | `ProfileEncryptor` (`Encrypt`, `Decrypt`) and `Escalate` |
| set2_tests.dfy | `Set2Tests` | the test vectors |

Conventions:

- **AES.** AES is a `Primitive` whose `IsBlockCipher` property says that
  `decrypt(key, encrypt(key, b)) == b` for every 16-byte key and block. Every
  lemma holds for all such primitives.
- **Random values.** The random keys, IVs, mode choices, prefixes, suffixes and
  uids of the Go package are fields of the encryptor records, or parameters.
- **Errors.** Go's `error` results, and the failure cases the model adds
  (listed under "## Left out"), become `Result` values whose error kinds are
  `PaddingInvalid`, `ShapeError` and `AlignmentFailure`.
- **Strings.** Go strings are byte strings, so the codec works on `seq<byte>`,
  and test strings appear as byte displays.

## Model

Rows whose third column starts with "proof helper" are facts the main
lemmas use; they cite the test whose proof needs them.

| member | source | states |
|---|---|---|
| Bytes.Repeat | set2/set2_test.go:127 | `strings.Repeat`/`bytes.Repeat`: exactly `n` bytes, each the given one |
| Bytes.Xor | set2/set2_test.go:58-75 | the CBC chaining XOR: same length, and byte `i` is the XOR of the two bytes `i` |
| Bytes.XorCancels | set2/set2_test.go:58-75 | XOR-ing with the same block twice gives back the input, which undoes the chaining |
| Padding.PKCS7 | set2/set2_test.go:16-37 | empty input or a non-positive block size gives nil; otherwise the result is longer than the input by 1..B bytes, ends on a block boundary, starts with the input, and every added byte holds the pad length (as Go's `byte()`) |
| Padding.PadReachesBoundary | set2/set2_test.go:16-31 | the pad length `B - len mod B` is in 1..B and reaches a boundary |
| Padding.PaddedLength | set2/set2_test.go:16-31 | the padded length is the next multiple of B strictly above the input length |
| Padding.PadBytes | set2/set2_test.go:16-31 | for B below 256 every pad byte holds the pad length exactly |
| Padding.RemovePKCS7 | set2/set2_test.go:38-53 | success exactly when some n in 1..B has the last n bytes all equal to n; the result is then a proper prefix, at most B shorter; every failure is `PaddingInvalid` |
| Padding.RoundTrip | set2/set2_test.go:38-53 | unpadding the padding of any non-empty input gives it back, the whole-block case included |
| Padding.OnlyPaddingUnpads | set2/set2_test.go:38-53 | conversely, an aligned string that unpads to a non-empty `d` is exactly the padding of `d` |
| Padding.LengthUnique | set2/set2_test.go:16-31 | only one pad length in 1..B reaches the boundary from a given length |
| Padding.TamperedPadRejected | set2/set2_test.go:38-53 | changing any pad byte but the last makes unpadding fail with `PaddingInvalid` |
| Modes.Aligned | set2/set2_test.go:58-75 | proof helper: `n` whole blocks are block-aligned and hold `n` blocks |
| Modes.BlockAtCons | set2/set2_test.go:58-75 | proof helper: block indexing over a leading block and the rest |
| Modes.BlockAtDrop | set2/set2_test.go:58-75 | proof helper: block indexing after dropping the first block |
| Modes.BlocksEqual | set2/set2_test.go:58-75 | two aligned strings with equal blocks are equal |
| Modes.EcbEncrypt | set2/set2_test.go:124-133 | ECB keeps the length of block-aligned data |
| Modes.EcbDecryptBlocks | set2/set2_test.go:198-211 | ECB decryption of whole blocks keeps the length |
| Modes.AESECBEncrypt | set2/set2_test.go:124-133 | the ciphertext is as long as the padded plaintext |
| Modes.EcbDecrypt | set2/set2_test.go:198-211 | success exactly for a whole number of blocks, with the same length; a failure is `ShapeError` |
| Modes.EcbEncryptBlockAt | set2/set2_test.go:124-133 | ciphertext block `i` is the primitive applied to plaintext block `i` |
| Modes.EcbDecryptBlockAt | set2/set2_test.go:198-211 | plaintext block `i` is the inverse primitive applied to ciphertext block `i` |
| Modes.EcbRoundTrip | set2/set2_test.go:198-211 | ECB decryption inverts ECB encryption |
| Modes.BlockAtAppend | set2/set2_test.go:198-211 | proof helper: block indexing into a concatenation whose front part is aligned |
| Modes.BlockAtSlice | set2/set2_test.go:198-211 | proof helper: block indexing into a block-aligned slice |
| Modes.EcbSlice | set2/set2_test.go:198-211 | a block-aligned slice of ECB ciphertext is the ECB encryption of the same slice of plaintext |
| Modes.EcbConcat | set2/set2_test.go:198-211 | ECB of a concatenation of aligned strings is the concatenation of their encryptions |
| Modes.EcbSplice | set2/set2_test.go:198-211 | the cut-and-paste property: whole blocks from two encryptions under one key decrypt to the matching plaintext blocks, in order |
| Modes.EcbEqualBlocks | set2/set2_test.go:124-133 | two ECB ciphertext blocks are equal exactly when their plaintext blocks are |
| Modes.CbcChain | set2/set2_test.go:58-75 | CBC chaining keeps the length |
| Modes.CbcUnchain | set2/set2_test.go:58-75 | CBC unchaining keeps the length |
| Modes.AESCBCEncrypt | set2/set2_test.go:64 | the ciphertext is as long as the padded plaintext |
| Modes.AESCBCDecrypt | set2/set2_test.go:65 | success exactly for a whole number of blocks, with the same length; a failure is `ShapeError` |
| Modes.CbcChainBlockAt | set2/set2_test.go:58-75 | ciphertext block `i` is the primitive applied to plaintext block `i` XOR the previous ciphertext block (the IV for block 0) |
| Modes.CbcUnchainBlockAt | set2/set2_test.go:58-75 | plaintext block `i` is the decrypted ciphertext block `i` XOR the previous ciphertext block (the IV for block 0) |
| Modes.CbcUnchainChain | set2/set2_test.go:58-75 | unchaining inverts chaining from any starting block |
| Modes.CbcRoundTrip | set2/set2_test.go:64-65 | CBC decryption with the same key and IV gives back the padded input |
| Modes.CbcFullCircle | set2/set2_test.go:58-75 | CBC decryption, then `RemovePKCS7`, gives back any non-empty input with no error |
| Detection.GuessBlockCipher | set2/set2_test.go:105 | ECB exactly when two distinct whole 16-byte blocks are equal |
| Detection.ScanFinds | set2/set2_test.go:105 | the block scan with a set of the blocks seen finds a repeat exactly when there is one |
| Detection.NextBoundary | set2/set2_test.go:101-110 | proof helper: some block boundary lies within a block after any offset |
| Detection.EcbRepeatsIff | set2/set2_test.go:124-133 | an ECB ciphertext repeats a block exactly when its plaintext does |
| Detection.PeriodicInputRepeats | set2/set2_test.go:101-110 | a block-periodic input of at least 47 bytes, after any prefix and before any suffix, makes two padded blocks equal |
| Detection.GuessMatchesEcbOracle | set2/set2_test.go:101-110 | whenever the oracle chose ECB, the guess on a block-periodic input of 47 bytes or more matches its report |
| SuffixOracle.Encrypt | set2/set2_test.go:127 | the ciphertext of `input + secret` is aligned and has the padded length of the two together |
| SuffixOracle.KeySizeFrom | set2/set2_test.go:114-122 | the probe from input length `len` on: the first change in ciphertext length from `base`, 0 past `MaxProbe`; a multiple of the block size whenever `base` is one |
| SuffixOracle.KeySize | set2/set2_test.go:114-122 | the probe from a 1-byte filler: its result is a multiple of the block size, and `KeySizeIsBlockSize` proves it is 16 |
| SuffixOracle.NextBlockNumber | set2/set2_test.go:114-122 | proof helper: one more byte moves the block count by at most one |
| SuffixOracle.KeySizeFromFindsJump | set2/set2_test.go:114-122 | from any point before the next boundary, the probe sees a ciphertext grow by exactly one block |
| SuffixOracle.KeySizeIsBlockSize | set2/set2_test.go:114-122 | `KeySize` returns the block size, which is the key length (16) |
| SuffixOracle.RoundFiller | set2/set2_test.go:135-142 | the filler for secret byte `p` puts that byte last in its block |
| SuffixOracle.PlainBlock | set2/set2_test.go:135-142 | padding leaves every whole block of the plaintext unchanged |
| SuffixOracle.EncryptBlock | set2/set2_test.go:135-142 | the ciphertext block of a whole plaintext block is the primitive applied to it |
| SuffixOracle.FindCandidate | set2/set2_test.go:135-142 | candidates tried in ascending order: a byte it returns has a probe block equal to the target; `FindCandidateFirst` shows it is the only matching one |
| SuffixOracle.RecoverNextByte | set2/set2_test.go:135-142 | one round: a byte it returns makes the probe's block equal the block that ends in the next secret byte; `RecoverNextByteCorrect` proves it is that byte |
| SuffixOracle.RecoverNextByteCorrect | set2/set2_test.go:135-142 | one round, with the secret bytes before `p` known, recovers exactly secret byte `p` |
| SuffixOracle.FindCandidateFirst | set2/set2_test.go:135-142 | the candidate search returns the only matching candidate |
| ProfileCodec.URLEncode | set2/set2_test.go:157-167 | `email=…&uid=…&role=…` with the fields in that order and unchanged: its length is the three keys, three `=`, two `&` and the fields; `DecodeEncode` proves `URLDecode` inverts it |
| ProfileCodec.IndexOf | set2/set2_test.go:146-156 | the first position of a delimiter: it holds the delimiter and none comes before |
| ProfileCodec.Split | set2/set2_test.go:146-156 | `strings.Split`: at least one piece, no piece holds the separator, and joining them back gives the input |
| ProfileCodec.IndexOfAfter | set2/set2_test.go:146-156 | after a separator-free piece the first separator is the one right after it |
| ProfileCodec.SplitAfter | set2/set2_test.go:146-156 | splitting after a separator-free piece gives that piece first |
| ProfileCodec.ApplyPair | set2/set2_test.go:146-156 | definition: a pair without `=` is ignored; otherwise it is split at its first `=` and sets the field its key names, unknown keys ignored; `ApplyPairOf` states its effect |
| ProfileCodec.ApplyPairs | set2/set2_test.go:146-156 | definition: pairs applied left to right, so the last occurrence of a key wins; `ApplyThree` unfolds it |
| ProfileCodec.URLDecode | set2/set2_test.go:146-156 | definition: split on `&`, each pair read by `ApplyPair`, missing fields empty; `DecodeEncode` proves it inverts `URLEncode` on fields without `&` |
| ProfileCodec.ApplyPairOf | set2/set2_test.go:146-156 | `key=value` sets the field the key names, and unknown keys change nothing |
| ProfileCodec.KeysHaveNoEq | set2/set2_test.go:146-167 | proof helper: the three keys are distinct and hold no `=` |
| ProfileCodec.KeysHaveNoAmp | set2/set2_test.go:146-167 | proof helper: the keys and the role `user` hold no `&` |
| ProfileCodec.SplitEncoded | set2/set2_test.go:146-167 | an encoded profile whose fields hold no `&` splits into its three pairs |
| ProfileCodec.DecodeEncode | set2/set2_test.go:146-167 | `URLDecode(URLEncode(p)) == p` for every profile whose fields hold no `&` |
| ProfileCodec.ApplyThree | set2/set2_test.go:146-156 | proof helper: three pairs are applied left to right |
| ProfileCodec.Sanitize | set2/set2_test.go:168-184 | the result holds no `&` or `=` and is no longer than the input |
| ProfileCodec.SanitizeOnlyRemoves | set2/set2_test.go:168-184 | every byte kept was in the input |
| ProfileCodec.SanitizeKeepsClean | set2/set2_test.go:185-194 | an email without delimiters is left as it is |
| ProfileCodec.SanitizeConcat | set2/set2_test.go:168-184 | sanitizing works piece by piece |
| ProfileCodec.Digit | set2/set2_test.go:175 | a decimal digit is an ASCII digit |
| ProfileCodec.Decimal | set2/set2_test.go:175 | the uid is non-empty and all digits |
| ProfileCodec.DecimalHasNoDelimiter | set2/set2_test.go:175 | a decimal uid holds neither `&` nor `=` |
| ProfileCodec.ProfileFor | set2/set2_test.go:168-184 | the encoding is 21 bytes longer than the sanitized email and the uid together |
| ProfileCodec.ProfileForDecodes | set2/set2_test.go:168-184 | decoding what `ProfileFor` wrote gives the sanitized email, the uid (non-empty) and role `user` |
| ProfileForgery.Encrypt | set2/set2_test.go:188 | the token has the padded length of the profile for the email |
| ProfileForgery.Decrypt | set2/set2_test.go:189 | a failure is a `ShapeError` (not whole blocks) or `PaddingInvalid` |
| ProfileForgery.DecryptEncrypt | set2/set2_test.go:185-194 | a token decrypts to the profile it was made for, which decodes to the sanitized email, the uid and role `user` |
| ProfileForgery.Splice | set2/set2_test.go:201 | the forged token is as long as the first token |
| ProfileForgery.AdminEmailSurvives | set2/set2_test.go:201 | the crafted second email (ten filler bytes, then `admin` and eleven 0x0b) passes sanitizing unchanged and is 26 bytes long |
| ProfileForgery.SanitizeFilled | set2/set2_test.go:201 | filler bytes before an email survive sanitizing |
| ProfileForgery.GrowthStep | set2/set2_test.go:201 | proof helper: growing a length by `t` moves it to the next block exactly when it reaches the boundary |
| ProfileForgery.AlignmentFrom | set2/set2_test.go:201 | the search over growing filler: a count it returns lies in `t`..`MaxAlign` and changes the token length; it fails only with `AlignmentFailure` |
| ProfileForgery.AlignmentFinds | set2/set2_test.go:201 | against any oracle with the encryptor's token lengths, the alignment search succeeds with the first length that reaches a boundary |
| ProfileForgery.GrownLength | set2/set2_test.go:201 | the token for `t` filler bytes before an email has the padded length of the profile for it plus `t` |
| ProfileForgery.OracleLengths | set2/set2_test.go:201 | the oracle's token lengths for every number of filler bytes |
| ProfileForgery.AlignmentFound | set2/set2_test.go:201 | the search started at one filler byte returns a count in 1..16 that reaches the boundary |
| ProfileForgery.AlignmentOf | set2/set2_test.go:201 | against the encryptor, the search succeeds, and the count makes the profile end on a boundary |
| ProfileForgery.PadAfterAligned | set2/set2_test.go:207 | padding an aligned head plus a partial block adds one block and keeps the head |
| ProfileForgery.PadKeeps | set2/set2_test.go:207 | padding keeps every slice of the data |
| ProfileForgery.SpliceDecrypts | set2/set2_test.go:207 | the first token minus its last block, then the second token's second block, decrypts to the aligned head and that padded block |
| ProfileForgery.EncodedAtRole | set2/set2_test.go:207 | an encoded profile is its head up to `role=`, then the role |
| ProfileForgery.UserPlain | set2/set2_test.go:201 | with four more filler bytes the profile is a head `t` bytes longer than the base profile, then `user` |
| ProfileForgery.AdminBlockAt | set2/set2_test.go:201 | the second padded block of the crafted email's profile is `admin` with its padding |
| ProfileForgery.ForgedDecodes | set2/set2_test.go:207-210 | an aligned head followed by that block unpads to the encoding of the profile with role `admin`, which decodes back to that profile |
| ProfileForgery.AdminPadding | set2/set2_test.go:207 | the padding of an aligned head plus `admin` is the head plus `admin` and eleven 0x0b |
| ProfileForgery.AdminTokenLength | set2/set2_test.go:201 | the second token has at least two blocks |
| ProfileForgery.EscalateIs | set2/set2_test.go:201 | proof helper: once the alignment is found, `Escalate` returns the splice of the two tokens |
| ProfileForgery.ForgedTokenDecrypts | set2/set2_test.go:207-210 | the splice of two such tokens decrypts to the profile with role `admin` |
| ProfileForgery.FilledHasNoAmp | set2/set2_test.go:201 | proof helper: filler before a sanitized email holds no `&` |
| ProfileForgery.UserSide | set2/set2_test.go:201 | what the first token offers the splice: `user` alone at the end, an aligned head, no `&` in the fields |
| ProfileForgery.SplicedProfile | set2/set2_test.go:207-210 | the forged token decrypts to the profile with filler and the sanitized email, the uid and role `admin`, and decodes to it |
| ProfileForgery.Escalate | set2/set2_test.go:198-211 | the cut-and-paste attack, using the encryptor only as an oracle: it fails only with `AlignmentFailure`, and `EscalateMakesAdmin` proves it never fails and forges role `admin` |
| ProfileForgery.EscalateMakesAdmin | set2/set2_test.go:198-211 | for every base email and uid, `Escalate` succeeds, and its token decrypts and decodes to role `admin` with the encryptor's uid, the email being filler then the sanitized base email |
| Set2Tests.PadSixteenToTwenty | set2/set2_test.go:16-23 | any 16 bytes padded to 20 are followed by four 0x04 |
| Set2Tests.PadSixWholeBlock | set2/set2_test.go:24-31 | any 6 bytes at block size 6 gain a whole block of 0x06 |
| Set2Tests.PadToTwenty | set2/set2_test.go:16-23 | the "YELLOW SUBMARINE" vector |
| Set2Tests.PadWholeBlock | set2/set2_test.go:24-31 | the "YELLOW" vector |
| Set2Tests.PadEmpty | set2/set2_test.go:32-37 | padding nil gives nil |
| Set2Tests.UnpadFromTwenty | set2/set2_test.go:38-45 | unpadding the 20-byte vector gives "YELLOW SUBMARINE" |
| Set2Tests.UnpadWholeBlock | set2/set2_test.go:46-53 | unpadding the whole-block vector gives "YELLOW" |
| Set2Tests.CbcVector | set2/set2_test.go:58-75 | the challenge-10 key, IV and input come back from CBC and unpadding with no error |
| Set2Tests.RepeatedIsPeriodic | set2/set2_test.go:102 | "things repeated …" is 47 bytes and repeats block by block |
| Set2Tests.GuessRepeatedInput | set2/set2_test.go:101-110 | for that input, the guess matches the oracle whenever it chose ECB, whatever key, IV, prefix and suffix |
| Set2Tests.KeySizeVector | set2/set2_test.go:114-122 | `KeySize` equals the length of the encryptor's key |
| Set2Tests.SuffixOracleLooksEcb | set2/set2_test.go:124-133 | three key sizes of 'A' make the suffix oracle's ciphertext classify as ECB |
| Set2Tests.EncodeBar | set2/set2_test.go:157-167 | bar/1234/user encodes to "email=bar&uid=1234&role=user" |
| Set2Tests.DecodeBar | set2/set2_test.go:146-156 | and that string decodes to bar/1234/user |
| Set2Tests.ProfileForDropsAmp | set2/set2_test.go:168-184 | an email with one `&` between clean parts decodes as the parts joined, with role `user` and a non-empty uid |
| Set2Tests.SanitizeDropsAmp | set2/set2_test.go:168-184 | sanitizing removes that `&` and nothing else |
| Set2Tests.ProfileForJohn | set2/set2_test.go:168-184 | "john.doe@test&people.com" decodes to "john.doe@testpeople.com", role `user`, a non-empty uid |
| Set2Tests.EncryptorKeepsEmail | set2/set2_test.go:185-194 | a token for an email without delimiters decrypts and decodes to that email |
| Set2Tests.EncryptorRoundTrip | set2/set2_test.go:185-194 | the "test@people.com" round trip |
| Set2Tests.EscalateMe | set2/set2_test.go:198-211 | escalating "me@test.com" gives a token that decrypts to role "admin" |

## Left out

- AES itself is a foreign library call. It is an abstract `Primitive` on 16-byte keys and blocks that `decrypt` inverts. Other key lengths are not modelled.
- The challenge-10 fixture: the network fetch (`utils.GetFile`), base64 decoding and newline handling (set2/set2_test.go:81-96). These are I/O and a library decoder.
- Randomness is a parameter:
  - the oracle's key, IV, prefix, suffix and mode;
  - the encryptors' keys;
  - the uid, fixed per `ProfileEncryptor` as a number written in decimal.
- `BruteForceSingleByte` (set2/set2_test.go:135-142): only one round is modelled (`SuffixOracle.RecoverNextByte`, proved correct for every position). The loop over all positions and the substring check are left out.
- `BruteForceSingleByteHarder` (set2/set2_test.go:214-219): the test only prints its result.
- `cmp.Diff`, `fmt` and `t.Errorf` reporting.
- Detection.GuessMatchesEcbOracle: fixes the oracle's choice to ECB, so it proves only the ECB case of the test at lines 101-110. That the guess is CBC when CBC was used relies on the cipher producing no two equal blocks, which no block-cipher property implies.
- Set2Tests.GuessRepeatedInput: only proves the ECB case of the test at lines 101-110, for the reason given on the previous line.
- Padding.RoundTrip: requires a block size below 256. Go stores the pad length with `byte()`, so for larger sizes the pad byte wraps and the round trip does not hold. The callers use 6, 16 and 20.
- SuffixOracle.KeySize: the probe tries at most 64 input lengths and returns 0 when none grows the ciphertext. The first growth is always within 16 lengths.
- ProfileForgery.Escalate: tries at most 16 filler counts (`MaxAlign`) and otherwise fails with `AlignmentFailure`. The lemmas show that it never fails.
- ProfileForgery.Escalate: the attack sees the encryptor only as a function from emails to tokens (`Oracle`); the key is never read.
- `ProfileCodec.Sanitize` removes both `&` and `=` from the email, as cryptopals challenge 13 asks. The test at lines 168-184 shows only the `&`. The removal happens in `ProfileFor`, while `URLEncode` writes fields as they are; an encoder could do the removal itself, and the tests at lines 157-184 cannot tell the two places apart.
- `ProfileForgery.Decrypt` returns a `Result` (error on a ragged token or bad padding). The test reads the plaintext directly.
- ProfileCodec.URLDecode: two choices the tests do not pin down. A pair is split at its first `=`, so a value may hold `=`. A pair without `=` is ignored rather than rejected. A Go decoder built on `strings.Split(pair, "=")` could cut the value at a second `=`, or fail on such a pair.
- Modes.AESCBCDecrypt: returns a `Result` (`ShapeError` on a partial final block); the Go function returns the plaintext alone (set2/set2_test.go:65, 92), and the tests do not show what it does on a partial block.
