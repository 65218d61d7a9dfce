/**
 * The profile codec of TestChallenge13: `URLEncode`, `URLDecode` and `ProfileFor`.
 * Go strings are byte strings, so the codec works on bytes.
 */
module ProfileCodec {
  import opened Bytes

  const Amp: byte := 0x26  // '&', between pairs
  const Eq: byte := 0x3d   // '=', between key and value

  const EmailKey: seq<byte> := [0x65, 0x6d, 0x61, 0x69, 0x6c]  // "email"
  const UidKey: seq<byte> := [0x75, 0x69, 0x64]                // "uid"
  const RoleKey: seq<byte> := [0x72, 0x6f, 0x6c, 0x65]         // "role"
  const UserRole: seq<byte> := [0x75, 0x73, 0x65, 0x72]        // "user"

  datatype Profile = Profile(email: seq<byte>, uid: seq<byte>, role: seq<byte>)

  /** `email=<email>&uid=<uid>&role=<role>`, fields in this fixed order and written as they are. */
  function URLEncode(p: Profile): (r: seq<byte>)
    ensures |r| == |EmailKey| + |UidKey| + |RoleKey| + 5 + |p.email| + |p.uid| + |p.role|
  {
    Pair(EmailKey, p.email) + [Amp] + Pair(UidKey, p.uid) + [Amp] + Pair(RoleKey, p.role)
  }

  function Pair(key: seq<byte>, value: seq<byte>): seq<byte> {
    key + [Eq] + value
  }

  // ------------------------------------------------------------ splitting

  /** The first position of `x` in `s`. */
  function IndexOf(s: seq<byte>, x: byte): (i: nat)
    requires x in s
    ensures i < |s| && s[i] == x && x !in s[..i]
  {
    if s[0] == x then 0
    else
      var i := IndexOf(s[1..], x);
      assert s[..i + 1] == [s[0]] + s[1..][..i];
      i + 1
  }

  /** The reference for splitting: the parts joined back with the separator. */
  function Join(parts: seq<seq<byte>>, sep: byte): seq<byte>
    requires |parts| > 0
  {
    if |parts| == 1 then parts[0] else parts[0] + [sep] + Join(parts[1..], sep)
  }

  /** strings.Split: the pieces between the separators, none of which holds one. */
  function Split(s: seq<byte>, sep: byte): (parts: seq<seq<byte>>)
    ensures |parts| > 0
    ensures forall k :: 0 <= k < |parts| ==> sep !in parts[k]
    ensures Join(parts, sep) == s
    decreases |s|
  {
    if sep !in s then [s]
    else
      var i := IndexOf(s, sep);
      var rest := Split(s[i + 1..], sep);
      assert s == s[..i] + [sep] + s[i + 1..];
      assert ([s[..i]] + rest)[1..] == rest;
      [s[..i]] + rest
  }

  /** The first separator after a separator-free piece is the one right after it. */
  lemma IndexOfAfter(a: seq<byte>, sep: byte, b: seq<byte>)
    requires sep !in a
    ensures IndexOf(a + [sep] + b, sep) == |a|
  {
    var s := a + [sep] + b;
    var i := IndexOf(s, sep);
    assert s[|a|] == sep;
  }

  /** Splitting after a separator-free piece and a separator gives that piece first. */
  lemma SplitAfter(a: seq<byte>, sep: byte, b: seq<byte>)
    requires sep !in a
    ensures Split(a + [sep] + b, sep) == [a] + Split(b, sep)
  {
    var s := a + [sep] + b;
    IndexOfAfter(a, sep, b);
    assert s[..|a|] == a;
    assert s[|a| + 1..] == b;
  }

  // ------------------------------------------------------------ decoding

  /** A `key=value` pair (split at the first `=`) sets the field it names; other pairs are ignored. */
  function ApplyPair(p: Profile, pair: seq<byte>): Profile {
    if Eq !in pair then p
    else
      var i := IndexOf(pair, Eq);
      var key, value := pair[..i], pair[i + 1..];
      if key == EmailKey then p.(email := value)
      else if key == UidKey then p.(uid := value)
      else if key == RoleKey then p.(role := value)
      else p
  }

  /** Pairs applied left to right, so the last occurrence of a key wins. */
  function ApplyPairs(p: Profile, pairs: seq<seq<byte>>): Profile
    decreases |pairs|
  {
    if pairs == [] then p else ApplyPairs(ApplyPair(p, pairs[0]), pairs[1..])
  }

  /** Splits on `&`, then each pair on its first `=`; fields not present stay empty. */
  function URLDecode(s: seq<byte>): Profile {
    ApplyPairs(Profile([], [], []), Split(s, Amp))
  }

  /** A value written after `key=` is read back as that value. */
  lemma ApplyPairOf(p: Profile, key: seq<byte>, value: seq<byte>)
    requires Eq !in key
    ensures ApplyPair(p, Pair(key, value)) ==
      if key == EmailKey then p.(email := value)
      else if key == UidKey then p.(uid := value)
      else if key == RoleKey then p.(role := value)
      else p
  {
    var pair := key + [Eq] + value;
    IndexOfAfter(key, Eq, value);
    assert pair[..|key|] == key && pair[|key| + 1..] == value;
  }

  lemma KeysHaveNoEq()
    ensures Eq !in EmailKey && Eq !in UidKey && Eq !in RoleKey
    ensures EmailKey != UidKey && EmailKey != RoleKey && UidKey != RoleKey
  {
    assert |EmailKey| == 5 && |UidKey| == 3 && |RoleKey| == 4;
    assert UidKey[0] != RoleKey[0];
  }

  lemma KeysHaveNoAmp()
    ensures Amp !in EmailKey && Amp !in UidKey && Amp !in RoleKey && Amp !in UserRole
  {
    assert |EmailKey| == 5 && |UidKey| == 3 && |RoleKey| == 4 && |UserRole| == 4;
  }

  /** An encoded profile whose fields hold no `&` splits into its three pairs. */
  lemma SplitEncoded(p: Profile)
    requires Amp !in p.email && Amp !in p.uid && Amp !in p.role
    ensures Split(URLEncode(p), Amp) == [Pair(EmailKey, p.email), Pair(UidKey, p.uid), Pair(RoleKey, p.role)]
  {
    var e, u, r := Pair(EmailKey, p.email), Pair(UidKey, p.uid), Pair(RoleKey, p.role);
    KeysHaveNoAmp();
    assert Amp !in e && Amp !in u && Amp !in r;
    var tail := u + [Amp] + r;
    assert URLEncode(p) == e + [Amp] + tail;
    SplitAfter(e, Amp, tail);
    SplitAfter(u, Amp, r);
    assert Split(r, Amp) == [r];
    assert [e] + ([u] + [r]) == [e, u, r];
  }

  /** Decoding inverts encoding for every profile whose fields contain no `&`. */
  lemma DecodeEncode(p: Profile)
    requires Amp !in p.email && Amp !in p.uid && Amp !in p.role
    ensures URLDecode(URLEncode(p)) == p
  {
    var e, u, r := Pair(EmailKey, p.email), Pair(UidKey, p.uid), Pair(RoleKey, p.role);
    SplitEncoded(p);
    KeysHaveNoEq();
    var p0 := Profile([], [], []);
    var p1 := p0.(email := p.email);
    var p2 := p1.(uid := p.uid);
    ApplyPairOf(p0, EmailKey, p.email);
    ApplyPairOf(p1, UidKey, p.uid);
    ApplyPairOf(p2, RoleKey, p.role);
    ApplyThree(p0, e, u, r);
    assert ApplyPair(p0, e) == p1;
    assert ApplyPair(p1, u) == p2;
    assert ApplyPair(p2, r) == p;
  }

  /** Three pairs are applied one after the other. */
  lemma ApplyThree(p: Profile, a: seq<byte>, b: seq<byte>, c: seq<byte>)
    ensures ApplyPairs(p, [a, b, c]) == ApplyPair(ApplyPair(ApplyPair(p, a), b), c)
  {
    assert [a, b, c][1..] == [b, c] && [b, c][1..] == [c] && [c][1..] == [];
    var p1 := ApplyPair(p, a);
    var p2 := ApplyPair(p1, b);
    assert ApplyPairs(p, [a, b, c]) == ApplyPairs(p1, [b, c]);
    assert ApplyPairs(p1, [b, c]) == ApplyPairs(p2, [c]);
    assert ApplyPairs(p2, [c]) == ApplyPairs(ApplyPair(p2, c), []);
  }

  // ------------------------------------------------------------ ProfileFor

  /** The email with every `&` and `=` removed (not escaped). */
  function Sanitize(s: seq<byte>): (r: seq<byte>)
    ensures Amp !in r && Eq !in r
    ensures |r| <= |s|
  {
    if s == [] then []
    else if s[0] == Amp || s[0] == Eq then Sanitize(s[1..])
    else [s[0]] + Sanitize(s[1..])
  }

  /** Sanitizing only removes: every byte it keeps was in the input. */
  lemma {:induction false} SanitizeOnlyRemoves(s: seq<byte>)
    ensures forall x :: x in Sanitize(s) ==> x in s
  {
    if s != [] {
      SanitizeOnlyRemoves(s[1..]);
    }
  }

  /** An email without delimiters is kept as it is. */
  lemma {:induction false} SanitizeKeepsClean(s: seq<byte>)
    requires Amp !in s && Eq !in s
    ensures Sanitize(s) == s
  {
    if s != [] {
      assert s == [s[0]] + s[1..];
      SanitizeKeepsClean(s[1..]);
    }
  }

  /** Sanitizing works piece by piece. */
  lemma {:induction false} SanitizeConcat(a: seq<byte>, b: seq<byte>)
    ensures Sanitize(a + b) == Sanitize(a) + Sanitize(b)
  {
    if a != [] {
      assert (a + b)[1..] == a[1..] + b;
      SanitizeConcat(a[1..], b);
    } else {
      assert a + b == b;
    }
  }

  function Digit(d: nat): (r: byte)
    requires d < 10
    ensures IsDigit(r)
  {
    ByteOf(0x30 + d)
  }

  predicate IsDigit(x: byte) {
    0x30 <= x <= 0x39
  }

  /** The decimal digits of `n`, as strconv.Itoa writes them. */
  function Decimal(n: nat): (r: seq<byte>)
    ensures |r| > 0
    ensures forall i :: 0 <= i < |r| ==> IsDigit(r[i])
  {
    if n < 10 then [Digit(n)] else Decimal(n / 10) + [Digit(n % 10)]
  }

  /** A decimal uid never holds a delimiter. */
  lemma DecimalHasNoDelimiter(n: nat)
    ensures Amp !in Decimal(n) && Eq !in Decimal(n)
  {
    var d := Decimal(n);
    forall i | 0 <= i < |d|
      ensures d[i] != Amp && d[i] != Eq
    {
      assert IsDigit(d[i]);
    }
  }

  /**
   * The encoded profile for an email: `&` and `=` removed from the email, role
   * `user`, and a uid that is the decimal rendering of a number (random in the Go
   * package, a parameter here).
   */
  function ProfileFor(email: seq<byte>, uid: nat): (r: seq<byte>)
    ensures |r| == 21 + |Sanitize(email)| + |Decimal(uid)|
  {
    URLEncode(Profile(Sanitize(email), Decimal(uid), UserRole))
  }

  /** Decoding what ProfileFor wrote gives the sanitized email, a non-empty uid and role `user`. */
  lemma ProfileForDecodes(email: seq<byte>, uid: nat)
    ensures URLDecode(ProfileFor(email, uid)) == Profile(Sanitize(email), Decimal(uid), UserRole)
    ensures |URLDecode(ProfileFor(email, uid)).uid| > 0
  {
    DecimalHasNoDelimiter(uid);
    KeysHaveNoAmp();
    DecodeEncode(Profile(Sanitize(email), Decimal(uid), UserRole));
  }
}
