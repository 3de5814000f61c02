/**
 * The console application's password helpers: salts, PBKDF2-HMAC-SHA256 hashes
 * written as upper-case hexadecimal, their check, and the random password generator.
 * The key derivation and the random sources are oracles handed in as parameters.
 */
module PassUtils {
  import opened Common

  type Byte = x: int | 0 <= x < 256

  /** Size of a salt, in bytes. */
  const SaltSize := 16

  /** Size of the derived key: 32 bytes, a 256-bit key. */
  const KeySize := 32

  type DerivedKey = k: seq<Byte> | |k| == KeySize witness seq(32, _ => 0)

  /** PBKDF2-HMAC-SHA256 with 10000 iterations: password and salt to a 32-byte key. */
  type KeyDerivation = (Text, Text) -> DerivedKey

  // ---------------------------------------------------------------------------
  // Salt
  // ---------------------------------------------------------------------------

  /** generateSalt: the first 16 bytes the random pool yields, each taken as one character. */
  function GenerateSalt(pool: seq<Byte>): (salt: Text)
    requires |pool| >= SaltSize
    ensures |salt| == SaltSize
    ensures forall i :: 0 <= i < SaltSize ==> salt[i] as int == pool[i]
  {
    seq(SaltSize, i requires 0 <= i < SaltSize => pool[i] as char)
  }

  // ---------------------------------------------------------------------------
  // Hexadecimal, as the default HexEncoder writes it
  // ---------------------------------------------------------------------------

  /** One digit of HexEncoder's default alphabet "0123456789ABCDEF". */
  predicate IsHexDigit(c: char) {
    '0' <= c <= '9' || 'A' <= c <= 'F'
  }

  /** The upper-case digit for a nibble. */
  function HexDigit(v: nat): (c: char)
    requires v < 16
    ensures IsHexDigit(c)
  {
    if v < 10 then ('0' as int + v) as char else ('A' as int + v - 10) as char
  }

  /** The value of one digit; None for any other character, lower case included. */
  function DigitValue(c: char): (v: Option<nat>)
    ensures v.Some? <==> IsHexDigit(c)
    ensures v.Some? ==> v.value < 16 && HexDigit(v.value) == c
  {
    if '0' <= c <= '9' then Some(c as int - '0' as int)
    else if 'A' <= c <= 'F' then Some(c as int - 'A' as int + 10)
    else None
  }

  lemma DigitRoundTrip(v: nat)
    requires v < 16
    ensures DigitValue(HexDigit(v)) == Some(v)
  {
  }

  /** A byte is its high nibble times 16 plus its low nibble, and back. */
  lemma Nibbles(b: Byte, hi: nat, lo: nat)
    requires hi < 16 && lo < 16
    ensures b / 16 < 16 && b % 16 < 16
    ensures b == hi * 16 + lo <==> (hi == b / 16 && lo == b % 16)
  {
  }

  /** Two upper-case digits per byte, high nibble first, no separators. */
  function HexEncode(bytes: seq<Byte>): (s: Text)
    ensures |s| == 2 * |bytes|
    ensures forall i :: 0 <= i < |s| ==> IsHexDigit(s[i])
  {
    if bytes == [] then []
    else
      Nibbles(bytes[0], 0, 0);
      [HexDigit(bytes[0] / 16), HexDigit(bytes[0] % 16)] + HexEncode(bytes[1..])
  }

  /** The inverse of HexEncode: None unless the text is an even number of upper-case digits. */
  function HexDecode(s: Text): (r: Option<seq<Byte>>)
    ensures r.Some? ==> 2 * |r.value| == |s|
    decreases |s|
  {
    if s == [] then Some([])
    else if |s| == 1 then None
    else match (DigitValue(s[0]), DigitValue(s[1]), HexDecode(s[2..]))
      case (Some(hi), Some(lo), Some(rest)) => Some([hi * 16 + lo] + rest)
      case _ => None
  }

  lemma {:induction false} DecodeEncode(bytes: seq<Byte>)
    ensures HexDecode(HexEncode(bytes)) == Some(bytes)
  {
    if bytes != [] {
      var b := bytes[0];
      Nibbles(b, b / 16, b % 16);
      var s := HexEncode(bytes);
      assert s == [HexDigit(b / 16), HexDigit(b % 16)] + HexEncode(bytes[1..]);
      assert s[2..] == HexEncode(bytes[1..]);
      DecodeEncode(bytes[1..]);
      DigitRoundTrip(b / 16);
      DigitRoundTrip(b % 16);
      assert HexDecode(s) == Some([b] + bytes[1..]);
      assert [b] + bytes[1..] == bytes;
    }
  }

  lemma {:induction false} EncodeDecode(s: Text, bytes: seq<Byte>)
    requires HexDecode(s) == Some(bytes)
    ensures HexEncode(bytes) == s
    decreases |s|
  {
    if s != [] {
      var hi := DigitValue(s[0]).value;
      var lo := DigitValue(s[1]).value;
      var rest := HexDecode(s[2..]).value;
      assert bytes == [hi * 16 + lo] + rest;
      EncodeDecode(s[2..], rest);
      Nibbles(bytes[0], hi, lo);
      assert bytes[1..] == rest;
      assert HexEncode(bytes) == [HexDigit(hi), HexDigit(lo)] + HexEncode(rest);
      assert s == [s[0], s[1]] + s[2..];
    }
  }

  /** Different keys never share an encoding. */
  lemma EncodeInjective(a: seq<Byte>, b: seq<Byte>)
    requires HexEncode(a) == HexEncode(b)
    ensures a == b
  {
    DecodeEncode(a);
    DecodeEncode(b);
  }

  // ---------------------------------------------------------------------------
  // Hashing and checking
  // ---------------------------------------------------------------------------

  /** hashPasswordPBKDF2: derive the 32-byte key and write it in hexadecimal. */
  function HashPasswordPBKDF2(derive: KeyDerivation, password: Text, salt: Text): (h: Text)
    ensures |h| == 2 * KeySize
    ensures HexDecode(h) == Some(derive(password, salt))
  {
    DecodeEncode(derive(password, salt));
    HexEncode(derive(password, salt))
  }

  /** verifyPasswordPBKDF2: hash again with the stored salt and compare the texts exactly. */
  function VerifyPasswordPBKDF2(derive: KeyDerivation, password: Text, salt: Text, hash: Text): (ok: bool)
    ensures ok ==> |hash| == 2 * KeySize && HexDecode(hash) == Some(derive(password, salt))
  {
    HashPasswordPBKDF2(derive, password, salt) == hash
  }

  /** A password always checks against its own hash under the same salt. */
  lemma HashThenVerify(derive: KeyDerivation, password: Text, salt: Text)
    ensures VerifyPasswordPBKDF2(derive, password, salt, HashPasswordPBKDF2(derive, password, salt))
  {
  }

  /**
   * What the check accepts: exactly the stored texts that decode to the derived key.
   * So a hash written in lower case, or of any other length, never matches.
   */
  lemma VerifyMeaning(derive: KeyDerivation, password: Text, salt: Text, hash: Text)
    ensures VerifyPasswordPBKDF2(derive, password, salt, hash) <==> HexDecode(hash) == Some(derive(password, salt))
  {
    if HexDecode(hash) == Some(derive(password, salt)) {
      EncodeDecode(hash, derive(password, salt));
    }
  }

  /** Two passwords check against one stored hash only if they derive the same key. */
  lemma VerifySameKey(derive: KeyDerivation, p1: Text, p2: Text, salt: Text, hash: Text)
    requires VerifyPasswordPBKDF2(derive, p1, salt, hash) && VerifyPasswordPBKDF2(derive, p2, salt, hash)
    ensures derive(p1, salt) == derive(p2, salt)
  {
    EncodeInjective(derive(p1, salt), derive(p2, salt));
  }

  // ---------------------------------------------------------------------------
  // Random passwords
  // ---------------------------------------------------------------------------

  const PasswordLength := 16
  const Lowercase: Text := "abcdefghijklmnopqrstuvwxyz"
  const Uppercase: Text := "ABCDEFGHIJKLMNOPQRSTUVWXYZ"
  const Digits: Text := "0123456789"
  const Specials: Text := "!@#$%^&*()-_=+"
  const AllowedChars: Text := Lowercase + Uppercase + Digits + Specials

  /** The password contains a character of the class. */
  predicate HasCharFrom(password: Text, chars: Text) {
    exists i :: 0 <= i < |password| && password[i] in chars
  }

  /**
   * The characters drawn before the shuffle: one per class from the four class
   * picks, then one from AllowedChars per remaining pick.
   */
  function Drawn(lower: nat, upper: nat, digit: nat, special: nat, picks: seq<nat>): (s: Text)
    requires lower < |Lowercase| && upper < |Uppercase| && digit < |Digits| && special < |Specials|
    requires forall k :: 0 <= k < |picks| ==> picks[k] < |AllowedChars|
    ensures |s| == 4 + |picks|
    ensures forall i :: 0 <= i < |s| ==> s[i] in AllowedChars
    ensures HasCharFrom(s, Lowercase) && HasCharFrom(s, Uppercase) && HasCharFrom(s, Digits) && HasCharFrom(s, Specials)
  {
    var s := [Lowercase[lower], Uppercase[upper], Digits[digit], Specials[special]]
      + seq(|picks|, k requires 0 <= k < |picks| => AllowedChars[picks[k]]);
    assert s[0] in Lowercase && s[1] in Uppercase && s[2] in Digits && s[3] in Specials;
    s
  }

  /**
   * std::shuffle, as the Fisher-Yates walk it performs: from the last position down
   * to the second, swap with a position at or before it. `swaps[i]` is the draw at i.
   */
  method Shuffle(a: array<char>, swaps: seq<nat>)
    requires |swaps| == a.Length
    requires forall i :: 0 <= i < |swaps| ==> swaps[i] <= i
    modifies a
    ensures multiset(a[..]) == multiset(old(a[..]))
  {
    var i := a.Length;
    while i > 1
      invariant 0 <= i <= a.Length
      invariant multiset(a[..]) == multiset(old(a[..]))
    {
      i := i - 1;
      var j := swaps[i];
      a[i], a[j] := a[j], a[i];
    }
  }

  /** Where each drawn character comes from. */
  lemma DrawnAt(lower: nat, upper: nat, digit: nat, special: nat, picks: seq<nat>)
    requires lower < |Lowercase| && upper < |Uppercase| && digit < |Digits| && special < |Specials|
    requires forall k :: 0 <= k < |picks| ==> picks[k] < |AllowedChars|
    ensures var s := Drawn(lower, upper, digit, special, picks);
      && s[0] == Lowercase[lower] && s[1] == Uppercase[upper] && s[2] == Digits[digit] && s[3] == Specials[special]
      && forall k :: 4 <= k < |s| ==> s[k] == AllowedChars[picks[k - 4]]
  {
    var head := [Lowercase[lower], Uppercase[upper], Digits[digit], Specials[special]];
    var tail := seq(|picks|, k requires 0 <= k < |picks| => AllowedChars[picks[k]]);
    var s := Drawn(lower, upper, digit, special, picks);
    assert s == head + tail;
    forall k | 4 <= k < |s|
      ensures s[k] == AllowedChars[picks[k - 4]]
    {
      assert s[k] == tail[k - 4];
    }
  }

  /** The first half of generateRandomPassword: one character per class, then the rest from AllowedChars. */
  method DrawCharacters(lower: nat, upper: nat, digit: nat, special: nat, picks: seq<nat>)
    returns (password: Text)
    requires lower < |Lowercase| && upper < |Uppercase| && digit < |Digits| && special < |Specials|
    requires |picks| == PasswordLength - 4 && forall k :: 0 <= k < |picks| ==> picks[k] < |AllowedChars|
    ensures password == Drawn(lower, upper, digit, special, picks)
  {
    password := [Lowercase[lower]];
    password := password + [Uppercase[upper]];
    password := password + [Digits[digit]];
    password := password + [Specials[special]];
    ghost var start := password;
    password := FillRemaining(password, picks);
    ghost var drawn := Drawn(lower, upper, digit, special, picks);
    DrawnAt(lower, upper, digit, special, picks);
    forall k | 0 <= k < |drawn|
      ensures password[k] == drawn[k]
    {
      if k < 4 {
        assert password[k] == password[..4][k] == start[k];
      }
    }
  }

  /** The `for` loop of generateRandomPassword: one character of AllowedChars per pick, up to PasswordLength. */
  method FillRemaining(start: Text, picks: seq<nat>) returns (password: Text)
    requires |start| == 4 && |picks| == PasswordLength - 4
    requires forall k :: 0 <= k < |picks| ==> picks[k] < |AllowedChars|
    ensures |password| == PasswordLength && password[..4] == start
    ensures forall k :: 4 <= k < PasswordLength ==> password[k] == AllowedChars[picks[k - 4]]
  {
    password := start;
    for i := 4 to PasswordLength
      invariant |password| == i && password[..4] == start
      invariant forall k :: 4 <= k < i ==> password[k] == AllowedChars[picks[k - 4]]
    {
      password := password + [AllowedChars[picks[i - 4]]];
    }
  }

  /**
   * generateRandomPassword. The random draws are parameters: one index into each
   * class, twelve indices into AllowedChars, and the shuffle's draws.
   */
  method GenerateRandomPassword(lower: nat, upper: nat, digit: nat, special: nat, picks: seq<nat>, swaps: seq<nat>)
    returns (password: Text)
    requires lower < |Lowercase| && upper < |Uppercase| && digit < |Digits| && special < |Specials|
    requires |picks| == PasswordLength - 4 && forall k :: 0 <= k < |picks| ==> picks[k] < |AllowedChars|
    requires |swaps| == PasswordLength && forall i :: 0 <= i < |swaps| ==> swaps[i] <= i
    ensures |password| == PasswordLength
    ensures multiset(password) == multiset(Drawn(lower, upper, digit, special, picks))
    ensures forall i :: 0 <= i < |password| ==> password[i] in AllowedChars
    ensures HasCharFrom(password, Lowercase) && HasCharFrom(password, Uppercase)
    ensures HasCharFrom(password, Digits) && HasCharFrom(password, Specials)
  {
    var drawn := DrawCharacters(lower, upper, digit, special, picks);
    var buffer := new char[PasswordLength](i requires 0 <= i < PasswordLength reads {} => drawn[i]);
    assert buffer[..] == drawn;
    Shuffle(buffer, swaps);
    password := buffer[..];
    MultisetKeepsClasses(drawn, password);
  }

  /** A rearrangement keeps the length, the alphabet and every class the original contains. */
  lemma MultisetKeepsClasses(s: Text, t: Text)
    requires multiset(s) == multiset(t)
    ensures |t| == |s|
    ensures (forall i :: 0 <= i < |s| ==> s[i] in AllowedChars) ==> forall i :: 0 <= i < |t| ==> t[i] in AllowedChars
    ensures forall chars :: HasCharFrom(s, chars) ==> HasCharFrom(t, chars)
  {
    assert |t| == |multiset(t)| == |multiset(s)| == |s|;
    forall i | 0 <= i < |t|
      ensures t[i] in s
    {
      assert t[i] in multiset(t);
    }
    forall chars | HasCharFrom(s, chars)
      ensures HasCharFrom(t, chars)
    {
      var i :| 0 <= i < |s| && s[i] in chars;
      assert s[i] in multiset(t);
      var j :| 0 <= j < |t| && t[j] == s[i];
    }
  }
}
