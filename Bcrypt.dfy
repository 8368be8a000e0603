/**
 * A stand-in for the two bcrypt calls the core makes: `hashpw(password,
 * gensalt())` and `checkpw(password, hashed)`. A hash string has bcrypt's
 * modular-crypt layout: the version-and-cost prefix `$2b$12$`, the 22-character
 * salt and a 31-character digest, all in bcrypt's radix-64 alphabet. `CheckPw`
 * checks the way bcrypt checks: it takes the salt back out of the stored hash,
 * hashes the candidate password with it and compares. Unlike `checkpw`, it
 * accepts only the version `2b` and the cost 12 that `gensalt()` produces here.
 *
 * The salt is the random part of `gensalt()` and is therefore a parameter.
 * The digest function is a placeholder for EksBlowfish: nothing proved here
 * depends on which function it is, only on its length and its alphabet.
 */
module Bcrypt {
  import opened Text

  /** `$2b$` names the algorithm version, `12$` the cost `gensalt()` uses by default. */
  const Prefix: string := "$2b$12$"
  const SaltLength: nat := 22
  const DigestLength: nat := 31
  const HashLength: nat := 60

  /** bcrypt's radix-64 alphabet: `.`, `/`, the letters and the digits. */
  predicate IsRadix64(c: char) {
    c == '.' || c == '/' || IsUpper(c) || IsLower(c) || IsDigit(c)
  }

  function Radix64(n: int): (c: char)
    requires 0 <= n < 64
    ensures IsRadix64(c)
  {
    if n == 0 then '.'
    else if n == 1 then '/'
    else if n < 28 then ('A' as int + n - 2) as char
    else if n < 54 then ('a' as int + n - 28) as char
    else ('0' as int + n - 54) as char
  }

  /** The last of the 22 characters encodes only 2 of the salt's 128 bits, so
      it is one of the four characters whose low 4 bits are zero. */
  predicate IsSaltTail(c: char) {
    c == '.' || c == 'O' || c == 'e' || c == 'u'
  }

  predicate IsSalt(s: string) {
    && |s| == SaltLength
    && (forall k :: 0 <= k < |s| ==> IsRadix64(s[k]))
    && IsSaltTail(s[SaltLength - 1])
  }

  /** What `gensalt()` contributes: 16 random bytes as 22 radix-64 characters. */
  type Salt = s: string | IsSalt(s) witness "......................"

  function Mix(s: string, k: int): int {
    if s == [] then k else 31 * Mix(s[1..], k) + s[0] as int
  }

  /** Placeholder for bcrypt's EksBlowfish digest of the password under the salt. */
  function Digest(password: string, salt: Salt): (d: string)
    ensures |d| == DigestLength
    ensures forall k :: 0 <= k < |d| ==> IsRadix64(d[k])
  {
    seq(DigestLength, k => Radix64(Mix(password + salt, k) % 64))
  }

  /** `bcrypt.hashpw(password, salt)`: a 60-character string that holds no comma
      and no whitespace, so it can sit in a comma-separated line. */
  function HashPw(password: string, salt: Salt): (h: string)
    ensures |h| == HashLength
    ensures forall k :: 0 <= k < |h| ==> h[k] != ',' && h[k] !in Whitespace
  {
    var h := Prefix + salt + Digest(password, salt);
    assert forall k :: 0 <= k < |Prefix| ==> h[k] == Prefix[k];
    assert forall k :: |Prefix| <= k < |Prefix| + SaltLength ==> h[k] == salt[k - |Prefix|];
    assert forall k :: |Prefix| + SaltLength <= k < |h| ==>
      h[k] == Digest(password, salt)[k - |Prefix| - SaltLength];
    h
  }

  /** The salt a well-formed hash string carries. */
  function SaltOf(h: string): string
    requires |h| == HashLength
  {
    h[|Prefix|..|Prefix| + SaltLength]
  }

  /** `bcrypt.checkpw(password, hashed)`: re-hash the password with the salt
      stored in `hashed` and compare. A malformed hash does not verify. */
  function CheckPw(password: string, hashed: string): (ok: bool)
    ensures ok ==> |hashed| == HashLength && StartsWith(hashed, Prefix)
  {
    && |hashed| == HashLength
    && hashed[..|Prefix|] == Prefix
    && IsSalt(SaltOf(hashed))
    && hashed == HashPw(password, SaltOf(hashed))
  }

  /** The salt can be read back out of a hash. */
  lemma SaltOfHashPw(password: string, salt: Salt)
    ensures SaltOf(HashPw(password, salt)) == salt
    ensures HashPw(password, salt)[..|Prefix|] == Prefix
  {
    var h := HashPw(password, salt);
    assert h == Prefix + salt + Digest(password, salt);
    assert h[..|Prefix|] == Prefix;
    assert h[|Prefix|..|Prefix| + SaltLength] == salt;
  }

  /** A password verifies against its own hash, whatever the salt. */
  lemma CheckPwHashPw(password: string, salt: Salt)
    ensures CheckPw(password, HashPw(password, salt))
  {
    SaltOfHashPw(password, salt);
  }

  /** Salting: hashing one password under two salts gives two different
      strings, and the password verifies against both. */
  lemma HashPwSalted(password: string, salt1: Salt, salt2: Salt)
    requires salt1 != salt2
    ensures HashPw(password, salt1) != HashPw(password, salt2)
    ensures CheckPw(password, HashPw(password, salt1)) && CheckPw(password, HashPw(password, salt2))
  {
    SaltOfHashPw(password, salt1);
    SaltOfHashPw(password, salt2);
  }

  /** A stored hash verifies a password exactly when it is the hash of that
      password under some salt. */
  lemma CheckPwIffHashOf(password: string, hashed: string)
    ensures CheckPw(password, hashed) <==> exists salt: Salt :: hashed == HashPw(password, salt)
  {
    if CheckPw(password, hashed) {
      var salt: Salt := SaltOf(hashed);
      assert hashed == HashPw(password, salt);
    }
    if exists salt: Salt :: hashed == HashPw(password, salt) {
      var salt: Salt :| hashed == HashPw(password, salt);
      CheckPwHashPw(password, salt);
    }
  }
}
