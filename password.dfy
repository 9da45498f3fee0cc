/**
 * The credential hasher of `AuthService` (`hash_password`, `verify_password`).
 *
 * Argon2id itself is not modelled. A hash is a PHC-style string: the
 * identifier and parameters of `Argon2::default()`, the salt, and a digest.
 * The digest is an injective stand-in for Argon2's output, so the two facts
 * the tests rely on (the right password verifies, any other does not) are
 * proved rather than assumed. The random salt that `SaltString::generate`
 * draws is a parameter.
 */
module PasswordHasher {
  import opened Domain
  import opened Text

  /** Algorithm, version and parameters of `Argon2::default()` in PHC notation. */
  const Argon2Prefix: string := "$argon2id$v=19$m=19456,t=2,p=1$"

  /** Salts are written in the unpadded B64 alphabet of the PHC string format. */
  predicate IsSaltChar(c: char)
  {
    ('A' <= c <= 'Z') || ('a' <= c <= 'z') || ('0' <= c <= '9') || c == '+' || c == '/'
  }

  predicate IsSalt(salt: string)
  {
    |salt| > 0 && forall i :: 0 <= i < |salt| ==> IsSaltChar(salt[i])
  }

  /**
   * Stand-in for the Argon2 output over `password` and `salt`. It keeps the
   * password readable, so it states nothing about the one-wayness of Argon2.
   */
  function Digest(salt: string, password: string): string
  {
    salt + ":" + password
  }

  lemma DigestInjective(salt: string, p: string, q: string)
    requires Digest(salt, p) == Digest(salt, q)
    ensures p == q
  {
    var n := |salt| + 1;
    assert Digest(salt, p)[n..] == p;
    assert Digest(salt, q)[n..] == q;
  }

  /** `hash_password`: never fails for the default parameters and a generated salt. */
  function HashPassword(password: string, salt: string): (h: string)
    requires IsSalt(salt)
    ensures |h| > 0 && h != password
  {
    Argon2Prefix + salt + "$" + Digest(salt, password)
  }

  datatype HashError = MalformedHash

  /** `PasswordHash::new`: the salt and digest of a well-formed hash string. */
  function ParseHash(h: string): (r: Option<(string, string)>)
    ensures r.Some? ==> IsSalt(r.value.0) && h == Argon2Prefix + r.value.0 + "$" + r.value.1
    ensures !(Argon2Prefix <= h) ==> r.None?
  {
    if Argon2Prefix <= h then
      var rest := h[|Argon2Prefix|..];
      match IndexOf(rest, '$')
      case Some(k) =>
        assert h == Argon2Prefix + rest && rest == rest[..k] + "$" + rest[k + 1..];
        if IsSalt(rest[..k]) then Some((rest[..k], rest[k + 1..])) else None
      case None => None
    else None
  }

  /** `verify_password`: a malformed stored hash is an error, not a mismatch. */
  function VerifyPassword(password: string, hash: string): (r: Result<bool, HashError>)
    ensures !(Argon2Prefix <= hash) ==> r == Failure(MalformedHash)
    ensures r.Failure? <==> ParseHash(hash).None?
  {
    match ParseHash(hash)
    case None => Failure(MalformedHash)
    case Some(parts) => Success(Digest(parts.0, password) == parts.1)
  }

  lemma ParseHashed(password: string, salt: string)
    requires IsSalt(salt)
    ensures ParseHash(HashPassword(password, salt)) == Some((salt, Digest(salt, password)))
  {
    var h := HashPassword(password, salt);
    var d := Digest(salt, password);
    assert '$' !in salt;
    assert h[|Argon2Prefix|..] == salt + ['$'] + d;
    IndexOfAfter(salt, '$', d);
    assert (salt + ['$'] + d)[..|salt|] == salt;
    assert (salt + ['$'] + d)[|salt| + 1..] == d;
  }

  /**
   * The round trip of auth_service_test.rs: a freshly hashed password verifies,
   * and every other password is rejected without an error.
   */
  lemma VerifyHashedPassword(password: string, attempt: string, salt: string)
    requires IsSalt(salt)
    ensures VerifyPassword(attempt, HashPassword(password, salt)) == Success(attempt == password)
  {
    ParseHashed(password, salt);
    if Digest(salt, attempt) == Digest(salt, password) {
      DigestInjective(salt, attempt, password);
    }
  }
}
