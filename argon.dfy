/**
 * The password hashing library as the services use it: `hash` turns a password into an
 * encoded hash string, and `verify` checks a password against an encoded hash. The
 * hash is modelled by an injective encoding that keeps the library's `$argon2id$`
 * prefix; the salt and the cryptography are not part of this model.
 */
module Argon {
  import opened Wrappers
  import opened Errors

  const Prefix: string := "$argon2id$"

  /** A string in the library's encoded-hash format. */
  predicate IsEncoded(h: string) {
    |Prefix| <= |h| && h[..|Prefix|] == Prefix
  }

  /** `argon.hash(password)`. */
  function Hash(password: string): (h: string)
    ensures IsEncoded(h)
  {
    Prefix + password
  }

  /** `argon.verify` rejects a string it cannot parse as an encoded hash. */
  const MalformedHash: Failure := Crash("TypeError: pchstr must contain a $ as first char")

  /** `argon.verify(hash, password)`: whether `hash` is the hash of `password`; a malformed hash throws. */
  function Verify(hash: string, password: string): (r: Result<bool, Failure>)
    ensures r.Err? <==> !IsEncoded(hash)
    ensures r.Err? ==> r.error == MalformedHash
  {
    if IsEncoded(hash) then Ok(hash == Hash(password)) else Err(MalformedHash)
  }

  /** Verifying against the hash of `p` accepts exactly `p`. */
  lemma VerifyHash(p: string, q: string)
    ensures Verify(Hash(p), q) == Ok(p == q)
  {
    if Hash(p) == Hash(q) {
      assert Hash(p)[|Prefix|..] == p && Hash(q)[|Prefix|..] == q;
    }
  }

  /** The empty string is no encoded hash, so verifying against it throws. */
  lemma VerifyEmpty(q: string)
    ensures Verify("", q) == Err(MalformedHash)
  {
  }
}
