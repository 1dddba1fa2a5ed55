/** `PasswordService`: a password is stored as HMAC-SHA-512 (RFC 2104 over
    SHA-512) of its UTF-8 bytes, keyed by a fresh random key that is also
    stored, as the salt. HMAC itself is a parameter. */
module Passwords {
  import opened Bytes
  import Utf8

  /** HMAC-SHA-512: key, then message. */
  type Hmac = (seq<Byte>, seq<Byte>) -> seq<Byte>

  /** `new HMACSHA512()` draws a 128-byte key; every tag is 64 bytes. */
  const KeySize: nat := 128
  const TagSize: nat := 64

  ghost predicate TagsAreSha512Sized(hmac: Hmac) {
    forall key, message :: |hmac(key, message)| == TagSize
  }

  datatype HashedPassword = HashedPassword(hash: seq<Byte>, salt: seq<Byte>)

  /** `HashPassword`: the tag of the password under the fresh key, and that key as salt. */
  function HashPassword(hmac: Hmac, freshKey: seq<Byte>, password: string): (h: HashedPassword)
    requires |freshKey| == KeySize
    ensures h.salt == freshKey
  {
    HashedPassword(hmac(freshKey, Utf8.Encode(password)), freshKey)
  }

  /** `VerifyPassword`: recompute the tag under the stored salt and compare byte by byte;
      a stored hash of another length is unequal, not an error. Under a salt
      of the key size, it accepts exactly the pair `HashPassword` would have
      stored for this password with that salt as its key. */
  function VerifyPassword(hmac: Hmac, password: string, storedHash: seq<Byte>, storedSalt: seq<Byte>): (ok: bool)
    ensures |storedSalt| == KeySize ==>
              (ok <==> HashPassword(hmac, storedSalt, password) == HashedPassword(storedHash, storedSalt))
  {
    hmac(storedSalt, Utf8.Encode(password)) == storedHash
  }

  /** What `HashPassword` stores, `VerifyPassword` accepts for the same password. */
  lemma VerifyHashed(hmac: Hmac, freshKey: seq<Byte>, password: string)
    requires |freshKey| == KeySize
    ensures var h := HashPassword(hmac, freshKey, password);
            VerifyPassword(hmac, password, h.hash, h.salt)
  {
  }

  /** A stored hash that is not 64 bytes long is never matched. */
  lemma VerifyRejectsWrongLength(hmac: Hmac, password: string, storedHash: seq<Byte>, storedSalt: seq<Byte>)
    requires TagsAreSha512Sized(hmac)
    requires |storedHash| != TagSize
    ensures !VerifyPassword(hmac, password, storedHash, storedSalt)
  {
    assert |hmac(storedSalt, Utf8.Encode(password))| == TagSize;
  }

  /** Another password is accepted only through an HMAC collision: two
      different messages with the same tag under the salt. */
  lemma OtherPasswordNeedsCollision(hmac: Hmac, freshKey: seq<Byte>, password: string, other: string)
    requires |freshKey| == KeySize
    requires other != password
    requires var h := HashPassword(hmac, freshKey, password);
             VerifyPassword(hmac, other, h.hash, h.salt)
    ensures Utf8.Encode(other) != Utf8.Encode(password)
    ensures hmac(freshKey, Utf8.Encode(other)) == hmac(freshKey, Utf8.Encode(password))
  {
    if Utf8.Encode(other) == Utf8.Encode(password) {
      Utf8.EncodeInjective(other, password);
    }
  }
}
