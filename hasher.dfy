/** The master-password hasher of Classes/Hasher.cs: a fresh 16-byte salt and a
    32-byte PBKDF2-HMAC-SHA256 key (10000 iterations), stored as Base64 of
    salt ++ key, and a verifier that fails closed. */
module Hasher {
  import opened Wrappers
  import opened Text

  newtype byte = x: int | 0 <= x < 256

  const SaltSize: nat := 16
  const KeySize: nat := 32
  const Iterations: nat := 10000

  type Salt = s: seq<byte> | |s| == SaltSize witness seq(16, _ => 0)
  type Digest = d: seq<byte> | |d| == KeySize witness seq(32, _ => 0)

  /** The library primitives the hasher calls, which are not part of this model:
      PBKDF2-HMAC-SHA256 (RFC 8018 section 5.2) as `Rfc2898DeriveBytes(...).GetBytes(32)`,
      and Base64 (RFC 4648 section 4) as `Convert.ToBase64String` and
      `Convert.FromBase64String`, the latter giving None where it throws. */
  datatype Primitives = Primitives(
    pbkdf2: (string, Salt, nat) -> Digest,
    toBase64: seq<byte> -> string,
    fromBase64: string -> Option<seq<byte>>)

  /** The Base64 alphabet of RFC 4648 section 4, with the pad character. */
  predicate IsBase64Char(c: char) {
    ('A' <= c <= 'Z') || ('a' <= c <= 'z') || ('0' <= c <= '9') || c == '+' || c == '/' || c == '='
  }

  /** What RFC 4648 section 4 guarantees of the Base64 pair: decoding an
      encoding gives the bytes back, and an encoding is 4 characters per started
      group of 3 bytes, all from the alphabet. */
  ghost predicate CodecSound(p: Primitives) {
    && (forall b :: p.fromBase64(p.toBase64(b)) == Some(b))
    && (forall b :: |p.toBase64(b)| == 4 * ((|b| + 2) / 3))
    && (forall b, i :: 0 <= i < |p.toBase64(b)| ==> IsBase64Char(p.toBase64(b)[i]))
  }

  /** The stored layout: the salt in bytes 0..15, the derived key in bytes 16..47. */
  function Frame(salt: Salt, key: Digest): (b: seq<byte>)
    ensures |b| == SaltSize + KeySize
    ensures b[..SaltSize] == salt && b[SaltSize..] == key
  {
    salt + key
  }

  /** The string `Get` returns for a given salt. */
  function StoredHash(p: Primitives, input: string, salt: Salt): (r: string)
    ensures CodecSound(p) ==> p.fromBase64(r) == Some(Frame(salt, p.pbkdf2(input, salt, Iterations)))
    ensures CodecSound(p) ==> |r| == 64
  {
    p.toBase64(Frame(salt, p.pbkdf2(input, salt, Iterations)))
  }

  /** When `Verify(input, stored)` accepts. */
  predicate Verified(p: Primitives, input: string, stored: string) {
    && !IsBlank(input)
    && !IsBlank(stored)
    && match p.fromBase64(stored)
       case None => false
       case Some(b) =>
         |b| == SaltSize + KeySize && p.pbkdf2(input, b[..SaltSize], Iterations) == b[SaltSize..]
  }

  /** `Array.Copy(src, srcIndex, dst, dstIndex, length)`, which throws unless
      both ranges lie inside their arrays. All elements move at once, so an
      overlapping copy within one array is also covered. */
  method ArrayCopy(src: array<byte>, srcIndex: nat, dst: array<byte>, dstIndex: nat, length: nat)
    requires srcIndex + length <= src.Length && dstIndex + length <= dst.Length
    modifies dst
    ensures dst[..] == old(dst[..dstIndex]) + old(src[srcIndex..srcIndex + length]) + old(dst[dstIndex + length..])
  {
    forall k | 0 <= k < length {
      dst[dstIndex + k] := src[srcIndex + k];
    }
  }

  /** `Hasher.Get`. The random salt is a parameter, standing in for the bytes
      `RandomNumberGenerator` fills in. */
  method Get(p: Primitives, input: string, salt: Salt) returns (stored: string)
    ensures stored == StoredHash(p, input, salt)
    ensures CodecSound(p) ==> p.fromBase64(stored) == Some(salt + p.pbkdf2(input, salt, Iterations))
  {
    var saltBytes := new byte[SaltSize](i requires 0 <= i < SaltSize => salt[i]);
    var key := p.pbkdf2(input, salt, Iterations);
    var hash := new byte[KeySize](i requires 0 <= i < KeySize => key[i]);
    var hashWithSalt := new byte[SaltSize + KeySize];
    ArrayCopy(saltBytes, 0, hashWithSalt, 0, SaltSize);
    ArrayCopy(hash, 0, hashWithSalt, SaltSize, KeySize);
    assert saltBytes[..] == salt && hash[..] == key;
    assert hashWithSalt[..] == Frame(salt, key);
    stored := p.toBase64(hashWithSalt[..]);
  }

  /** `Hasher.Verify`: false for a blank argument, for a stored value that is not
      Base64 or does not decode to 48 bytes, and otherwise whether the key
      derived with bytes 0..15 as salt equals bytes 16..47. */
  method Verify(p: Primitives, input: string, storedHash: string) returns (r: bool)
    ensures r == Verified(p, input, storedHash)
    ensures IsBlank(input) || IsBlank(storedHash) ==> !r
    ensures p.fromBase64(storedHash).None? ==> !r
    ensures r ==> |p.fromBase64(storedHash).value| == SaltSize + KeySize
  {
    if IsBlank(input) || IsBlank(storedHash) {
      return false;
    }
    var decoded := p.fromBase64(storedHash);
    if decoded.None? {
      // Convert.FromBase64String threw; the catch-all returns false.
      return false;
    }
    var hashWithSalt := new byte[|decoded.value|](i requires 0 <= i < |decoded.value| => decoded.value[i]);
    if hashWithSalt.Length != SaltSize + KeySize {
      return false;
    }
    var salt := new byte[SaltSize];
    ArrayCopy(hashWithSalt, 0, salt, 0, SaltSize);
    var hash := p.pbkdf2(input, salt[..], Iterations);
    var storedHashOnly := new byte[KeySize];
    ArrayCopy(hashWithSalt, SaltSize, storedHashOnly, 0, KeySize);
    assert hashWithSalt[..] == decoded.value;
    assert salt[..] == decoded.value[..SaltSize];
    assert storedHashOnly[..] == decoded.value[SaltSize..];
    // CryptographicOperations.FixedTimeEquals: equal length and equal bytes.
    r := hash == storedHashOnly[..];
  }

  /** The round trip: a hash made by `Get` from a password that is not blank
      verifies against that password, whatever the salt. */
  lemma {:induction false} GetThenVerify(p: Primitives, input: string, salt: Salt)
    requires CodecSound(p)
    requires !IsBlank(input)
    ensures Verified(p, input, StoredHash(p, input, salt))
  {
    var stored := StoredHash(p, input, salt);
    var framed := Frame(salt, p.pbkdf2(input, salt, Iterations));
    assert stored == p.toBase64(framed);
    assert |stored| == 64;
    assert IsBase64Char(stored[0]);
    assert !IsWhiteSpace(stored[0]);
  }

  /** A hash made from a blank password never verifies, not even against that
      password: `Get` accepts blank input and `Verify` rejects it. */
  lemma BlankPasswordNeverVerifies(p: Primitives, input: string, salt: Salt, candidate: string)
    requires IsBlank(input)
    ensures !Verified(p, input, StoredHash(p, input, salt))
    ensures IsBlank(candidate) ==> !Verified(p, candidate, StoredHash(p, input, salt))
  {
  }
}
