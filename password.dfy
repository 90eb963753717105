/**
 * The credential hasher of src/utils/password.ts: PBKDF2 with SHA-256
 * (section 5.2 of RFC 8018) over a random 16-byte salt, stored as hex.
 * PBKDF2 is the `kdf` parameter and the random salt bytes are an argument.
 */
module Password {
  import opened Wrappers
  import opened Codecs
  import Text

  const Iterations: int := 100000
  /** Length in bytes of the derived key (256 bits). */
  const KeyLen: int := 32
  /** Length in bytes of the random salt. */
  const SaltLen: int := 16

  const ErrTooShort := "Password must be at least 6 characters"

  /** `pbkdf2Sync(password, salt, iterations, keylen, 'sha256')`. */
  type Kdf = (string, string, int, int) -> seq<Byte>

  /** What the model assumes of PBKDF2: it derives exactly `keylen` bytes. */
  ghost predicate DerivesKeyLen(kdf: Kdf)
  {
    forall password, salt, iterations, keylen | keylen >= 0 :: |kdf(password, salt, iterations, keylen)| == keylen
  }

  /** What `hashPassword` returns: all three must be stored together. */
  datatype HashedPassword = HashedPassword(salt: string, hash: string, iterations: int)

  /**
   * `hashPassword`: rejects a password shorter than six UTF-16 code units
   * (the empty one included); otherwise the salt is the hex of the random bytes
   * and the hash is the hex of the key derived from the password and that
   * hex salt text with `Iterations` rounds.
   */
  function HashPassword(plain: string, randomSalt: seq<Byte>, kdf: Kdf): (r: Result<HashedPassword, string>)
    requires |randomSalt| == SaltLen
    ensures r.Failure? <==> Text.Utf16Length(plain) < 6
    ensures r.Failure? ==> r.error == ErrTooShort
    ensures r.Success? ==> var h := r.value;
      && h.iterations == Iterations
      && HexDecode(h.salt) == randomSalt && |h.salt| == 2 * SaltLen && IsLowerHex(h.salt)
      && HexDecode(h.hash) == kdf(plain, h.salt, h.iterations, KeyLen) && IsLowerHex(h.hash)
    ensures r.Success? && DerivesKeyLen(kdf) ==> |r.value.hash| == 2 * KeyLen
  {
    if plain == "" || Text.Utf16Length(plain) < 6 then Failure(ErrTooShort)
    else
      var salt := HexEncode(randomSalt);
      var derived := kdf(plain, salt, Iterations, KeyLen);
      HexRoundTrip(randomSalt);
      HexRoundTrip(derived);
      Success(HashedPassword(salt, HexEncode(derived), Iterations))
  }

  /**
   * `verifyPassword`: re-derives with the given salt and iteration count
   * (`Iterations` when none is given) and compares the decoded buffers,
   * lengths first. It holds exactly when the stored hash decodes to the
   * re-derived key.
   */
  function VerifyPassword(plain: string, salt: string, hash: string, iterations: Option<int>, kdf: Kdf): (ok: bool)
    ensures ok <==> HexDecode(hash) == kdf(plain, salt, if iterations.Some? then iterations.value else Iterations, KeyLen)
  {
    var rounds := if iterations.Some? then iterations.value else Iterations;
    var derived := HexEncode(kdf(plain, salt, rounds, KeyLen));
    var a := HexDecode(derived);
    var b := HexDecode(hash);
    HexRoundTrip(kdf(plain, salt, rounds, KeyLen));
    if |a| != |b| then false else a == b
  }

  /** A hash of another length than the derived key never verifies. */
  lemma LengthMismatchRejected(plain: string, salt: string, hash: string, iterations: int, kdf: Kdf)
    requires DerivesKeyLen(kdf)
    requires |HexDecode(hash)| != KeyLen
    ensures !VerifyPassword(plain, salt, hash, Some(iterations), kdf)
  {
    assert |kdf(plain, salt, iterations, KeyLen)| == KeyLen;
  }

  /** Round trip: the password that was hashed verifies against what was stored. */
  lemma HashThenVerify(plain: string, randomSalt: seq<Byte>, kdf: Kdf)
    requires |randomSalt| == SaltLen
    ensures var r := HashPassword(plain, randomSalt, kdf);
      r.Success? ==> VerifyPassword(plain, r.value.salt, r.value.hash, Some(r.value.iterations), kdf)
  {
  }

  /**
   * The length rule counts UTF-16 code units, as `plain.length` does: three
   * characters beyond the Basic Multilingual Plane make an acceptable
   * password, and three such characters fewer than six code units do not.
   */
  lemma LengthInCodeUnits(randomSalt: seq<Byte>, kdf: Kdf)
    requires |randomSalt| == SaltLen
    ensures HashPassword("\U{1F600}\U{1F600}\U{1F600}", randomSalt, kdf).Success?
    ensures HashPassword("\U{1F600}\U{1F600}", randomSalt, kdf).Failure?
    ensures HashPassword("abcde", randomSalt, kdf).Failure?
  {
    assert Text.Utf16Length("\U{1F600}\U{1F600}\U{1F600}") == 6;
    assert Text.Utf16Length("\U{1F600}\U{1F600}") == 4;
  }

  /** Leaving out the iteration count is the same as passing `Iterations`. */
  lemma DefaultIterations(plain: string, salt: string, hash: string, kdf: Kdf)
    ensures VerifyPassword(plain, salt, hash, None, kdf) == VerifyPassword(plain, salt, hash, Some(Iterations), kdf)
  {
  }
}
