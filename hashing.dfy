/** The digest of a graphical password: SHA-256, as lowercase hex, of the
    submitted image-sequence string with the salt appended. SHA-256 itself is
    not modelled: it is a function value `h`, and IsDigestFunction(h) states
    the one thing the views rely on, that every output is 64 lowercase
    hexadecimal characters. */
module Hashing {

  /** A character of Python's `hexdigest()` / `secrets.token_hex` alphabet. */
  predicate IsLowerHexDigit(c: char) {
    ('0' <= c <= '9') || ('a' <= c <= 'f')
  }

  /** `s` is exactly `n` lowercase hexadecimal characters. */
  predicate IsHexOfLength(s: string, n: nat) {
    |s| == n && forall i :: 0 <= i < |s| ==> IsLowerHexDigit(s[i])
  }

  /** Length of a SHA-256 hex digest. */
  const DigestLength: nat := 64

  /** Length of `secrets.token_hex(16)`: 16 random bytes, two hex characters each. */
  const SaltLength: nat := 32

  predicate IsSalt(s: string) {
    IsHexOfLength(s, SaltLength)
  }

  /** `hashlib.sha256(x.encode()).hexdigest()` seen from outside: a function
      whose every output is 64 lowercase hex characters. */
  ghost predicate IsDigestFunction(h: string -> string) {
    forall x :: IsHexOfLength(h(x), DigestLength)
  }

  /** Collision resistance on one pair of inputs: the hash tells `x` and `y`
      apart whenever they differ. Lemmas that rely on it say so. */
  ghost predicate Distinguishes(h: string -> string, x: string, y: string) {
    x != y ==> h(x) != h(y)
  }

  /** `hash_image_sequence(sequence, salt)`: the salt is appended to the raw
      sequence string, with no delimiter and no canonicalisation. */
  function HashImageSequence(h: string -> string, sequence: string, salt: string): (digest: string)
    ensures IsDigestFunction(h) ==> IsHexOfLength(digest, DigestLength)
  {
    h(sequence + salt)
  }

  /** With salts of one fixed length, the hashed input `sequence + salt`
      determines both the sequence and the salt, and conversely. */
  lemma SaltedInputInjective(a: string, saltA: string, b: string, saltB: string)
    requires |saltA| == |saltB|
    ensures a + saltA == b + saltB <==> a == b && saltA == saltB
  {
    if a + saltA == b + saltB {
      assert |a| == |b|;
      assert a == (a + saltA)[..|a|];
      assert b == (b + saltB)[..|b|];
      assert saltA == (a + saltA)[|a|..];
      assert saltB == (b + saltB)[|b|..];
    }
  }

  /** Two digests made with equal-length salts agree exactly when the
      sequences and the salts agree, provided the hash tells the two salted
      inputs apart. This is the order- and salt-sensitivity the scheme relies on. */
  lemma DigestsAgreeIff(h: string -> string, a: string, saltA: string, b: string, saltB: string)
    requires |saltA| == |saltB|
    requires Distinguishes(h, a + saltA, b + saltB)
    ensures HashImageSequence(h, a, saltA) == HashImageSequence(h, b, saltB)
            <==> a == b && saltA == saltB
  {
    SaltedInputInjective(a, saltA, b, saltB);
  }
}
