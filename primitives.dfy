/**
 * The two cryptographic primitives the SDK borrows from Node's `crypto` module, as
 * uninterpreted functions with the properties the SDK relies on.
 *
 * AES-256-GCM (NIST SP 800-38D) is a pair of functions over byte strings: `seal` takes
 * key, IV and plaintext and gives ciphertext and a 16-byte tag; `open` takes key, IV,
 * ciphertext and tag and gives the plaintext, or nothing when the tag does not
 * authenticate. Like Node's decipher without `authTagLength`, `open` also checks a
 * tag truncated to 4, 8 or 12 to 15 bytes (section 5.2.1.2 of SP 800-38D).
 * SHA-256 (FIPS 180-4) is a function from messages to 32-byte digests; being a
 * function, it is deterministic.
 */
module Primitives {
  import opened Utf8
  import opened Wrappers

  datatype Aead = Aead(
    seal: (seq<byte>, seq<byte>, seq<byte>) -> (seq<byte>, seq<byte>),
    open: (seq<byte>, seq<byte>, seq<byte>, seq<byte>) -> Option<seq<byte>>)

  /** The tag length `getAuthTag()` returns by default. */
  const TagLength: nat := 16

  /**
   * The tag lengths a GCM decipher created without `authTagLength` takes in
   * `setAuthTag`: 4, 8, and 12 to 16 bytes. A shorter tag is checked as a prefix of
   * the full one.
   */
  const AcceptedTagLengths: set<nat> := {4, 8, 12, 13, 14, 15, 16}

  /** `t` is a tag the decipher checks against the seal of `p`: an accepted prefix of it. */
  predicate TagMatches(t: seq<byte>, full: seq<byte>) {
    |t| in AcceptedTagLengths && t <= full
  }

  /**
   * What GCM guarantees: the ciphertext is as long as the plaintext and the tag is 16
   * bytes; opening a sealed ciphertext with its tag, or with an accepted prefix of the
   * tag, gives the plaintext back; and opening succeeds only on the ciphertext that
   * sealing the plaintext produces, with a tag matching the sealed one.
   */
  ghost predicate IsGcm(a: Aead) {
    && (forall k, iv, p :: |a.seal(k, iv, p).0| == |p| && |a.seal(k, iv, p).1| == TagLength)
    && (forall k, iv, p, t :: TagMatches(t, a.seal(k, iv, p).1) ==>
          a.open(k, iv, a.seal(k, iv, p).0, t) == Some(p))
    && (forall k, iv, c, t, p :: a.open(k, iv, c, t) == Some(p) ==>
          a.seal(k, iv, p).0 == c && TagMatches(t, a.seal(k, iv, p).1))
  }

  /** Opening what was sealed, with the whole tag, gives the plaintext back. */
  lemma OpenSealed(a: Aead, k: seq<byte>, iv: seq<byte>, p: seq<byte>)
    requires IsGcm(a)
    ensures a.open(k, iv, a.seal(k, iv, p).0, a.seal(k, iv, p).1) == Some(p)
  {
    assert |a.seal(k, iv, p).1| == 16;
    assert TagMatches(a.seal(k, iv, p).1, a.seal(k, iv, p).1);
  }

  /** SHA-256 gives a 32-byte digest for every message. */
  ghost predicate IsSha256(h: seq<byte> -> seq<byte>) {
    forall m :: |h(m)| == 32
  }

  function Zeros(n: nat): (z: seq<byte>)
    ensures |z| == n && forall i :: 0 <= i < n ==> z[i] == 0
  {
    seq(n, _ => 0)
  }

  /** A toy instance (no secrecy at all) showing the stated properties can hold together. */
  const Transparent: Aead := Aead(
    (k: seq<byte>, iv: seq<byte>, p: seq<byte>) => (p, Zeros(TagLength)),
    (k: seq<byte>, iv: seq<byte>, c: seq<byte>, t: seq<byte>) =>
      if TagMatches(t, Zeros(TagLength)) then Some(c) else None)

  lemma TransparentIsGcm()
    ensures IsGcm(Transparent)
  {
    forall k, iv, c, t, p | Transparent.open(k, iv, c, t) == Some(p)
      ensures Transparent.seal(k, iv, p).0 == c && TagMatches(t, Transparent.seal(k, iv, p).1)
    {
      assert TagMatches(t, Zeros(TagLength)) && c == p;
    }
  }

  lemma ConstantDigestIsSha256()
    ensures IsSha256((m: seq<byte>) => Zeros(32))
  {
  }
}
