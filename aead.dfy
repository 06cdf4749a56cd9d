/** The authenticated cipher (AES-GCM from Go's `crypto/cipher`) seen only
 *  through its interface: a nonce size, a tag overhead, and a pair of
 *  operations that seal and open byte strings under a nonce.  Its internals
 *  are not part of this model; what the container format relies on is
 *  stated by `Lawful`.
 */
module Aead {
  import opened Binary

  datatype Option<+T> = None | Some(value: T) {
    function GetOr(default: T): T {
      match this
      case Some(v) => v
      case None => default
    }
  }

  /** `gcm.NonceSize()` for the standard GCM construction. */
  const NONCE_SIZE: nat := 12

  /** `gcm.Overhead()`: the length of the authentication tag. */
  const OVERHEAD: nat := 16

  /** A cipher already keyed: `seal(nonce, plaintext)` and `open(nonce, ciphertext)`,
   *  both with no additional data, as the format calls them. */
  datatype Aead = Aead(
    seal: (seq<byte>, seq<byte>) -> seq<byte>,
    open: (seq<byte>, seq<byte>) -> Option<seq<byte>>)

  /** The two laws the format depends on: sealing adds exactly `OVERHEAD`
   *  bytes, and opening a sealed text under the same nonce recovers it. */
  ghost predicate Lawful(a: Aead) {
    forall n: seq<byte>, p: seq<byte> | |n| == NONCE_SIZE ::
      |a.seal(n, p)| == |p| + OVERHEAD && a.open(n, a.seal(n, p)) == Some(p)
  }

  /** A trivially insecure cipher (the tag is constant) showing that the two
   *  laws can be met together, so lemmas that assume them are not vacuous. */
  const TOY_TAG: seq<byte> := seq(OVERHEAD, _ => 0)

  function ToyAead(): (a: Aead) {
    Aead(
      (n: seq<byte>, p: seq<byte>) => p + TOY_TAG,
      (n: seq<byte>, c: seq<byte>) =>
        if |c| >= OVERHEAD && c[|c| - OVERHEAD..] == TOY_TAG
        then Some(c[..|c| - OVERHEAD]) else None)
  }

  lemma ToyAeadIsLawful()
    ensures Lawful(ToyAead())
  {
    var a := ToyAead();
    forall n: seq<byte>, p: seq<byte> | |n| == NONCE_SIZE
      ensures |a.seal(n, p)| == |p| + OVERHEAD && a.open(n, a.seal(n, p)) == Some(p)
    {
      var c := p + TOY_TAG;
      assert a.seal(n, p) == c;
      assert c[|c| - OVERHEAD..] == TOY_TAG;
      assert c[..|c| - OVERHEAD] == p;
    }
  }
}
