/** AES-256 in Galois/Counter Mode (NIST SP 800-38D) as Web Crypto exposes it.
    The cipher itself is foreign to the model: `seal` and `open` are carried as a
    `Gcm` value, and `Lawful` states what the rest of the model assumes of them. */
module AesGcm {
  import opened Wrappers
  import opened Bytes

  const KeyBytes := 32  // 256-bit key
  const IvBytes := 12   // 96-bit initialization vector
  const TagBytes := 16  // 128-bit authentication tag (`tagLength: 128`)

  /** The longest plaintext GCM accepts: 2^39 - 256 bits (section 5.2.1.1 of SP 800-38D). */
  const MaxPlaintextBytes := 0x10_0000_0000 - 32

  /** `crypto.subtle.encrypt` / `decrypt` with `{ name: 'AES-GCM', iv, tagLength: 128 }`:
      `seal(key, iv, plaintext)` is ciphertext followed by the tag, `open(key, iv, c)`
      verifies and strips the tag; `None` is the rejected promise (`OperationError`). */
  datatype Gcm = Gcm(
    seal: (seq<uint8>, seq<uint8>, seq<uint8>) -> Option<seq<uint8>>,
    open: (seq<uint8>, seq<uint8>, seq<uint8>) -> Option<seq<uint8>>)

  ghost predicate Lawful(g: Gcm)
  {
    // encryption succeeds for a 256-bit key, a 96-bit IV and a plaintext within the limit
    && (forall k, iv, p {:trigger g.seal(k, iv, p)} ::
          |k| == KeyBytes && |iv| == IvBytes && |p| <= MaxPlaintextBytes ==> g.seal(k, iv, p).Some?)
    // the output is the plaintext length plus the tag, and decryption inverts it
    && (forall k, iv, p {:trigger g.seal(k, iv, p)} :: g.seal(k, iv, p).Some? ==>
          |g.seal(k, iv, p).value| == |p| + TagBytes && g.open(k, iv, g.seal(k, iv, p).value) == Some(p))
    // whatever verifies is the output of encryption under the same key and IV
    && (forall k, iv, c {:trigger g.open(k, iv, c)} :: g.open(k, iv, c).Some? ==>
          g.seal(k, iv, g.open(k, iv, c).value) == Some(c))
    // counter mode: under one key and IV the ciphertext part determines the plaintext
    && (forall k, iv, p, q {:trigger g.seal(k, iv, p), g.seal(k, iv, q)} ::
          (g.seal(k, iv, p).Some? && g.seal(k, iv, q).Some? && |p| == |q| &&
           g.seal(k, iv, p).value[..|p|] == g.seal(k, iv, q).value[..|q|]) ==> p == q)
  }

  /** The split at src/utils/encryption.ts: the tag is the last 16 bytes, the
      ciphertext everything before. */
  function SplitTag(output: seq<uint8>): (r: (seq<uint8>, seq<uint8>))
    requires |output| >= TagBytes
    ensures |r.1| == TagBytes && |r.0| == |output| - TagBytes
    ensures r.0 + r.1 == output
  {
    (output[..|output| - TagBytes], output[|output| - TagBytes..])
  }

  /** Splitting a sealed output leaves a ciphertext as long as the plaintext. */
  lemma SealedSplitLength(g: Gcm, k: seq<uint8>, iv: seq<uint8>, p: seq<uint8>)
    requires Lawful(g) && g.seal(k, iv, p).Some?
    ensures |g.seal(k, iv, p).value| >= TagBytes
    ensures |SplitTag(g.seal(k, iv, p).value).0| == |p|
  {
  }

  /** Tamper detection for the tag: re-attaching any other 16 bytes to the
      ciphertext of a sealed message makes decryption fail. */
  lemma TamperedTagRejected(g: Gcm, k: seq<uint8>, iv: seq<uint8>, p: seq<uint8>, tag': seq<uint8>)
    requires Lawful(g) && g.seal(k, iv, p).Some?
    requires |tag'| == TagBytes && tag' != SplitTag(g.seal(k, iv, p).value).1
    ensures g.open(k, iv, SplitTag(g.seal(k, iv, p).value).0 + tag') == None
  {
    var out := g.seal(k, iv, p).value;
    var (ct, tag) := SplitTag(out);
    var forged := ct + tag';
    if g.open(k, iv, forged).Some? {
      assert false;
    }
  }
}
