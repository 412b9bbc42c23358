/**
 * The node-forge primitives the code calls, as injected functions with the contracts the model
 * relies on. Nothing here is implemented: RSA, AES-GCM, PEM and X.509 stay abstract.
 */
module Forge {
  import opened Wrappers
  import opened Bytes

  /** An RSA public key: modulus and public exponent. */
  datatype PublicKey = PublicKey(n: nat, e: nat)

  /** Bytes in the big-endian form of `n`, i.e. ceil(bitLength(n) / 8). */
  function ByteLength(n: nat): nat
  {
    if n == 0 then 0 else 1 + ByteLength(n / 256)
  }

  /** The modulus length `k` in bytes; RSA output is exactly this long. */
  function ModulusLength(pk: PublicKey): nat {
    ByteLength(pk.n)
  }

  const Sha256Length: nat := 32

  /** RSAES-OAEP with SHA-256 for both hash and MGF1 fits messages of up to k - 2*32 - 2 bytes. */
  const OaepOverhead: nat := 2 * Sha256Length + 2

  datatype GcmOutput = GcmOutput(ciphertext: seq<byte>, tag: seq<byte>)

  datatype Primitives = Primitives(
    /** `pki.certificateFromPem(pem).publicKey`; `None` where forge throws. */
    certificateFromPem: string -> Option<PublicKey>,
    /** `pki.publicKeyFromPem(pem)`; `None` where forge throws. */
    publicKeyFromPem: string -> Option<PublicKey>,
    /** `publicKey.encrypt(message, 'RSA-OAEP', sha256/mgf1-sha256)` given the OAEP seed it draws. */
    oaepEncrypt: (PublicKey, seq<byte>, seq<byte>) -> Option<seq<byte>>,
    /** AES-GCM with key, IV, additional data, tag length in bits and plaintext. */
    gcmEncrypt: (seq<byte>, seq<byte>, string, nat, seq<byte>) -> GcmOutput)

  /** What the model assumes of the primitives: the length rules of PKCS #1 v2.2 OAEP and of GCM. */
  ghost predicate Sound(f: Primitives) {
    && (forall pk: PublicKey, m: seq<byte>, seed: seq<byte> :: |seed| == Sha256Length ==>
          (f.oaepEncrypt(pk, m, seed).Some? <==> |m| + OaepOverhead <= ModulusLength(pk)))
    && (forall pk: PublicKey, m: seq<byte>, seed: seq<byte> :: f.oaepEncrypt(pk, m, seed).Some? ==>
          |f.oaepEncrypt(pk, m, seed).value| == ModulusLength(pk))
    && (forall key: seq<byte>, iv: seq<byte>, aad: string, bits: nat, p: seq<byte> :: |f.gcmEncrypt(key, iv, aad, bits, p).ciphertext| == |p|)
    && (forall key: seq<byte>, iv: seq<byte>, aad: string, bits: nat, p: seq<byte> :: |f.gcmEncrypt(key, iv, aad, bits, p).tag| == bits / 8)
  }

  /** The OAEP clauses of `Sound` at one call. */
  lemma OaepLength(f: Primitives, pk: PublicKey, m: seq<byte>, seed: seq<byte>)
    requires Sound(f) && |seed| == Sha256Length
    ensures f.oaepEncrypt(pk, m, seed).Some? <==> |m| + OaepOverhead <= ModulusLength(pk)
    ensures f.oaepEncrypt(pk, m, seed).Some? ==> |f.oaepEncrypt(pk, m, seed).value| == ModulusLength(pk)
  {
  }

  /** The GCM clauses of `Sound` at one call. */
  lemma GcmLength(f: Primitives, key: seq<byte>, iv: seq<byte>, aad: string, bits: nat, p: seq<byte>)
    requires Sound(f)
    ensures |f.gcmEncrypt(key, iv, aad, bits, p).ciphertext| == |p|
    ensures |f.gcmEncrypt(key, iv, aad, bits, p).tag| == bits / 8
  {
  }

  /**
   * forge's global random source (`random.getBytesSync`, and the seed OAEP draws internally) as
   * an explicit stream read from a cursor.
   */
  datatype Entropy = Entropy(stream: nat -> byte, pos: nat) {

    /** The next `n` bytes. */
    function GetBytes(n: nat): (r: seq<byte>)
      ensures |r| == n
      decreases n
    {
      if n == 0 then [] else [stream(pos)] + Entropy(stream, pos + 1).GetBytes(n - 1)
    }

    /** The byte `k` places past the cursor. */
    function Peek(k: nat): byte {
      stream(pos + k)
    }

    /** The source after `n` bytes have been drawn. */
    function Skip(n: nat): (e: Entropy)
      ensures e.pos == pos + n
    {
      Entropy(stream, pos + n)
    }
  }

  /** Two sources that yield the same next `n` bytes. */
  predicate Agree(a: Entropy, b: Entropy, n: nat) {
    forall k :: 0 <= k < n ==> a.Peek(k) == b.Peek(k)
  }

  /** Sources that agree on a stretch agree on every later part of it. */
  lemma AgreeSkip(a: Entropy, b: Entropy, m: nat, n: nat)
    requires Agree(a, b, m + n)
    ensures Agree(a.Skip(m), b.Skip(m), n)
  {
    forall k | 0 <= k < n
      ensures a.Skip(m).Peek(k) == b.Skip(m).Peek(k)
    {
      assert a.Peek(m + k) == b.Peek(m + k);
    }
  }

  /** What is drawn depends only on the bytes drawn, not on the rest of the stream. */
  lemma {:induction false} GetBytesWindow(a: Entropy, b: Entropy, n: nat)
    requires Agree(a, b, n)
    ensures a.GetBytes(n) == b.GetBytes(n)
    decreases n
  {
    if n > 0 {
      assert a.Peek(0) == b.Peek(0);
      AgreeSkip(a, b, 1, n - 1);
      GetBytesWindow(a.Skip(1), b.Skip(1), n - 1);
    }
  }
}
