/**
 * src/api/crypto.ts: the hybrid seal. A fresh AES-256 session key and GCM nonce per value, the
 * session key wrapped with RSA-OAEP-SHA256, the value sealed with AES-GCM under the scope label
 * as additional data, and the wire blob `encryptedSessionKey ++ nonce ++ ciphertext ++ tag` in
 * base 64.
 */
module Hybrid {
  import opened Wrappers
  import opened Errors
  import opened Bytes
  import opened Records
  import opened Forge
  import Base64

  const SessionKeyLength: nat := 32
  const NonceLength: nat := 12
  const TagLengthBits: nat := 128
  const TagLength: nat := 16

  /** Random bytes one value consumes: session key, nonce, then the seed forge's OAEP encoder draws. */
  const EntropyPerValue: nat := SessionKeyLength + NonceLength + Sha256Length

  /** Where the `i`-th value of a map starts drawing from the random stream. */
  function ValueOffset(i: nat): nat {
    EntropyPerValue * i
  }

  const Strict := "strict"
  const NamespaceWide := "namespace-wide"
  const ClusterWide := "cluster-wide"

  /** The scope label; `strict` and any unrecognised scope (the `default` arm) bind namespace and name. */
  function Label(namespace: string, name: string, scope: string): string
  {
    if scope == ClusterWide then ""
    else if scope == NamespaceWide then namespace + "/"
    else namespace + "/" + name
  }

  datatype SealedBlob = SealedBlob(encryptedSessionKey: seq<byte>, nonce: seq<byte>, ciphertext: seq<byte>, tag: seq<byte>)
  {
    /** The wire bytes: no length prefixes, the four parts back to back. */
    function Bytes(): seq<byte> {
      encryptedSessionKey + nonce + ciphertext + tag
    }
  }

  /** How a reader with a `keyLength`-byte modulus cuts the wire bytes apart. */
  function Split(wire: seq<byte>, keyLength: nat): Option<SealedBlob>
  {
    if |wire| < keyLength + NonceLength + TagLength then None
    else Some(SealedBlob(wire[..keyLength], wire[keyLength..keyLength + NonceLength],
                         wire[keyLength + NonceLength..|wire| - TagLength], wire[|wire| - TagLength..]))
  }

  /** `sealValue` up to the concatenation, with `entropy` as forge's random source. */
  function SealBlob(f: Primitives, entropy: Entropy, pk: PublicKey, value: string,
                    namespace: string, name: string, scope: string): Result<SealedBlob, Error>
  {
    var sessionKey := entropy.GetBytes(SessionKeyLength);
    var nonce := entropy.Skip(SessionKeyLength).GetBytes(NonceLength);
    var additionalData := Label(namespace, name, scope);
    var seed := entropy.Skip(SessionKeyLength + NonceLength).GetBytes(Sha256Length);
    match f.oaepEncrypt(pk, sessionKey, seed)
    case None => Failure(MessageTooLong)
    case Some(encryptedSessionKey) =>
      var out := f.gcmEncrypt(sessionKey, nonce, additionalData, TagLengthBits, Utf8(value));
      Success(SealedBlob(encryptedSessionKey, nonce, out.ciphertext, out.tag))
  }

  /** `sealValue`: the blob in base 64. */
  function SealValue(f: Primitives, entropy: Entropy, pk: PublicKey, value: string,
                     namespace: string, name: string, scope: string): Result<string, Error>
  {
    match SealBlob(f, entropy, pk, value, namespace, name, scope)
    case Failure(err) => Failure(err)
    case Success(blob) => Success(Base64.Encode(blob.Bytes()))
  }

  /** The per-entry sealer of `sealData`: entry `i` draws its randomness after the `i` before it. */
  function Sealer(f: Primitives, entropy: Entropy, pk: PublicKey, namespace: string, name: string, scope: string)
    : (nat, string) -> Result<string, Error>
  {
    (i: nat, value: string) => SealValue(f, entropy.Skip(ValueOffset(i)), pk, value, namespace, name, scope)
  }

  /** What `sealData` returns. */
  function SealedData(f: Primitives, entropy: Entropy, pk: PublicKey, data: Record,
                      namespace: string, name: string, scope: string): Result<Record, Error>
  {
    MapValues(data, Sealer(f, entropy, pk, namespace, name, scope))
  }

  /** `sealData`: the loop over `Object.entries(data)`. */
  method SealData(f: Primitives, entropy: Entropy, pk: PublicKey, data: Record,
                  namespace: string, name: string, scope: string) returns (r: Result<Record, Error>)
    ensures r == SealedData(f, entropy, pk, data, namespace, name, scope)
  {
    r := MapValuesLoop(data, Sealer(f, entropy, pk, namespace, name, scope));
  }

  // ---------------------------------------------------------------- label

  /** Any scope string other than the two wide ones falls through to the strict label. */
  lemma UnknownScopeIsStrict(namespace: string, name: string, scope: string)
    requires scope != NamespaceWide && scope != ClusterWide
    ensures Label(namespace, name, scope) == Label(namespace, name, Strict)
    ensures Label(namespace, name, scope) == namespace + "/" + name
  {
  }

  lemma LabelVectors()
    ensures Label("default", "my-secret", Strict) == "default/my-secret"
    ensures Label("default", "my-secret", NamespaceWide) == "default/"
    ensures Label("default", "my-secret", ClusterWide) == ""
  {
  }

  lemma FirstSlash(namespace: string, name: string)
    requires '/' !in namespace
    ensures Label(namespace, name, Strict)[|namespace|] == '/'
    ensures forall k :: 0 <= k < |namespace| ==> Label(namespace, name, Strict)[k] != '/'
  {
  }

  /**
   * Strict labels bind the resource identity: for namespaces without `/` (which Kubernetes
   * namespaces never contain), equal labels mean equal namespace and name.
   */
  lemma {:induction false} StrictLabelInjective(ns1: string, name1: string, ns2: string, name2: string)
    requires '/' !in ns1 && '/' !in ns2
    ensures Label(ns1, name1, Strict) == Label(ns2, name2, Strict) <==> ns1 == ns2 && name1 == name2
  {
    var l1, l2 := Label(ns1, name1, Strict), Label(ns2, name2, Strict);
    if l1 == l2 {
      FirstSlash(ns1, name1);
      FirstSlash(ns2, name2);
      assert |ns1| == |ns2|;
      assert ns1 == l1[..|ns1|] == l2[..|ns2|] == ns2;
      assert name1 == l1[|ns1| + 1..] == l2[|ns2| + 1..] == name2;
    }
  }

  /**
   * The namespace-wide label is the strict label with the name dropped, and differs from every
   * strict label of that namespace with a non-empty name; the cluster-wide label is empty and
   * so differs from both.
   */
  lemma ScopesDiffer(namespace: string, name: string)
    ensures Label(namespace, name, NamespaceWide) == Label(namespace, name, Strict)[..|namespace| + 1]
    ensures Label(namespace, name, NamespaceWide) == Label(namespace, name, Strict) <==> name == ""
    ensures Label(namespace, name, ClusterWide) != Label(namespace, name, NamespaceWide)
    ensures Label(namespace, name, ClusterWide) != Label(namespace, name, Strict)
  {
    var s := Label(namespace, name, Strict);
    if name != "" {
      assert |s| > |namespace| + 1;
    }
  }

  // ---------------------------------------------------------------- one value

  /** A seal fails, with OAEP's length error, exactly when the modulus cannot carry the session key. */
  lemma SealBlobOutcome(f: Primitives, entropy: Entropy, pk: PublicKey, value: string,
                        namespace: string, name: string, scope: string)
    requires Sound(f)
    ensures SealBlob(f, entropy, pk, value, namespace, name, scope).Success?
            <==> SessionKeyLength + OaepOverhead <= ModulusLength(pk)
    ensures SealBlob(f, entropy, pk, value, namespace, name, scope).Failure? ==>
              SealBlob(f, entropy, pk, value, namespace, name, scope).error == MessageTooLong
  {
    var sessionKey := entropy.GetBytes(SessionKeyLength);
    var seed := entropy.Skip(SessionKeyLength + NonceLength).GetBytes(Sha256Length);
    OaepLength(f, pk, sessionKey, seed);
  }

  /**
   * What a successful seal consists of: the wrapped key is the RSA-OAEP encryption of the very
   * 32-byte session key GCM is keyed with, under the seed drawn after key and nonce, and is
   * modulus-long; the nonce is the 12 bytes drawn after the 32-byte session key, the label goes in as GCM additional data while the
   * GCM plaintext is exactly the UTF-8 form of the value, the ciphertext is as long as that
   * plaintext and the tag is 16 bytes.
   */
  lemma SealBlobParts(f: Primitives, entropy: Entropy, pk: PublicKey, value: string,
                      namespace: string, name: string, scope: string)
    requires Sound(f)
    requires SealBlob(f, entropy, pk, value, namespace, name, scope).Success?
    ensures var blob := SealBlob(f, entropy, pk, value, namespace, name, scope).value;
            var sessionKey := entropy.GetBytes(SessionKeyLength);
            && |sessionKey| == 32
            && f.oaepEncrypt(pk, sessionKey, entropy.Skip(SessionKeyLength + NonceLength).GetBytes(Sha256Length))
               == Some(blob.encryptedSessionKey)
            && |blob.encryptedSessionKey| == ModulusLength(pk)
            && blob.nonce == entropy.Skip(SessionKeyLength).GetBytes(NonceLength)
            && |blob.nonce| == 12
            && var out := f.gcmEncrypt(sessionKey, blob.nonce, Label(namespace, name, scope), 128, Utf8(value));
            && blob.ciphertext == out.ciphertext && blob.tag == out.tag
            && |blob.ciphertext| == |Utf8(value)|
            && |blob.tag| == 16
            && |blob.Bytes()| == ModulusLength(pk) + 12 + |Utf8(value)| + 16
  {
    var sessionKey := entropy.GetBytes(SessionKeyLength);
    var nonce := entropy.Skip(SessionKeyLength).GetBytes(NonceLength);
    var seed := entropy.Skip(SessionKeyLength + NonceLength).GetBytes(Sha256Length);
    OaepLength(f, pk, sessionKey, seed);
    GcmLength(f, sessionKey, nonce, Label(namespace, name, scope), TagLengthBits, Utf8(value));
  }

  /** One value seals exactly when the modulus leaves OAEP room for the 32-byte session key. */
  lemma SealValueSucceeds(f: Primitives, entropy: Entropy, pk: PublicKey, value: string,
                          namespace: string, name: string, scope: string)
    requires Sound(f)
    ensures SealValue(f, entropy, pk, value, namespace, name, scope).Success?
            <==> SessionKeyLength + OaepOverhead <= ModulusLength(pk)
  {
    SealBlobOutcome(f, entropy, pk, value, namespace, name, scope);
  }

  /** Cutting the wire bytes at the known sizes gives the four parts back. */
  lemma SplitBytes(blob: SealedBlob)
    requires |blob.nonce| == NonceLength && |blob.tag| == TagLength
    ensures Split(blob.Bytes(), |blob.encryptedSessionKey|) == Some(blob)
  {
    var w, k := blob.Bytes(), |blob.encryptedSessionKey|;
    assert w[..k] == blob.encryptedSessionKey;
    assert w[k..k + NonceLength] == blob.nonce;
    assert w[k + NonceLength..|w| - TagLength] == blob.ciphertext;
    assert w[|w| - TagLength..] == blob.tag;
  }

  /** And every successful cut puts the wire bytes back together unchanged. */
  lemma BytesSplit(wire: seq<byte>, keyLength: nat)
    requires Split(wire, keyLength).Some?
    ensures Split(wire, keyLength).value.Bytes() == wire
    ensures |Split(wire, keyLength).value.encryptedSessionKey| == keyLength
    ensures |Split(wire, keyLength).value.nonce| == NonceLength
    ensures |Split(wire, keyLength).value.tag| == TagLength
  {
    var b := Split(wire, keyLength).value;
    assert b.Bytes() == wire[..keyLength] + wire[keyLength..keyLength + NonceLength]
                        + wire[keyLength + NonceLength..|wire| - TagLength] + wire[|wire| - TagLength..];
  }

  /** The base-64 text of a well-formed blob: its length, its alphabet, and the parts it carries. */
  lemma BlobText(blob: SealedBlob)
    requires |blob.nonce| == NonceLength && |blob.tag| == TagLength
    ensures Base64.Decode(Base64.Encode(blob.Bytes())) == Some(blob.Bytes())
    ensures Split(blob.Bytes(), |blob.encryptedSessionKey|) == Some(blob)
    ensures |blob.Bytes()| == |blob.encryptedSessionKey| + 28 + |blob.ciphertext|
    ensures |Base64.Encode(blob.Bytes())| == Base64.EncodedLength(|blob.Bytes()|)
    ensures '\n' !in Base64.Encode(blob.Bytes())
  {
    Base64.DecodeEncode(blob.Bytes());
    Base64.EncodeAlphabet(blob.Bytes());
    SplitBytes(blob);
  }

  /**
   * The sealed string decodes from base 64 to the blob's bytes, and a reader that knows only the
   * modulus length recovers wrapped key, nonce, ciphertext and tag from it.
   */
  lemma SealValueWire(f: Primitives, entropy: Entropy, pk: PublicKey, value: string,
                      namespace: string, name: string, scope: string)
    requires Sound(f)
    requires SealValue(f, entropy, pk, value, namespace, name, scope).Success?
    ensures var blob := SealBlob(f, entropy, pk, value, namespace, name, scope).value;
            && SealValue(f, entropy, pk, value, namespace, name, scope).value == Base64.Encode(blob.Bytes())
            && Base64.Decode(Base64.Encode(blob.Bytes())) == Some(blob.Bytes())
            && Split(blob.Bytes(), ModulusLength(pk)) == Some(blob)
            && |blob.Bytes()| == ModulusLength(pk) + 28 + |Utf8(value)|
            && |Base64.Encode(blob.Bytes())| == Base64.EncodedLength(|blob.Bytes()|)
            && '\n' !in Base64.Encode(blob.Bytes())
  {
    SealBlobParts(f, entropy, pk, value, namespace, name, scope);
    BlobText(SealBlob(f, entropy, pk, value, namespace, name, scope).value);
  }

  /** Under a 2048-bit key the sealed text of a four-byte value is 288 bytes, 384 characters of base 64. */
  lemma FourByteValue(f: Primitives, entropy: Entropy, pk: PublicKey, value: string,
                      namespace: string, name: string, scope: string)
    requires Sound(f)
    requires ModulusLength(pk) == 256 && |Utf8(value)| == 4
    ensures SealBlob(f, entropy, pk, value, namespace, name, scope).Success?
    ensures |SealBlob(f, entropy, pk, value, namespace, name, scope).value.Bytes()| == 288
    ensures SealValue(f, entropy, pk, value, namespace, name, scope).Success?
    ensures |SealValue(f, entropy, pk, value, namespace, name, scope).value| == 384
  {
    SealBlobOutcome(f, entropy, pk, value, namespace, name, scope);
    SealBlobParts(f, entropy, pk, value, namespace, name, scope);
    var n := |SealBlob(f, entropy, pk, value, namespace, name, scope).value.Bytes()|;
    assert n == 288;
    SealValueWire(f, entropy, pk, value, namespace, name, scope);
    TextLength288();
  }

  /** 288 wire bytes are 96 groups of three, so 384 characters of base 64. */
  lemma TextLength288()
    ensures Base64.EncodedLength(288) == 384
  {
    Base64.EncodedLengthClosed(288);
  }

  /** `{"password": "p@ss"}` for `default/my-secret`, strict, under a 2048-bit key. */
  lemma PasswordExample(f: Primitives, entropy: Entropy, pk: PublicKey)
    requires Sound(f)
    requires ModulusLength(pk) == 256
    ensures |SealBlob(f, entropy, pk, "p@ss", "default", "my-secret", Strict).value.Bytes()| == 288
    ensures |SealValue(f, entropy, pk, "p@ss", "default", "my-secret", Strict).value| == 384
  {
    Utf8Length("p@ss");
    FourByteValue(f, entropy, pk, "p@ss", "default", "my-secret", Strict);
  }

  // ---------------------------------------------------------------- the map

  /**
   * `sealData` keeps the key set and its order, and each entry holds the seal of that key's own
   * value, drawn from its own stretch of the random stream.
   */
  lemma SealedDataShape(f: Primitives, entropy: Entropy, pk: PublicKey, data: Record,
                        namespace: string, name: string, scope: string)
    ensures SealedData(f, entropy, pk, data, namespace, name, scope).Success? ==>
              var out := SealedData(f, entropy, pk, data, namespace, name, scope).value;
              && KeyList(out) == KeyList(data)
              && Keys(out) == Keys(data)
              && forall i :: 0 <= i < |data| ==>
                   SealValue(f, entropy.Skip(ValueOffset(i)), pk, data[i].value, namespace, name, scope)
                   == Success(out[i].value)
  {
    MapValuesShape(data, Sealer(f, entropy, pk, namespace, name, scope));
    if SealedData(f, entropy, pk, data, namespace, name, scope).Success? {
      SameKeys(SealedData(f, entropy, pk, data, namespace, name, scope).value, data);
    }
  }

  /**
   * `sealData` fails, returning nothing partial, exactly when some entry cannot be sealed: when
   * the data is non-empty and the modulus too short.
   */
  lemma SealedDataSucceeds(f: Primitives, entropy: Entropy, pk: PublicKey, data: Record,
                           namespace: string, name: string, scope: string)
    requires Sound(f)
    ensures SealedData(f, entropy, pk, data, namespace, name, scope).Success?
            <==> |data| == 0 || SessionKeyLength + OaepOverhead <= ModulusLength(pk)
  {
    var g := Sealer(f, entropy, pk, namespace, name, scope);
    MapValuesSucceeds(data, g);
    forall i | 0 <= i < |data|
      ensures g(i, data[i].value).Success? <==> SessionKeyLength + OaepOverhead <= ModulusLength(pk)
    {
      SealValueSucceeds(f, entropy.Skip(ValueOffset(i)), pk, data[i].value, namespace, name, scope);
    }
  }

  /**
   * When `sealData` fails it fails with the OAEP length error of the first entry it could not
   * seal, having sealed every entry before it.
   */
  lemma SealedDataError(f: Primitives, entropy: Entropy, pk: PublicKey, data: Record,
                        namespace: string, name: string, scope: string)
    ensures SealedData(f, entropy, pk, data, namespace, name, scope).Failure? ==>
              SealedData(f, entropy, pk, data, namespace, name, scope).error == MessageTooLong
  {
    var g := Sealer(f, entropy, pk, namespace, name, scope);
    MapValuesFirstFailure(data, g);
  }

  /** Distinct entries draw their session keys and nonces from disjoint stretches of the stream. */
  lemma FreshKeyPerValue(entropy: Entropy, i: nat, j: nat)
    requires i != j
    ensures var a, b := entropy.Skip(ValueOffset(i)).pos, entropy.Skip(ValueOffset(j)).pos;
            a + EntropyPerValue <= b || b + EntropyPerValue <= a
  {
    if i < j {
      assert EntropyPerValue * i + EntropyPerValue <= EntropyPerValue * j;
    } else {
      assert EntropyPerValue * j + EntropyPerValue <= EntropyPerValue * i;
    }
  }

  /**
   * One seal reads the stream only over its own 76 bytes: two sources that agree there give the
   * same sealed value, whatever the rest of the stream holds.
   */
  lemma SealValueLocal(f: Primitives, a: Entropy, b: Entropy, pk: PublicKey, value: string,
                       namespace: string, name: string, scope: string)
    requires Agree(a, b, EntropyPerValue)
    ensures SealValue(f, a, pk, value, namespace, name, scope) == SealValue(f, b, pk, value, namespace, name, scope)
  {
    DrawsAgree(a, b);
    SealBlobDraws(f, a, b, pk, value, namespace, name, scope);
  }

  /** Sources agreeing on 76 bytes draw the same session key, nonce and seed. */
  lemma DrawsAgree(a: Entropy, b: Entropy)
    requires Agree(a, b, EntropyPerValue)
    ensures a.GetBytes(SessionKeyLength) == b.GetBytes(SessionKeyLength)
    ensures a.Skip(SessionKeyLength).GetBytes(NonceLength) == b.Skip(SessionKeyLength).GetBytes(NonceLength)
    ensures a.Skip(SessionKeyLength + NonceLength).GetBytes(Sha256Length)
            == b.Skip(SessionKeyLength + NonceLength).GetBytes(Sha256Length)
  {
    assert a.GetBytes(SessionKeyLength) == b.GetBytes(SessionKeyLength) by {
      GetBytesWindow(a, b, SessionKeyLength);
    }
    assert a.Skip(SessionKeyLength).GetBytes(NonceLength) == b.Skip(SessionKeyLength).GetBytes(NonceLength) by {
      AgreeSkip(a, b, SessionKeyLength, NonceLength);
      GetBytesWindow(a.Skip(SessionKeyLength), b.Skip(SessionKeyLength), NonceLength);
    }
    assert a.Skip(SessionKeyLength + NonceLength).GetBytes(Sha256Length)
           == b.Skip(SessionKeyLength + NonceLength).GetBytes(Sha256Length) by {
      AgreeSkip(a, b, SessionKeyLength + NonceLength, Sha256Length);
      GetBytesWindow(a.Skip(SessionKeyLength + NonceLength), b.Skip(SessionKeyLength + NonceLength), Sha256Length);
    }
  }

  /** A blob depends on its source only through the session key, nonce and seed drawn from it. */
  lemma SealBlobDraws(f: Primitives, a: Entropy, b: Entropy, pk: PublicKey, value: string,
                      namespace: string, name: string, scope: string)
    requires a.GetBytes(SessionKeyLength) == b.GetBytes(SessionKeyLength)
    requires a.Skip(SessionKeyLength).GetBytes(NonceLength) == b.Skip(SessionKeyLength).GetBytes(NonceLength)
    requires a.Skip(SessionKeyLength + NonceLength).GetBytes(Sha256Length)
             == b.Skip(SessionKeyLength + NonceLength).GetBytes(Sha256Length)
    ensures SealBlob(f, a, pk, value, namespace, name, scope) == SealBlob(f, b, pk, value, namespace, name, scope)
  {
  }

  /**
   * Entry `i` of a sealed map is fixed by the stream's bytes `76i .. 76i + 76` past the cursor
   * alone: any source agreeing with the stream there seals that entry's value to the same text.
   * With `FreshKeyPerValue`, distinct entries use disjoint stretches for their keys, nonces and seeds.
   */
  lemma EntryWindow(f: Primitives, entropy: Entropy, pk: PublicKey, data: Record,
                    namespace: string, name: string, scope: string, i: nat, other: Entropy)
    requires SealedData(f, entropy, pk, data, namespace, name, scope).Success?
    requires i < |data|
    requires Agree(entropy.Skip(ValueOffset(i)), other, EntropyPerValue)
    ensures var out := SealedData(f, entropy, pk, data, namespace, name, scope).value;
            |out| == |data| && SealValue(f, other, pk, data[i].value, namespace, name, scope) == Success(out[i].value)
  {
    SealedDataShape(f, entropy, pk, data, namespace, name, scope);
    SealValueLocal(f, entropy.Skip(ValueOffset(i)), other, pk, data[i].value, namespace, name, scope);
  }
}
