/**
 * webseal2/src/api/crypto.ts: the second variant. Each value is itself the RSA-OAEP-SHA256
 * message: no session key, no nonce, no label, one RSA block per value, in base 64.
 * `parsePublicKey` and `generateSealedSecretYAML` there are the same text as in src/api/crypto.ts
 * and are the `Pem` and `Manifest` modules.
 */
module Direct {
  import opened Wrappers
  import opened Errors
  import opened Bytes
  import opened Records
  import opened Forge
  import Base64

  /** Random bytes one value consumes: only the seed forge's OAEP encoder draws. */
  const EntropyPerValue: nat := Sha256Length

  function ValueOffset(i: nat): nat {
    EntropyPerValue * i
  }

  /** `sealValue(publicKey, value)`: the value, as forge's binary string, encrypted directly. */
  function SealValue(f: Primitives, entropy: Entropy, pk: PublicKey, value: string): Result<string, Error>
  {
    match f.oaepEncrypt(pk, RawBytes(value), entropy.GetBytes(Sha256Length))
    case None => Failure(MessageTooLong)
    case Some(encrypted) => Success(Base64.Encode(encrypted))
  }

  function Sealer(f: Primitives, entropy: Entropy, pk: PublicKey): (nat, string) -> Result<string, Error>
  {
    (i: nat, value: string) => SealValue(f, entropy.Skip(ValueOffset(i)), pk, value)
  }

  /** What `sealData(publicKey, data)` returns. */
  function SealedData(f: Primitives, entropy: Entropy, pk: PublicKey, data: Record): Result<Record, Error>
  {
    MapValues(data, Sealer(f, entropy, pk))
  }

  /** `sealData`: the loop over `Object.entries(data)`. */
  method SealData(f: Primitives, entropy: Entropy, pk: PublicKey, data: Record) returns (r: Result<Record, Error>)
    ensures r == SealedData(f, entropy, pk, data)
  {
    r := MapValuesLoop(data, Sealer(f, entropy, pk));
  }

  /**
   * A value seals exactly when it fits one OAEP block (at most k - 66 characters, 190 under a
   * 2048-bit key); the text then decodes to exactly one modulus-long RSA ciphertext, so nothing
   * but the public key's holder's RSA decryption is needed to read it, and no label binds it.
   */
  lemma SealValueSpec(f: Primitives, entropy: Entropy, pk: PublicKey, value: string)
    requires Sound(f)
    ensures SealValue(f, entropy, pk, value).Success? <==> |value| + OaepOverhead <= ModulusLength(pk)
    ensures SealValue(f, entropy, pk, value).Failure? ==> SealValue(f, entropy, pk, value).error == MessageTooLong
    ensures SealValue(f, entropy, pk, value).Success? ==>
              var encrypted := f.oaepEncrypt(pk, RawBytes(value), entropy.GetBytes(Sha256Length)).value;
              && SealValue(f, entropy, pk, value).value == Base64.Encode(encrypted)
              && Base64.Decode(SealValue(f, entropy, pk, value).value) == Some(encrypted)
              && |encrypted| == ModulusLength(pk)
              && |SealValue(f, entropy, pk, value).value| == Base64.EncodedLength(|encrypted|)
  {
    var m := RawBytes(value);
    var seed := entropy.GetBytes(Sha256Length);
    if f.oaepEncrypt(pk, m, seed).Some? {
      Base64.DecodeEncode(f.oaepEncrypt(pk, m, seed).value);
    }
  }

  /** Under a 2048-bit key the longest value that seals has 190 characters. */
  lemma LongestValue(f: Primitives, entropy: Entropy, pk: PublicKey, value: string)
    requires Sound(f) && ModulusLength(pk) == 256
    ensures SealValue(f, entropy, pk, value).Success? <==> |value| <= 190
  {
    SealValueSpec(f, entropy, pk, value);
  }

  /**
   * `sealData` keeps the key set and order; each output entry is the seal of the matching input
   * value alone (with its own OAEP seed) and of nothing else in the map.
   */
  lemma SealedDataShape(f: Primitives, entropy: Entropy, pk: PublicKey, data: Record)
    ensures SealedData(f, entropy, pk, data).Success? ==>
              var out := SealedData(f, entropy, pk, data).value;
              && KeyList(out) == KeyList(data)
              && Keys(out) == Keys(data)
              && forall i :: 0 <= i < |data| ==>
                   SealValue(f, entropy.Skip(ValueOffset(i)), pk, data[i].value) == Success(out[i].value)
  {
    MapValuesShape(data, Sealer(f, entropy, pk));
    if SealedData(f, entropy, pk, data).Success? {
      SameKeys(SealedData(f, entropy, pk, data).value, data);
    }
  }

  /** `sealData` fails, returning nothing partial, exactly when some value is too long for one block. */
  lemma SealedDataSucceeds(f: Primitives, entropy: Entropy, pk: PublicKey, data: Record)
    requires Sound(f)
    ensures SealedData(f, entropy, pk, data).Success?
            <==> forall i :: 0 <= i < |data| ==> |data[i].value| + OaepOverhead <= ModulusLength(pk)
  {
    var g := Sealer(f, entropy, pk);
    MapValuesSucceeds(data, g);
    forall i | 0 <= i < |data|
      ensures g(i, data[i].value).Success? <==> |data[i].value| + OaepOverhead <= ModulusLength(pk)
    {
      SealValueSpec(f, entropy.Skip(ValueOffset(i)), pk, data[i].value);
    }
  }
}
