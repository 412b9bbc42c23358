/**
 * src/api/seal.ts: `sealSecrets`, the request handler. Two guards, the defaults for namespace and
 * name, then parse, seal and render, with the rendered manifest built from the very map returned.
 */
module SealApi {
  import opened Wrappers
  import opened Errors
  import opened Records
  import opened Forge
  import Pem
  import Hybrid
  import Manifest

  /** The request body; a field the caller leaves out (`undefined`) is `None`. */
  datatype SealRequest = SealRequest(publicKey: Option<string>, data: Option<Record>,
                                     namespace: Option<string>, name: Option<string>)

  datatype SealResponse = SealResponse(sealedData: Record, resourceYaml: string)

  const DefaultNamespace := "default"
  const DefaultName := "my-secret"

  /** What JavaScript's template literal makes of a missing argument. */
  const Undefined := "undefined"

  /** Destructuring defaults replace only an absent field; an empty string stays empty. */
  function Namespace(req: SealRequest): string {
    req.namespace.GetOr(DefaultNamespace)
  }

  function Name(req: SealRequest): string {
    req.name.GetOr(DefaultName)
  }

  /** `!pemKey`: absent or the empty string. */
  predicate MissingKey(req: SealRequest) {
    req.publicKey.None? || req.publicKey.value == ""
  }

  /** `!data || Object.keys(data).length === 0`. */
  predicate MissingData(req: SealRequest) {
    req.data.None? || |req.data.value| == 0
  }

  /**
   * `sealSecrets` as its source line 19 is written: `sealData(publicKey, data)` with two
   * arguments, so the hybrid `sealData` sees `namespace` and `name` as `undefined` and the
   * default strict scope.
   */
  function SealSecretsAsWritten(f: Primitives, entropy: Entropy, req: SealRequest): Result<SealResponse, Error>
  {
    Compose(f, entropy, req, Undefined, Undefined)
  }

  /** `sealSecrets` with the resolved namespace and name handed on to `sealData`. */
  function SealSecrets(f: Primitives, entropy: Entropy, req: SealRequest): Result<SealResponse, Error>
  {
    Compose(f, entropy, req, Namespace(req), Name(req))
  }

  /** The guards and the chain of calls; `labelNamespace` and `labelName` are what reaches `sealData`. */
  function Compose(f: Primitives, entropy: Entropy, req: SealRequest,
                   labelNamespace: string, labelName: string): Result<SealResponse, Error>
  {
    if MissingKey(req) then Failure(PublicKeyRequired)
    else if MissingData(req) then Failure(DataRequired)
    else
      match Pem.ParsePublicKey(f, req.publicKey.value)
      case Failure(err) => Failure(err)
      case Success(pk) =>
        match Hybrid.SealedData(f, entropy, pk, req.data.value, labelNamespace, labelName, Hybrid.Strict)
        case Failure(err) => Failure(err)
        case Success(sealed) =>
          Success(SealResponse(sealed, Manifest.Document(Name(req), Namespace(req), sealed)))
  }

  /**
   * The key guard comes first and consults nothing else; the data guard comes next; both come
   * before any parsing, so neither depends on the primitives, and a parse failure surfaces only
   * when both guards pass. This holds whatever namespace and name reach `sealData`, so for the
   * handler as written and for the corrected one alike. The thrown messages are the source's.
   */
  lemma GuardOrder(f: Primitives, entropy: Entropy, req: SealRequest, labelNamespace: string, labelName: string)
    ensures MissingKey(req) ==> Compose(f, entropy, req, labelNamespace, labelName) == Failure(PublicKeyRequired)
    ensures !MissingKey(req) && MissingData(req) ==>
              Compose(f, entropy, req, labelNamespace, labelName) == Failure(DataRequired)
    ensures Compose(f, entropy, req, labelNamespace, labelName) == Failure(PublicKeyRequired) <==> MissingKey(req)
    ensures Compose(f, entropy, req, labelNamespace, labelName) == Failure(DataRequired) <==>
              !MissingKey(req) && MissingData(req)
    ensures Compose(f, entropy, req, labelNamespace, labelName) == Failure(ParseFailed) <==>
              !MissingKey(req) && !MissingData(req) && Pem.ParsePublicKey(f, req.publicKey.value).Failure?
    ensures Compose(f, entropy, req, labelNamespace, labelName).Failure? ==>
              var m := Compose(f, entropy, req, labelNamespace, labelName).error.Message();
              && (MissingKey(req) <==> m == "Public key is required")
              && (!MissingKey(req) && MissingData(req) <==> m == "Data is required")
              && (!MissingKey(req) && !MissingData(req) && Pem.ParsePublicKey(f, req.publicKey.value).Failure?
                  ==> m == "Failed to parse public key: ")
  {
    if !MissingKey(req) && !MissingData(req) {
      Pem.ParseOrder(f, req.publicKey.value);
      var p := Pem.ParsePublicKey(f, req.publicKey.value);
      if p.Success? {
        var s := Hybrid.SealedData(f, entropy, p.value, req.data.value, labelNamespace, labelName, Hybrid.Strict);
        if s.Failure? {
          Hybrid.SealedDataError(f, entropy, p.value, req.data.value, labelNamespace, labelName, Hybrid.Strict);
        }
      }
    }
  }

  /** An absent namespace or name takes its default; a present one, even empty, is kept. */
  lemma Defaults(req: SealRequest)
    ensures req.namespace.None? ==> Namespace(req) == "default"
    ensures req.name.None? ==> Name(req) == "my-secret"
    ensures req.namespace.Some? ==> Namespace(req) == req.namespace.value
    ensures req.name.Some? ==> Name(req) == req.name.value
  {
  }

  /**
   * A successful response, whatever namespace and name reach `sealData`: its map has exactly the
   * request's keys, in order, each holding the strict seal of that key's own value under the
   * label built from `labelNamespace` and `labelName`; its manifest is rendered from that same
   * map under the resolved namespace and name.
   */
  lemma ComposeSpec(f: Primitives, entropy: Entropy, req: SealRequest, labelNamespace: string, labelName: string)
    requires Compose(f, entropy, req, labelNamespace, labelName).Success?
    ensures !MissingKey(req) && !MissingData(req)
    ensures var resp := Compose(f, entropy, req, labelNamespace, labelName).value;
            var pk := Pem.ParsePublicKey(f, req.publicKey.value).value;
            && KeyList(resp.sealedData) == KeyList(req.data.value)
            && Keys(resp.sealedData) == Keys(req.data.value)
            && resp.resourceYaml == Manifest.Document(Name(req), Namespace(req), resp.sealedData)
            && forall i :: 0 <= i < |resp.sealedData| ==>
                 Hybrid.SealValue(f, entropy.Skip(Hybrid.ValueOffset(i)), pk, req.data.value[i].value,
                                  labelNamespace, labelName, Hybrid.Strict)
                 == Success(resp.sealedData[i].value)
  {
    var pk := Pem.ParsePublicKey(f, req.publicKey.value).value;
    Hybrid.SealedDataShape(f, entropy, pk, req.data.value, labelNamespace, labelName, Hybrid.Strict);
  }

  /**
   * The corrected handler: each value is sealed under the strict label of the resolved namespace
   * and name, the same identity the manifest names.
   */
  lemma ResponseSpec(f: Primitives, entropy: Entropy, req: SealRequest)
    requires SealSecrets(f, entropy, req).Success?
    ensures !MissingKey(req) && !MissingData(req)
    ensures var resp := SealSecrets(f, entropy, req).value;
            var pk := Pem.ParsePublicKey(f, req.publicKey.value).value;
            && KeyList(resp.sealedData) == KeyList(req.data.value)
            && Keys(resp.sealedData) == Keys(req.data.value)
            && resp.resourceYaml == Manifest.Document(Name(req), Namespace(req), resp.sealedData)
            && forall i :: 0 <= i < |resp.sealedData| ==>
                 Hybrid.SealValue(f, entropy.Skip(Hybrid.ValueOffset(i)), pk, req.data.value[i].value,
                                  Namespace(req), Name(req), Hybrid.Strict)
                 == Success(resp.sealedData[i].value)
  {
    ComposeSpec(f, entropy, req, Namespace(req), Name(req));
  }

  /**
   * The handler as written: the same keys and the same manifest rendering, but each value is
   * sealed under the label `undefined/undefined`.
   */
  lemma ResponseSpecAsWritten(f: Primitives, entropy: Entropy, req: SealRequest)
    requires SealSecretsAsWritten(f, entropy, req).Success?
    ensures !MissingKey(req) && !MissingData(req)
    ensures var resp := SealSecretsAsWritten(f, entropy, req).value;
            var pk := Pem.ParsePublicKey(f, req.publicKey.value).value;
            && KeyList(resp.sealedData) == KeyList(req.data.value)
            && Keys(resp.sealedData) == Keys(req.data.value)
            && resp.resourceYaml == Manifest.Document(Name(req), Namespace(req), resp.sealedData)
            && forall i :: 0 <= i < |resp.sealedData| ==>
                 Hybrid.SealValue(f, entropy.Skip(Hybrid.ValueOffset(i)), pk, req.data.value[i].value,
                                  Undefined, Undefined, Hybrid.Strict)
                 == Success(resp.sealedData[i].value)
  {
    ComposeSpec(f, entropy, req, Undefined, Undefined);
  }

  /**
   * With sound primitives a request succeeds exactly when it has a key that parses, non-empty
   * data, and a modulus long enough for OAEP to carry a 32-byte session key, whatever namespace
   * and name reach `sealData`.
   */
  lemma ComposeSucceeds(f: Primitives, entropy: Entropy, req: SealRequest, labelNamespace: string, labelName: string)
    requires Sound(f)
    ensures Compose(f, entropy, req, labelNamespace, labelName).Success? <==>
              && !MissingKey(req) && !MissingData(req)
              && Pem.ParsePublicKey(f, req.publicKey.value).Success?
              && Hybrid.SessionKeyLength + OaepOverhead <= ModulusLength(Pem.ParsePublicKey(f, req.publicKey.value).value)
  {
    if !MissingKey(req) && !MissingData(req) && Pem.ParsePublicKey(f, req.publicKey.value).Success? {
      var pk := Pem.ParsePublicKey(f, req.publicKey.value).value;
      Hybrid.SealedDataSucceeds(f, entropy, pk, req.data.value, labelNamespace, labelName, Hybrid.Strict);
    }
  }

  /** The corrected handler succeeds on exactly the requests `ComposeSucceeds` names. */
  lemma SealSecretsSucceeds(f: Primitives, entropy: Entropy, req: SealRequest)
    requires Sound(f)
    ensures SealSecrets(f, entropy, req).Success? <==>
              && !MissingKey(req) && !MissingData(req)
              && Pem.ParsePublicKey(f, req.publicKey.value).Success?
              && Hybrid.SessionKeyLength + OaepOverhead <= ModulusLength(Pem.ParsePublicKey(f, req.publicKey.value).value)
  {
    ComposeSucceeds(f, entropy, req, Namespace(req), Name(req));
  }

  /** The handler as written succeeds on the very same requests: its wrong label costs no failure. */
  lemma AsWrittenSucceeds(f: Primitives, entropy: Entropy, req: SealRequest)
    requires Sound(f)
    ensures SealSecretsAsWritten(f, entropy, req).Success? <==>
              && !MissingKey(req) && !MissingData(req)
              && Pem.ParsePublicKey(f, req.publicKey.value).Success?
              && Hybrid.SessionKeyLength + OaepOverhead <= ModulusLength(Pem.ParsePublicKey(f, req.publicKey.value).value)
  {
    ComposeSucceeds(f, entropy, req, Undefined, Undefined);
  }

  /**
   * As written, every value of every request is sealed under the label `undefined/undefined`:
   * the sealed map does not depend on the request's namespace or name at all, while the manifest
   * names them.
   */
  lemma AsWrittenIgnoresIdentity(f: Primitives, entropy: Entropy, req: SealRequest, ns: Option<string>, name: Option<string>)
    ensures var other := req.(namespace := ns, name := name);
            && SealSecretsAsWritten(f, entropy, req).Success? == SealSecretsAsWritten(f, entropy, other).Success?
            && (SealSecretsAsWritten(f, entropy, req).Success? ==>
                  SealSecretsAsWritten(f, entropy, req).value.sealedData
                  == SealSecretsAsWritten(f, entropy, other).value.sealedData)
    ensures Hybrid.Label(Undefined, Undefined, Hybrid.Strict) == "undefined/undefined"
  {
  }

  /**
   * The input that shows it: the default request (no namespace, no name). Its manifest names
   * `default/my-secret`, but the label its values are sealed under is `undefined/undefined`,
   * which is not the strict label of that identity.
   */
  lemma AsWrittenDefaultRequest(f: Primitives, entropy: Entropy, key: string, data: Record)
    requires key != "" && |data| > 0
    ensures var req := SealRequest(Some(key), Some(data), None, None);
            && Namespace(req) == "default" && Name(req) == "my-secret"
            && Hybrid.Label(Undefined, Undefined, Hybrid.Strict) != Hybrid.Label(Namespace(req), Name(req), Hybrid.Strict)
            && (SealSecretsAsWritten(f, entropy, req).Success? ==>
                  var pk := Pem.ParsePublicKey(f, key).value;
                  SealSecretsAsWritten(f, entropy, req).value.sealedData
                  == Hybrid.SealedData(f, entropy, pk, data, Undefined, Undefined, Hybrid.Strict).value)
  {
    Hybrid.StrictLabelInjective(Undefined, Undefined, DefaultNamespace, DefaultName);
  }

  /**
   * Corrected, the label binds the identity the manifest names: two successful requests whose
   * resolved (namespace, name) differ seal under different labels.
   */
  lemma CorrectedBindsIdentity(req1: SealRequest, req2: SealRequest)
    requires (Namespace(req1), Name(req1)) != (Namespace(req2), Name(req2))
    requires '/' !in Namespace(req1) && '/' !in Namespace(req2)
    ensures Hybrid.Label(Namespace(req1), Name(req1), Hybrid.Strict)
            != Hybrid.Label(Namespace(req2), Name(req2), Hybrid.Strict)
  {
    Hybrid.StrictLabelInjective(Namespace(req1), Name(req1), Namespace(req2), Name(req2));
  }
}
