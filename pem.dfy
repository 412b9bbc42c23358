/** `parsePublicKey`: a PEM certificate first, a bare PEM public key as the fallback. */
module Pem {
  import opened Wrappers
  import opened Errors
  import opened Forge

  function ParsePublicKey(f: Primitives, pem: string): Result<PublicKey, Error>
  {
    match f.certificateFromPem(pem)
    case Some(pk) => Success(pk)
    case None =>
      match f.publicKeyFromPem(pem)
      case Some(pk) => Success(pk)
      case None => Failure(ParseFailed)
  }

  /**
   * The certificate's key wins whenever the certificate parses; the bare key is used only when it
   * does not; the call fails, with the parse error, exactly when both parses fail.
   */
  lemma ParseOrder(f: Primitives, pem: string)
    ensures f.certificateFromPem(pem).Some? ==>
              ParsePublicKey(f, pem) == Success(f.certificateFromPem(pem).value)
    ensures f.certificateFromPem(pem).None? && f.publicKeyFromPem(pem).Some? ==>
              ParsePublicKey(f, pem) == Success(f.publicKeyFromPem(pem).value)
    ensures ParsePublicKey(f, pem).Failure? <==>
              f.certificateFromPem(pem).None? && f.publicKeyFromPem(pem).None?
    ensures ParsePublicKey(f, pem).Failure? ==> ParsePublicKey(f, pem).error == ParseFailed
  {
  }
}
