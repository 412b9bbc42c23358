/** The errors the sealing path can throw. */
module Errors {

  datatype Error =
    | PublicKeyRequired   // src/api/seal.ts: no PEM text, or an empty one
    | DataRequired        // src/api/seal.ts: no data object, or one without keys
    | ParseFailed         // parsePublicKey: neither a certificate nor a bare key
    | MessageTooLong      // forge's RSA-OAEP encoder: message exceeds k - 2*hLen - 2 bytes
  {
    /** The message text of the thrown `Error` (the parse error's suffix, forge's own text, is dropped). */
    function Message(): string {
      match this
      case PublicKeyRequired => "Public key is required"
      case DataRequired => "Data is required"
      case ParseFailed => "Failed to parse public key: "
      case MessageTooLong => "RSAES-OAEP input message length is too long."
    }
  }
}
