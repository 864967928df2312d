/** The library calls the key manager and the token validator make but whose
    code is not part of this model. Each is a parameter: a partial function
    (None where the Java call throws) or, for the RSA check, a predicate. */
module Foreign {
  import opened Wrappers
  import opened Json

  newtype byte = x: int | 0 <= x < 256

  /** An RSA public key as KeyFactory builds it, kept as its X.509 encoding. */
  datatype PublicKey = PublicKey(encoded: seq<byte>)

  datatype Codecs = Codecs(
    /** Base64Util.decode(data, URL_SAFE | NO_PADDING | NO_WRAP). */
    base64UrlDecode: string -> Option<seq<byte>>,
    /** java.util.Base64.getDecoder().decode(String). */
    base64Decode: string -> Option<seq<byte>>,
    /** `mapper.readValue(new String(bytes), Map)`, the default charset included. */
    parseObject: seq<byte> -> Option<Claims>,
    /** KeyFactory.getInstance("RSA").generatePublic(new X509EncodedKeySpec(bytes)). */
    parseX509: seq<byte> -> Option<PublicKey>,
    /** CryptoUtil.verifyRSASign(payload, signature, key, "SHA256withRSA"). */
    verifyRsaSha256: (string, seq<byte>, PublicKey) -> bool)
}
