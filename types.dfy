/** The key and prime records the hooks pass around. Every field is a
    string, as typed into the interface or produced by key generation. */
module Types {
  import opened JsString

  datatype PublicKey = PublicKey(e: Str, n: Str)

  datatype PrivateKey = PrivateKey(d: Str, n: Str)

  datatype RsaKeys = RsaKeys(publicKey: PublicKey, privateKey: PrivateKey)

  datatype PrimeNumbers = PrimeNumbers(p: Str, q: Str)

  /** The keys both hooks start with: every field empty. */
  const NoKeys: RsaKeys := RsaKeys(PublicKey([], []), PrivateKey([], []))
}
