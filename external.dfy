/** The foreign collaborators of the peers registry: the crypto primitives of `drasyl::crypto` and
    `drasyl::identity`, and the endpoint wire encoding of `drasyl::message`. Their code is not part of
    this model; each is a function value that the caller supplies, so every property proved below holds
    whatever those primitives compute. */
module External {
  import opened Base

  /** A peer identity: an Ed25519 public key of 32 bytes, compared by its raw bytes. */
  const PUB_KEY_LEN: nat := 32
  type PubKey = s: seq<byte> | |s| == PUB_KEY_LEN witness seq(PUB_KEY_LEN, _ => 0)

  /** The proof of work a peer presents with its identity, opaque here. */
  datatype Pow = Pow(nonce: int)

  /** X25519 key material used for the session key agreement. */
  datatype AgreementPubKey = AgreementPubKey(bytes: seq<byte>)
  datatype AgreementSecKey = AgreementSecKey(bytes: seq<byte>)

  /** One symmetric session key. */
  datatype SessionKey = SessionKey(bytes: seq<byte>)

  /** `crypto::Error`, whose variants do not matter to the registry. */
  datatype CryptoFailure = CryptoFailure(code: nat)

  /** A transport-level socket address (IP bytes and port). */
  datatype SocketAddr = SocketAddr(ip: seq<byte>, port: nat)

  /** The three crypto primitives the admission path calls:
      `Pow::validate(pk, pow, difficulty)`, `convert_ed25519_pk_to_curve22519_pk(pk)` and
      `compute_kx_session_keys(local_pk, local_sk, remote_pk)`, which yields an ordered key pair. */
  datatype CryptoAdapter = CryptoAdapter(
    validatePow: (PubKey, Pow, nat) -> bool,
    toCurve25519: PubKey -> Result<AgreementPubKey, CryptoFailure>,
    kxSessionKeys: (AgreementPubKey, AgreementSecKey, AgreementPubKey) -> Result<(SessionKey, SessionKey), CryptoFailure>)

  /** `Endpoint::from(&SocketAddr)` followed by `Endpoint::to_bytes`, and `HELLO_ENDPOINT_LEN`,
      the number of bytes one encoded endpoint occupies. */
  datatype EndpointCodec = EndpointCodec(helloEndpointLen: nat, toBytes: SocketAddr -> seq<byte>) {
    /** The encoder fills exactly `helloEndpointLen` bytes for every address. */
    ghost predicate Valid() {
      forall a :: |toBytes(a)| == helloEndpointLen
    }
  }
}
