# drasyl super peer: peer registry and unite throttle

This project models the peer registry of the drasyl super peer (`drasyl-sp/src/sp/peers.rs`), the relay
and rendezvous node of the drasyl overlay network, and proves properties of the model in Dafny.

- A `Peer` holds a write-once proof-of-work verdict and write-once optional session keys, both `const`
  fields. It also holds the record of its most recent HELLO, a `var` that every HELLO replaces whole.
  From that record come the staleness test, the peer's endpoint and the contact-candidate buffer
  handed to other peers during a unite.
- A `PeersList` maps public keys to peers. `get_or_insert_peer` admits new peers under a capacity
  bound. It checks the proof of work and derives session keys only when messages are armed and the
  proof of work is valid.
- The unite throttle `send_unites` decides whether two peers should be told to try a direct
  connection. It keeps one timestamp per ordered pair, written under both orderings.

Files:
- `base.dfy`: machine integers and the Option/Result wrappers.
- `external.dfy`: the foreign collaborators. These are the crypto primitives and the endpoint
  encoder, passed in as function values.
- `peers.dfy`: the data model, the two classes and the specification functions of admission and
  throttling.
- `properties.dfy`: lemmas that relate several calls.

The crypto primitives come from the `drasyl` crate: `Pow::validate`, `convert_ed25519_pk_to_curve22519_pk`
and `compute_kx_session_keys`. `Endpoint::to_bytes` and `HELLO_ENDPOINT_LEN` come from `drasyl::message`.
None of that code is part of this model. They are the fields of `CryptoAdapter` and `EndpointCodec`,
chosen freely by the caller, so every result holds for any implementation of them. The encoder is
required to write exactly `HELLO_ENDPOINT_LEN` bytes, as the source's buffer slicing assumes.

The source has three arithmetic hazards. The model states each as a precondition, because the
source neither guards nor handles them (a debug build panics, a release build wraps):
- `is_stale` computes `hello_timeout * 1_000` in `u64`.
- `send_unites` computes `send_unites * 1_000` in `i32`.
- `send_unites` computes `time - last_time` in `u64` without a clamp, although `is_stale` clamps the
  same kind of subtraction.

The last two together are `UniteInRange`. Both are demanded only on the path that evaluates them: a
positive interval and a pair with a stored time.

## Model

| member | source | states |
|---|---|---|
| `Peers.NewSessionKeys` | drasyl-sp/src/sp/peers.rs:39-45 | the exchange's pair is taken as (rx, tx): `rx` is its first key and `tx` its second |
| `Peers.Peer.HasInvalidPow` | drasyl-sp/src/sp/peers.rs:64-66 | true exactly when the proof of work recorded at admission was not valid |
| `Peers.Peer.TxKey` | drasyl-sp/src/sp/peers.rs:120-122 | present exactly when the peer has session keys, and then it is their `tx` key |
| `Peers.Peer.RxKey` | drasyl-sp/src/sp/peers.rs:124-126 | present exactly when the peer has session keys, and then it is their `rx` key |
| `Peers.Peer.constructor` | drasyl-sp/src/sp/peers.rs:57-61 | a new peer carries the given proof-of-work verdict and session keys, and no HELLO record |
| `Peers.Peer.HelloTx` | drasyl-sp/src/sp/peers.rs:68-81 | the HELLO record becomes exactly the new time, source, transport and endpoints. Afterwards `Endpoint()` is `Some((prot, src))` and the last HELLO time is `time`. The verdict and the keys are `const`, so no HELLO can change them |
| `Peers.Peer.IsStale` | drasyl-sp/src/sp/peers.rs:83-91 | stale exactly when last HELLO time (0 if none) + timeout·1000 < now, computed without subtraction. A clock that went backwards (now ≤ last) is never stale. Requires timeout·1000 to fit in `u64` |
| `Peers.Peer.ContactCandidates` | drasyl-sp/src/sp/peers.rs:93-108 | with no HELLO, the buffer is `[0]`. For UDP, its length is the endpoint length plus `HELLO_ENDPOINT_LEN`, its prefix is the advertised endpoints and its suffix is the encoded source address. For TCP, it is exactly the advertised endpoints |
| `Peers.Peer.Endpoint` | drasyl-sp/src/sp/peers.rs:114-118 | present exactly when a HELLO has been recorded, and then it is that HELLO's transport and source address |
| `Peers.DeriveSessionKeys` | drasyl-sp/src/sp/peers.rs:207-216 | error precedence: a failed key conversion first, then a missing local public key, then a missing local secret key, then a failed exchange. A failed conversion or exchange is reported as `CryptoError` of that primitive's own error. It succeeds exactly when all four steps succeed, and then `tx` is the exchange's second key and `rx` its first. It never reports `CapacityExceeded` |
| `Peers.AdmitDecision` | drasyl-sp/src/sp/peers.rs:196-221 | a registered key is found, even when the table is full. A new key is refused with `CapacityExceeded(max_peers)` exactly when `max_peers` keys or more are registered, and every `CapacityExceeded` carries `max_peers`. A new key with room, armed, with a valid proof of work and a successful key derivation is created with those keys. A created peer's verdict is `Pow::validate(pk, pow, min_pow_difficulty)`, and it has keys exactly when messages are armed and the verdict is valid. Any other refusal is the key derivation's error, and it can only happen on the armed, valid path |
| `Peers.UniteThrottle` | drasyl-sp/src/sp/peers.rs:233-256 | a negative interval gives false and a zero interval gives true, both with the table unchanged. A positive interval gives true exactly when the pair has no stored time or now ≥ stored + interval·1000. When refused, the table is unchanged. When sent, both orderings hold `now`, the key set grows by at most those two pairs, and every other entry keeps its value |
| `Peers.PeersList.constructor` | drasyl-sp/src/sp/peers.rs:167-175 | a new registry is empty and has an empty, symmetric unite table. `max_peers` is kept only as the initial capacity |
| `Peers.PeersList.GetPeer` | drasyl-sp/src/sp/peers.rs:181-187 | returns a peer exactly for registered keys, and then that key's peer |
| `Peers.PeersList.GetOrInsertPeer` | drasyl-sp/src/sp/peers.rs:189-224 | follows `AdmitDecision` on the registered keys. Existing: returns that peer, with the table unchanged. Refused: returns the error, with the table unchanged. Created: a fresh peer with the decided verdict and keys and no HELLO is added under `pk`, and nothing else changes. `GetPeer(pk)` returns the result, and the registered keys move exactly as `AdmitKeys` says. A table within `max_peers` stays within it. The unite table is untouched |
| `Peers.PeersList.SendUnites` | drasyl-sp/src/sp/peers.rs:226-257 | the result and the new unite table are those of `UniteThrottle`. The table stays symmetric and the peers map is untouched |
| `PeersProperties.AdmissionsRespectCapacity` | drasyl-sp/src/sp/peers.rs:199-201 | after any sequence of admission attempts on a table within `max_peers`, the table is still within `max_peers`. It loses no key, and it holds only keys that were registered or requested |
| `PeersProperties.RegisteredKeyIsStable` | drasyl-sp/src/sp/peers.rs:196-197 | any number of attempts for a registered key leave the key set unchanged, whatever proof of work they carry |
| `PeersProperties.RepeatedAdmissionAddsOnce` | drasyl-sp/src/sp/peers.rs:196-222 | repeating an admission that succeeds the first time adds the key exactly once, so the size grows by exactly one |
| `PeersProperties.FullTableRefusesNewKeys` | drasyl-sp/src/sp/peers.rs:196-201 | with exactly `max_peers` keys registered, a registered key is still found and every new key gets `CapacityExceeded(max_peers)` |
| `PeersProperties.AdmittedPeerView` | drasyl-sp/src/sp/peers.rs:39-45 | for a peer built from a `Create` decision: `has_invalid_pow` is the negated verdict. `tx_key`/`rx_key` are present exactly when armed and valid, and are then the exchange's second and first key |
| `PeersProperties.NoKeyExchangeUnlessArmed` | drasyl-sp/src/sp/peers.rs:203-219 | when messages are not armed or the proof of work is invalid, the decision does not depend on key conversion or key exchange. The only possible refusal is then `CapacityExceeded` |
| `PeersProperties.ThrottleKeepsSymmetry` | drasyl-sp/src/sp/peers.rs:243-254 | every call keeps the unite table symmetric |
| `PeersProperties.ThrottleDirectionIndependent` | drasyl-sp/src/sp/peers.rs:243-251 | on a symmetric table, `(a, b)` and `(b, a)` get the same decision |
| `PeersProperties.ThrottleWindow` | drasyl-sp/src/sp/peers.rs:247-256 | after a unite of `a` and `b` at `t` with a positive interval (at most `i32::MAX / 1000`), a request in either direction at `t' ≥ t` is granted exactly when `t' ≥ t + interval·1000` |

## Left out

- Concurrency of the `papaya` map, its guards (`peers_guard`, the guard parameters) and the insert race inside
  `get_or_insert`. The model is sequential: the check, the build and the insert of one admission happen
  without interference, so the capacity bound holds exactly rather than as a soft bound.
- The atomic pointer swap of `ArcSwapOption`: the HELLO record is a plain mutable field.
- `hello_endpoints`, because it parses through `EndpointsList::from`, which the model has no code for.
- The `Display` impls for `PeersList` and `TransportProt`: text formatting over the wall clock.
- `Pow::validate`, the Ed25519 to X25519 conversion, the key exchange and the endpoint encoding. Each is
  an uninterpreted function value supplied by the caller, and its error type is an opaque code.
- `Peers.Peer.IsStale`: does not model what happens when `hello_timeout * 1_000` overflows `u64`: a panic in a debug
  build, a wrap in a release build. The model requires the product to fit.
- `Peers.UniteThrottle`: does not model an overflow of `send_unites * 1_000` in `i32`, nor an underflow of
  `time - last_time` in `u64` when the clock went backwards. A debug build panics and a release build wraps. The
  model requires both to stay in range whenever they are computed.
- `Peers.PeersList.SendUnites`: the same two overflow cases as `Peers.UniteThrottle`, for the same reason.
- `Peers.AdmitDecision`: the capacity test compares the peer count with the full `u64` `max_peers`, which is the
  source's `max_peers as usize` on a 64-bit `usize`. On a 32-bit target that cast truncates, so the source would
  refuse earlier than the model while still reporting the full limit; that target is not modelled.
- `PeersList::new` only sizes the map by `max_peers`; the capacity bound itself is read from the node
  options on each admission.
