/** The super peer's registry of peers (`drasyl-sp/src/sp/peers.rs`): per-peer state, proof-of-work
    gated admission with a capacity bound and lazy session key derivation, and the throttle that
    decides when two peers are told to attempt a direct connection ("unite"). */
module Peers {
  import opened Base
  import opened External

  /** `PeersError`. */
  datatype PeersError =
    | CapacityExceeded(limit: u64)
    | CryptoError(cause: CryptoFailure)
    | AgreementPkNotPresent
    | AgreementSkNotPresent

  /** The session keys of one peer: `tx` encrypts what is sent to it, `rx` decrypts what it sends. */
  datatype SessionKeys = SessionKeys(tx: SessionKey, rx: SessionKey)

  /** `SessionKeys::new`: the key exchange yields the pair as (rx, tx) from this side's view. */
  function NewSessionKeys(keys: (SessionKey, SessionKey)): (sk: SessionKeys)
    ensures sk.rx == keys.0 && sk.tx == keys.1
  {
    SessionKeys(tx := keys.1, rx := keys.0)
  }

  datatype TransportProt = TCP | UDP

  /** The evidence carried by the most recent HELLO of a peer. */
  datatype LastHello = LastHello(time: u64, src: SocketAddr, prot: TransportProt, endpoints: seq<byte>)

  /** The part of the node context (`SuperPeerInner`) that admission reads. */
  datatype SuperPeerOpts = SuperPeerOpts(maxPeers: u64, minPowDifficulty: nat, armMessages: bool)
  datatype SuperPeerInner = SuperPeerInner(
    opts: SuperPeerOpts,
    agreementPk: Option<AgreementPubKey>,
    agreementSk: Option<AgreementSecKey>)

  class Peer {
    /** Whether the proof of work presented at admission was valid; fixed at creation. */
    const validPow: bool
    /** Fixed at creation. */
    const sessionKeys: Option<SessionKeys>
    /** `last_hello_ptr`: replaced as a whole by every HELLO. */
    var lastHello: Option<LastHello>

    constructor (validPow: bool, sessionKeys: Option<SessionKeys>)
      ensures this.validPow == validPow && this.sessionKeys == sessionKeys
      ensures lastHello == None
    {
      this.validPow := validPow;
      this.sessionKeys := sessionKeys;
      lastHello := None;
    }

    function HasInvalidPow(): (invalid: bool)
      ensures invalid <==> !validPow
    {
      !validPow
    }

    function TxKey(): (k: Option<SessionKey>)
      ensures k.Some? <==> sessionKeys.Some?
      ensures k.Some? ==> k.value == sessionKeys.value.tx
    {
      match sessionKeys
      case None => None
      case Some(keys) => Some(keys.tx)
    }

    function RxKey(): (k: Option<SessionKey>)
      ensures k.Some? <==> sessionKeys.Some?
      ensures k.Some? ==> k.value == sessionKeys.value.rx
    {
      match sessionKeys
      case None => None
      case Some(keys) => Some(keys.rx)
    }

    /** The time of the last HELLO, 0 when none was recorded. */
    function LastHelloTime(): (t: u64)
      reads this
    {
      match lastHello
      case None => 0
      case Some(h) => h.time
    }

    /** `endpoint`: transport and source address of the last HELLO. */
    function Endpoint(): (e: Option<(TransportProt, SocketAddr)>)
      reads this
      ensures e.Some? <==> lastHello.Some?
      ensures e.Some? ==> e.value.0 == lastHello.value.prot && e.value.1 == lastHello.value.src
    {
      match lastHello
      case None => None
      case Some(h) => Some((h.prot, h.src))
    }

    /** `hello_tx`: the new record replaces the old one completely. */
    method HelloTx(time: u64, src: SocketAddr, prot: TransportProt, endpoints: seq<byte>)
      modifies this
      ensures lastHello == Some(LastHello(time, src, prot, endpoints))
      ensures Endpoint() == Some((prot, src))
      ensures LastHelloTime() == time
    {
      lastHello := Some(LastHello(time, src, prot, endpoints));
    }

    /** `is_stale`: a regressed clock is clamped so the age never underflows; `hello_timeout` is in
        seconds and the clock in milliseconds, and `hello_timeout * 1000` must not overflow `u64`. */
    function IsStale(time: u64, helloTimeout: u64): (stale: bool)
      reads this
      requires helloTimeout * 1000 < U64_LIMIT
      ensures stale <==> LastHelloTime() + helloTimeout * 1000 < time
      ensures time <= LastHelloTime() ==> !stale
    {
      var lastHelloTime := if time < LastHelloTime() then time else LastHelloTime();
      var age: u64 := time - lastHelloTime;
      age > helloTimeout * 1000
    }

    /** `contact_candidates`: the endpoints to hand to another peer during a unite. For UDP the
        observed source address is appended to the advertised endpoints; for TCP the advertised
        endpoints are returned as they are; without any HELLO the result is the single byte 0. */
    method ContactCandidates(codec: EndpointCodec) returns (buf: seq<byte>)
      requires codec.Valid()
      ensures lastHello.None? ==> buf == [0]
      ensures lastHello.Some? && lastHello.value.prot == UDP ==>
        |buf| == |lastHello.value.endpoints| + codec.helloEndpointLen &&
        buf[..|lastHello.value.endpoints|] == lastHello.value.endpoints &&
        buf[|lastHello.value.endpoints|..] == codec.toBytes(lastHello.value.src)
      ensures lastHello.Some? && lastHello.value.prot == TCP ==> buf == lastHello.value.endpoints
    {
      match lastHello
      case None =>
        buf := [0];
      case Some(hello) =>
        if hello.prot == UDP {
          var n := |hello.endpoints|;
          var a := new byte[n + codec.helloEndpointLen];
          var i := 0;
          while i < n
            invariant 0 <= i <= n
            invariant forall k :: 0 <= k < i ==> a[k] == hello.endpoints[k]
          {
            a[i] := hello.endpoints[i];
            i := i + 1;
          }
          var encoded := codec.toBytes(hello.src);
          var j := 0;
          while j < |encoded|
            invariant 0 <= j <= |encoded| == codec.helloEndpointLen
            invariant forall k :: 0 <= k < n ==> a[k] == hello.endpoints[k]
            invariant forall k :: 0 <= k < j ==> a[n + k] == encoded[k]
          {
            a[n + j] := encoded[j];
            j := j + 1;
          }
          buf := a[..];
          assert buf[..n] == hello.endpoints;
          assert buf[n..] == encoded;
        } else {
          buf := hello.endpoints;
        }
    }
  }

  /** The session keys of a peer about to be admitted. Failures are reported in the order the
      source meets them: the key conversion, a missing local public key, a missing local secret key,
      and the key exchange itself. */
  function DeriveSessionKeys(pk: PubKey, inner: SuperPeerInner, crypto: CryptoAdapter): (r: Result<SessionKeys, PeersError>)
    ensures crypto.toCurve25519(pk).Err? ==> r == Err(CryptoError(crypto.toCurve25519(pk).error))
    ensures r == Err(AgreementPkNotPresent) <==> crypto.toCurve25519(pk).Ok? && inner.agreementPk.None?
    ensures r == Err(AgreementSkNotPresent) <==>
      crypto.toCurve25519(pk).Ok? && inner.agreementPk.Some? && inner.agreementSk.None?
    ensures r.Err? ==> !r.error.CapacityExceeded?
    ensures r.Ok? <==>
      crypto.toCurve25519(pk).Ok? && inner.agreementPk.Some? && inner.agreementSk.Some? &&
      crypto.kxSessionKeys(inner.agreementPk.value, inner.agreementSk.value, crypto.toCurve25519(pk).value).Ok?
    ensures (crypto.toCurve25519(pk).Ok? && inner.agreementPk.Some? && inner.agreementSk.Some? &&
             crypto.kxSessionKeys(inner.agreementPk.value, inner.agreementSk.value, crypto.toCurve25519(pk).value).Err?) ==>
      r == Err(CryptoError(crypto.kxSessionKeys(inner.agreementPk.value, inner.agreementSk.value, crypto.toCurve25519(pk).value).error))
    ensures r.Ok? ==>
      var exchanged := crypto.kxSessionKeys(inner.agreementPk.value, inner.agreementSk.value, crypto.toCurve25519(pk).value).value;
      r.value.tx == exchanged.1 && r.value.rx == exchanged.0
  {
    match crypto.toCurve25519(pk)
    case Err(e) => Err(CryptoError(e))
    case Ok(agreementPk) =>
      if inner.agreementPk.None? then Err(AgreementPkNotPresent)
      else if inner.agreementSk.None? then Err(AgreementSkNotPresent)
      else
        match crypto.kxSessionKeys(inner.agreementPk.value, inner.agreementSk.value, agreementPk)
        case Err(e) => Err(CryptoError(e))
        case Ok(keys) => Ok(NewSessionKeys(keys))
  }

  /** What `get_or_insert_peer` does for a key, given the keys already registered. */
  datatype Decision =
    | Existing
    | Refuse(error: PeersError)
    | Create(validPow: bool, sessionKeys: Option<SessionKeys>)

  /** The admission decision of `get_or_insert_peer`: a registered key is found before the capacity
      is looked at; a new key is refused when the table is full; otherwise the proof of work is
      validated, and session keys are derived only when messages are armed and it was valid.
      This is the specification `PeersList.GetOrInsertPeer` is proved against. */
  function AdmitDecision(keys: set<PubKey>, pk: PubKey, pow: Pow, inner: SuperPeerInner, crypto: CryptoAdapter): (d: Decision)
    ensures d.Existing? <==> pk in keys
    ensures d == Refuse(CapacityExceeded(inner.opts.maxPeers)) <==> pk !in keys && |keys| >= inner.opts.maxPeers
    ensures d.Create? ==>
      |keys| < inner.opts.maxPeers &&
      d.validPow == crypto.validatePow(pk, pow, inner.opts.minPowDifficulty) &&
      (d.sessionKeys.Some? <==> inner.opts.armMessages && d.validPow)
    ensures d.Create? && d.sessionKeys.Some? ==> DeriveSessionKeys(pk, inner, crypto) == Ok(d.sessionKeys.value)
    ensures d.Refuse? && !d.error.CapacityExceeded? ==>
      inner.opts.armMessages && crypto.validatePow(pk, pow, inner.opts.minPowDifficulty) &&
      DeriveSessionKeys(pk, inner, crypto) == Err(d.error)
    ensures d.Refuse? && d.error.CapacityExceeded? ==>
      d.error.limit == inner.opts.maxPeers && pk !in keys && |keys| >= inner.opts.maxPeers
    ensures (pk !in keys && |keys| < inner.opts.maxPeers &&
             inner.opts.armMessages && crypto.validatePow(pk, pow, inner.opts.minPowDifficulty) &&
             DeriveSessionKeys(pk, inner, crypto).Ok?) ==>
      d == Create(true, Some(DeriveSessionKeys(pk, inner, crypto).value))
    ensures (pk !in keys && |keys| < inner.opts.maxPeers &&
             !(inner.opts.armMessages && crypto.validatePow(pk, pow, inner.opts.minPowDifficulty))) ==>
      d == Create(crypto.validatePow(pk, pow, inner.opts.minPowDifficulty), None)
  {
    if pk in keys then Existing
    else if |keys| >= inner.opts.maxPeers then Refuse(CapacityExceeded(inner.opts.maxPeers))
    else
      var validPow := crypto.validatePow(pk, pow, inner.opts.minPowDifficulty);
      if inner.opts.armMessages && validPow then
        match DeriveSessionKeys(pk, inner, crypto)
        case Err(e) => Refuse(e)
        case Ok(keys) => Create(validPow, Some(keys))
      else
        Create(validPow, None)
  }

  /** The registered keys after one admission attempt. */
  function AdmitKeys(keys: set<PubKey>, pk: PubKey, pow: Pow, inner: SuperPeerInner, crypto: CryptoAdapter): (after: set<PubKey>) {
    if AdmitDecision(keys, pk, pow, inner, crypto).Create? then keys + {pk} else keys
  }

  /** Both orderings of every pair in the unite table carry the same time. */
  ghost predicate Symmetric(attempts: map<(PubKey, PubKey), u64>) {
    forall a, b :: (a, b) in attempts ==> (b, a) in attempts && attempts[(b, a)] == attempts[(a, b)]
  }

  /** The arithmetic of `send_unites` stays in range where it is evaluated: only for a positive
      interval and a pair with a stored time are `send_unites * 1_000` (in `i32`) and
      `time - last_time` (in `u64`) computed. */
  predicate UniteInRange(attempts: map<(PubKey, PubKey), u64>, sender: PubKey, recipient: PubKey, time: u64, sendUnites: i32) {
    sendUnites > 0 && (sender, recipient) in attempts ==>
      sendUnites <= I32_MAX / 1000 && attempts[(sender, recipient)] <= time
  }

  datatype UniteStep = UniteStep(send: bool, attempts: map<(PubKey, PubKey), u64>)

  /** The decision and the new table of `send_unites`: a negative interval disables unites, zero
      sends every time, and a positive interval (in seconds) sends unless the pair was united less
      than that long ago, recording the time under both orderings of the pair when it sends.
      This is the specification `PeersList.SendUnites` is proved against. */
  function UniteThrottle(attempts: map<(PubKey, PubKey), u64>, sender: PubKey, recipient: PubKey, time: u64, sendUnites: i32): (s: UniteStep)
    requires UniteInRange(attempts, sender, recipient, time, sendUnites)
    ensures sendUnites < 0 ==> s == UniteStep(false, attempts)
    ensures sendUnites == 0 ==> s == UniteStep(true, attempts)
    ensures sendUnites > 0 ==>
      (s.send <==> !((sender, recipient) in attempts && time < attempts[(sender, recipient)] + sendUnites * 1000))
    ensures sendUnites > 0 && !s.send ==> s.attempts == attempts
    ensures s.send && sendUnites > 0 ==>
      s.attempts.Keys == attempts.Keys + {(sender, recipient), (recipient, sender)} &&
      s.attempts[(sender, recipient)] == time && s.attempts[(recipient, sender)] == time &&
      forall k :: k in attempts && k != (sender, recipient) && k != (recipient, sender) ==> s.attempts[k] == attempts[k]
  {
    if sendUnites < 0 then UniteStep(false, attempts)
    else if sendUnites == 0 then UniteStep(true, attempts)
    else if (sender, recipient) in attempts && time - attempts[(sender, recipient)] < sendUnites * 1000 then
      UniteStep(false, attempts)
    else
      UniteStep(true, attempts[(sender, recipient) := time][(recipient, sender) := time])
  }

  class PeersList {
    /** `max_peers` given to `new`, used only to size the underlying map. */
    const initialCapacity: u64
    var peers: map<PubKey, Peer>
    var uniteAttempts: map<(PubKey, PubKey), u64>

    ghost predicate Valid()
      reads this
    {
      Symmetric(uniteAttempts)
    }

    constructor (maxPeers: u64)
      ensures Valid()
      ensures initialCapacity == maxPeers && peers == map[] && uniteAttempts == map[]
    {
      initialCapacity := maxPeers;
      peers := map[];
      uniteAttempts := map[];
    }

    /** `get_peer`. */
    function GetPeer(pk: PubKey): (p: Option<Peer>)
      reads this
      ensures p.Some? <==> pk in peers
      ensures p.Some? ==> p.value == peers[pk]
    {
      if pk in peers then Some(peers[pk]) else None
    }

    /** `get_or_insert_peer`: returns the registered peer, or admits a new one per `AdmitDecision`;
        on every failure the table is left as it was. */
    method GetOrInsertPeer(pk: PubKey, pow: Pow, inner: SuperPeerInner, crypto: CryptoAdapter)
      returns (r: Result<Peer, PeersError>)
      requires Valid()
      modifies this
      ensures Valid()
      ensures uniteAttempts == old(uniteAttempts)
      ensures match AdmitDecision(old(peers).Keys, pk, pow, inner, crypto)
        case Existing => r == Ok(old(peers)[pk]) && peers == old(peers)
        case Refuse(e) => r == Err(e) && peers == old(peers)
        case Create(v, k) =>
          r.Ok? && fresh(r.value) && peers == old(peers)[pk := r.value] &&
          r.value.validPow == v && r.value.sessionKeys == k && r.value.lastHello == None
      ensures r.Ok? ==> GetPeer(pk) == Some(r.value)
      ensures peers.Keys == AdmitKeys(old(peers).Keys, pk, pow, inner, crypto)
      ensures |old(peers)| <= inner.opts.maxPeers ==> |peers| <= inner.opts.maxPeers
    {
      if pk in peers {
        return Ok(peers[pk]);
      }
      if |peers| >= inner.opts.maxPeers {
        return Err(CapacityExceeded(inner.opts.maxPeers));
      }
      var validPow := crypto.validatePow(pk, pow, inner.opts.minPowDifficulty);
      var sessionKeys: Option<SessionKeys> := None;
      if inner.opts.armMessages && validPow {
        var derived := DeriveSessionKeys(pk, inner, crypto);
        if derived.Err? {
          return Err(derived.error);
        }
        sessionKeys := Some(derived.value);
      }
      var peer := new Peer(validPow, sessionKeys);
      peers := peers[pk := peer];
      r := Ok(peer);
    }

    /** `send_unites`: see `UniteThrottle`; the symmetry of the table is kept. */
    method SendUnites(sender: PubKey, recipient: PubKey, time: u64, sendUnites: i32) returns (send: bool)
      requires Valid()
      requires UniteInRange(uniteAttempts, sender, recipient, time, sendUnites)
      modifies this
      ensures Valid()
      ensures peers == old(peers)
      ensures UniteStep(send, uniteAttempts) == UniteThrottle(old(uniteAttempts), sender, recipient, time, sendUnites)
    {
      if sendUnites < 0 {
        return false;
      }
      if sendUnites == 0 {
        return true;
      }
      var key := (sender, recipient);
      var swappedKey := (recipient, sender);
      if key in uniteAttempts {
        var lastTime := uniteAttempts[key];
        if time - lastTime < sendUnites * 1000 {
          return false;
        }
      }
      uniteAttempts := uniteAttempts[key := time];
      uniteAttempts := uniteAttempts[swappedKey := time];
      send := true;
    }
  }
}
