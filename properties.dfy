/** Properties of the peers registry that relate several operations or several calls. */
module PeersProperties {
  import opened Base
  import opened External
  import opened Peers

  // ---------------------------------------------------------------- admission

  /** The key set after a sequence of admission attempts, made one after another, each moving the
      registered keys as `PeersList.GetOrInsertPeer` does. */
  function KeysAfter(keys: set<PubKey>, requests: seq<(PubKey, Pow)>, inner: SuperPeerInner, crypto: CryptoAdapter): (after: set<PubKey>)
    decreases |requests|
  {
    if requests == [] then keys
    else KeysAfter(AdmitKeys(keys, requests[0].0, requests[0].1, inner, crypto), requests[1..], inner, crypto)
  }

  /** However many admissions are attempted, the table never grows beyond `max_peers`, never loses
      a key, and only ever holds keys that were registered or requested. */
  lemma {:induction false} AdmissionsRespectCapacity(keys: set<PubKey>, requests: seq<(PubKey, Pow)>, inner: SuperPeerInner, crypto: CryptoAdapter)
    requires |keys| <= inner.opts.maxPeers
    ensures |KeysAfter(keys, requests, inner, crypto)| <= inner.opts.maxPeers
    ensures keys <= KeysAfter(keys, requests, inner, crypto)
    ensures forall k :: k in KeysAfter(keys, requests, inner, crypto) ==>
      k in keys || exists i :: 0 <= i < |requests| && requests[i].0 == k
    decreases |requests|
  {
    if requests != [] {
      var next := AdmitKeys(keys, requests[0].0, requests[0].1, inner, crypto);
      AdmissionsRespectCapacity(next, requests[1..], inner, crypto);
      forall k | k in KeysAfter(keys, requests, inner, crypto)
        ensures k in keys || exists i :: 0 <= i < |requests| && requests[i].0 == k
      {
        if k !in keys {
          if k in next {
            assert requests[0].0 == k;
          } else {
            var i :| 0 <= i < |requests[1..]| && requests[1..][i].0 == k;
            assert requests[i + 1].0 == k;
          }
        }
      }
    }
  }

  /** Attempting admission for a registered key never changes the table, whatever proof of work
      comes with it and however full the table is. */
  lemma {:induction false} RegisteredKeyIsStable(keys: set<PubKey>, pk: PubKey, requests: seq<(PubKey, Pow)>, inner: SuperPeerInner, crypto: CryptoAdapter)
    requires pk in keys
    requires forall i :: 0 <= i < |requests| ==> requests[i].0 == pk
    ensures KeysAfter(keys, requests, inner, crypto) == keys
    decreases |requests|
  {
    if requests != [] {
      RegisteredKeyIsStable(keys, pk, requests[1..], inner, crypto);
    }
  }

  /** Admission is idempotent: repeating the request for a key any number of times adds that key
      once, when the first attempt admits it. */
  lemma RepeatedAdmissionAddsOnce(keys: set<PubKey>, pk: PubKey, requests: seq<(PubKey, Pow)>, inner: SuperPeerInner, crypto: CryptoAdapter)
    requires |requests| > 0
    requires forall i :: 0 <= i < |requests| ==> requests[i].0 == pk
    requires AdmitDecision(keys, pk, requests[0].1, inner, crypto).Create?
    ensures KeysAfter(keys, requests, inner, crypto) == keys + {pk}
    ensures |KeysAfter(keys, requests, inner, crypto)| == |keys| + 1
  {
    RegisteredKeyIsStable(keys + {pk}, pk, requests[1..], inner, crypto);
  }

  /** Once the table holds `max_peers` keys, every new key is refused with `CapacityExceeded`, while
      every registered key is still found. */
  lemma FullTableRefusesNewKeys(keys: set<PubKey>, pk: PubKey, pow: Pow, inner: SuperPeerInner, crypto: CryptoAdapter)
    requires |keys| == inner.opts.maxPeers
    ensures pk in keys ==> AdmitDecision(keys, pk, pow, inner, crypto) == Existing
    ensures pk !in keys ==> AdmitDecision(keys, pk, pow, inner, crypto) == Refuse(CapacityExceeded(inner.opts.maxPeers))
  {
  }

  /** The accessors of a newly admitted peer: its proof-of-work verdict and, when messages are
      armed and the proof of work is valid, the keys of the exchange with `tx` and `rx` swapped. */
  lemma AdmittedPeerView(p: Peer, keys: set<PubKey>, pk: PubKey, pow: Pow, inner: SuperPeerInner, crypto: CryptoAdapter)
    requires AdmitDecision(keys, pk, pow, inner, crypto) == Create(p.validPow, p.sessionKeys)
    ensures p.HasInvalidPow() <==> !crypto.validatePow(pk, pow, inner.opts.minPowDifficulty)
    ensures p.TxKey().Some? <==> inner.opts.armMessages && crypto.validatePow(pk, pow, inner.opts.minPowDifficulty)
    ensures p.RxKey().Some? <==> p.TxKey().Some?
    ensures p.TxKey().Some? ==>
      var exchanged := crypto.kxSessionKeys(inner.agreementPk.value, inner.agreementSk.value, crypto.toCurve25519(pk).value);
      exchanged.Ok? && p.TxKey().value == exchanged.value.1 && p.RxKey().value == exchanged.value.0
  {
  }

  /** No key conversion or key exchange takes part in admission unless messages are armed and the
      proof of work is valid: two crypto adapters that agree on the proof of work agree on the
      decision. */
  lemma NoKeyExchangeUnlessArmed(keys: set<PubKey>, pk: PubKey, pow: Pow, inner: SuperPeerInner, crypto1: CryptoAdapter, crypto2: CryptoAdapter)
    requires crypto1.validatePow(pk, pow, inner.opts.minPowDifficulty) == crypto2.validatePow(pk, pow, inner.opts.minPowDifficulty)
    requires !(inner.opts.armMessages && crypto1.validatePow(pk, pow, inner.opts.minPowDifficulty))
    ensures AdmitDecision(keys, pk, pow, inner, crypto1) == AdmitDecision(keys, pk, pow, inner, crypto2)
    ensures AdmitDecision(keys, pk, pow, inner, crypto1).Refuse? ==>
      AdmitDecision(keys, pk, pow, inner, crypto1).error == CapacityExceeded(inner.opts.maxPeers)
  {
  }

  // ---------------------------------------------------------------- unite throttle

  /** `send_unites` keeps both orderings of every pair in step. */
  lemma ThrottleKeepsSymmetry(attempts: map<(PubKey, PubKey), u64>, sender: PubKey, recipient: PubKey, time: u64, sendUnites: i32)
    requires Symmetric(attempts)
    requires UniteInRange(attempts, sender, recipient, time, sendUnites)
    ensures Symmetric(UniteThrottle(attempts, sender, recipient, time, sendUnites).attempts)
  {
  }

  /** On a symmetric table the decision does not depend on which peer is the sender. */
  lemma ThrottleDirectionIndependent(attempts: map<(PubKey, PubKey), u64>, a: PubKey, b: PubKey, time: u64, sendUnites: i32)
    requires Symmetric(attempts)
    requires UniteInRange(attempts, a, b, time, sendUnites)
    ensures UniteInRange(attempts, b, a, time, sendUnites)
    ensures UniteThrottle(attempts, a, b, time, sendUnites).send == UniteThrottle(attempts, b, a, time, sendUnites).send
  {
  }

  /** After a unite of `a` and `b` at `time`, a request in either direction is refused until
      `send_unites` seconds have passed, and granted from then on. */
  lemma ThrottleWindow(attempts: map<(PubKey, PubKey), u64>, a: PubKey, b: PubKey, time: u64, sendUnites: i32,
                       first: PubKey, second: PubKey, later: u64)
    requires 0 < sendUnites <= I32_MAX / 1000
    requires UniteInRange(attempts, a, b, time, sendUnites)
    requires UniteThrottle(attempts, a, b, time, sendUnites).send
    requires (first, second) == (a, b) || (first, second) == (b, a)
    requires time <= later
    ensures UniteInRange(UniteThrottle(attempts, a, b, time, sendUnites).attempts, first, second, later, sendUnites)
    ensures UniteThrottle(UniteThrottle(attempts, a, b, time, sendUnites).attempts, first, second, later, sendUnites).send
      <==> later >= time + sendUnites * 1000
  {
  }
}
