/** Server identities and the peer records made from them (server_id.rs, peer.rs). */
module Identity {
  import opened Results
  import opened Bytes
  import opened Ids
  import opened Pow
  import XorMetric

  type Signature = s: bytes | |s| == 64 witness seq(64, _ => 0)

  /** Ed25519 as functions: deriving the public key, decoding one, signing and verifying. */
  datatype Scheme = Scheme(
    publicKey: Id -> Id,
    decodes: Id -> bool,
    sign: (Id, bytes) -> Signature,
    verifies: (Id, Signature, bytes) -> bool)

  /** Derived keys decode, and a signature verifies under the key derived from the signing one. */
  ghost predicate Sound(e: Scheme) {
    && (forall sk :: e.decodes(e.publicKey(sk)))
    && (forall sk, m :: e.verifies(e.publicKey(sk), e.sign(sk, m), m))
  }

  /** The hashes, the signature scheme and the least pow of a server key (32, or 2 in test builds). */
  datatype World = World(hs: Hashes, scheme: Scheme, serverKeyPowMin: byte)

  datatype Keys = Keys(signatureKey: Id, verificationKey: Id, verificationKeyBytes: Id, pqCommitment: Id)

  datatype ServerId = ServerId(keys: Keys, sponsorId: Id, timestamp: i64, hash: Id, salt: Salt, pow: byte, id: Id)

  datatype PeerPow = PeerPow(sponsorId: Id, timestamp: i64, contentHash: Id, salt: Salt, pow: byte)

  datatype Peer = Peer(
    id: Id, verificationKeyBytes: Id, pqCommitment: Id,
    powInitial: PeerPow, powCurrentDay: PeerPow, powCurrentMonth: PeerPow,
    version: bytes, address: bytes, timestamp: i64, signature: Signature)

  // ---------------------------------------------------------------------------------------------
  // server_id.rs

  /** `server_pow_hash_to_id`: the reversed hash. */
  function HashToId(h: Id): Id {
    XorMetric.Reversed(h)
  }

  function PowData(sponsorId: Id, vkb: Id, pq: Id, timestamp: i64, contentHash: Id): bytes {
    sponsorId + vkb + pq + I64ToBe(timestamp) + contentHash
  }

  /** The data of a proof of work determines its five fields: 32, 32, 32, 8 and 32 bytes. */
  lemma PowDataLayout(sponsorId: Id, vkb: Id, pq: Id, timestamp: i64, contentHash: Id)
    ensures var b := PowData(sponsorId, vkb, pq, timestamp, contentHash);
            && |b| == 136 && b[0..32] == sponsorId && b[32..64] == vkb && b[64..96] == pq
            && I64FromBe(b[96..104]) == timestamp && b[104..136] == contentHash
  {
    var b := PowData(sponsorId, vkb, pq, timestamp, contentHash);
    I64CodecIsBijective(timestamp, I64ToBe(timestamp));
    assert b[96..104] == I64ToBe(timestamp);
  }

  function PowMeasure(w: World, sponsorId: Id, vkb: Id, pq: Id, timestamp: i64, contentHash: Id, salt: Salt): Work {
    Measure(w.hs, PowData(sponsorId, vkb, pq, timestamp, contentHash), salt)
  }

  function MeasureServer(w: World, s: ServerId): Work {
    PowMeasure(w, s.sponsorId, s.keys.verificationKeyBytes, s.keys.pqCommitment, s.timestamp, s.hash, s.salt)
  }

  function KeysOf(w: World, signatureKey: Id, pq: Id): Keys {
    Keys(signatureKey, w.scheme.publicKey(signatureKey), w.scheme.publicKey(signatureKey), pq)
  }

  /** `ServerId::new`, given the random draws, the clock and what the generator found. */
  function New(w: World, signatureKey: Id, pq: Id, sponsorId: Id, contentHash: Id, timestamp: i64, found: Found): ServerId {
    ServerId(KeysOf(w, signatureKey, pq), sponsorId, timestamp, contentHash, found.salt, found.work.pow,
             HashToId(found.work.hash))
  }

  predicate Verify(w: World, s: ServerId) {
    var m := MeasureServer(w, s);
    m.pow == s.pow && m.pow >= w.serverKeyPowMin && HashToId(m.hash) == s.id
  }

  const ENCODED_SIZE := 209

  function Encoded(s: ServerId): (b: bytes)
    ensures |b| == ENCODED_SIZE
  {
    s.keys.signatureKey + s.keys.verificationKey + s.keys.pqCommitment + s.sponsorId + I64ToBe(s.timestamp)
    + s.hash + s.salt + [s.pow] + s.id
  }

  method Encode(s: ServerId) returns (r: Result<bytes>)
    ensures r == Ok(Encoded(s))
  {
    var b: bytes := [];
    b := b + s.keys.signatureKey;
    assert b == s.keys.signatureKey;
    b := b + s.keys.verificationKey;
    b := b + s.keys.pqCommitment;
    b := b + s.sponsorId;
    b := b + I64ToBe(s.timestamp);
    b := b + s.hash;
    b := b + s.salt;
    b := b + [s.pow];
    b := b + s.id;
    r := if |b| != ENCODED_SIZE then Err else Ok(b);
  }

  function Decoded(w: World, b: bytes): Result<ServerId> {
    if |b| != ENCODED_SIZE || !w.scheme.decodes(b[32..64]) then Err
    else Ok(ServerId(Keys(b[0..32], b[32..64], b[32..64], b[64..96]), b[96..128], I64FromBe(b[128..136]),
                     b[136..168], b[168..176], b[176], b[177..209]))
  }

  method Decode(w: World, b: bytes) returns (r: Result<ServerId>)
    ensures r == Decoded(w, b)
  {
    if |b| != ENCODED_SIZE {
      return Err;
    }
    var pos := 0;
    var signatureKey := b[pos..pos + 32];
    pos := pos + 32;
    var verificationKey := b[pos..pos + 32];
    pos := pos + 32;
    var pq := b[pos..pos + 32];
    pos := pos + 32;
    var sponsorId := b[pos..pos + 32];
    pos := pos + 32;
    var timestamp := I64FromBe(b[pos..pos + 8]);
    pos := pos + 8;
    var hash := b[pos..pos + 32];
    pos := pos + 32;
    var salt := b[pos..pos + 8];
    pos := pos + 8;
    var pow := b[pos];
    pos := pos + 1;
    var id := b[pos..pos + 32];
    if !w.scheme.decodes(verificationKey) {
      return Err;
    }
    var keys := Keys(signatureKey, verificationKey, verificationKey, pq);
    r := Ok(ServerId(keys, sponsorId, timestamp, hash, salt, pow, id));
  }

  // ---------------------------------------------------------------------------------------------
  // peer.rs

  function OwnPow(w: World, p: PeerPow, vkb: Id, pq: Id): Work {
    PowMeasure(w, p.sponsorId, vkb, pq, p.timestamp, p.contentHash, p.salt)
  }

  /** The bytes whose hash is signed. */
  function SignedBytes(w: World, p: Peer): bytes {
    var vkb, pq := p.verificationKeyBytes, p.pqCommitment;
    p.id + vkb + pq + OwnPow(w, p.powInitial, vkb, pq).hash + OwnPow(w, p.powCurrentDay, vkb, pq).hash
    + OwnPow(w, p.powCurrentMonth, vkb, pq).hash + p.address + I64ToBe(p.timestamp)
  }

  function SignatureHash(w: World, p: Peer): Id {
    w.hs.blake3(SignedBytes(w, p))
  }

  /** `sign`: first the timestamp, then the signature over it. */
  function Sign(w: World, p: Peer, now: i64, signatureKey: Id): Peer {
    var stamped := p.(timestamp := now);
    stamped.(signature := w.scheme.sign(signatureKey, SignatureHash(w, stamped)))
  }

  predicate VerifySignature(w: World, p: Peer) {
    w.scheme.decodes(p.verificationKeyBytes)
    && w.scheme.verifies(p.verificationKeyBytes, p.signature, SignatureHash(w, p))
  }

  predicate VerifyServerId(w: World, p: Peer) {
    var m := OwnPow(w, p.powInitial, p.verificationKeyBytes, p.pqCommitment);
    m.pow >= w.serverKeyPowMin && HashToId(m.hash) == p.id
  }

  predicate VerifyPeerPow(w: World, q: PeerPow, vkb: Id, pq: Id) {
    OwnPow(w, q, vkb, pq).pow == q.pow
  }

  predicate VerifyPows(w: World, p: Peer) {
    && VerifyPeerPow(w, p.powInitial, p.verificationKeyBytes, p.pqCommitment)
    && VerifyPeerPow(w, p.powCurrentDay, p.verificationKeyBytes, p.pqCommitment)
    && VerifyPeerPow(w, p.powCurrentMonth, p.verificationKeyBytes, p.pqCommitment)
  }

  predicate VerifyPeer(w: World, p: Peer) {
    VerifySignature(w, p) && VerifyServerId(w, p) && VerifyPows(w, p)
  }

  function NoSignature(): Signature {
    seq(64, _ => 0)
  }

  /** `ServerId::to_peer`. */
  function ToPeer(w: World, s: ServerId, now: i64, version: bytes): Peer {
    var token := PeerPow(s.sponsorId, s.timestamp, s.hash, s.salt, s.pow);
    var blank := Peer(s.id, s.keys.verificationKeyBytes, s.keys.pqCommitment, token, token, token, version, [], 0, NoSignature());
    Sign(w, blank, now, s.keys.signatureKey)
  }

  // ---------------------------------------------------------------------------------------------
  // Construct, then verify

  predicate OwnKeys(w: World, k: Keys) {
    k.verificationKey == k.verificationKeyBytes == w.scheme.publicKey(k.signatureKey)
  }

  /** A new identity verifies exactly when the generator met the required pow. */
  lemma NewVerifies(w: World, signatureKey: Id, pq: Id, sponsorId: Id, contentHash: Id, timestamp: i64, found: Found)
    requires Genuine(w.hs, DataHash(w.hs, PowData(sponsorId, w.scheme.publicKey(signatureKey), pq, timestamp, contentHash)), found)
    ensures var s := New(w, signatureKey, pq, sponsorId, contentHash, timestamp, found);
            OwnKeys(w, s.keys) && (Verify(w, s) <==> found.work.pow >= w.serverKeyPowMin)
  {
    hide MeasureFromDataHash;
  }

  /** Signing sets timestamp and signature, and nothing else; the result verifies under the key derived from the signing one. */
  lemma SignedPeerVerifies(w: World, p: Peer, now: i64, signatureKey: Id)
    requires Sound(w.scheme) && p.verificationKeyBytes == w.scheme.publicKey(signatureKey)
    ensures var q := Sign(w, p, now, signatureKey);
            VerifySignature(w, q) && q == p.(timestamp := now, signature := q.signature)
  {
    hide OwnPow;
    var (q, stamped) := (Sign(w, p, now, signatureKey), p.(timestamp := now));
    assert SignedBytes(w, q) == SignedBytes(w, stamped);
  }

  /** A new peer claims its server's id and keys, the server's proof of work three times, no address and the current time. */
  lemma PeerOfServer(w: World, s: ServerId, now: i64, version: bytes)
    ensures var (p, token) := (ToPeer(w, s, now, version), PeerPow(s.sponsorId, s.timestamp, s.hash, s.salt, s.pow));
            p == Peer(s.id, s.keys.verificationKeyBytes, s.keys.pqCommitment, token, token, token, version, [], now, p.signature)
  {
  }

  /** A peer made from an identity with its own keys passes all checks exactly when the identity verifies. */
  lemma PeerVerifiesWithServer(w: World, s: ServerId, now: i64, version: bytes)
    requires Sound(w.scheme) && OwnKeys(w, s.keys)
    ensures VerifyPeer(w, ToPeer(w, s, now, version)) <==> Verify(w, s)
  {
    var (p, token) := (ToPeer(w, s, now, version), PeerPow(s.sponsorId, s.timestamp, s.hash, s.salt, s.pow));
    PeerOfServer(w, s, now, version);
    hide Measure, SignedBytes, Sound, VerifySignature, Sign;
    var blank := Peer(s.id, s.keys.verificationKeyBytes, s.keys.pqCommitment, token, token, token, version, [], 0, NoSignature());
    SignedPeerVerifies(w, blank, now, s.keys.signatureKey);
  }

  /** Where each field is stored. */
  lemma EncodedLayout(s: ServerId)
    ensures var b := Encoded(s);
            && |b| == 209 && b[0..32] == s.keys.signatureKey && b[32..64] == s.keys.verificationKey
            && b[64..96] == s.keys.pqCommitment && b[96..128] == s.sponsorId && I64FromBe(b[128..136]) == s.timestamp
            && b[136..168] == s.hash && b[168..176] == s.salt && b[176] == s.pow && b[177..209] == s.id
  {
    var b := Encoded(s);
    I64CodecIsBijective(s.timestamp, I64ToBe(s.timestamp));
    assert b[128..136] == I64ToBe(s.timestamp);
  }

  /** Encoding loses nothing but the second copy of the public key. */
  lemma EncodeThenDecode(w: World, s: ServerId)
    ensures Decoded(w, Encoded(s)) == Ok(s)
       <==> w.scheme.decodes(s.keys.verificationKey) && s.keys.verificationKeyBytes == s.keys.verificationKey
  {
    hide Encoded;
    EncodedLayout(s);
  }

  /** Encoding what was decoded gives back every accepted byte string. */
  lemma DecodeThenEncode(w: World, b: bytes)
    ensures Decoded(w, b).Ok? <==> |b| == ENCODED_SIZE && w.scheme.decodes(b[32..64])
    ensures Decoded(w, b).Ok? ==> Encoded(Decoded(w, b).value) == b
  {
    if Decoded(w, b).Ok? {
      I64CodecIsBijective(0, b[128..136]);
    }
  }

  /** From the generator to the network and through the disk: everything verifies. */
  lemma FreshServerIsAccepted(w: World, signatureKey: Id, pq: Id, sponsorId: Id, contentHash: Id, timestamp: i64,
                              found: Found, now: i64, version: bytes)
    requires Sound(w.scheme) && found.work.pow >= w.serverKeyPowMin
    requires Genuine(w.hs, DataHash(w.hs, PowData(sponsorId, w.scheme.publicKey(signatureKey), pq, timestamp, contentHash)), found)
    ensures var s := New(w, signatureKey, pq, sponsorId, contentHash, timestamp, found);
            && Verify(w, s)
            && VerifyPeer(w, ToPeer(w, s, now, version))
            && Decoded(w, Encoded(s)) == Ok(s)
  {
    hide Verify, VerifyPeer, ToPeer, Decoded, Encoded, Genuine;
    var s := New(w, signatureKey, pq, sponsorId, contentHash, timestamp, found);
    NewVerifies(w, signatureKey, pq, sponsorId, contentHash, timestamp, found);
    PeerVerifiesWithServer(w, s, now, version);
    EncodeThenDecode(w, s);
  }

  lemma IdEndsInZeros(m: Work)
    requires m.pow == Difficulty(m.hash)
    ensures forall j :: 32 - m.pow as int / 8 <= j < 32 ==> HashToId(m.hash)[j] == 0
  {
    WorkMeansZeroBytes(m.hash);
    forall j | 32 - m.pow as int / 8 <= j < 32 ensures HashToId(m.hash)[j] == 0 {
      assert HashToId(m.hash)[j] == m.hash[31 - j];
    }
  }

  /** The id of a verified identity ends in pow / 8 zero bytes. */
  lemma VerifiedIdEndsInZeros(w: World, s: ServerId)
    requires Verify(w, s)
    ensures s.pow >= w.serverKeyPowMin && forall j :: 32 - s.pow as int / 8 <= j < 32 ==> s.id[j] == 0
  {
    hide Rounds;
    IdEndsInZeros(MeasureServer(w, s));
  }

  /** So does the id of a verified peer, whose initial pow meets the required one. */
  lemma VerifiedPeerIdEndsInZeros(w: World, p: Peer)
    requires VerifyPeer(w, p)
    ensures p.powInitial.pow >= w.serverKeyPowMin
    ensures forall j :: 32 - p.powInitial.pow as int / 8 <= j < 32 ==> p.id[j] == 0
  {
    hide Rounds;
    IdEndsInZeros(OwnPow(w, p.powInitial, p.verificationKeyBytes, p.pqCommitment));
  }

  // ---------------------------------------------------------------------------------------------
  // What the signature covers

  /** The signed bytes determine the signed fields: only the address varies in length. */
  lemma SignedBytesDetermineFields(w: World, p: Peer, q: Peer)
    requires SignedBytes(w, p) == SignedBytes(w, q)
    ensures p.id == q.id && p.verificationKeyBytes == q.verificationKeyBytes && p.pqCommitment == q.pqCommitment
    ensures p.address == q.address && p.timestamp == q.timestamp
    ensures var vkb, pq := p.verificationKeyBytes, p.pqCommitment;
            && OwnPow(w, p.powInitial, vkb, pq).hash == OwnPow(w, q.powInitial, vkb, pq).hash
            && OwnPow(w, p.powCurrentDay, vkb, pq).hash == OwnPow(w, q.powCurrentDay, vkb, pq).hash
            && OwnPow(w, p.powCurrentMonth, vkb, pq).hash == OwnPow(w, q.powCurrentMonth, vkb, pq).hash
  {
    hide OwnPow;
    SignedLayout(w, p);
    SignedLayout(w, q);
    I64CodecIsBijective(p.timestamp, I64ToBe(p.timestamp));
    I64CodecIsBijective(q.timestamp, I64ToBe(q.timestamp));
  }

  lemma SignedLayout(w: World, p: Peer)
    ensures var b, vkb, pq := SignedBytes(w, p), p.verificationKeyBytes, p.pqCommitment;
            && |b| == 200 + |p.address|
            && b[0..32] == p.id && b[32..64] == vkb && b[64..96] == pq
            && b[96..128] == OwnPow(w, p.powInitial, vkb, pq).hash
            && b[128..160] == OwnPow(w, p.powCurrentDay, vkb, pq).hash
            && b[160..192] == OwnPow(w, p.powCurrentMonth, vkb, pq).hash
            && b[192..|b| - 8] == p.address && b[|b| - 8..] == I64ToBe(p.timestamp)
  {
    hide OwnPow;
  }

  /** The version is not covered: a record verifies whatever version it carries. */
  lemma VersionIsNotSigned(w: World, p: Peer, version: bytes)
    ensures VerifyPeer(w, p.(version := version)) <==> VerifyPeer(w, p)
  {
    hide OwnPow;
  }
  // ---------------------------------------------------------------------------------------------
  // What is refused

  /** The key of p accepts no signature but p's own, and that one for p's hash only. */
  ghost predicate SignsNothingElse(w: World, p: Peer) {
    forall s, m :: w.scheme.verifies(p.verificationKeyBytes, s, m) ==> s == p.signature && m == SignatureHash(w, p)
  }

  /** No other bytes have the hash of p's signed bytes. */
  ghost predicate NothingCollides(w: World, p: Peer) {
    forall b :: w.hs.blake3(b) == SignatureHash(w, p) ==> b == SignedBytes(w, p)
  }

  /** The same final hash and the same claim. */
  predicate SameWork(w: World, p: Peer, q: Peer, a: PeerPow, b: PeerPow) {
    && a.pow == b.pow
    && OwnPow(w, a, p.verificationKeyBytes, p.pqCommitment).hash == OwnPow(w, b, q.verificationKeyBytes, q.pqCommitment).hash
  }

  /**
   * Beside one signed peer of a key nothing else of that key is accepted: any record under the same key that verifies
   * has its signature, id, post-quantum commitment, address and timestamp, and tokens with the same final hashes.
   */
  lemma ForgeriesAreRefused(w: World, p: Peer, q: Peer)
    requires SignsNothingElse(w, p) && NothingCollides(w, p)
    requires q.verificationKeyBytes == p.verificationKeyBytes && VerifyPeer(w, q)
    ensures q.signature == p.signature && q.id == p.id && q.pqCommitment == p.pqCommitment
    ensures q.address == p.address && q.timestamp == p.timestamp
    ensures var (vkb, pq) := (p.verificationKeyBytes, p.pqCommitment);
            && OwnPow(w, q.powInitial, vkb, pq).hash == OwnPow(w, p.powInitial, vkb, pq).hash
            && OwnPow(w, q.powCurrentDay, vkb, pq).hash == OwnPow(w, p.powCurrentDay, vkb, pq).hash
            && OwnPow(w, q.powCurrentMonth, vkb, pq).hash == OwnPow(w, p.powCurrentMonth, vkb, pq).hash
  {
    hide OwnPow, SignedBytes;
    assert w.scheme.verifies(p.verificationKeyBytes, q.signature, SignatureHash(w, q));
    assert SignedBytes(w, q) == SignedBytes(w, p);
    SignedBytesDetermineFields(w, p, q);
  }

  lemma ForgedSignatureIsRefused(w: World, p: Peer, q: Peer)
    requires SignsNothingElse(w, p) && q.verificationKeyBytes == p.verificationKeyBytes && q.signature != p.signature
    ensures !VerifyPeer(w, q)
  {
    hide OwnPow, SignedBytes, VerifyServerId, VerifyPows;
  }

  /** A claim that is not what the token measures is refused, in whichever of the three places it stands. */
  lemma FalseClaimIsRefused(w: World, p: Peer, token: PeerPow)
    requires PowMeasure(w, token.sponsorId, p.verificationKeyBytes, p.pqCommitment, token.timestamp, token.contentHash,
                        token.salt).pow != token.pow
    ensures !VerifyPeer(w, p.(powInitial := token))
    ensures !VerifyPeer(w, p.(powCurrentDay := token)) && !VerifyPeer(w, p.(powCurrentMonth := token))
  {
    hide PowMeasure, SignedBytes;
  }

  /**
   * What can be changed in a verified peer, given that nothing else is signed: exactly its version, and tokens for
   * others of the same claimed pow with the same final hash.
   */
  lemma AlterationsAreRefusedExactly(w: World, p: Peer, q: Peer)
    requires VerifyPeer(w, p) && SignsNothingElse(w, p) && NothingCollides(w, p)
    requires q.verificationKeyBytes == p.verificationKeyBytes
    ensures VerifyPeer(w, q) <==>
              && q.signature == p.signature && q.id == p.id && q.pqCommitment == p.pqCommitment
              && q.address == p.address && q.timestamp == p.timestamp
              && SameWork(w, p, q, p.powInitial, q.powInitial) && SameWork(w, p, q, p.powCurrentDay, q.powCurrentDay)
              && SameWork(w, p, q, p.powCurrentMonth, q.powCurrentMonth)
  {
    if VerifyPeer(w, q) {
      ForgeriesAreRefused(w, p, q);
    }
    forall t | t in [p.powInitial, q.powInitial, p.powCurrentDay, q.powCurrentDay, p.powCurrentMonth, q.powCurrentMonth]
      ensures var m := OwnPow(w, t, p.verificationKeyBytes, p.pqCommitment); m.pow == Difficulty(m.hash)
    {
    }
    hide OwnPow, Difficulty;
  }
  function Filled(b: byte): Id {
    seq(32, _ => b)
  }

  /** The two assumptions can be met together with a verified peer. */
  lemma AssumptionsCanBeMet() returns (w: World, p: Peer)
    ensures VerifyPeer(w, p) && SignsNothingElse(w, p) && NothingCollides(w, p)
  {
    var end := Filled(7);
    var chained: (nat, Id) -> Id := (_, _) => end;
    var token := PeerPow(Filled(0), 0, Filled(0), seq(8, _ => 0), Difficulty(end));
    p := Peer(HashToId(end), Filled(1), Filled(2), token, token, token, [], [], 0, NoSignature());
    var signed := p.id + Filled(1) + Filled(2) + end + end + end + [] + I64ToBe(0);
    var blake3: bytes -> Id := b => if b == signed then Filled(3) else Filled(4);
    var scheme := Scheme(_ => Filled(1), _ => true, (_, _) => NoSignature(),
                         (_, s, m) => s == NoSignature() && m == Filled(3));
    w := World(Hashes(blake3, chained), scheme, 0);
    assert Filled(3)[0] != Filled(4)[0];
    EndOfChain(w.hs, Rounds(w.hs, blake3(DataHash(w.hs, PowData(Filled(0), Filled(1), Filled(2), 0, Filled(0))) + token.salt), 4), end);
    assert OwnPow(w, token, Filled(1), Filled(2)).hash == end;
    hide OwnPow, Rounds;
    assert SignedBytes(w, p) == signed;
  }

  lemma EndOfChain(hs: Hashes, h: Id, end: Id)
    requires forall i, x :: hs.chained(i, x) == end
    ensures Round(hs, h) == end
  {
  }
}
